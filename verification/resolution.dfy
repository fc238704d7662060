/**
 * Resolution of the primary resources against the `included` side table:
 * each store's country, its books (one `filter` per referenced id) and each
 * book's author, as `fetchData` does once the response has arrived.
 */
module Resolution {
  import opened Wrappers
  import opened Documents
  import opened Records

  /** Why a fetch fails. Every case but TransportFailure is a TypeError the
      resolution code throws on a document of the wrong shape. */
  datatype FetchError =
    | TransportFailure             // the GET was rejected (network error, non-2xx status)
    | MissingPrimaryData           // `allData.data` is undefined
    | MissingIncluded              // `allData.included` is undefined
    | BrokenCountryLink(store: string)  // `relationships.countries.data.id` hits undefined or null
    | BooksDataNotArray(store: string)  // `relationships.books.data` has no `forEach`

  /** What `storeData.relationships.countries.data.id` evaluates to. */
  datatype CountryRef = Throws | Id(id: string) | Undefined

  function CountryRefOf(storeData: Resource): (c: CountryRef)
    ensures c.Throws? <==>
      storeData.relationships.None? || "countries" !in storeData.relationships.value ||
      storeData.relationships.value["countries"].NoData?
  {
    match storeData.relationships
    case None => Throws
    case Some(rels) =>
      if "countries" !in rels then Throws
      else match rels["countries"]
        case NoData => Throws
        case ToOne(id) => Id(id)
        case ToMany(_) => Undefined
  }

  /** Some entry of the side table has type `typ`. */
  predicate HasType(s: seq<Resource>, typ: string) {
    exists i :: 0 <= i < |s| && s[i].typ == typ
  }

  function CountryOf(r: Resource): Country {
    Country(r.id, Attribute(r.attributes, "code"))
  }

  function AuthorFrom(r: Resource): Author {
    Author(r.id, Attribute(r.attributes, "fullName"))
  }

  /** A hydrated book before its author is resolved. */
  function BookOf(r: Resource): Book {
    Book(r.id, r.attributes, None)
  }

  /** The country step. The dereference of the store's countries link sits
      inside the `find` callback, after the type test, so it only runs (and
      can only throw) once the scan meets an entry of type "countries". */
  function ResolveCountry(included: seq<Resource>, storeData: Resource): Result<Option<Country>, FetchError>
  {
    if !HasType(included, "countries") then Success(None)
    else match CountryRefOf(storeData)
      case Throws => Failure(BrokenCountryLink(storeData.id))
      case Undefined => Success(None)
      case Id(cid) =>
        match FindFirst(included, "countries", cid)
        case None => Success(None)
        case Some(c) => Success(Some(CountryOf(c)))
  }

  /** The country step throws exactly when the scan reaches a "countries"
      entry and the store's link has no `data`; it finds a country exactly
      when the link names an id that some "countries" entry carries, and then
      it is the first such entry. */
  lemma ResolveCountryCases(included: seq<Resource>, storeData: Resource)
    ensures var r := ResolveCountry(included, storeData);
      && (r.Failure? <==> HasType(included, "countries") && CountryRefOf(storeData).Throws?)
      && (r.Failure? ==> r.error == BrokenCountryLink(storeData.id))
      && (r.Success? && r.value.Some? <==>
            CountryRefOf(storeData).Id? &&
            exists i :: 0 <= i < |included| && Matches(included[i], "countries", CountryRefOf(storeData).id))
      && (r.Success? && r.value.Some? ==>
            exists i :: 0 <= i < |included| && Matches(included[i], "countries", CountryRefOf(storeData).id) &&
              r.value.value == CountryOf(included[i]) &&
              forall j :: 0 <= j < i ==> !Matches(included[j], "countries", CountryRefOf(storeData).id))
  {
  }

  /** Book shells for the matches of one id, in side-table order. */
  function Shells(rs: seq<Resource>): (bs: seq<Book>)
    ensures |bs| == |rs|
  {
    seq(|rs|, i requires 0 <= i < |rs| => BookOf(rs[i]))
  }

  /** The books of a store: for each referenced id in order, every "books"
      entry with that id. */
  function Hydrate(included: seq<Resource>, ids: seq<string>): seq<Book> {
    if ids == [] then []
    else Hydrate(included, ids[..|ids| - 1]) + Shells(FilterAll(included, "books", ids[|ids| - 1]))
  }

  /** The author step: the first "authors" entry whose id is the BOOK's id. */
  function AuthorOf(included: seq<Resource>, bookId: string): (r: Option<Author>)
    ensures r.Some? <==> exists i :: 0 <= i < |included| && Matches(included[i], "authors", bookId)
    ensures r.Some? ==>
      exists i :: 0 <= i < |included| && Matches(included[i], "authors", bookId) &&
        r.value == AuthorFrom(included[i]) &&
        forall j :: 0 <= j < i ==> !Matches(included[j], "authors", bookId)
  {
    match FindFirst(included, "authors", bookId)
    case None => None
    case Some(a) => Some(AuthorFrom(a))
  }

  /** `book.author` is written only when an author was found. */
  function WithAuthor(included: seq<Resource>, b: Book): Book {
    match AuthorOf(included, b.id)
    case None => b
    case Some(a) => b.(author := Some(a))
  }

  function AttachAuthors(included: seq<Resource>, books: seq<Book>): (r: seq<Book>)
    ensures |r| == |books|
  {
    seq(|books|, i requires 0 <= i < |books| => WithAuthor(included, books[i]))
  }

  /** Author resolution keeps each book's id and attributes. A book whose own
      id is carried by some "authors" entry gets the author built from the
      first such entry; any other book keeps the author it had. */
  lemma AttachAuthorsByBookId(included: seq<Resource>, books: seq<Book>)
    ensures var r := AttachAuthors(included, books);
      forall i :: 0 <= i < |r| ==>
        && r[i].id == books[i].id
        && r[i].attributes == books[i].attributes
        && ((exists j :: 0 <= j < |included| && Matches(included[j], "authors", books[i].id)) ==>
              exists j :: 0 <= j < |included| && Matches(included[j], "authors", books[i].id) &&
                r[i].author == Some(AuthorFrom(included[j])) &&
                forall m :: 0 <= m < j ==> !Matches(included[m], "authors", books[i].id))
        && ((forall j :: 0 <= j < |included| ==> !Matches(included[j], "authors", books[i].id)) ==>
              r[i].author == books[i].author)
  {
  }

  /** The store declares a `books` relationship (`relationships?.books` is truthy). */
  predicate HasBooksLink(storeData: Resource) {
    storeData.relationships.Some? && "books" in storeData.relationships.value
  }

  /** The books step: None when there is no `books` relationship, otherwise the
      hydrated list, which requires `books.data` to be an array. */
  function ResolveBooks(included: seq<Resource>, storeData: Resource): Result<Option<seq<Book>>, FetchError>
  {
    if !HasBooksLink(storeData) then Success(None)
    else match storeData.relationships.value["books"]
      case ToMany(ids) => Success(Some(AttachAuthors(included, Hydrate(included, ids))))
      case _ => Failure(BooksDataNotArray(storeData.id))
  }

  /** The books step yields null exactly without a books relationship and
      throws exactly when that relationship's `data` is not an array. */
  lemma ResolveBooksCases(included: seq<Resource>, storeData: Resource)
    ensures var r := ResolveBooks(included, storeData);
      && (r == Success(None) <==> !HasBooksLink(storeData))
      && (r.Failure? <==> HasBooksLink(storeData) && !storeData.relationships.value["books"].ToMany?)
      && (r.Failure? ==> r.error == BooksDataNotArray(storeData.id))
  {
  }

  /** In a resolved book list, a book has an author exactly when some
      "authors" entry carries the book's own id (not the id its author link
      names), and the author is built from the first such entry; otherwise it
      stays null. */
  lemma ResolvedBookAuthors(included: seq<Resource>, storeData: Resource)
    requires ResolveBooks(included, storeData).Success? && ResolveBooks(included, storeData).value.Some?
    ensures var bs := ResolveBooks(included, storeData).value.value;
      forall i :: 0 <= i < |bs| ==>
        && (bs[i].author.Some? <==> exists j :: 0 <= j < |included| && Matches(included[j], "authors", bs[i].id))
        && (bs[i].author.Some? ==>
              exists j :: 0 <= j < |included| && Matches(included[j], "authors", bs[i].id) &&
                bs[i].author.value == AuthorFrom(included[j]) &&
                forall m :: 0 <= m < j ==> !Matches(included[m], "authors", bs[i].id))
  {
    var ids := storeData.relationships.value["books"].ids;
    var hydrated := Hydrate(included, ids);
    HydratedFromIncluded(included, ids);
    forall i | 0 <= i < |hydrated| ensures hydrated[i].author.None? {
      assert hydrated[i] in hydrated;
    }
    AttachAuthorsByBookId(included, hydrated);
  }

  /** One store of the `map`: shell, then country, then books and authors. */
  function ResolveStore(included: seq<Resource>, storeData: Resource): Result<Store, FetchError>
  {
    match ResolveCountry(included, storeData)
    case Failure(e) => Failure(e)
    case Success(country) =>
      match ResolveBooks(included, storeData)
      case Failure(e) => Failure(e)
      case Success(books) => Success(Store(storeData.id, storeData.attributes, books, country, None))
  }

  /** A store throws exactly when its country step or its books step throws;
      otherwise it carries the resource's id and attributes, no top list yet,
      and null books exactly without a books relationship. */
  lemma ResolveStoreCases(included: seq<Resource>, storeData: Resource)
    ensures var r := ResolveStore(included, storeData);
      && (r.Failure? <==>
            (HasType(included, "countries") && CountryRefOf(storeData).Throws?) ||
            (HasBooksLink(storeData) && !storeData.relationships.value["books"].ToMany?))
      && (r.Success? ==>
            && r.value.id == storeData.id
            && r.value.attributes == storeData.attributes
            && r.value.topTwoBooks.None?
            && (r.value.books.None? <==> !HasBooksLink(storeData)))
  {
    ResolveCountryCases(included, storeData);
    ResolveBooksCases(included, storeData);
  }

  /** `data.map(...)`: every store in order; the first throw ends the map. */
  function ResolveEach(included: seq<Resource>, ds: seq<Resource>): Result<seq<Store>, FetchError> {
    if ds == [] then Success([])
    else match ResolveEach(included, ds[..|ds| - 1])
      case Failure(e) => Failure(e)
      case Success(ss) =>
        match ResolveStore(included, ds[|ds| - 1])
        case Failure(e) => Failure(e)
        case Success(st) => Success(ss + [st])
  }

  /** The number of "books" entries matching each id, summed over the ids. */
  function MatchesPerId(included: seq<Resource>, ids: seq<string>): nat {
    if ids == [] then 0 else CountMatching(included, "books", ids[0]) + MatchesPerId(included, ids[1..])
  }

  /** Hydrating a concatenation of id lists hydrates each list in turn. */
  lemma {:induction false} HydrateConcat(included: seq<Resource>, a: seq<string>, b: seq<string>)
    ensures Hydrate(included, a + b) == Hydrate(included, a) + Hydrate(included, b)
    decreases |b|
  {
    if b == [] {
      assert a + b == a;
    } else {
      var b', id := b[..|b| - 1], b[|b| - 1];
      assert a + b == (a + b') + [id] && b == b' + [id];
      HydrateSnoc(included, a + b', id);
      HydrateSnoc(included, b', id);
      HydrateConcat(included, a, b');
    }
  }

  /** Appending an id appends the shells of its matches. */
  lemma HydrateSnoc(included: seq<Resource>, ids: seq<string>, id: string)
    ensures Hydrate(included, ids + [id]) == Hydrate(included, ids) + Shells(FilterAll(included, "books", id))
  {
    assert (ids + [id])[..|ids|] == ids;
  }

  /** The hydrated list is exactly as long as the per-id match counts add up to. */
  lemma {:induction false} HydrateLength(included: seq<Resource>, ids: seq<string>)
    ensures |Hydrate(included, ids)| == MatchesPerId(included, ids)
  {
    if ids != [] {
      assert ids == [ids[0]] + ids[1..];
      HydrateConcat(included, [ids[0]], ids[1..]);
      HydrateLength(included, ids[1..]);
      assert [ids[0]][..0] == [];
      FilterAllLength(included, "books", ids[0]);
    }
  }

  /** An id with no "books" entry contributes nothing, wherever it stands. */
  lemma HydrateSkipsUnmatched(included: seq<Resource>, a: seq<string>, id: string, b: seq<string>)
    requires forall i :: 0 <= i < |included| ==> !Matches(included[i], "books", id)
    ensures Hydrate(included, a + [id] + b) == Hydrate(included, a + b)
  {
    FilterAllEmpty(included, "books", id);
    assert [id][..0] == [];
    assert Hydrate(included, [id]) == Hydrate(included, []) + Shells([]);
    assert Hydrate(included, [id]) == [];
    HydrateConcat(included, a + [id], b);
    HydrateConcat(included, a, [id]);
    HydrateConcat(included, a, b);
    assert Hydrate(included, a + [id]) == Hydrate(included, a);
  }

  /** Every hydrated book is the shell of a "books" entry of the side table
      whose id the store references, with the attributes copied. */
  lemma {:induction false} HydratedFromIncluded(included: seq<Resource>, ids: seq<string>)
    ensures forall b :: b in Hydrate(included, ids) ==>
      exists r :: r in included && r.typ == "books" && r.id in ids && b == BookOf(r)
  {
    if ids != [] {
      var ids' := ids[..|ids| - 1];
      HydratedFromIncluded(included, ids');
      var m := FilterAll(included, "books", ids[|ids| - 1]);
      FilterAllSelects(included, "books", ids[|ids| - 1]);
      forall b | b in Shells(m)
        ensures exists r :: r in included && r.typ == "books" && r.id in ids && b == BookOf(r)
      {
        var i :| 0 <= i < |m| && Shells(m)[i] == b;
        assert m[i] in multiset(m);
        assert m[i] in multiset(included);
      }
      forall b | b in Hydrate(included, ids')
        ensures exists r :: r in included && r.typ == "books" && r.id in ids && b == BookOf(r)
      {
        var r :| r in included && r.typ == "books" && r.id in ids' && b == BookOf(r);
        assert r.id in ids;
      }
    }
  }

  /** The map yields one store per primary resource, in order, exactly when
      every store resolves. */
  lemma {:induction false} EachResolvesInOrder(included: seq<Resource>, ds: seq<Resource>)
    ensures ResolveEach(included, ds).Success? <==>
      forall i :: 0 <= i < |ds| ==> ResolveStore(included, ds[i]).Success?
    ensures ResolveEach(included, ds).Success? ==>
      var ss := ResolveEach(included, ds).value;
      |ss| == |ds| && forall i :: 0 <= i < |ds| ==> ResolveStore(included, ds[i]) == Success(ss[i])
  {
    if ds != [] {
      var ds', d := ds[..|ds| - 1], ds[|ds| - 1];
      EachResolvesInOrder(included, ds');
      assert forall i :: 0 <= i < |ds'| ==> ds'[i] == ds[i];
      if ResolveEach(included, ds).Success? {
        assert ResolveEach(included, ds).value == ResolveEach(included, ds').value + [ResolveStore(included, d).value];
      }
    }
  }

  /** A failing map reports the error of the first store that throws. */
  lemma {:induction false} EachFailsAtFirst(included: seq<Resource>, ds: seq<Resource>)
    requires ResolveEach(included, ds).Failure?
    ensures exists i ::
      && 0 <= i < |ds|
      && ResolveStore(included, ds[i]) == Failure(ResolveEach(included, ds).error)
      && forall j :: 0 <= j < i ==> ResolveStore(included, ds[j]).Success?
  {
    var ds' := ds[..|ds| - 1];
    assert forall i :: 0 <= i < |ds'| ==> ds'[i] == ds[i];
    if ResolveEach(included, ds').Failure? {
      EachFailsAtFirst(included, ds');
    } else {
      EachResolvesInOrder(included, ds');
      var i := |ds| - 1;
      assert ResolveStore(included, ds[i]) == Failure(ResolveEach(included, ds).error);
    }
  }

  /** The whole document. `included` is only touched once there is a store to
      resolve, so a missing `included` is harmless when `data` is empty. */
  function ResolveAll(doc: Document): Result<seq<Store>, FetchError> {
    match doc.data
    case None => Failure(MissingPrimaryData)
    case Some(ds) =>
      if ds == [] then Success([])
      else match doc.included
        case None => Failure(MissingIncluded)
        case Some(included) => ResolveEach(included, ds)
  }

  /** Once a prefix of the stores fails, the whole map fails the same way. */
  lemma {:induction false} EachStopsAtFirstFailure(included: seq<Resource>, ds: seq<Resource>, n: nat)
    requires n <= |ds| && ResolveEach(included, ds[..n]).Failure?
    ensures ResolveEach(included, ds) == ResolveEach(included, ds[..n])
    decreases |ds| - n
  {
    if n < |ds| {
      assert ds[..|ds| - 1][..n] == ds[..n];
      EachStopsAtFirstFailure(included, ds[..|ds| - 1], n);
    } else {
      assert ds[..n] == ds;
    }
  }

  /** Resolving a prefix one longer resolves the next store, unless an
      earlier one already threw. */
  lemma EachStep(included: seq<Resource>, ds: seq<Resource>, i: nat)
    requires i < |ds|
    ensures ResolveEach(included, ds[..i]).Success? && ResolveStore(included, ds[i]).Success? ==>
      ResolveEach(included, ds[..i + 1]) ==
        Success(ResolveEach(included, ds[..i]).value + [ResolveStore(included, ds[i]).value])
    ensures ResolveEach(included, ds[..i]).Success? && ResolveStore(included, ds[i]).Failure? ==>
      ResolveEach(included, ds[..i + 1]) == Failure(ResolveStore(included, ds[i]).error)
  {
    assert ds[..i + 1][..i] == ds[..i] && ds[..i + 1][i] == ds[i];
  }

  // ----- The imperative resolution, proved against the functions above -----

  /** The nested `forEach` loops that push one shell per matching entry. */
  method CollectBooks(included: seq<Resource>, ids: seq<string>) returns (books: seq<Book>)
    ensures books == Hydrate(included, ids)
  {
    books := [];
    var i := 0;
    while i < |ids|
      invariant 0 <= i <= |ids|
      invariant books == Hydrate(included, ids[..i])
    {
      var matching := FilterAll(included, "books", ids[i]);
      var j := 0;
      while j < |matching|
        invariant 0 <= j <= |matching|
        invariant books == Hydrate(included, ids[..i]) + Shells(matching[..j])
      {
        assert Shells(matching[..j + 1]) == Shells(matching[..j]) + [BookOf(matching[j])];
        books := books + [BookOf(matching[j])];
        j := j + 1;
      }
      assert ids[..i + 1][..i] == ids[..i];
      assert matching[..|matching|] == matching;
      i := i + 1;
    }
    assert ids[..|ids|] == ids;
  }

  /** The `forEach` that writes each book's `author` in place. */
  method AssignAuthors(included: seq<Resource>, hydrated: seq<Book>) returns (books: seq<Book>)
    ensures books == AttachAuthors(included, hydrated)
  {
    books := hydrated;
    var k := 0;
    while k < |books|
      invariant 0 <= k <= |books| == |hydrated|
      invariant forall m :: 0 <= m < k ==> books[m] == WithAuthor(included, hydrated[m])
      invariant forall m :: k <= m < |books| ==> books[m] == hydrated[m]
    {
      var authorData := FindFirst(included, "authors", books[k].id);
      if authorData.Some? {
        books := books[k := books[k].(author := Some(AuthorFrom(authorData.value)))];
      }
      k := k + 1;
    }
  }

  /** The body of the `map` callback for one store. */
  method ResolveStoreData(included: seq<Resource>, storeData: Resource) returns (r: Result<Store, FetchError>)
    ensures r == ResolveStore(included, storeData)
  {
    var store := Store(storeData.id, storeData.attributes, None, None, None);
    var country := ResolveCountry(included, storeData);
    if country.Failure? {
      return Failure(country.error);
    }
    store := store.(country := country.value);
    if HasBooksLink(storeData) {
      match storeData.relationships.value["books"]
      case ToMany(ids) =>
        var books := CollectBooks(included, ids);
        books := AssignAuthors(included, books);
        store := store.(books := Some(books));
      case _ =>
        return Failure(BooksDataNotArray(storeData.id));
    }
    return Success(store);
  }

  /** `allData.data.map(...)`, stopping at the first store that throws. */
  method ResolveStores(doc: Document) returns (r: Result<seq<Store>, FetchError>)
    ensures r == ResolveAll(doc)
  {
    if doc.data.None? {
      return Failure(MissingPrimaryData);
    }
    var ds := doc.data.value;
    if ds == [] {
      return Success([]);
    }
    if doc.included.None? {
      return Failure(MissingIncluded);
    }
    var included := doc.included.value;
    var stores := [];
    var i := 0;
    while i < |ds|
      invariant 0 <= i <= |ds|
      invariant ResolveEach(included, ds[..i]) == Success(stores)
    {
      EachStep(included, ds, i);
      var store := ResolveStoreData(included, ds[i]);
      if store.Failure? {
        EachStopsAtFirstFailure(included, ds, i + 1);
        return Failure(store.error);
      }
      stores := stores + [store.value];
      i := i + 1;
    }
    assert ds[..|ds|] == ds;
    return Success(stores);
  }
}
