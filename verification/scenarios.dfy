/** The model evaluated on concrete documents, one per behaviour worth seeing. */
module Scenarios {
  import opened Wrappers
  import opened Documents
  import opened Records
  import opened Ranking
  import opened Resolution
  import opened BookStoreComponent

  const US := Resource("countries", "c1", map["code" := Text("US")], None)
  const Slow := Resource("books", "b1", map["name" := Text("Slow"), "copiesSold" := Integer(50)], None)
  const Fast := Resource("books", "b2", map["name" := Text("Fast"), "copiesSold" := Integer(100)], None)
  const Corner := Resource("stores", "s1", map["name" := Text("Corner")],
                           Some(map["countries" := ToOne("c1"), "books" := ToMany(["b1", "b2"])]))
  const USCountry := Some(Country("c1", Some(Text("US"))))

  lemma CornerFilter(id: string, hit: Resource)
    requires id == "b1" || id == "b2"
    requires hit == if id == "b1" then Slow else Fast
    ensures FilterAll([US, Slow, Fast], "books", id) == [hit]
  {
    assert FilterAll([], "books", id) == [];
    if id == "b1" {
      FilterSkip(Fast, [], "books", id);
      FilterTake(Slow, [Fast], "books", id);
    } else {
      FilterTake(Fast, [], "books", id);
      FilterSkip(Slow, [Fast], "books", id);
    }
    FilterSkip(US, [Slow, Fast], "books", id);
    assert [Fast] + [] == [Fast] && [Slow] + [Fast] == [Slow, Fast] && [US] + [Slow, Fast] == [US, Slow, Fast];
  }

  lemma CornerBooks()
    ensures Hydrate([US, Slow, Fast], ["b1", "b2"]) == [BookOf(Slow), BookOf(Fast)]
  {
    CornerFilter("b1", Slow);
    CornerFilter("b2", Fast);
    assert ["b1", "b2"][..1] == ["b1"] && ["b1"][..0] == [];
    assert Shells([Slow]) == [BookOf(Slow)] && Shells([Fast]) == [BookOf(Fast)];
    assert Hydrate([US, Slow, Fast], ["b1"]) == [BookOf(Slow)];
  }

  lemma CornerCountry()
    ensures ResolveCountry([US, Slow, Fast], Corner) == Success(USCountry)
  {
    assert HasType([US, Slow, Fast], "countries") by { assert [US, Slow, Fast][0].typ == "countries"; }
    assert CountryRefOf(Corner) == Id("c1");
    assert FindFirst([US, Slow, Fast], "countries", "c1") == Some(US);
  }

  lemma NoAuthors()
    ensures AuthorOf([US, Slow, Fast], "b1") == None
    ensures AuthorOf([US, Slow, Fast], "b2") == None
  {
    assert forall i :: 0 <= i < 3 ==> [US, Slow, Fast][i].typ != "authors";
  }

  lemma CornerBookList()
    ensures ResolveBooks([US, Slow, Fast], Corner) == Success(Some([BookOf(Slow), BookOf(Fast)]))
  {
    var inc := [US, Slow, Fast];
    var books := [BookOf(Slow), BookOf(Fast)];
    CornerBooks();
    NoAuthors();
    assert AttachAuthors(inc, books) == books;
    assert HasBooksLink(Corner) && Corner.relationships.value["books"] == ToMany(["b1", "b2"]);
  }

  /** A single primary resource resolves to its own store. */
  lemma OneStore(included: seq<Resource>, d: Resource, st: Store)
    requires ResolveStore(included, d) == Success(st)
    ensures ResolveEach(included, [d]) == Success([st])
  {
    assert [d][..0] == [] && [d][0] == d;
    assert ResolveEach(included, []) == Success([]);
    assert [] + [st] == [st];
  }

  /** A document with a single primary resource fetches to that store, ranked. */
  lemma FetchOne(d: Resource, included: seq<Resource>, st: Store)
    requires ResolveStore(included, d) == Success(st)
    ensures Fetch(Document(Some([d]), Some(included))) == Success([RankStore(st)])
  {
    OneStore(included, d, st);
    assert [st][..0] == [] && [st][0] == st;
    assert Rank([st]) == [RankStore(st)];
  }

  lemma CornerRanks()
    ensures SortDesc([BookOf(Slow), BookOf(Fast)]) == [BookOf(Fast), BookOf(Slow)]
  {
    assert [BookOf(Slow), BookOf(Fast)][..1] == [BookOf(Slow)];
    assert [BookOf(Slow)][..0] == [];
    assert SortDesc([BookOf(Slow)]) == [BookOf(Slow)];
    assert Insert(BookOf(Fast), [BookOf(Slow)]) == [BookOf(Fast), BookOf(Slow)];
  }

  /** One store in the US with two books selling 50 and 100 copies, listed
      slower first: the country is resolved and the 100-copy book ranks first. */
  lemma TwoBooksRankedByCopiesSold()
    ensures Fetch(Document(Some([Corner]), Some([US, Slow, Fast]))) ==
      Success([Store("s1", map["name" := Text("Corner")],
                     Some([BookOf(Fast), BookOf(Slow)]),
                     Some(Country("c1", Some(Text("US")))),
                     Some([BookOf(Fast), BookOf(Slow)]))])
  {
    var resolved := Store("s1", Corner.attributes, Some([BookOf(Slow), BookOf(Fast)]), USCountry, None);
    CornerCountry();
    CornerBookList();
    assert ResolveStore([US, Slow, Fast], Corner) == Success(resolved);
    FetchOne(Corner, [US, Slow, Fast], resolved);
    CornerRanks();
    assert TopTwo([BookOf(Fast), BookOf(Slow)]) == [BookOf(Fast), BookOf(Slow)];
  }

  const Linked := Resource("books", "b3", map["copiesSold" := Integer(7)], Some(map["authors" := ToOne("a9")]))
  const A9 := Resource("authors", "a9", map["fullName" := Text("Linked Author")], None)
  const SameId := Resource("authors", "b1", map["fullName" := Text("Same Id")], None)
  const Shelf := Resource("stores", "s2", map[], Some(map["books" := ToMany(["b1", "b3"])]))
  const Side := [Slow, Linked, A9, SameId]

  /** The filter steps over a non-matching and a matching head. */
  lemma FilterSkip(r: Resource, rest: seq<Resource>, typ: string, id: string)
    requires !Matches(r, typ, id)
    ensures FilterAll([r] + rest, typ, id) == FilterAll(rest, typ, id)
  {
    assert ([r] + rest)[0] == r && ([r] + rest)[1..] == rest;
  }

  lemma FilterTake(r: Resource, rest: seq<Resource>, typ: string, id: string)
    requires Matches(r, typ, id)
    ensures FilterAll([r] + rest, typ, id) == [r] + FilterAll(rest, typ, id)
  {
    assert ([r] + rest)[0] == r && ([r] + rest)[1..] == rest;
  }

  lemma ShelfFilter(id: string, hit: Resource)
    requires id == "b1" || id == "b3"
    requires hit == if id == "b1" then Slow else Linked
    ensures FilterAll(Side, "books", id) == [hit]
  {
    assert FilterAll([], "books", id) == [];
    FilterSkip(SameId, [], "books", id);
    FilterSkip(A9, [SameId], "books", id);
    assert [A9] + [SameId] == [A9, SameId];
    if id == "b1" {
      FilterSkip(Linked, [A9, SameId], "books", id);
      FilterTake(Slow, [Linked] + [A9, SameId], "books", id);
    } else {
      FilterTake(Linked, [A9, SameId], "books", id);
      FilterSkip(Slow, [Linked] + [A9, SameId], "books", id);
    }
    assert [Slow] + ([Linked] + [A9, SameId]) == Side;
  }

  lemma ShelfBooks()
    ensures Hydrate(Side, ["b1", "b3"]) == [BookOf(Slow), BookOf(Linked)]
  {
    ShelfFilter("b1", Slow);
    ShelfFilter("b3", Linked);
    assert ["b1", "b3"][..1] == ["b1"] && ["b1"][..0] == [];
    assert Shells([Slow]) == [BookOf(Slow)] && Shells([Linked]) == [BookOf(Linked)];
    assert Hydrate(Side, ["b1"]) == [BookOf(Slow)];
  }

  lemma ShelfAuthors()
    ensures AuthorOf(Side, "b1") == Some(Author("b1", Some(Text("Same Id"))))
    ensures AuthorOf(Side, "b3") == None
  {
    assert Side[3] == SameId && Matches(SameId, "authors", "b1");
    assert forall i :: 0 <= i < 3 ==> !Matches(Side[i], "authors", "b1");
    assert forall i :: 0 <= i < 4 ==> !Matches(Side[i], "authors", "b3");
  }

  const SameIdBook := BookOf(Slow).(author := Some(Author("b1", Some(Text("Same Id")))))

  lemma ShelfAttach()
    ensures AttachAuthors(Side, [BookOf(Slow), BookOf(Linked)]) == [SameIdBook, BookOf(Linked)]
  {
    ShelfAuthors();
    assert WithAuthor(Side, BookOf(Slow)) == SameIdBook;
    assert WithAuthor(Side, BookOf(Linked)) == BookOf(Linked);
  }

  lemma ShelfBookList()
    ensures ResolveBooks(Side, Shelf) == Success(Some([SameIdBook, BookOf(Linked)]))
  {
    ShelfBooks();
    ShelfAttach();
    assert HasBooksLink(Shelf) && Shelf.relationships.value["books"] == ToMany(["b1", "b3"]);
  }

  lemma ShelfResolves()
    ensures ResolveStore(Side, Shelf) == Success(Store("s2", map[], Some([SameIdBook, BookOf(Linked)]), None, None))
  {
    assert !HasType(Side, "countries") by {
      assert forall i :: 0 <= i < 4 ==> Side[i].typ != "countries";
    }
    assert ResolveCountry(Side, Shelf) == Success(None);
    ShelfBookList();
  }

  lemma ShelfRanks()
    ensures SortDesc([SameIdBook, BookOf(Linked)]) == [SameIdBook, BookOf(Linked)]
  {
    assert [SameIdBook, BookOf(Linked)][..1] == [SameIdBook] && [SameIdBook][..0] == [];
    assert SortDesc([SameIdBook]) == [SameIdBook];
  }

  /** The author is looked up by the book's own id: the book whose resource
      links to author "a9" gets no author, while the book whose id happens to
      be an author's id gets that author. */
  lemma AuthorFollowsBookId()
    ensures Fetch(Document(Some([Shelf]), Some(Side))) ==
      Success([Store("s2", map[],
                     Some([BookOf(Slow).(author := Some(Author("b1", Some(Text("Same Id"))))), BookOf(Linked)]),
                     None,
                     Some([BookOf(Slow).(author := Some(Author("b1", Some(Text("Same Id"))))), BookOf(Linked)]))])
  {
    var books := [SameIdBook, BookOf(Linked)];
    ShelfResolves();
    FetchOne(Shelf, Side, Store("s2", map[], Some(books), None, None));
    ShelfRanks();
    assert TopTwo(books) == books;
  }

  const Single := Resource("stores", "s3", map[], Some(map["books" := ToMany(["zz", "b1"])]))

  lemma SingleBooks()
    ensures Hydrate([Slow], ["zz", "b1"]) == [BookOf(Slow)]
  {
    FilterSkip(Slow, [], "books", "zz");
    FilterTake(Slow, [], "books", "b1");
    assert [Slow] + [] == [Slow] && FilterAll([], "books", "b1") == [];
    assert ["zz", "b1"][..1] == ["zz"] && ["zz"][..0] == [];
    assert Shells([]) == [] && Shells([Slow]) == [BookOf(Slow)];
    assert Hydrate([Slow], ["zz"]) == [];
  }

  lemma SingleResolves()
    ensures ResolveStore([Slow], Single) == Success(Store("s3", map[], Some([BookOf(Slow)]), None, None))
  {
    assert !HasType([Slow], "countries") by { assert [Slow][0].typ != "countries"; }
    SingleBooks();
    assert AuthorOf([Slow], "b1") == None by { assert !Matches([Slow][0], "authors", "b1"); }
    assert AttachAuthors([Slow], [BookOf(Slow)]) == [BookOf(Slow)];
    assert HasBooksLink(Single) && Single.relationships.value["books"] == ToMany(["zz", "b1"]);
  }

  /** A single matching book gives a top list of one; the id without a match
      adds nothing. */
  lemma SingleBookTopList()
    ensures Fetch(Document(Some([Single]), Some([Slow]))) ==
      Success([Store("s3", map[], Some([BookOf(Slow)]), None, Some([BookOf(Slow)]))])
  {
    SingleResolves();
    FetchOne(Single, [Slow], Store("s3", map[], Some([BookOf(Slow)]), None, None));
    assert [BookOf(Slow)][..0] == [];
    assert SortDesc([BookOf(Slow)]) == [BookOf(Slow)];
    assert TopTwo([BookOf(Slow)]) == [BookOf(Slow)];
  }

  /** An empty books relationship gives an empty list and no top list; no
      books relationship at all leaves `books` null. */
  lemma EmptyAndMissingBooks()
    ensures var empty := Resource("stores", "s4", map[], Some(map["books" := ToMany([])]));
      Fetch(Document(Some([empty]), Some([Slow]))) == Success([Store("s4", map[], Some([]), None, None)])
    ensures var bare := Resource("stores", "s5", map[], None);
      Fetch(Document(Some([bare]), Some([Slow]))) == Success([Store("s5", map[], None, None, None)])
  {
    var empty := Resource("stores", "s4", map[], Some(map["books" := ToMany([])]));
    var bare := Resource("stores", "s5", map[], None);
    assert !HasType([Slow], "countries") by { assert [Slow][0].typ != "countries"; }
    assert HasBooksLink(empty) && empty.relationships.value["books"] == ToMany([]);
    assert AttachAuthors([Slow], []) == [];
    FetchOne(empty, [Slow], Store("s4", map[], Some([]), None, None));
    FetchOne(bare, [Slow], Store("s5", map[], None, None, None));
  }

  /** A store without a countries relationship makes the fetch throw, but only
      when the side table holds a "countries" entry for the scan to reach. */
  lemma MissingCountryLink()
    ensures var store := Resource("stores", "s6", map[], None);
      && Fetch(Document(Some([store]), Some([US]))) == Failure(BrokenCountryLink("s6"))
      && Fetch(Document(Some([store]), Some([Slow]))) == Success([Store("s6", map[], None, None, None)])
  {
    var store := Resource("stores", "s6", map[], None);
    assert HasType([US], "countries") by { assert [US][0].typ == "countries"; }
    assert [store][..0] == [] && [store][0] == store;
    assert ResolveEach([US], []) == Success([]);
    assert ResolveEach([US], [store]) == Failure(BrokenCountryLink("s6"));
    assert !HasType([Slow], "countries") by { assert [Slow][0].typ != "countries"; }
    FetchOne(store, [Slow], Store("s6", map[], None, None, None));
  }
}
