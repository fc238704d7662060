/**
 * The `BookStore` component's data side: `fetchData` resolves and ranks the
 * fetched document and replaces the `stores` state only when all of it
 * succeeded.
 */
module BookStoreComponent {
  import opened Wrappers
  import opened Documents
  import opened Records
  import opened Ranking
  import opened Resolution

  /** What the GET delivers: the parsed response body, or a rejection. */
  datatype Response = Received(body: Document) | Rejected

  /** The synchronous part of `fetchData`: resolution, then the ranking pass. */
  function Fetch(doc: Document): (r: Result<seq<Store>, FetchError>)
    ensures r.Failure? <==> ResolveAll(doc).Failure?
    ensures r.Failure? ==> r.error == ResolveAll(doc).error
    ensures r.Success? ==> |r.value| == |ResolveAll(doc).value|
  {
    match ResolveAll(doc)
    case Failure(e) => Failure(e)
    case Success(ss) =>
      RankShape(ss);
      Success(Rank(ss))
  }

  /** A successful fetch has one store per primary resource, in order, each
      the ranked form of that resource's resolution: id and attributes copied,
      `books` null exactly without a books relationship, and `topTwoBooks`
      present exactly for a non-empty list, as its first min(2, n) books. */
  lemma FetchStores(doc: Document, i: nat)
    requires Fetch(doc).Success? && doc.data.Some? && i < |doc.data.value|
    ensures |Fetch(doc).value| == |doc.data.value|
    ensures doc.included.Some?
    ensures var sd, st := doc.data.value[i], Fetch(doc).value[i];
      && ResolveStore(doc.included.value, sd).Success?
      && st == RankStore(ResolveStore(doc.included.value, sd).value)
      && st.id == sd.id && st.attributes == sd.attributes
      && (st.books.None? <==> !HasBooksLink(sd))
      && (st.topTwoBooks.Some? <==> st.books.Some? && |st.books.value| > 0)
      && (st.topTwoBooks.Some? ==>
            |st.topTwoBooks.value| == Min(2, |st.books.value|) &&
            st.topTwoBooks.value == st.books.value[..|st.topTwoBooks.value|])
  {
    var ds, included := doc.data.value, doc.included.value;
    var ss := ResolveEach(included, ds).value;
    EachResolvesInOrder(included, ds);
    RankShape(ss);
    ResolveStoreCases(included, ds[i]);
    RankStoreShape(ss[i]);
  }

  /** A missing primary `data` always fails; an empty one always succeeds,
      whatever `included` holds. */
  lemma FetchEdges(doc: Document)
    ensures doc.data.None? ==> Fetch(doc) == Failure(MissingPrimaryData)
    ensures doc.data == Some([]) ==> Fetch(doc) == Success([])
    ensures doc.data.Some? && doc.data.value != [] && doc.included.None? ==> Fetch(doc) == Failure(MissingIncluded)
  {
  }

  /** The component: `state.stores` starts null and is only ever replaced
      wholesale by a successful fetch. */
  class BookStore {
    var stores: Option<seq<Store>>

    constructor ()
      ensures stores == None
    {
      stores := None;
    }

    /** `fetchData`: a rejected GET or a throw during resolution is re-thrown
        and leaves `stores` as it was; otherwise `setState` stores the
        resolved and ranked list. */
    method FetchData(response: Response) returns (outcome: Outcome<FetchError>)
      modifies this
      ensures response.Rejected? ==> outcome == Fail(TransportFailure) && stores == old(stores)
      ensures response.Received? && Fetch(response.body).Failure? ==>
        outcome == Fail(Fetch(response.body).error) && stores == old(stores)
      ensures response.Received? && Fetch(response.body).Success? ==>
        outcome == Pass && stores == Some(Fetch(response.body).value)
    {
      if response.Rejected? {
        return Fail(TransportFailure);
      }
      var resolved := ResolveStores(response.body);
      if resolved.Failure? {
        return Fail(resolved.error);
      }
      var ranked := RankStores(resolved.value);
      stores := Some(ranked);
      return Pass;
    }
  }
}
