# Book store list: resolution and ranking of the fetched stores

The `BookStore` component fetches a JSON:API document of stores. The document
has a list of primary `data` resources and a side table of `included`
resources that relationships point at by type and id.

`fetchData` hydrates the document into a list of stores:

- each store gets its country, found by the `countries` relationship;
- each store gets its books: for every referenced id, every `books` entry
  with that id, in order;
- each book gets an author, looked up by the book's own id;
- every non-empty book list is sorted in place, most copies sold first, with
  ties kept in order;
- the first two books of each sorted list become `topTwoBooks`;
- the `stores` state is replaced, but only when all of this succeeded. A
  throw is re-raised and leaves the old state in place.

The model has these modules:

- `Wrappers`: `Option`, `Result` and `Outcome`, plus `Min`.
- `Documents`: the resource graph and the two lookups the code uses. These
  are the first match (`find`) and all matches in order (`filter`).
- `Records`: the hydrated country, author, book and store records, and the
  ranking key.
- `Resolution`: the per-store resolution as functions, and the loops of the
  source as methods proved equal to those functions.
  - `FetchError` names every way resolution can throw.
  - The first throw ends the `map`.
- `Ranking`: the stable descending sort.
  - `SortDesc` is the specification.
  - `SortByCopiesSold` is an in-place insertion sort on an `array`, proved
    to produce it.
  - `StableSortUnique` shows that any list that is ordered by copies sold
    and keeps ties in input order equals `SortDesc`. This ties it to the
    stable sort that ECMAScript 2019 requires of `Array.prototype.sort`.
- `BookStoreComponent`: the `BookStore` class with its `stores` field,
  and the `FetchData` method that updates it.
- `Scenarios`: lemmas that evaluate the model on concrete documents.

## Behaviour of the code as written

The model follows the code. These behaviours are easy to miss:

- **The country link is dereferenced inside the `find` callback.** The
  dereference comes after the type test, so a store without a `countries`
  relationship, or with one whose `data` is null, throws. It throws only
  when the side table holds at least one `"countries"` entry for the scan to
  reach. With no such entry, the country is simply null. A to-many
  `countries` link reads `.id` as undefined, so it never matches and gives
  null (`ResolveCountryCases`, `MissingCountryLink`).
- **`books.data` must be an array.** A `books` relationship whose `data` is
  missing, null or a single object throws rather than being treated as
  absent (`ResolveBooksCases`).
- **Every primary resource is mapped.** Entries of `data` are not filtered by
  type `"stores"`.
- **A missing `included` is harmless when `data` is empty**, because the
  callback that reads it never runs (`FetchEdges`).
- **The author is looked up by the book's id.** `book.author` is built from
  the first `"authors"` entry whose id equals the book's own id. The book's
  own author relationship is never consulted. This looks like a latent bug:
  it works only if author and book ids coincide. It is kept as written and
  shown by `Scenarios.AuthorFollowsBookId`, where the book linked to author
  `a9` gets no author, and the book whose id is an author's id gets that
  author.

## Model

| member | source | states |
|---|---|---|
| Documents.FindFirst | book-stores/src/components/bookStoreList.js:57 | `find` gives None exactly when no entry matches type and id; otherwise it gives the matching entry with no earlier match |
| Documents.FilterAllSelects | book-stores/src/components/bookStoreList.js:69 | `filter` keeps only entries of that type and id, each exactly as often as it occurs in the side table |
| Documents.FilterAllConcat | book-stores/src/components/bookStoreList.js:69 | filtering a concatenation filters each part in turn, so side-table order is kept |
| Documents.FilterAllLength | book-stores/src/components/bookStoreList.js:69 | the filter keeps exactly as many entries as match |
| Documents.FindFirstIsHeadOfFilter | book-stores/src/components/bookStoreList.js:57 | `find` returns the head of `filter` with the same predicate, or nothing when the filter is empty |
| Documents.FilterAllEmpty | book-stores/src/components/bookStoreList.js:69-70 | the filter is empty exactly when no entry matches |
| Resolution.CountryRefOf | book-stores/src/components/bookStoreList.js:57 | reading `relationships.countries.data.id` throws exactly when relationships, the countries link or its data is missing |
| Resolution.ResolveCountryCases | book-stores/src/components/bookStoreList.js:57-63 | the country step throws exactly when a "countries" entry exists and the link throws, with a BrokenCountryLink error for that store; it finds a country exactly when the link's id matches a "countries" entry, and then builds it from the first such entry |
| Resolution.HydrateConcat | book-stores/src/components/bookStoreList.js:68-77 | hydrating concatenated id lists concatenates their hydrations, so reference order is kept |
| Resolution.HydrateLength | book-stores/src/components/bookStoreList.js:68-77 | the book list is as long as the per-id match counts add up to, so duplicates are kept |
| Resolution.HydrateSkipsUnmatched | book-stores/src/components/bookStoreList.js:69-70 | an id with no "books" entry contributes nothing, wherever it stands |
| Resolution.HydratedFromIncluded | book-stores/src/components/bookStoreList.js:69-75 | every hydrated book is the shell of a "books" entry whose id the store references, with its attributes copied |
| Resolution.AuthorOf | book-stores/src/components/bookStoreList.js:81 | an author is found exactly when an "authors" entry carries the book's id, and it is built from the first such entry |
| Resolution.AttachAuthorsByBookId | book-stores/src/components/bookStoreList.js:80-88 | author resolution keeps every book's id and attributes; a book whose own id is carried by an "authors" entry gets the author built from the first such entry, and any other book keeps its author |
| Resolution.ResolvedBookAuthors | book-stores/src/components/bookStoreList.js:66-88 | in a resolved book list, a book has an author exactly when an "authors" entry carries the book's own id, built from the first such entry; otherwise it stays null |
| Resolution.ResolveBooksCases | book-stores/src/components/bookStoreList.js:66-68 | books are null exactly without a books relationship; the step throws exactly when that relationship's data is not an array, with a BooksDataNotArray error |
| Resolution.ResolveStoreCases | book-stores/src/components/bookStoreList.js:48-90 | a store throws exactly when its country or books step throws; otherwise it keeps the resource's id and attributes, has no top list, and has null books exactly without a books relationship |
| Resolution.EachResolvesInOrder | book-stores/src/components/bookStoreList.js:48-91 | the `map` succeeds exactly when every store resolves, giving one store per primary resource in order |
| Resolution.EachFailsAtFirst | book-stores/src/components/bookStoreList.js:48-91 | a failing `map` reports the error of a store that throws after every earlier store resolved |
| Resolution.EachStopsAtFirstFailure | book-stores/src/components/bookStoreList.js:48-91 | once a prefix of the stores throws, later stores do not change the outcome |
| Resolution.CollectBooks | book-stores/src/components/bookStoreList.js:67-77 | the nested `forEach` loops that push shells build exactly the hydrated list |
| Resolution.AssignAuthors | book-stores/src/components/bookStoreList.js:80-88 | the loop that writes `book.author` in place yields exactly the author-resolved list |
| Resolution.ResolveStoreData | book-stores/src/components/bookStoreList.js:49-90 | the `map` callback returns exactly the store resolution, or its error |
| Resolution.ResolveStores | book-stores/src/components/bookStoreList.js:48-91 | the map over `allData.data` gives exactly the document resolution: missing data or missing `included` are errors, and the first throwing store ends it |
| Ranking.InsertPermutes | book-stores/src/components/bookStoreList.js:95 | one insertion step adds the book and loses nothing (multiset) |
| Ranking.SortDescPermutes | book-stores/src/components/bookStoreList.js:95 | the sort is a permutation of the hydrated list |
| Ranking.InsertSorted | book-stores/src/components/bookStoreList.js:95 | inserting into a list ordered by copies sold keeps it ordered |
| Ranking.SortDescSorted | book-stores/src/components/bookStoreList.js:95 | the sorted list is non-increasing by copies sold, as the comparator `b - a` asks |
| Ranking.InsertStable | book-stores/src/components/bookStoreList.js:95 | an insertion appends the book to its own group of equal copies sold and leaves the other groups as they were |
| Ranking.SortDescStable | book-stores/src/components/bookStoreList.js:95 | books with equal copies sold keep their relative order |
| Ranking.SortedGroupsDetermine | book-stores/src/components/bookStoreList.js:95 | two sorted lists with the same groups of equal copies sold are equal |
| Ranking.StableSortUnique | book-stores/src/components/bookStoreList.js:95 | any stable descending sort of the list gives exactly the model's sorted list |
| Ranking.InsertLandsAt | book-stores/src/components/bookStoreList.js:95 | a book lands behind the last book that sold at least as many copies and ahead of the trailing books that sold fewer |
| Ranking.InsertAt | book-stores/src/components/bookStoreList.js:95 | one pass of the in-place sort inserts `a[i]` into the sorted prefix and leaves the rest of the array alone |
| Ranking.SortByCopiesSold | book-stores/src/components/bookStoreList.js:95 | the in-place sort leaves the array holding the stable descending sort of its old contents |
| Ranking.RankStoreShape | book-stores/src/components/bookStoreList.js:93-98 | ranking keeps id, attributes and country; it adds a top list exactly for a non-empty book list, as the first min(2, n) sorted books; any other store is unchanged |
| Ranking.RankedBooks | book-stores/src/components/bookStoreList.js:94-95 | a ranked book list is a permutation of the hydrated one, ordered by copies sold, with ties in hydration order |
| Ranking.TopTwoAreBestsellers | book-stores/src/components/bookStoreList.js:95-96 | the first of the top two sold at least as many copies as any book of the store, and no book left out sold more than the last of the top two |
| Ranking.RankShape | book-stores/src/components/bookStoreList.js:93-99 | ranking all stores ranks each one in place and keeps their number and order |
| Ranking.RankStores | book-stores/src/components/bookStoreList.js:93-99 | the `forEach` that sorts each store's books in an array and slices off the top list gives exactly the ranked stores |
| BookStoreComponent.Fetch | book-stores/src/components/bookStoreList.js:48-99 | the synchronous part fails exactly when resolution fails, with the same error, and otherwise yields one ranked store per resolved store |
| BookStoreComponent.FetchStores | book-stores/src/components/bookStoreList.js:48-99 | each fetched store is the ranked resolution of its primary resource, with id and attributes copied, books null exactly without a books relationship, and a top list of the first min(2, n) books exactly for a non-empty list |
| BookStoreComponent.FetchEdges | book-stores/src/components/bookStoreList.js:48-57 | missing `data` fails, empty `data` succeeds with no stores whatever `included` holds, and missing `included` fails once there is a store |
| BookStoreComponent.BookStore.constructor | book-stores/src/components/bookStoreList.js:6-11 | `stores` starts null |
| BookStoreComponent.BookStore.FetchData | book-stores/src/components/bookStoreList.js:43-108 | a rejected request or a throw leaves `stores` as it was and re-raises the error; success replaces `stores` with the resolved and ranked list |
| Scenarios.TwoBooksRankedByCopiesSold | book-stores/src/components/bookStoreList.js:57-96 | a US store with books selling 50 and 100 copies gets country code "US" and top list [100-copy book, 50-copy book] |
| Scenarios.AuthorFollowsBookId | book-stores/src/components/bookStoreList.js:80-88 | the author comes from the "authors" entry with the book's id, not from the book's own author link |
| Scenarios.SingleBookTopList | book-stores/src/components/bookStoreList.js:68-96 | an unmatched id adds nothing, and a single book gives a top list of one |
| Scenarios.EmptyAndMissingBooks | book-stores/src/components/bookStoreList.js:66-94 | an empty books relationship gives an empty list with no top list; no books relationship leaves books null |
| Scenarios.MissingCountryLink | book-stores/src/components/bookStoreList.js:57 | a store with no countries link throws when a "countries" entry exists, and gets a null country otherwise |

## Left out

- The HTTP request: the GET, its URL and `await` are left out. The response arrives as a parameter that is either the parsed body or a rejection (`TransportFailure`).
- React: `componentDidMount`, `render`, `formatDate` and `starRating` are presentation and are not modelled. `setState` is modelled as an assignment to the `stores` field.
- Logging: `console.log` and `console.error` are left out.
- Concurrency: two overlapping fetches can race, and the last response wins. The model runs one `FetchData` at a time.
- Records.CopiesSold: only integer `copiesSold` values are compared. A missing or non-integer value ranks as 0. The source would subtract such values as JavaScript numbers, and a NaN comparator result leaves the order up to the engine.
- JavaScript numbers: fractional and out-of-range values of `copiesSold` are not modelled. They fall under `OtherValue`.
- Ranking.SortByCopiesSold: the sort runs on a fresh array built from the book list. It then replaces the list. The aliasing between the sorted `books` array and the `topTwoBooks` slice, which share book objects, is not modelled.
- Ranking.SortByCopiesSold: the engine's sort algorithm is not modelled. It is modelled as insertion sort. `StableSortUnique` shows that every stable descending sort gives the same result.
- Missing `attributes`: resources are assumed to carry an attributes object. Reading `code`, `fullName` or `copiesSold` from a missing attributes object would throw in the source.
- Shapes other than arrays: `data` is either a list or missing, and a relationship's `data` is null, one reference or a list. Other shapes (a single primary resource, a non-string id) are not modelled.
- Resource identity: book records are values. The in-place write of `book.author` is modelled as replacing the list element (`AssignAuthors`).
