/** The hydrated records the store list renders. */
module Records {
  import opened Wrappers
  import opened Documents

  /** `{id, code}` built from a "countries" entry; `code` is None when undefined. */
  datatype Country = Country(id: string, code: Option<Value>)

  /** `{id, fullName}` built from an "authors" entry. */
  datatype Author = Author(id: string, fullName: Option<Value>)

  /** `{id, attributes, author}` built from a "books" entry. */
  datatype Book = Book(id: string, attributes: Attributes, author: Option<Author>)

  /** One hydrated store. `books` and `country` are None for JavaScript's null;
      `topTwoBooks` is None when the field was never added. */
  datatype Store = Store(
    id: string,
    attributes: Attributes,
    books: Option<seq<Book>>,
    country: Option<Country>,
    topTwoBooks: Option<seq<Book>>)

  /** The attributes carry an integer `copiesSold`, the ranking key. */
  predicate HasCopiesSold(attrs: Attributes) {
    "copiesSold" in attrs && attrs["copiesSold"].Integer?
  }

  /** The ranking key: an integer `copiesSold`, and 0 for a book whose
      `copiesSold` is missing or not an integer. */
  function CopiesSold(b: Book): int {
    if HasCopiesSold(b.attributes) then b.attributes["copiesSold"].n else 0
  }
}
