/** The Book record of the catalog (backend/Models/book.js). */
module BookModel {

  /**
   * The four stored fields of a book. Its identity is its position in the catalog.
   * The schema puts no bounds on the two quantities.
   */
  datatype Book = Book(name: string, author: string, totalQuantity: int, availableQuantity: int)

  /** `name` and `author` are required: the store refuses a document where either is empty. */
  predicate HasRequiredFields(b: Book)
  {
    b.name != "" && b.author != ""
  }

  /** The availability invariant the routes are meant to keep: `0 <= available <= total`. */
  predicate Balanced(b: Book)
  {
    0 <= b.availableQuantity <= b.totalQuantity
  }

  /** Copies currently lent out. */
  function Outstanding(b: Book): int
  {
    b.totalQuantity - b.availableQuantity
  }

  /** No two books share a name; the schema does not demand it, the create route checks it. */
  predicate DistinctNames(books: seq<Book>)
  {
    forall i, j | 0 <= i < j < |books| :: books[i].name != books[j].name
  }

  /**
   * `after` is `before` with the available count of book `id` moved by `delta`:
   * every other field of that book and every other book is unchanged.
   */
  predicate AvailabilityShifted(before: seq<Book>, after: seq<Book>, id: nat, delta: int)
  {
    && |after| == |before|
    && id < |before|
    && after[id] == before[id].(availableQuantity := before[id].availableQuantity + delta)
    && forall j | 0 <= j < |before| && j != id :: after[j] == before[j]
  }
}
