/** The `Book` entity: its columns, its status enum, and the default the
    persist hook fills in for the available-copies counter. */
module BookEntity {
  import opened Common

  datatype BookStatus = Available | Unavailable | Maintenance

  /** A stored book. `isbn` is unique across the table (see
      `BookService.IsbnUnique`); the category is kept as its id. Both
      counters are Java `Integer`s that the table declares non-null, so here
      they are plain integers, kept within 32 bits by `CountersFit`. */
  datatype Book = Book(
    title: string,
    author: string,
    isbn: string,
    categoryId: Id,
    description: string,
    totalCopies: int,
    availableCopies: int,
    status: BookStatus)

  /** A book as a caller hands it to the service, before it is persisted:
      `availableCopies` may still be null. */
  datatype BookForm = BookForm(
    title: string,
    author: string,
    isbn: string,
    categoryId: Id,
    description: string,
    totalCopies: int,
    availableCopies: Option<int>,
    status: BookStatus)

  predicate CountersFit(b: Book) {
    IsInt32(b.totalCopies) && IsInt32(b.availableCopies)
  }

  /** Every column of `b` other than `availableCopies` is the one `f` supplies. */
  predicate HasDetailsOf(b: Book, f: BookForm) {
    && b.title == f.title
    && b.author == f.author
    && b.isbn == f.isbn
    && b.categoryId == f.categoryId
    && b.description == f.description
    && b.totalCopies == f.totalCopies
    && b.status == f.status
  }

  /** The persist hook: a null available-copies count defaults to the total,
      a count already given is kept. */
  function OnCreate(f: BookForm): (b: Book)
    ensures HasDetailsOf(b, f)
    ensures f.availableCopies.None? ==> b.availableCopies == f.totalCopies
    ensures f.availableCopies.Some? ==> b.availableCopies == f.availableCopies.value
  {
    Book(f.title, f.author, f.isbn, f.categoryId, f.description, f.totalCopies,
         match f.availableCopies
         case None => f.totalCopies
         case Some(n) => n,
         f.status)
  }
}
