/** The catalogue operations of `BookServiceImpl` as transitions of the book
    table: each checks its guards on the table as it is and either fails,
    leaving the table as it was, or returns the saved book and the new table. */
module BookService {
  import opened Common
  import opened BookEntity

  type Books = map<Id, Book>

  /** `existsByIsbn`. */
  predicate IsbnTaken(books: Books, isbn: string) {
    exists id :: id in books && books[id].isbn == isbn
  }

  /** The unique constraint on the `isbn` column. */
  predicate IsbnUnique(books: Books) {
    forall i, j :: i in books && j in books && books[i].isbn == books[j].isbn ==> i == j
  }

  predicate AllCountersFit(books: Books) {
    forall id :: id in books ==> CountersFit(books[id])
  }

  /** What the book table always satisfies. */
  predicate Catalogue(books: Books) {
    IsbnUnique(books) && AllCountersFit(books)
  }

  /** `createBook`: refuse an ISBN already present, otherwise store the book
      with as many available copies as it has copies in total. */
  function CreateBook(books: Books, f: BookForm, newId: Id): (s: Step<Book, Books>)
    requires newId !in books
    ensures s.result.Err? <==> IsbnTaken(books, f.isbn)
    ensures s.result.Err? ==> s.result.error == IsbnExists && s.after == books
    ensures s.result.Ok? ==> s.after == books[newId := s.result.value]
    ensures s.result.Ok? ==> HasDetailsOf(s.result.value, f) && s.result.value.availableCopies == f.totalCopies
  {
    if IsbnTaken(books, f.isbn) then
      Step(Err(IsbnExists), books)
    else
      var b := OnCreate(f.(availableCopies := Some(f.totalCopies)));
      Step(Ok(b), books[newId := b])
  }

  /** `updateBook`: overwrite every column but the available-copies counter.
      Keeping the book's own ISBN is allowed; moving to another book's ISBN
      is refused. */
  function UpdateBook(books: Books, id: Id, f: BookForm): (s: Step<Book, Books>)
    ensures id !in books ==> s.result == Err(BookNotFound)
    ensures s.result.Ok? <==> id in books && (f.isbn == books[id].isbn || !IsbnTaken(books, f.isbn))
    ensures s.result.Err? ==> s.after == books
    ensures s.result.Err? && id in books ==> s.result.error == IsbnExists
    ensures s.result.Ok? ==> s.after == books[id := s.result.value]
    ensures s.result.Ok? ==> HasDetailsOf(s.result.value, f)
    ensures s.result.Ok? ==> s.result.value.availableCopies == books[id].availableCopies
  {
    if id !in books then
      Step(Err(BookNotFound), books)
    else if books[id].isbn != f.isbn && IsbnTaken(books, f.isbn) then
      Step(Err(IsbnExists), books)
    else
      var b := books[id].(title := f.title, author := f.author, isbn := f.isbn,
                          categoryId := f.categoryId, description := f.description,
                          totalCopies := f.totalCopies, status := f.status);
      Step(Ok(b), books[id := b])
  }

  /** `deleteBook`: a missing id is refused by the service; a book that a
      borrow record, reservation or review still refers to (`inUse`) is
      refused by the database's foreign keys. */
  function DeleteBook(books: Books, inUse: set<Id>, id: Id): (s: Step<(), Books>)
    ensures s.result.Ok? <==> id in books && id !in inUse
    ensures id !in books ==> s.result == Err(BookNotFound)
    ensures id in books && id in inUse ==> s.result == Err(StillReferenced)
    ensures s.result.Err? ==> s.after == books
    ensures s.result.Ok? ==> s.after.Keys == books.Keys - {id}
    ensures s.result.Ok? ==> forall k :: k in s.after ==> s.after[k] == books[k]
  {
    if id !in books then Step(Err(BookNotFound), books)
    else if id in inUse then Step(Err(StillReferenced), books)
    else Step(Ok(()), books - {id})
  }

  /** `updateBookStatus`: the only operation that sets a book's status. */
  function UpdateBookStatus(books: Books, id: Id, status: BookStatus): (s: Step<(), Books>)
    ensures s.result.Ok? <==> id in books
    ensures s.result.Err? ==> s.result.error == BookNotFound && s.after == books
    ensures s.result.Ok? ==> s.after == books[id := books[id].(status := status)]
  {
    if id !in books then Step(Err(BookNotFound), books)
    else Step(Ok(()), books[id := books[id].(status := status)])
  }

  /** `updateBookStock`: add `quantity` to both counters in Java `int`
      arithmetic. Only the new total is guarded: it must not be negative. */
  function UpdateBookStock(books: Books, id: Id, quantity: int): (s: Step<(), Books>)
    ensures id !in books ==> s.result == Err(BookNotFound)
    ensures id in books ==> (s.result.Ok? <==> AddInt32(books[id].totalCopies, quantity) >= 0)
    ensures s.result.Err? ==> s.after == books
    ensures s.result.Err? && id in books ==> s.result.error == StockBelowZero
    ensures s.result.Ok? ==>
      s.after == books[id := books[id].(totalCopies := AddInt32(books[id].totalCopies, quantity),
                                        availableCopies := AddInt32(books[id].availableCopies, quantity))]
  {
    if id !in books then
      Step(Err(BookNotFound), books)
    else
      var b := books[id];
      var newTotal := AddInt32(b.totalCopies, quantity);
      if newTotal < 0 then
        Step(Err(StockBelowZero), books)
      else
        Step(Ok(()), books[id := b.(totalCopies := newTotal,
                                   availableCopies := AddInt32(b.availableCopies, quantity))])
  }

  // ----- The catalogue invariant is kept by every operation -----

  lemma CreateBookKeepsCatalogue(books: Books, f: BookForm, newId: Id)
    requires Catalogue(books) && newId !in books
    requires IsInt32(f.totalCopies)
    ensures Catalogue(CreateBook(books, f, newId).after)
  {
  }

  lemma UpdateBookKeepsCatalogue(books: Books, id: Id, f: BookForm)
    requires Catalogue(books)
    requires IsInt32(f.totalCopies)
    ensures Catalogue(UpdateBook(books, id, f).after)
  {
  }

  lemma DeleteStatusAndStockKeepCatalogue(books: Books, inUse: set<Id>, id: Id,
                                          status: BookStatus, quantity: int)
    requires Catalogue(books)
    ensures Catalogue(DeleteBook(books, inUse, id).after)
    ensures Catalogue(UpdateBookStatus(books, id, status).after)
    ensures Catalogue(UpdateBookStock(books, id, quantity).after)
  {
  }

  // ----- What updateBookStock does to the two counters -----

  /** When neither sum overflows, a stock change succeeds exactly when the new
      total is not negative, and it keeps the number of copies on loan
      (total minus available) as it was. */
  lemma UpdateBookStockKeepsLoanGap(books: Books, id: Id, quantity: int)
    requires id in books
    requires IsInt32(books[id].totalCopies + quantity)
    requires IsInt32(books[id].availableCopies + quantity)
    ensures var s := UpdateBookStock(books, id, quantity);
      && (s.result.Ok? <==> books[id].totalCopies + quantity >= 0)
      && (s.result.Ok? ==> s.after[id].totalCopies - s.after[id].availableCopies
                           == books[id].totalCopies - books[id].availableCopies)
  {
  }

  /** As written, an increase that overflows `int` wraps the new total to a
      negative number and is refused as if it reduced the stock below zero. */
  lemma UpdateBookStockRefusesOverflow(books: Books, id: Id, quantity: int)
    requires id in books && CountersFit(books[id]) && IsInt32(quantity)
    requires books[id].totalCopies + quantity > MaxInt32
    ensures UpdateBookStock(books, id, quantity).result == Err(StockBelowZero)
  {
  }

  /** As written, only the total is guarded: a reduction the total can bear
      may still leave the available count negative. */
  lemma UpdateBookStockCanLeaveAvailableNegative()
    ensures var books := map[1 := Book("t", "a", "i", 1, "", 5, 1, Available)];
      var s := UpdateBookStock(books, 1, -3);
      s.result.Ok? && s.after[1].totalCopies == 2 && s.after[1].availableCopies == -2
  {
  }
}
