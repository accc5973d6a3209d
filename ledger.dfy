/** The copy ledger: for each book, the available counter plus the number of
    BORROWED records equals the total number of copies. The borrow lifecycle
    keeps this balance; the catalogue operations keep it or break it as stated
    below, and so does deleting a borrow record. */
module Ledger {
  import opened Common
  import opened BookEntity
  import BookService
  import opened BorrowRecordService

  /** `availableCopies == totalCopies - #BORROWED records` for book `b`. */
  predicate Balanced(c: Circulation, b: Id)
    requires b in c.books
  {
    Stock(c, b) == c.books[b].totalCopies
  }

  predicate AllBalanced(c: Circulation) {
    forall b :: b in c.books ==> Balanced(c, b)
  }

  /** In a balanced ledger no book has more copies available than it owns. */
  lemma BalancedBoundsAvailable(c: Circulation, b: Id)
    requires AllBalanced(c) && b in c.books
    ensures c.books[b].availableCopies <= c.books[b].totalCopies
    ensures c.books[b].availableCopies == c.books[b].totalCopies <==> LoanIds(c.records, b) == {}
  {
  }

  /** Request, approval, rejection and return all keep every book balanced.
      Balance also rules out the `int` overflow of return: a book with a copy
      on loan has fewer copies available than its total. */
  lemma LifecycleKeepsBalance(c: Circulation, userIds: set<Id>, userId: Id, bookId: Id,
                              dueDate: Time, now: Time, newId: Id, id: Id, reason: string)
    requires RecordsReferToBooks(c) && AllBalanced(c) && newId !in c.records
    requires forall b :: b in c.books ==> CountersFit(c.books[b])
    ensures AllBalanced(CreateBorrowRequest(c, userIds, userId, bookId, dueDate, now, newId).after)
    ensures AllBalanced(ApproveBorrowRequest(c, id).after)
    ensures AllBalanced(RejectBorrowRequest(c, id, reason).after)
    ensures AllBalanced(ReturnBook(c, id, now).after)
  {
    CreateBorrowRequestKeepsStock(c, userIds, userId, bookId, dueDate, now, newId);
    ApproveKeepsStock(c, id);
    RejectKeepsStock(c, id, reason);
    if id in c.records && c.records[id].status == Borrowed {
      var b := c.records[id].bookId;
      assert id in LoanIds(c.records, b);
      assert Balanced(c, b) && CountersFit(c.books[b]);
    }
    ReturnKeepsStock(c, id, now);
  }

  /** Deleting a BORROWED record unbalances its book. */
  lemma DeleteBorrowedRecordBreaksBalance(c: Circulation, id: Id)
    requires RecordsReferToBooks(c) && AllBalanced(c)
    requires id in c.records && c.records[id].status == Borrowed
    ensures !AllBalanced(DeleteBorrowRecord(c, id).after)
  {
    DeleteBorrowRecordLosesLoanedCopy(c, id);
    var b := c.records[id].bookId;
    assert !Balanced(DeleteBorrowRecord(c, id).after, b);
  }

  /** A new book starts balanced, because no record refers to it yet. */
  lemma CreateBookKeepsBalance(c: Circulation, f: BookForm, newId: Id)
    requires RecordsReferToBooks(c) && AllBalanced(c) && newId !in c.books
    ensures AllBalanced(Circulation(BookService.CreateBook(c.books, f, newId).after, c.records))
  {
    var s := BookService.CreateBook(c.books, f, newId);
    var c' := Circulation(s.after, c.records);
    if s.result.Ok? {
      forall k | k in c.records ensures c.records[k].bookId != newId {
      }
      assert LoanIds(c.records, newId) == {};
      forall b | b in c'.books ensures Balanced(c', b) {
        if b != newId {
          assert Balanced(c, b);
        }
      }
    }
  }

  /** Without overflow, a stock change shifts both counters alike and keeps
      every book balanced. */
  lemma UpdateBookStockKeepsBalance(c: Circulation, id: Id, quantity: int)
    requires AllBalanced(c) && id in c.books
    requires IsInt32(c.books[id].totalCopies + quantity)
    requires IsInt32(c.books[id].availableCopies + quantity)
    ensures AllBalanced(Circulation(BookService.UpdateBookStock(c.books, id, quantity).after, c.records))
  {
    var c' := Circulation(BookService.UpdateBookStock(c.books, id, quantity).after, c.records);
    forall b | b in c'.books ensures Balanced(c', b) {
      assert Balanced(c, b);
    }
  }

  /** `updateBook` overwrites the total but not the available counter, so a
      balanced ledger stays balanced exactly when the total is left as it
      was. */
  lemma UpdateBookKeepsBalanceIffSameTotal(c: Circulation, id: Id, f: BookForm)
    requires AllBalanced(c)
    requires BookService.UpdateBook(c.books, id, f).result.Ok?
    ensures AllBalanced(Circulation(BookService.UpdateBook(c.books, id, f).after, c.records))
            <==> f.totalCopies == c.books[id].totalCopies
  {
    var c' := Circulation(BookService.UpdateBook(c.books, id, f).after, c.records);
    assert Balanced(c, id);
    if f.totalCopies == c.books[id].totalCopies {
      forall b | b in c'.books ensures Balanced(c', b) {
        assert Balanced(c, b);
      }
    } else {
      assert !Balanced(c', id);
    }
  }

  /** Changing a status, or deleting a book no record refers to, keeps every
      remaining book balanced. */
  lemma StatusAndDeleteKeepBalance(c: Circulation, id: Id, status: BookStatus, inUse: set<Id>)
    requires AllBalanced(c)
    requires forall k :: k in c.records ==> c.records[k].bookId in inUse
    ensures AllBalanced(Circulation(BookService.UpdateBookStatus(c.books, id, status).after, c.records))
    ensures AllBalanced(Circulation(BookService.DeleteBook(c.books, inUse, id).after, c.records))
  {
    var c1 := Circulation(BookService.UpdateBookStatus(c.books, id, status).after, c.records);
    forall b | b in c1.books ensures Balanced(c1, b) {
      assert Balanced(c, b);
    }
    var c2 := Circulation(BookService.DeleteBook(c.books, inUse, id).after, c.records);
    forall b | b in c2.books ensures Balanced(c2, b) {
      assert Balanced(c, b);
    }
  }
}
