/** The borrow lifecycle of `BorrowRecordServiceImpl`: a record is requested
    (PENDING), then approved (BORROWED) or rejected (REJECTED), and a borrowed
    record is returned (RETURNED). Approval takes a copy off the book's
    available counter and return puts one back. Each operation is a transition
    of the book and borrow-record tables; a failing check leaves both as they
    were. */
module BorrowRecordService {
  import opened Common
  import opened BookEntity

  datatype BorrowStatus = Pending | Borrowed | Rejected | Returned

  /** A borrow record, with its user and book kept as ids. `returnDate` is
      absent until the book comes back. */
  datatype BorrowRecord = BorrowRecord(
    userId: Id,
    bookId: Id,
    borrowDate: Time,
    dueDate: Time,
    returnDate: Option<Time>,
    status: BorrowStatus)

  /** The two tables the borrow service writes. */
  datatype Circulation = Circulation(books: map<Id, Book>, records: map<Id, BorrowRecord>)

  /** Every record's book is in the book table (the record's foreign key). */
  predicate RecordsReferToBooks(c: Circulation) {
    forall id :: id in c.records ==> c.records[id].bookId in c.books
  }

  /** The status moves of the lifecycle. REJECTED and RETURNED have none. */
  predicate IsTransition(from: BorrowStatus, to: BorrowStatus) {
    || (from == Pending && to == Borrowed)
    || (from == Pending && to == Rejected)
    || (from == Borrowed && to == Returned)
  }

  /** `createBorrowRequest(userId, bookId, dueDate)`: the user and the book
      must exist and the book must have a copy available right now; the new
      record is PENDING and the counter is not touched. */
  function CreateBorrowRequest(c: Circulation, userIds: set<Id>, userId: Id, bookId: Id,
                               dueDate: Time, now: Time, newId: Id): (s: Step<BorrowRecord, Circulation>)
    requires newId !in c.records
    ensures s.result.Ok? <==> userId in userIds && bookId in c.books && c.books[bookId].availableCopies > 0
    ensures userId !in userIds ==> s.result == Err(UserNotFound)
    ensures userId in userIds && bookId !in c.books ==> s.result == Err(BookNotFound)
    ensures userId in userIds && bookId in c.books && s.result.Err? ==> s.result.error == NoAvailableCopies
    ensures s.result.Err? ==> s.after == c
    ensures s.result.Ok? ==> s.after == Circulation(c.books, c.records[newId := s.result.value])
    ensures s.result.Ok? ==> s.result.value == BorrowRecord(userId, bookId, now, dueDate, None, Pending)
  {
    if userId !in userIds then Step(Err(UserNotFound), c)
    else if bookId !in c.books then Step(Err(BookNotFound), c)
    else if c.books[bookId].availableCopies <= 0 then Step(Err(NoAvailableCopies), c)
    else
      var r := BorrowRecord(userId, bookId, now, dueDate, None, Pending);
      Step(Ok(r), Circulation(c.books, c.records[newId := r]))
  }

  /** `approveBorrowRequest`: only a PENDING record of a book with a copy
      available is approved; it becomes BORROWED and the book's available
      counter drops by exactly one. */
  function ApproveBorrowRequest(c: Circulation, id: Id): (s: Step<BorrowRecord, Circulation>)
    requires id in c.records ==> c.records[id].bookId in c.books
    ensures s.result.Ok? <==> id in c.records && c.records[id].status == Pending
                              && c.books[c.records[id].bookId].availableCopies > 0
    ensures id !in c.records ==> s.result == Err(BorrowRecordNotFound)
    ensures id in c.records && c.records[id].status != Pending ==> s.result == Err(RecordNotPending)
    ensures id in c.records && c.records[id].status == Pending && s.result.Err? ==> s.result.error == NoAvailableCopies
    ensures s.result.Err? ==> s.after == c
    ensures s.result.Ok? ==>
      var r := c.records[id];
      var b := c.books[r.bookId];
      && s.result.value == r.(status := Borrowed)
      && s.after.records == c.records[id := r.(status := Borrowed)]
      && s.after.books == c.books[r.bookId := b.(availableCopies := b.availableCopies - 1)]
      && s.after.books[r.bookId].availableCopies >= 0
  {
    if id !in c.records then Step(Err(BorrowRecordNotFound), c)
    else
      var r := c.records[id];
      if r.status != Pending then Step(Err(RecordNotPending), c)
      else
        var b := c.books[r.bookId];
        if b.availableCopies <= 0 then Step(Err(NoAvailableCopies), c)
        else
          var r' := r.(status := Borrowed);
          Step(Ok(r'), Circulation(c.books[r.bookId := b.(availableCopies := b.availableCopies - 1)],
                                   c.records[id := r']))
  }

  /** `rejectBorrowRequest`: only a PENDING record is rejected; the book is not
      touched. The reason is accepted and not stored. */
  function RejectBorrowRequest(c: Circulation, id: Id, reason: string): (s: Step<BorrowRecord, Circulation>)
    ensures s.result.Ok? <==> id in c.records && c.records[id].status == Pending
    ensures id !in c.records ==> s.result == Err(BorrowRecordNotFound)
    ensures id in c.records && s.result.Err? ==> s.result.error == RecordNotPending
    ensures s.result.Err? ==> s.after == c
    ensures s.result.Ok? ==>
      && s.result.value == c.records[id].(status := Rejected)
      && s.after == Circulation(c.books, c.records[id := s.result.value])
  {
    if id !in c.records then Step(Err(BorrowRecordNotFound), c)
    else if c.records[id].status != Pending then Step(Err(RecordNotPending), c)
    else
      var r' := c.records[id].(status := Rejected);
      Step(Ok(r'), Circulation(c.books, c.records[id := r']))
  }

  /** `returnBook`: only a BORROWED record is returned; it records the return
      time and the book's available counter goes up by one, with no cap at
      the total and in Java `int` arithmetic. */
  function ReturnBook(c: Circulation, id: Id, now: Time): (s: Step<BorrowRecord, Circulation>)
    requires id in c.records ==> c.records[id].bookId in c.books
    ensures s.result.Ok? <==> id in c.records && c.records[id].status == Borrowed
    ensures id !in c.records ==> s.result == Err(BorrowRecordNotFound)
    ensures id in c.records && s.result.Err? ==> s.result.error == RecordNotBorrowed
    ensures s.result.Err? ==> s.after == c
    ensures s.result.Ok? ==>
      var r := c.records[id];
      var b := c.books[r.bookId];
      && s.result.value == r.(status := Returned, returnDate := Some(now))
      && s.after.records == c.records[id := s.result.value]
      && s.after.books == c.books[r.bookId := b.(availableCopies := AddInt32(b.availableCopies, 1))]
  {
    if id !in c.records then Step(Err(BorrowRecordNotFound), c)
    else
      var r := c.records[id];
      if r.status != Borrowed then Step(Err(RecordNotBorrowed), c)
      else
        var b := c.books[r.bookId];
        var r' := r.(status := Returned, returnDate := Some(now));
        Step(Ok(r'), Circulation(c.books[r.bookId := b.(availableCopies := AddInt32(b.availableCopies, 1))],
                                 c.records[id := r']))
  }

  /** `deleteBorrowRecord`: removes the record whatever its status, and does
      not give a borrowed copy back to the book. */
  function DeleteBorrowRecord(c: Circulation, id: Id): (s: Step<(), Circulation>)
    ensures s.result.Ok? <==> id in c.records
    ensures s.result.Err? ==> s.result.error == BorrowRecordNotFound && s.after == c
    ensures s.result.Ok? ==> s.after == Circulation(c.books, c.records - {id})
  {
    if id !in c.records then Step(Err(BorrowRecordNotFound), c)
    else Step(Ok(()), Circulation(c.books, c.records - {id}))
  }

  /** `getOverdueRecords(now)`: the BORROWED records due strictly before `now`. */
  function OverdueRecords(records: map<Id, BorrowRecord>, now: Time): (r: map<Id, BorrowRecord>)
    ensures forall id :: id in r ==> id in records && r[id] == records[id]
    ensures forall id :: id in records ==>
      (id in r <==> records[id].status == Borrowed && records[id].dueDate < now)
  {
    map id | id in records && records[id].status == Borrowed && records[id].dueDate < now :: records[id]
  }

  // ----- The lifecycle -----

  /** A record that is REJECTED or RETURNED accepts no further move: approval,
      rejection and return all fail and change nothing. */
  lemma FinishedRecordsAreFinal(c: Circulation, id: Id, reason: string, now: Time)
    requires id in c.records && c.records[id].bookId in c.books
    requires c.records[id].status == Rejected || c.records[id].status == Returned
    ensures ApproveBorrowRequest(c, id) == Step(Err(RecordNotPending), c)
    ensures RejectBorrowRequest(c, id, reason) == Step(Err(RecordNotPending), c)
    ensures ReturnBook(c, id, now) == Step(Err(RecordNotBorrowed), c)
  {
  }

  /** Returning the same record twice: the second call fails because the
      record is already RETURNED, and leaves the first call's effects alone. */
  lemma SecondReturnFails(c: Circulation, id: Id, now: Time, later: Time)
    requires id in c.records && c.records[id].bookId in c.books
    requires ReturnBook(c, id, now).result.Ok?
    ensures var after := ReturnBook(c, id, now).after;
      ReturnBook(after, id, later) == Step(Err(RecordNotBorrowed), after)
  {
  }

  /** Each successful approval, rejection or return moves the one record it
      names along a lifecycle transition and leaves every other record as it
      was. */
  lemma SuccessfulCallsFollowTheLifecycle(c: Circulation, id: Id, reason: string, now: Time)
    requires id in c.records && c.records[id].bookId in c.books
    ensures var s := ApproveBorrowRequest(c, id);
      s.result.Ok? ==> IsTransition(c.records[id].status, s.after.records[id].status)
    ensures var s := RejectBorrowRequest(c, id, reason);
      s.result.Ok? ==> IsTransition(c.records[id].status, s.after.records[id].status)
    ensures var s := ReturnBook(c, id, now);
      s.result.Ok? ==> IsTransition(c.records[id].status, s.after.records[id].status)
    ensures forall k :: k in c.records && k != id ==>
      && ApproveBorrowRequest(c, id).after.records[k] == c.records[k]
      && RejectBorrowRequest(c, id, reason).after.records[k] == c.records[k]
      && ReturnBook(c, id, now).after.records[k] == c.records[k]
  {
  }

  // ----- Copies on loan and the per-book stock -----

  /** The records of `bookId` that are currently BORROWED. */
  function LoanIds(records: map<Id, BorrowRecord>, bookId: Id): set<Id> {
    set id | id in records && records[id].bookId == bookId && records[id].status == Borrowed
  }

  function OnLoan(records: map<Id, BorrowRecord>, bookId: Id): nat {
    |LoanIds(records, bookId)|
  }

  /** A book's copies counted both ways: those available plus those on loan. */
  function Stock(c: Circulation, bookId: Id): int
    requires bookId in c.books
  {
    c.books[bookId].availableCopies + OnLoan(c.records, bookId)
  }

  /** The book table keeps its keys and totals, and every book's stock is as
      it was. */
  predicate SameStock(c: Circulation, c': Circulation) {
    && c'.books.Keys == c.books.Keys
    && forall b :: b in c.books ==>
         c'.books[b].totalCopies == c.books[b].totalCopies && Stock(c', b) == Stock(c, b)
  }

  /** How the loan set of a book changes when one record is written. */
  lemma LoanIdsAfterWrite(records: map<Id, BorrowRecord>, id: Id, r: BorrowRecord, bookId: Id)
    ensures LoanIds(records[id := r], bookId)
         == (LoanIds(records, bookId) - {id})
            + (if r.bookId == bookId && r.status == Borrowed then {id} else {})
  {
  }

  /** Writing a record whose loan status and book are those of the record it
      replaces (or, for a new record, that is not BORROWED) changes no book's
      loan count. */
  lemma OnLoanUnchangedByWrite(records: map<Id, BorrowRecord>, id: Id, r: BorrowRecord)
    requires id in records ==> records[id].bookId == r.bookId
    requires id in records ==> (records[id].status == Borrowed <==> r.status == Borrowed)
    requires id !in records ==> r.status != Borrowed
    ensures forall b :: OnLoan(records[id := r], b) == OnLoan(records, b)
  {
    forall b ensures OnLoan(records[id := r], b) == OnLoan(records, b) {
      LoanIdsAfterWrite(records, id, r, b);
      assert LoanIds(records[id := r], b) == LoanIds(records, b);
    }
  }

  /** Writing a record of `r.bookId` that moves it between BORROWED and not
      BORROWED shifts that book's loan count by one and no other book's. */
  lemma OnLoanShiftedByWrite(records: map<Id, BorrowRecord>, id: Id, r: BorrowRecord)
    requires id in records && records[id].bookId == r.bookId
    ensures records[id].status != Borrowed && r.status == Borrowed ==>
      OnLoan(records[id := r], r.bookId) == OnLoan(records, r.bookId) + 1
    ensures records[id].status == Borrowed && r.status != Borrowed ==>
      OnLoan(records[id := r], r.bookId) == OnLoan(records, r.bookId) - 1
    ensures forall b :: b != r.bookId ==> OnLoan(records[id := r], b) == OnLoan(records, b)
  {
    LoanIdsAfterWrite(records, id, r, r.bookId);
    forall b | b != r.bookId ensures OnLoan(records[id := r], b) == OnLoan(records, b) {
      LoanIdsAfterWrite(records, id, r, b);
      assert LoanIds(records[id := r], b) == LoanIds(records, b);
    }
  }

  lemma CreateBorrowRequestKeepsStock(c: Circulation, userIds: set<Id>, userId: Id, bookId: Id,
                                      dueDate: Time, now: Time, newId: Id)
    requires newId !in c.records
    ensures SameStock(c, CreateBorrowRequest(c, userIds, userId, bookId, dueDate, now, newId).after)
  {
    var s := CreateBorrowRequest(c, userIds, userId, bookId, dueDate, now, newId);
    if s.result.Ok? {
      OnLoanUnchangedByWrite(c.records, newId, s.result.value);
    }
  }

  lemma ApproveKeepsStock(c: Circulation, id: Id)
    requires id in c.records ==> c.records[id].bookId in c.books
    ensures SameStock(c, ApproveBorrowRequest(c, id).after)
  {
    var s := ApproveBorrowRequest(c, id);
    if s.result.Ok? {
      OnLoanShiftedByWrite(c.records, id, s.result.value);
    }
  }

  lemma RejectKeepsStock(c: Circulation, id: Id, reason: string)
    ensures SameStock(c, RejectBorrowRequest(c, id, reason).after)
  {
    var s := RejectBorrowRequest(c, id, reason);
    if s.result.Ok? {
      OnLoanUnchangedByWrite(c.records, id, s.result.value);
    }
  }

  /** Return keeps the stock as long as the available counter plus one still
      fits in an `int`; past the largest `int`, Java's `+ 1` wraps around. */
  lemma ReturnKeepsStock(c: Circulation, id: Id, now: Time)
    requires id in c.records ==> c.records[id].bookId in c.books
    requires id in c.records && c.records[id].status == Borrowed ==>
      IsInt32(c.books[c.records[id].bookId].availableCopies + 1)
    ensures SameStock(c, ReturnBook(c, id, now).after)
  {
    var s := ReturnBook(c, id, now);
    if s.result.Ok? {
      OnLoanShiftedByWrite(c.records, id, s.result.value);
    }
  }

  /** Deleting a BORROWED record loses one copy of its book from the stock;
      deleting a record in any other state keeps every stock. */
  lemma DeleteBorrowRecordLosesLoanedCopy(c: Circulation, id: Id)
    requires id in c.records && c.records[id].bookId in c.books
    ensures var s := DeleteBorrowRecord(c, id);
      var b := c.records[id].bookId;
      && (c.records[id].status == Borrowed ==> Stock(s.after, b) == Stock(c, b) - 1)
      && (c.records[id].status != Borrowed ==> SameStock(c, s.after))
      && forall b' :: b' in c.books && b' != b ==> Stock(s.after, b') == Stock(c, b')
  {
    var s := DeleteBorrowRecord(c, id);
    var b := c.records[id].bookId;
    forall b' ensures LoanIds(s.after.records, b') == LoanIds(c.records, b') - {id} {
    }
    assert c.records[id].status == Borrowed ==> id in LoanIds(c.records, b);
    assert c.records[id].status != Borrowed ==> forall b' :: id !in LoanIds(c.records, b');
  }

  // ----- Approvals one after another -----

  /** The listed records that are PENDING in `c`: the only ones an approval
      can still succeed for. */
  function PendingListed(c: Circulation, ids: seq<Id>): set<Id> {
    set id | id in ids && id in c.records && c.records[id].status == Pending
  }

  lemma SubsetNoLarger(a: set<Id>, b: set<Id>)
    requires a <= b
    ensures |a| <= |b|
  {
    assert b == a + (b - a);
  }

  /** Approving `ids[0]` leaves PENDING only listed records that were PENDING
      before, and not `ids[0]` itself when the approval succeeded. */
  lemma PendingListedAfterApproval(c: Circulation, ids: seq<Id>)
    requires RecordsReferToBooks(c) && ids != []
    ensures var s := ApproveBorrowRequest(c, ids[0]);
      && (s.result.Ok? ==> ids[0] in PendingListed(c, ids))
      && PendingListed(s.after, ids[1..])
         <= PendingListed(c, ids) - (if s.result.Ok? then {ids[0]} else {})
  {
    var s := ApproveBorrowRequest(c, ids[0]);
    forall id | id in PendingListed(s.after, ids[1..])
      ensures id in PendingListed(c, ids) - (if s.result.Ok? then {ids[0]} else {})
    {
      var i :| 0 <= i < |ids[1..]| && ids[1..][i] == id;
      assert ids[i + 1] == id;
    }
  }

  /** Approve the records `ids` one after the other; the final tables and how
      many of the approvals succeeded. An approval succeeds only for a record
      still PENDING, and success moves it out of PENDING, so at most one
      approval per distinct PENDING record listed succeeds, whatever the
      repetitions in `ids`. */
  function ApproveInOrder(c: Circulation, ids: seq<Id>): (r: (Circulation, nat))
    requires RecordsReferToBooks(c)
    ensures RecordsReferToBooks(r.0)
    ensures r.1 <= |PendingListed(c, ids)|
    ensures r.1 <= |ids|
    decreases |ids|
  {
    if ids == [] then (c, 0)
    else
      var s := ApproveBorrowRequest(c, ids[0]);
      var rest := ApproveInOrder(s.after, ids[1..]);
      PendingListedAfterApproval(c, ids);
      SubsetNoLarger(PendingListed(s.after, ids[1..]),
                     PendingListed(c, ids) - (if s.result.Ok? then {ids[0]} else {}));
      (rest.0, rest.1 + if s.result.Ok? then 1 else 0)
  }

  function Min(a: int, b: int): int {
    if a <= b then a else b
  }

  /** However approvals of distinct PENDING records of one book are ordered,
      exactly as many succeed as the book had copies available (or all of
      them, if there are fewer; none when the counter is negative), and the
      counter ends that much lower. */
  lemma {:induction false} ApprovalsSucceedUpToStock(c: Circulation, ids: seq<Id>, b: Id)
    requires RecordsReferToBooks(c)
    requires b in c.books
    requires forall i :: 0 <= i < |ids| ==>
      ids[i] in c.records && c.records[ids[i]].bookId == b && c.records[ids[i]].status == Pending
    requires forall i, j :: 0 <= i < j < |ids| ==> ids[i] != ids[j]
    ensures var r := ApproveInOrder(c, ids);
      && r.1 == Min(if c.books[b].availableCopies < 0 then 0 else c.books[b].availableCopies, |ids|)
      && b in r.0.books
      && r.0.books[b].availableCopies == c.books[b].availableCopies - r.1
    decreases |ids|
  {
    if ids != [] {
      var s := ApproveBorrowRequest(c, ids[0]);
      var rest := ids[1..];
      forall i | 0 <= i < |rest|
        ensures rest[i] in s.after.records && s.after.records[rest[i]].bookId == b
        ensures s.after.records[rest[i]].status == Pending
      {
        assert rest[i] == ids[i + 1] && ids[i + 1] != ids[0];
      }
      ApprovalsSucceedUpToStock(s.after, rest, b);
    }
  }

  // ----- Overdue records -----

  /** The overdue set only grows as time passes, holds only records on loan,
      and a record that has just been returned is in it at no time. */
  lemma OverdueRecordsAreLoansPastDue(c: Circulation, id: Id, now: Time, later: Time, returnedAt: Time)
    requires now <= later
    requires id in c.records ==> c.records[id].bookId in c.books
    ensures OverdueRecords(c.records, now).Keys <= OverdueRecords(c.records, later).Keys
    ensures forall k :: k in OverdueRecords(c.records, now) ==> k in LoanIds(c.records, c.records[k].bookId)
    ensures var s := ReturnBook(c, id, returnedAt);
      s.result.Ok? ==> id !in OverdueRecords(s.after.records, later)
  {
  }
}
