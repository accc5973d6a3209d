/** The library's tables as one object whose operations update them in place,
    the way the service implementations load an entity, check it, set its
    fields and save it. Each method is proved to leave the tables exactly as
    the corresponding transition of the service modules does, and to keep
    the tables consistent. */
module LibrarySystem {
  import opened Common
  import opened BookEntity
  import BookService
  import BRS = BorrowRecordService
  import RE = ReservationEntity
  import RS = ReservationService
  import CategoryService
  import US = UserService
  import UserController
  import RV = ReviewService
  import Ledger

  /** Every borrow record refers to a stored book and user. */
  predicate RecordsValid(books: map<Id, Book>, users: US.Users, records: map<Id, BRS.BorrowRecord>) {
    forall k :: k in records ==> records[k].bookId in books && records[k].userId in users
  }

  /** Every reservation refers to a stored book and user, and no user waits
      twice for the same book. */
  predicate ReservationsValid(books: map<Id, Book>, users: US.Users, rs: RS.Reservations) {
    && (forall k :: k in rs ==> rs[k].bookId in books && rs[k].userId in users)
    && RS.AtMostOnePending(rs)
  }

  /** Every review refers to a stored book and user. */
  predicate ReviewsValid(books: map<Id, Book>, users: US.Users, reviews: RV.Reviews) {
    forall k :: k in reviews ==> reviews[k].bookId in books && reviews[k].userId in users
  }

  class Library {
    var books: map<Id, Book>
    var users: US.Users
    var categories: CategoryService.Categories
    var records: map<Id, BRS.BorrowRecord>
    var reservations: RS.Reservations
    var reviews: RV.Reviews
    /** The next id the database hands out; every stored id is below it. */
    var nextId: Id

    predicate Valid()
      reads this
    {
      && BookService.Catalogue(books)
      && US.Accounts(users)
      && CategoryService.NamesUnique(categories)
      && RecordsValid(books, users, records)
      && ReservationsValid(books, users, reservations)
      && ReviewsValid(books, users, reviews)
      && IdsBelow(books, nextId) && IdsBelow(users, nextId) && IdsBelow(categories, nextId)
      && IdsBelow(records, nextId) && IdsBelow(reservations, nextId) && IdsBelow(reviews, nextId)
    }

    function Circulation(): BRS.Circulation
      reads this
    {
      BRS.Circulation(books, records)
    }

    /** The books that a borrow record, reservation or review refers to. */
    function BooksInUse(): (ids: set<Id>)
      reads this
      ensures forall k :: k in records ==> records[k].bookId in ids
      ensures forall k :: k in reservations ==> reservations[k].bookId in ids
      ensures forall k :: k in reviews ==> reviews[k].bookId in ids
    {
      (set k | k in records :: records[k].bookId)
      + (set k | k in reservations :: reservations[k].bookId)
      + (set k | k in reviews :: reviews[k].bookId)
    }

    /** The users that a borrow record, reservation or review refers to. */
    function UsersInUse(): (ids: set<Id>)
      reads this
      ensures forall k :: k in records ==> records[k].userId in ids
      ensures forall k :: k in reservations ==> reservations[k].userId in ids
      ensures forall k :: k in reviews ==> reviews[k].userId in ids
    {
      (set k | k in records :: records[k].userId)
      + (set k | k in reservations :: reservations[k].userId)
      + (set k | k in reviews :: reviews[k].userId)
    }

    constructor ()
      ensures Valid()
      ensures books == map[] && users == map[] && categories == map[]
      ensures records == map[] && reservations == map[] && reviews == map[]
      ensures nextId == 1
    {
      books, users, categories := map[], map[], map[];
      records, reservations, reviews := map[], map[], map[];
      nextId := 1;
    }

    // ----- Books -----

    method CreateBook(f: BookForm) returns (res: Result<Book>)
      requires Valid() && IsInt32(f.totalCopies)
      modifies this`books, this`nextId
      ensures Valid()
      ensures var s := BookService.CreateBook(old(books), f, old(nextId));
        res == s.result && books == s.after
      ensures nextId == old(nextId) + (if res.Ok? then 1 else 0)
      ensures old(Ledger.AllBalanced(Circulation())) ==> Ledger.AllBalanced(Circulation())
    {
      if BookService.IsbnTaken(books, f.isbn) {
        return Err(IsbnExists);
      }
      var b := OnCreate(f.(availableCopies := Some(f.totalCopies)));
      if Ledger.AllBalanced(Circulation()) {
        Ledger.CreateBookKeepsBalance(Circulation(), f, nextId);
      }
      BookService.CreateBookKeepsCatalogue(books, f, nextId);
      books := books[nextId := b];
      nextId := nextId + 1;
      res := Ok(b);
    }

    method UpdateBook(id: Id, f: BookForm) returns (res: Result<Book>)
      requires Valid() && IsInt32(f.totalCopies)
      modifies this`books
      ensures Valid()
      ensures var s := BookService.UpdateBook(old(books), id, f);
        res == s.result && books == s.after
    {
      BookService.UpdateBookKeepsCatalogue(books, id, f);
      if id !in books {
        return Err(BookNotFound);
      }
      var b := books[id];
      if b.isbn != f.isbn && BookService.IsbnTaken(books, f.isbn) {
        return Err(IsbnExists);
      }
      b := b.(title := f.title, author := f.author, isbn := f.isbn, categoryId := f.categoryId,
              description := f.description, totalCopies := f.totalCopies, status := f.status);
      books := books[id := b];
      res := Ok(b);
    }

    method DeleteBook(id: Id) returns (res: Result<()>)
      requires Valid()
      modifies this`books
      ensures Valid()
      ensures var s := BookService.DeleteBook(old(books), old(BooksInUse()), id);
        res == s.result && books == s.after
      ensures old(Ledger.AllBalanced(Circulation())) ==> Ledger.AllBalanced(Circulation())
    {
      BookService.DeleteStatusAndStockKeepCatalogue(books, BooksInUse(), id, Available, 0);
      if Ledger.AllBalanced(Circulation()) {
        Ledger.StatusAndDeleteKeepBalance(Circulation(), id, Available, BooksInUse());
      }
      if id !in books {
        return Err(BookNotFound);
      }
      if id in BooksInUse() {
        return Err(StillReferenced);
      }
      books := books - {id};
      res := Ok(());
    }

    method UpdateBookStatus(id: Id, status: BookStatus) returns (res: Result<()>)
      requires Valid()
      modifies this`books
      ensures Valid()
      ensures var s := BookService.UpdateBookStatus(old(books), id, status);
        res == s.result && books == s.after
      ensures old(Ledger.AllBalanced(Circulation())) ==> Ledger.AllBalanced(Circulation())
    {
      BookService.DeleteStatusAndStockKeepCatalogue(books, {}, id, status, 0);
      if Ledger.AllBalanced(Circulation()) {
        Ledger.StatusAndDeleteKeepBalance(Circulation(), id, status, BooksInUse());
      }
      if id !in books {
        return Err(BookNotFound);
      }
      books := books[id := books[id].(status := status)];
      res := Ok(());
    }

    method UpdateBookStock(id: Id, quantity: int) returns (res: Result<()>)
      requires Valid() && IsInt32(quantity)
      modifies this`books
      ensures Valid()
      ensures var s := BookService.UpdateBookStock(old(books), id, quantity);
        res == s.result && books == s.after
    {
      BookService.DeleteStatusAndStockKeepCatalogue(books, {}, id, Available, quantity);
      if id !in books {
        return Err(BookNotFound);
      }
      var b := books[id];
      var newTotal := AddInt32(b.totalCopies, quantity);
      if newTotal < 0 {
        return Err(StockBelowZero);
      }
      books := books[id := b.(totalCopies := newTotal, availableCopies := AddInt32(b.availableCopies, quantity))];
      res := Ok(());
    }

    // ----- Borrow records -----

    method CreateBorrowRequest(userId: Id, bookId: Id, dueDate: Time, now: Time) returns (res: Result<BRS.BorrowRecord>)
      requires Valid()
      modifies this`records, this`nextId
      ensures Valid() && books == old(books)
      ensures var s := BRS.CreateBorrowRequest(old(Circulation()), old(users.Keys), userId, bookId, dueDate, now, old(nextId));
        res == s.result && Circulation() == s.after
      ensures nextId == old(nextId) + (if res.Ok? then 1 else 0)
      ensures old(Ledger.AllBalanced(Circulation())) ==> Ledger.AllBalanced(Circulation())
    {
      if Ledger.AllBalanced(Circulation()) {
        Ledger.LifecycleKeepsBalance(Circulation(), users.Keys, userId, bookId, dueDate, now, nextId, nextId, "");
      }
      if userId !in users {
        return Err(UserNotFound);
      }
      if bookId !in books {
        return Err(BookNotFound);
      }
      if books[bookId].availableCopies <= 0 {
        return Err(NoAvailableCopies);
      }
      var r := BRS.BorrowRecord(userId, bookId, now, dueDate, None, BRS.Pending);
      records := records[nextId := r];
      nextId := nextId + 1;
      res := Ok(r);
    }

    method ApproveBorrowRequest(id: Id) returns (res: Result<BRS.BorrowRecord>)
      requires Valid()
      modifies this`books, this`records
      ensures Valid()
      ensures var s := BRS.ApproveBorrowRequest(old(Circulation()), id);
        res == s.result && Circulation() == s.after
      ensures old(Ledger.AllBalanced(Circulation())) ==> Ledger.AllBalanced(Circulation())
    {
      if Ledger.AllBalanced(Circulation()) {
        Ledger.LifecycleKeepsBalance(Circulation(), users.Keys, 0, 0, 0, 0, nextId, id, "");
      }
      if id !in records {
        return Err(BorrowRecordNotFound);
      }
      var r := records[id];
      if r.status != BRS.Pending {
        return Err(RecordNotPending);
      }
      var b := books[r.bookId];
      if b.availableCopies <= 0 {
        return Err(NoAvailableCopies);
      }
      books := books[r.bookId := b.(availableCopies := b.availableCopies - 1)];
      r := r.(status := BRS.Borrowed);
      records := records[id := r];
      res := Ok(r);
    }

    method RejectBorrowRequest(id: Id, reason: string) returns (res: Result<BRS.BorrowRecord>)
      requires Valid()
      modifies this`records
      ensures Valid() && books == old(books)
      ensures var s := BRS.RejectBorrowRequest(old(Circulation()), id, reason);
        res == s.result && Circulation() == s.after
      ensures old(Ledger.AllBalanced(Circulation())) ==> Ledger.AllBalanced(Circulation())
    {
      if Ledger.AllBalanced(Circulation()) {
        Ledger.LifecycleKeepsBalance(Circulation(), users.Keys, 0, 0, 0, 0, nextId, id, reason);
      }
      if id !in records {
        return Err(BorrowRecordNotFound);
      }
      var r := records[id];
      if r.status != BRS.Pending {
        return Err(RecordNotPending);
      }
      r := r.(status := BRS.Rejected);
      records := records[id := r];
      res := Ok(r);
    }

    method ReturnBook(id: Id, now: Time) returns (res: Result<BRS.BorrowRecord>)
      requires Valid()
      modifies this`books, this`records
      ensures Valid()
      ensures var s := BRS.ReturnBook(old(Circulation()), id, now);
        res == s.result && Circulation() == s.after
      ensures old(Ledger.AllBalanced(Circulation())) ==> Ledger.AllBalanced(Circulation())
    {
      if Ledger.AllBalanced(Circulation()) {
        Ledger.LifecycleKeepsBalance(Circulation(), users.Keys, 0, 0, 0, now, nextId, id, "");
      }
      if id !in records {
        return Err(BorrowRecordNotFound);
      }
      var r := records[id];
      if r.status != BRS.Borrowed {
        return Err(RecordNotBorrowed);
      }
      var b := books[r.bookId];
      books := books[r.bookId := b.(availableCopies := AddInt32(b.availableCopies, 1))];
      r := r.(status := BRS.Returned, returnDate := Some(now));
      records := records[id := r];
      res := Ok(r);
    }

    method DeleteBorrowRecord(id: Id) returns (res: Result<()>)
      requires Valid()
      modifies this`records
      ensures Valid() && books == old(books)
      ensures var s := BRS.DeleteBorrowRecord(old(Circulation()), id);
        res == s.result && Circulation() == s.after
    {
      if id !in records {
        return Err(BorrowRecordNotFound);
      }
      records := records - {id};
      res := Ok(());
    }

    // ----- Reservations -----

    method CreateReservation(bookId: Id, userId: Id, now: Time) returns (res: Result<RE.Reservation>)
      requires Valid()
      modifies this`reservations, this`nextId
      ensures Valid()
      ensures var s := RS.CreateReservation(old(reservations), books, users.Keys, bookId, userId, now, old(nextId));
        res == s.result && reservations == s.after
      ensures nextId == old(nextId) + (if res.Ok? then 1 else 0)
    {
      RS.OperationsKeepAtMostOnePending(reservations, books, users.Keys, bookId, userId, now, nextId, nextId);
      if bookId !in books {
        return Err(BookNotFound);
      }
      if userId !in users {
        return Err(UserNotFound);
      }
      if books[bookId].status != Unavailable {
        return Err(BookNotReservable);
      }
      if RS.HasPending(reservations, userId, bookId) {
        return Err(DuplicatePendingReservation);
      }
      var d := RE.NewDraft(bookId, userId);
      d := d.(reservationDate := Some(now), status := RE.Pending, expirationDate := Some(now + RS.ExpiryWindow));
      var r := RE.OnCreate(d, now);
      reservations := reservations[nextId := r];
      nextId := nextId + 1;
      res := Ok(r);
    }

    method CancelReservation(id: Id, userId: Id) returns (res: Result<()>)
      requires Valid()
      modifies this`reservations
      ensures Valid()
      ensures var s := RS.CancelReservation(old(reservations), id, userId);
        res == s.result && reservations == s.after
    {
      RS.OperationsKeepAtMostOnePending(reservations, books, users.Keys, 0, userId, 0, nextId, id);
      if id !in reservations {
        return Err(ReservationNotFound);
      }
      var r := reservations[id];
      if r.userId != userId {
        return Err(NotReservationOwner);
      }
      if r.status != RE.Pending {
        return Err(ReservationNotPending);
      }
      reservations := reservations[id := r.(status := RE.Cancelled)];
      res := Ok(());
    }

    method FulfillReservation(id: Id, now: Time) returns (res: Result<RE.Reservation>)
      requires Valid()
      modifies this`reservations
      ensures Valid()
      ensures var s := RS.FulfillReservation(old(reservations), books, id, now);
        res == s.result && reservations == s.after
    {
      RS.OperationsKeepAtMostOnePending(reservations, books, users.Keys, 0, 0, now, nextId, id);
      if id !in reservations {
        return Err(ReservationNotFound);
      }
      var r := reservations[id];
      if r.status != RE.Pending {
        return Err(ReservationNotPending);
      }
      if books[r.bookId].status != Available {
        return Err(BookNotYetAvailable);
      }
      if r.expirationDate.Some? && r.expirationDate.value < now {
        return Err(ReservationExpired);
      }
      r := r.(status := RE.Fulfilled, fulfillmentDate := Some(now));
      reservations := reservations[id := r];
      res := Ok(r);
    }

    /** `handleExpiredReservations`: collect the expired PENDING reservations,
        then cancel them one by one. */
    method HandleExpiredReservations(now: Time)
      requires Valid()
      modifies this`reservations
      ensures Valid()
      ensures reservations == RS.Sweep(old(reservations), now)
    {
      RS.OperationsKeepAtMostOnePending(reservations, books, users.Keys, 0, 0, now, nextId, 0);
      var before := reservations;
      var expired := RS.ExpiredIds(before, now);
      var rs := before;
      var todo := expired;
      while todo != {}
        invariant todo <= expired
        invariant rs.Keys == before.Keys
        invariant forall k :: k in rs ==>
          rs[k] == if k in expired && k !in todo then before[k].(status := RE.Cancelled) else before[k]
        decreases todo
      {
        NonEmptyHasElement(todo);
        var id :| id in todo;
        rs := rs[id := rs[id].(status := RE.Cancelled)];
        todo := todo - {id};
      }
      var swept := RS.Sweep(before, now);
      forall k | k in rs ensures rs[k] == swept[k] {
        if k in expired {
          assert RS.ShouldExpire(before[k], now);
        } else {
          assert !RS.ShouldExpire(before[k], now);
        }
      }
      assert rs == swept;
      reservations := rs;
    }

    /** `getNextPendingReservation(bookId)`: the PENDING reservation of the
        book with the earliest reservation date, found by one pass over the
        table. */
    method GetNextPendingReservation(bookId: Id) returns (next: Option<Id>)
      ensures next.None? <==> !RS.HasPendingFor(reservations, bookId)
      ensures next.Some? ==> RS.IsNextPending(reservations, bookId, next.value)
    {
      next := None;
      var todo := reservations.Keys;
      while todo != {}
        invariant todo <= reservations.Keys
        invariant next.None? ==>
          forall k :: k in reservations && k !in todo ==>
            !(reservations[k].bookId == bookId && reservations[k].status == RE.Pending)
        invariant next.Some? ==>
          && next.value in reservations && next.value !in todo
          && reservations[next.value].bookId == bookId && reservations[next.value].status == RE.Pending
          && forall k :: k in reservations && k !in todo && reservations[k].bookId == bookId
                         && reservations[k].status == RE.Pending ==>
               reservations[next.value].reservationDate <= reservations[k].reservationDate
        decreases todo
      {
        NonEmptyHasElement(todo);
        var k :| k in todo;
        var r := reservations[k];
        if r.bookId == bookId && r.status == RE.Pending
           && (next.None? || r.reservationDate < reservations[next.value].reservationDate) {
          next := Some(k);
        }
        todo := todo - {k};
      }
      if next.Some? {
        var v := next.value;
        var rs := reservations;
        assert v in rs && rs[v].bookId == bookId && rs[v].status == RE.Pending;
        assert RS.HasPendingFor(rs, bookId);
      }
    }

    // ----- Categories -----

    method CreateCategory(c: CategoryService.Category) returns (res: Result<CategoryService.Category>)
      requires Valid()
      modifies this`categories, this`nextId
      ensures Valid()
      ensures var s := CategoryService.CreateCategory(old(categories), c, old(nextId));
        res == s.result && categories == s.after
      ensures nextId == old(nextId) + (if res.Ok? then 1 else 0)
    {
      CategoryService.OperationsKeepNamesUnique(categories, c, 0, nextId);
      if CategoryService.NameTaken(categories, c.name) {
        return Err(CategoryNameExists);
      }
      categories := categories[nextId := c];
      nextId := nextId + 1;
      res := Ok(c);
    }

    method UpdateCategory(id: Id, c: CategoryService.Category) returns (res: Result<CategoryService.Category>)
      requires Valid()
      modifies this`categories
      ensures Valid()
      ensures var s := CategoryService.UpdateCategory(old(categories), id, c);
        res == s.result && categories == s.after
    {
      CategoryService.OperationsKeepNamesUnique(categories, c, id, nextId);
      if id !in categories {
        return Err(CategoryNotFound);
      }
      var existing := categories[id];
      if existing.name != c.name && CategoryService.NameTaken(categories, c.name) {
        return Err(CategoryNameExists);
      }
      existing := existing.(name := c.name, description := c.description);
      categories := categories[id := existing];
      res := Ok(existing);
    }

    method DeleteCategory(id: Id) returns (res: Result<()>)
      requires Valid()
      modifies this`categories
      ensures Valid()
      ensures var s := CategoryService.DeleteCategory(old(categories), id);
        res == s.result && categories == s.after
    {
      CategoryService.OperationsKeepNamesUnique(categories, CategoryService.Category("", ""), id, nextId);
      if id !in categories {
        return Err(CategoryNotFound);
      }
      categories := categories - {id};
      res := Ok(());
    }

    // ----- Users -----

    method CreateUser(u: US.User, encode: string -> string) returns (res: Result<US.User>)
      requires Valid()
      modifies this`users, this`nextId
      ensures Valid()
      ensures var s := US.CreateUser(old(users), u, encode, old(nextId));
        res == s.result && users == s.after
      ensures nextId == old(nextId) + (if res.Ok? then 1 else 0)
    {
      US.OperationsKeepAccounts(users, u, US.UserForm("", None, "", "", "", US.Reader, US.Active),
                                encode, {}, nextId, nextId);
      if US.UsernameTaken(users, u.username) {
        return Err(UsernameExists);
      }
      if US.EmailTaken(users, u.email) {
        return Err(EmailExists);
      }
      var saved := u.(password := encode(u.password));
      users := users[nextId := saved];
      nextId := nextId + 1;
      res := Ok(saved);
    }

    /** `register`: decide the role, then create the account. */
    method Register(req: UserController.RegistrationRequest, adminRegisterCode: string,
                    encode: string -> string) returns (res: Result<US.User>)
      requires Valid()
      modifies this`users, this`nextId
      ensures Valid()
      ensures match UserController.Register(req, adminRegisterCode)
        case Err(e) => res == Err(e) && users == old(users) && nextId == old(nextId)
        case Ok(u) =>
          var s := US.CreateUser(old(users), u, encode, old(nextId));
          res == s.result && users == s.after
          && nextId == old(nextId) + (if res.Ok? then 1 else 0)
    {
      var decided := UserController.Register(req, adminRegisterCode);
      match decided
      case Err(e) =>
        res := Err(e);
      case Ok(u) =>
        res := CreateUser(u, encode);
    }

    method UpdateUser(id: Id, f: US.UserForm, encode: string -> string) returns (res: Result<US.User>)
      requires Valid()
      modifies this`users
      ensures Valid()
      ensures var s := US.UpdateUser(old(users), id, f, encode);
        res == s.result && users == s.after
    {
      US.OperationsKeepAccounts(users, US.User("", "", "", "", "", US.Reader, US.Active), f,
                                encode, {}, id, nextId);
      if id !in users {
        return Err(UserNotFound);
      }
      var existing := users[id];
      if existing.username != f.username && US.UsernameTaken(users, f.username) {
        return Err(UsernameExists);
      }
      if existing.email != f.email && US.EmailTaken(users, f.email) {
        return Err(EmailExists);
      }
      existing := existing.(username := f.username, name := f.name, email := f.email, phone := f.phone,
                            role := f.role, status := f.status);
      if f.password.Some? && f.password.value != "" {
        existing := existing.(password := encode(f.password.value));
      }
      users := users[id := existing];
      res := Ok(existing);
    }

    method DeleteUser(id: Id) returns (res: Result<()>)
      requires Valid()
      modifies this`users
      ensures Valid()
      ensures var s := US.DeleteUser(old(users), old(UsersInUse()), id);
        res == s.result && users == s.after
    {
      US.OperationsKeepAccounts(users, US.User("", "", "", "", "", US.Reader, US.Active),
                                US.UserForm("", None, "", "", "", US.Reader, US.Active),
                                (s: string) => s, UsersInUse(), id, nextId);
      if id !in users {
        return Err(UserNotFound);
      }
      if id in UsersInUse() {
        return Err(StillReferenced);
      }
      users := users - {id};
      res := Ok(());
    }

    // ----- Reviews -----

    method CreateReview(req: RV.ReviewRequest, userId: Id, now: Time) returns (res: Result<RV.Review>)
      requires Valid()
      modifies this`reviews, this`nextId
      ensures Valid()
      ensures var s := RV.CreateReview(old(reviews), books.Keys, users.Keys, req, userId, now, old(nextId));
        res == s.result && reviews == s.after
      ensures nextId == old(nextId) + (if res.Ok? then 1 else 0)
    {
      if req.bookId !in books {
        return Err(BookNotFound);
      }
      if userId !in users {
        return Err(UserNotFound);
      }
      var r := RV.Review(req.bookId, userId, req.rating, req.comment, RV.Pending, now);
      reviews := reviews[nextId := r];
      nextId := nextId + 1;
      res := Ok(r);
    }

    /** `approveReview` (verdict APPROVED) and `rejectReview` (verdict
        REJECTED). */
    method ModerateReview(id: Id, verdict: RV.ReviewStatus) returns (res: Result<RV.Review>)
      requires Valid() && verdict != RV.Pending
      modifies this`reviews
      ensures Valid()
      ensures var s := RV.Moderate(old(reviews), id, verdict);
        res == s.result && reviews == s.after
    {
      if id !in reviews {
        return Err(ReviewNotFound);
      }
      var r := reviews[id].(status := verdict);
      reviews := reviews[id := r];
      res := Ok(r);
    }
  }
}
