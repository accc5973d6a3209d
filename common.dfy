/** Values shared by every part of the library model: identifiers, time, the
    failures the services raise, the outcome of an operation on a table, and
    Java's 32-bit `int` arithmetic. */
module Common {

  /** A table key: the `Long` id the database generates for a new row. */
  type Id = int

  /** A point in time, counted in seconds. `LocalDateTime.isBefore` becomes `<`
      and `plusDays(n)` becomes `+ n * SecondsPerDay`. */
  type Time = int

  const SecondsPerDay: int := 86400

  datatype Option<+T> = None | Some(value: T)

  /** The exceptions the services throw, one constructor for one or more of
      their messages or codes (listed in the comment), plus the database's refusal to delete a
      row that another row still refers to. */
  datatype Error =
    | UserNotFound                 // "User not found", USER_NOT_FOUND
    | BookNotFound                 // "Book not found"
    | BorrowRecordNotFound         // "Borrow record not found"
    | NoAvailableCopies            // "No available copies"
    | RecordNotPending             // "Record is not pending"
    | RecordNotBorrowed            // "Record is not borrowed"
    | ReservationNotFound          // "Reservation not found"
    | BookNotReservable            // "Book is not available for reservation"
    | DuplicatePendingReservation  // "User already has a pending reservation for this book"
    | NotReservationOwner          // "Unauthorized to cancel this reservation"
    | ReservationNotPending        // "Only pending reservations can be cancelled", "Reservation is not pending"
    | BookNotYetAvailable          // "Book is not yet available"
    | ReservationExpired           // "Reservation has expired"
    | IsbnExists                   // "ISBN already exists"
    | StockBelowZero               // "Cannot reduce stock below 0"
    | CategoryNameExists           // "Category name already exists"
    | CategoryNotFound             // "Category not found"
    | UsernameExists               // USERNAME_EXISTS
    | EmailExists                  // EMAIL_EXISTS
    | ReviewNotFound               // "Review not found"
    | InvalidRegisterCode          // INVALID_REGISTER_CODE
    | StillReferenced              // a foreign key still points at the row being deleted

  /** What a service call gives back: the saved entity, or the exception. */
  datatype Result<+T> = Ok(value: T) | Err(error: Error)

  /** The outcome of one operation on a table: the caller's result and the
      table as the operation leaves it. */
  datatype Step<+T, +S> = Step(result: Result<T>, after: S)

  /** Every key of the table is below the next id the table will hand out. */
  predicate IdsBelow<V>(m: map<Id, V>, next: Id) {
    forall id :: id in m ==> id < next
  }

  const MinInt32: int := -0x8000_0000
  const MaxInt32: int := 0x7fff_ffff
  const TwoTo32: int := 0x1_0000_0000

  predicate IsInt32(x: int) {
    MinInt32 <= x <= MaxInt32
  }

  /** The value a Java `int` holds after an arithmetic result `x`: `x` itself
      when it fits, otherwise `x` wrapped around modulo 2^32. */
  function Wrap32(x: int): (r: int)
    ensures IsInt32(r)
    ensures IsInt32(x) ==> r == x
    ensures (x - r) % TwoTo32 == 0
  {
    (x - MinInt32) % TwoTo32 + MinInt32
  }

  /** Java's `a + b` on two `int`s. */
  function AddInt32(a: int, b: int): (r: int)
    ensures IsInt32(r)
    ensures IsInt32(a + b) ==> r == a + b
    ensures IsInt32(a) && IsInt32(b) && a + b > MaxInt32 ==> r == a + b - TwoTo32
  {
    assert IsInt32(a) && IsInt32(b) ==> a + b - MinInt32 < 2 * TwoTo32;
    Wrap32(a + b)
  }

  /** Adding one to the largest `int` gives the smallest. */
  lemma IncrementWrapsAtMax()
    ensures AddInt32(MaxInt32, 1) == MinInt32
  {
  }

  /** A non-empty set has an element, so `:|` can pick one. */
  lemma NonEmptyHasElement(s: set<Id>)
    requires s != {}
    ensures exists x :: x in s
  {
    if forall x :: x !in s {
      assert false;
    }
  }
}
