/** The reservation waitlist of `ReservationServiceImpl`: a reader reserves a
    book that is UNAVAILABLE, may cancel the reservation while it is PENDING,
    and a PENDING reservation is fulfilled once the book is AVAILABLE again,
    unless it has expired. A daily sweep cancels the expired PENDING ones.
    Each operation is a transition of the reservation table; a failing check
    leaves it as it was. */
module ReservationService {
  import opened Common
  import opened BookEntity
  import opened ReservationEntity

  type Reservations = map<Id, Reservation>

  /** `plusDays(7)`: how long after its creation a reservation expires. */
  const ExpiryWindow: int := 7 * SecondsPerDay

  /** `existsByUserIdAndBookIdAndStatus(userId, bookId, PENDING)`. */
  predicate HasPending(rs: Reservations, userId: Id, bookId: Id) {
    exists id :: id in rs && rs[id].userId == userId && rs[id].bookId == bookId && rs[id].status == Pending
  }

  /** No user holds two PENDING reservations for the same book. */
  predicate AtMostOnePending(rs: Reservations) {
    forall i, j ::
      (&& i in rs && j in rs && rs[i].status == Pending && rs[j].status == Pending
       && rs[i].userId == rs[j].userId && rs[i].bookId == rs[j].bookId) ==> i == j
  }

  /** Every reservation's book is in the book table (its foreign key). */
  predicate ReservationsReferToBooks(rs: Reservations, books: map<Id, Book>) {
    forall id :: id in rs ==> rs[id].bookId in books
  }

  /** `createReservation(bookId, userId)`: the book and the user must exist,
      the book must be UNAVAILABLE, and the user must not already wait for
      it. The new reservation is PENDING, dated `now`, and expires seven days
      later. */
  function CreateReservation(rs: Reservations, books: map<Id, Book>, userIds: set<Id>,
                             bookId: Id, userId: Id, now: Time, newId: Id): (s: Step<Reservation, Reservations>)
    requires newId !in rs
    ensures s.result.Ok? <==>
      && bookId in books && userId in userIds
      && books[bookId].status == Unavailable && !HasPending(rs, userId, bookId)
    ensures bookId !in books ==> s.result == Err(BookNotFound)
    ensures bookId in books && userId !in userIds ==> s.result == Err(UserNotFound)
    ensures bookId in books && userId in userIds && books[bookId].status != Unavailable ==>
      s.result == Err(BookNotReservable)
    ensures bookId in books && userId in userIds && books[bookId].status == Unavailable && s.result.Err? ==>
      s.result.error == DuplicatePendingReservation
    ensures s.result.Err? ==> s.after == rs
    ensures s.result.Ok? ==> s.after == rs[newId := s.result.value]
    ensures s.result.Ok? ==>
      s.result.value == Reservation(bookId, userId, now, None, Some(now + ExpiryWindow), Pending)
  {
    if bookId !in books then Step(Err(BookNotFound), rs)
    else if userId !in userIds then Step(Err(UserNotFound), rs)
    else if books[bookId].status != Unavailable then Step(Err(BookNotReservable), rs)
    else if HasPending(rs, userId, bookId) then Step(Err(DuplicatePendingReservation), rs)
    else
      var d := NewDraft(bookId, userId).(reservationDate := Some(now), status := Pending,
                                          expirationDate := Some(now + ExpiryWindow));
      var r := ReservationEntity.OnCreate(d, now);
      Step(Ok(r), rs[newId := r])
  }

  /** `cancelReservation(reservationId, userId)`: only the owner may cancel,
      and only while the reservation is PENDING; nothing but the status
      changes. */
  function CancelReservation(rs: Reservations, id: Id, userId: Id): (s: Step<(), Reservations>)
    ensures s.result.Ok? <==> id in rs && rs[id].userId == userId && rs[id].status == Pending
    ensures id !in rs ==> s.result == Err(ReservationNotFound)
    ensures id in rs && rs[id].userId != userId ==> s.result == Err(NotReservationOwner)
    ensures id in rs && rs[id].userId == userId && s.result.Err? ==> s.result.error == ReservationNotPending
    ensures s.result.Err? ==> s.after == rs
    ensures s.result.Ok? ==> s.after == rs[id := rs[id].(status := Cancelled)]
  {
    if id !in rs then Step(Err(ReservationNotFound), rs)
    else if rs[id].userId != userId then Step(Err(NotReservationOwner), rs)
    else if rs[id].status != Pending then Step(Err(ReservationNotPending), rs)
    else Step(Ok(()), rs[id := rs[id].(status := Cancelled)])
  }

  /** `fulfillReservation(reservationId)`: the reservation must be PENDING,
      its book AVAILABLE, and it must not have expired; it becomes FULFILLED
      at `now`. An expired reservation is refused and stays PENDING. */
  function FulfillReservation(rs: Reservations, books: map<Id, Book>, id: Id, now: Time): (s: Step<Reservation, Reservations>)
    requires id in rs ==> rs[id].bookId in books
    ensures s.result.Ok? <==>
      && id in rs && rs[id].status == Pending
      && books[rs[id].bookId].status == Available && !IsExpired(rs[id], now)
    ensures id !in rs ==> s.result == Err(ReservationNotFound)
    ensures id in rs && rs[id].status != Pending ==> s.result == Err(ReservationNotPending)
    ensures id in rs && rs[id].status == Pending && books[rs[id].bookId].status != Available ==>
      s.result == Err(BookNotYetAvailable)
    ensures (&& id in rs && rs[id].status == Pending && books[rs[id].bookId].status == Available
             && IsExpired(rs[id], now)) ==> s.result == Err(ReservationExpired)
    ensures s.result.Err? ==> s.after == rs
    ensures s.result.Ok? ==>
      && s.result.value == rs[id].(status := Fulfilled, fulfillmentDate := Some(now))
      && s.after == rs[id := s.result.value]
  {
    if id !in rs then Step(Err(ReservationNotFound), rs)
    else
      var r := rs[id];
      if r.status != Pending then Step(Err(ReservationNotPending), rs)
      else if books[r.bookId].status != Available then Step(Err(BookNotYetAvailable), rs)
      else if IsExpired(r, now) then Step(Err(ReservationExpired), rs)
      else
        var r' := r.(status := Fulfilled, fulfillmentDate := Some(now));
        Step(Ok(r'), rs[id := r'])
  }

  /** The filter of `handleExpiredReservations`: PENDING, with an expiration
      date strictly before `now`. */
  predicate ShouldExpire(r: Reservation, now: Time) {
    r.status == Pending && IsExpired(r, now)
  }

  /** The ids the sweep at `now` cancels. */
  function ExpiredIds(rs: Reservations, now: Time): (ids: set<Id>)
    ensures forall id :: id in ids <==> id in rs && ShouldExpire(rs[id], now)
  {
    set id | id in rs && ShouldExpire(rs[id], now)
  }

  /** The reservation table after `handleExpiredReservations` at `now`. */
  function Sweep(rs: Reservations, now: Time): (rs': Reservations)
    ensures rs'.Keys == rs.Keys
    ensures forall id :: id in rs && ShouldExpire(rs[id], now) ==> rs'[id] == rs[id].(status := Cancelled)
    ensures forall id :: id in rs && !ShouldExpire(rs[id], now) ==> rs'[id] == rs[id]
  {
    map id | id in rs :: if ShouldExpire(rs[id], now) then rs[id].(status := Cancelled) else rs[id]
  }

  /** `id` is a PENDING reservation of `bookId` with the earliest reservation
      date among them: the first row of
      `findByBookIdAndStatusOrderByReservationDateAsc(bookId, PENDING)`. */
  predicate IsNextPending(rs: Reservations, bookId: Id, id: Id) {
    && id in rs && rs[id].bookId == bookId && rs[id].status == Pending
    && forall k :: k in rs && rs[k].bookId == bookId && rs[k].status == Pending ==>
         rs[id].reservationDate <= rs[k].reservationDate
  }

  /** Some reservation of `bookId` is PENDING. */
  predicate HasPendingFor(rs: Reservations, bookId: Id) {
    exists id :: id in rs && rs[id].bookId == bookId && rs[id].status == Pending
  }

  // ----- At most one PENDING reservation per user and book -----

  /** `rs'` has the keys of `rs` and differs from it only where a PENDING
      reservation left PENDING without changing its user or book. */
  predicate OnlyLeavesPending(rs: Reservations, rs': Reservations) {
    && rs'.Keys == rs.Keys
    && forall id :: id in rs ==>
         rs'[id] == rs[id]
         || (rs'[id].status != Pending && rs'[id].userId == rs[id].userId && rs'[id].bookId == rs[id].bookId)
  }

  lemma OnlyLeavingPendingKeepsAtMostOne(rs: Reservations, rs': Reservations)
    requires AtMostOnePending(rs) && OnlyLeavesPending(rs, rs')
    ensures AtMostOnePending(rs')
  {
  }

  /** Cancellation, fulfilment and the sweep only take reservations out of
      PENDING, and creation refuses a second PENDING reservation, so every
      operation keeps at most one PENDING reservation per user and book. */
  lemma OperationsKeepAtMostOnePending(rs: Reservations, books: map<Id, Book>, userIds: set<Id>,
                                       bookId: Id, userId: Id, now: Time, newId: Id, id: Id)
    requires AtMostOnePending(rs) && newId !in rs
    requires ReservationsReferToBooks(rs, books)
    ensures AtMostOnePending(CreateReservation(rs, books, userIds, bookId, userId, now, newId).after)
    ensures AtMostOnePending(CancelReservation(rs, id, userId).after)
    ensures AtMostOnePending(FulfillReservation(rs, books, id, now).after)
    ensures AtMostOnePending(Sweep(rs, now))
  {
    var s := CreateReservation(rs, books, userIds, bookId, userId, now, newId);
    if s.result.Ok? {
      forall i, j | i in s.after && j in s.after && s.after[i].status == Pending && s.after[j].status == Pending
                    && s.after[i].userId == s.after[j].userId && s.after[i].bookId == s.after[j].bookId
        ensures i == j
      {
      }
    }
    OnlyLeavingPendingKeepsAtMostOne(rs, CancelReservation(rs, id, userId).after);
    OnlyLeavingPendingKeepsAtMostOne(rs, FulfillReservation(rs, books, id, now).after);
    OnlyLeavingPendingKeepsAtMostOne(rs, Sweep(rs, now));
  }

  /** Right after a successful reservation, the same user reserving the same
      book again is refused as a duplicate. */
  lemma SecondCreateIsDuplicate(rs: Reservations, books: map<Id, Book>, userIds: set<Id>,
                                bookId: Id, userId: Id, now: Time, later: Time, newId: Id, nextId: Id)
    requires newId !in rs && nextId != newId && nextId !in rs
    requires CreateReservation(rs, books, userIds, bookId, userId, now, newId).result.Ok?
    ensures var after := CreateReservation(rs, books, userIds, bookId, userId, now, newId).after;
      CreateReservation(after, books, userIds, bookId, userId, later, nextId)
        == Step(Err(DuplicatePendingReservation), after)
  {
    var after := CreateReservation(rs, books, userIds, bookId, userId, now, newId).after;
    assert after[newId].userId == userId && after[newId].bookId == bookId && after[newId].status == Pending;
  }

  // ----- Finished reservations -----

  /** A FULFILLED or CANCELLED reservation accepts no further move: cancelling
      and fulfilling it fail and change nothing, and the sweep passes it by. */
  lemma FinishedReservationsAreFinal(rs: Reservations, books: map<Id, Book>, id: Id, now: Time)
    requires id in rs && rs[id].bookId in books && rs[id].status != Pending
    ensures CancelReservation(rs, id, rs[id].userId) == Step(Err(ReservationNotPending), rs)
    ensures FulfillReservation(rs, books, id, now) == Step(Err(ReservationNotPending), rs)
    ensures Sweep(rs, now)[id] == rs[id]
  {
  }

  /** Fulfilling an expired reservation is refused and does not cancel it; it
      is the sweep that cancels it, after which fulfilment is refused as not
      PENDING. */
  lemma ExpiredReservationWaitsForTheSweep(rs: Reservations, books: map<Id, Book>, id: Id, now: Time)
    requires id in rs && rs[id].bookId in books && rs[id].status == Pending && IsExpired(rs[id], now)
    requires books[rs[id].bookId].status == Available
    ensures FulfillReservation(rs, books, id, now) == Step(Err(ReservationExpired), rs)
    ensures FulfillReservation(rs, books, id, now).after[id].status == Pending
    ensures FulfillReservation(Sweep(rs, now), books, id, now).result == Err(ReservationNotPending)
  {
  }

  /** A reservation without an expiration date never expires: the sweep
      leaves it, and fulfilment does not refuse it for its age. */
  lemma NoExpirationDateNeverExpires(rs: Reservations, books: map<Id, Book>, id: Id, now: Time)
    requires id in rs && rs[id].bookId in books && rs[id].expirationDate.None?
    ensures Sweep(rs, now)[id] == rs[id]
    ensures FulfillReservation(rs, books, id, now).result != Err(ReservationExpired)
  {
  }

  // ----- The sweep -----

  /** After a sweep at `now` no PENDING reservation has expired, so a second
      sweep at the same time changes nothing. */
  lemma SweepIsIdempotent(rs: Reservations, now: Time)
    ensures ExpiredIds(Sweep(rs, now), now) == {}
    ensures Sweep(Sweep(rs, now), now) == Sweep(rs, now)
  {
    var once := Sweep(rs, now);
    assert forall id :: id in once ==> !ShouldExpire(once[id], now);
  }

  /** A reservation expired at one time is still expired later, so sweeping
      at `earlier` and then at `later` is the same as sweeping at `later`
      alone. */
  lemma LaterSweepSubsumesEarlier(rs: Reservations, earlier: Time, later: Time)
    requires earlier <= later
    ensures ExpiredIds(rs, earlier) <= ExpiredIds(rs, later)
    ensures Sweep(Sweep(rs, earlier), later) == Sweep(rs, later)
  {
    var a := Sweep(Sweep(rs, earlier), later);
    var b := Sweep(rs, later);
    forall id | id in rs ensures a[id] == b[id] {
      if ShouldExpire(rs[id], earlier) {
        assert ShouldExpire(rs[id], later);
      }
    }
  }

  /** As written, the next-in-queue query does not skip expired reservations:
      the earliest PENDING one is next even when it has expired and the sweep
      has not yet run. */
  lemma NextPendingMayHaveExpired()
    ensures var rs := map[1 := Reservation(7, 3, 0, None, Some(ExpiryWindow), Pending)];
      IsNextPending(rs, 7, 1) && IsExpired(rs[1], ExpiryWindow + 1)
  {
  }
}
