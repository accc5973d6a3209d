/** The `Reservation` entity: a place in a book's waitlist, its status enum,
    the defaults a fresh object carries, and the persist hook. */
module ReservationEntity {
  import opened Common

  datatype ReservationStatus = Pending | Fulfilled | Cancelled

  /** A stored reservation. The two nullable date columns are options:
      `fulfillmentDate` stays absent until fulfilment sets it, and
      `expirationDate` may be absent, in which case the reservation never
      expires. */
  datatype Reservation = Reservation(
    bookId: Id,
    userId: Id,
    reservationDate: Time,
    fulfillmentDate: Option<Time>,
    expirationDate: Option<Time>,
    status: ReservationStatus)

  /** A reservation object before it is persisted, when `reservationDate`
      may still be null. */
  datatype ReservationDraft = ReservationDraft(
    bookId: Id,
    userId: Id,
    reservationDate: Option<Time>,
    fulfillmentDate: Option<Time>,
    expirationDate: Option<Time>,
    status: ReservationStatus)

  /** `new Reservation()` with its book and user set: every date is null and
      the status is the field initialiser's PENDING. */
  function NewDraft(bookId: Id, userId: Id): (d: ReservationDraft)
    ensures d.status == Pending
    ensures d.reservationDate.None? && d.fulfillmentDate.None? && d.expirationDate.None?
    ensures d.bookId == bookId && d.userId == userId
  {
    ReservationDraft(bookId, userId, None, None, None, Pending)
  }

  /** The persist hook: `reservationDate` becomes the persist time, whatever
      the draft held; no expiration default is filled in. */
  function OnCreate(d: ReservationDraft, now: Time): (r: Reservation)
    ensures r.reservationDate == now
    ensures r.expirationDate == d.expirationDate
    ensures r.fulfillmentDate == d.fulfillmentDate
    ensures r.status == d.status && r.bookId == d.bookId && r.userId == d.userId
  {
    Reservation(d.bookId, d.userId, now, d.fulfillmentDate, d.expirationDate, d.status)
  }

  /** `expirationDate != null && expirationDate.isBefore(now)`: a reservation
      without an expiration date never expires. */
  predicate IsExpired(r: Reservation, now: Time) {
    r.expirationDate.Some? && r.expirationDate.value < now
  }
}
