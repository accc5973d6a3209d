# Library circulation and reservations, in Dafny

This project models the service layer of a Spring library application. The
application lends book copies to readers, keeps a waitlist of reservations
for books that cannot be lent, and keeps a few keyed tables: categories,
user accounts and moderated reviews. Each service operation loads an entity
by id, checks its guards, sets fields and saves it. A failing guard throws
before anything is written.

The model has two layers.

- **Transitions over values.** One module per service turns each operation
  into a function from the tables as they are to a
  `Step(result, tables after)`. The `result` is `Ok(value)` or
  `Err(error)`. Each error constructor stands for one or more of the
  source's exception messages; `StillReferenced` stands for the database's
  refusal to delete a row that another row still refers to. Each function's contract states:
  - exactly when the call succeeds;
  - which error a failing call reports, in the order the source checks;
  - that a failure changes nothing;
  - the new table.
- **The object.** `LibrarySystem.Library` is a class that holds every table
  as a field. Its methods perform the same checks and field updates in
  place. Each method is proved to leave its fields equal to the
  transition's result and to keep the object's invariant `Valid()`. That
  invariant covers:
  - ISBNs, category names, usernames and emails are unique;
  - both book counters fit in a Java `int`;
  - every borrow record, reservation and review refers to a stored book and
    user;
  - no user holds two PENDING reservations for one book;
  - every id is below the next id to be handed out.

The book ledger (module `Ledger`) is the central property. A book's
available counter plus the number of its BORROWED records is its stock.
Request, approval, rejection and return keep every book's stock. A
ledger is "balanced" when each book's stock equals its total copies.
Balance is kept by:

- the borrow lifecycle;
- book creation;
- status changes;
- stock changes through `updateBookStock` that do not overflow;
- deleting a book that nothing refers to.

Balance is broken by:

- deleting a BORROWED record;
- `updateBook` changing the total.

Time is an integer count of seconds, and `now` is a parameter. The password
encoder is a function parameter `encode`. Ids are integers handed out from
one counter.

## Model

Paths are relative to the repository root.

| member | source | states |
|---|---|---|
| Common.Wrap32 | src/main/java/com/cc/library/service/impl/BookServiceImpl.java:104-109 | The value a Java `int` holds for an integer: in the 32-bit range, equal to it modulo 2^32, and the integer itself when it already fits |
| Common.AddInt32 | src/main/java/com/cc/library/service/impl/BookServiceImpl.java:104-109 | Java `int` addition: exact when the sum fits; two `int`s whose sum passes the largest `int` wrap around by 2^32 |
| Common.IncrementWrapsAtMax | src/main/java/com/cc/library/service/impl/BorrowRecordServiceImpl.java:83 | `+ 1` on the largest `int` gives the smallest |
| BookEntity.OnCreate | src/main/java/com/cc/library/entity/Book.java:47-54 | The persist hook keeps every column; a null available count becomes the total, a given one is kept |
| ReservationEntity.NewDraft | src/main/java/com/cc/library/model/Reservation.java:30-41 | A fresh reservation is PENDING and all three dates are null |
| ReservationEntity.OnCreate | src/main/java/com/cc/library/model/Reservation.java:43-48 | The persist hook sets the reservation date to the persist time and fills in no expiration date |
| BookService.CreateBook | src/main/java/com/cc/library/service/impl/BookServiceImpl.java:22-28 | Fails with ISBN-exists exactly when the ISBN is present; otherwise stores the form's book with available = total |
| BookService.UpdateBook | src/main/java/com/cc/library/service/impl/BookServiceImpl.java:32-50 | Missing id fails; moving to another book's ISBN fails, keeping its own is allowed; overwrites every column except the available count |
| BookService.DeleteBook | src/main/java/com/cc/library/service/impl/BookServiceImpl.java:54-59 | Missing id fails; a book still referred to fails; otherwise removes exactly that entry |
| BookService.UpdateBookStatus | src/main/java/com/cc/library/service/impl/BookServiceImpl.java:94-98 | Missing id fails; otherwise changes only the status |
| BookService.UpdateBookStock | src/main/java/com/cc/library/service/impl/BookServiceImpl.java:102-111 | Missing id fails; fails with stock-below-zero exactly when the `int` sum total + quantity is negative; otherwise adds quantity to both counters in `int` arithmetic |
| BookService.CreateBookKeepsCatalogue | src/main/java/com/cc/library/service/impl/BookServiceImpl.java:22-28 | ISBNs stay unique and counters stay within `int` after a creation |
| BookService.UpdateBookKeepsCatalogue | src/main/java/com/cc/library/service/impl/BookServiceImpl.java:36-47 | ISBNs stay unique and counters stay within `int` after an update |
| BookService.DeleteStatusAndStockKeepCatalogue | src/main/java/com/cc/library/service/impl/BookServiceImpl.java:54-111 | Deletion, status change and stock change keep ISBNs unique and counters within `int` |
| BookService.UpdateBookStockKeepsLoanGap | src/main/java/com/cc/library/service/impl/BookServiceImpl.java:104-109 | Without overflow, a stock change succeeds exactly when the new total is not negative and keeps total − available |
| BookService.UpdateBookStockRefusesOverflow | src/main/java/com/cc/library/service/impl/BookServiceImpl.java:104-106 | An increase past the largest `int` wraps negative and is refused as stock below zero |
| BookService.UpdateBookStockCanLeaveAvailableNegative | src/main/java/com/cc/library/service/impl/BookServiceImpl.java:104-109 | Only the total is guarded: total 5, available 1, quantity −3 succeeds with available −2 |
| BorrowRecordService.CreateBorrowRequest | src/main/java/com/cc/library/service/impl/BorrowRecordServiceImpl.java:28-41 | User checked first, then book, then available > 0; the new record is PENDING with the given due date, borrowed at `now`; counters untouched |
| BorrowRecordService.ApproveBorrowRequest | src/main/java/com/cc/library/service/impl/BorrowRecordServiceImpl.java:45-59 | Succeeds exactly for a PENDING record whose book has a copy available; the record becomes BORROWED and the counter drops by one and stays ≥ 0 |
| BorrowRecordService.RejectBorrowRequest | src/main/java/com/cc/library/service/impl/BorrowRecordServiceImpl.java:63-72 | Succeeds exactly for a PENDING record, which becomes REJECTED; books untouched |
| BorrowRecordService.ReturnBook | src/main/java/com/cc/library/service/impl/BorrowRecordServiceImpl.java:76-88 | Succeeds exactly for a BORROWED record, which becomes RETURNED with return date `now`; the counter rises by one in `int` arithmetic, with no cap |
| BorrowRecordService.DeleteBorrowRecord | src/main/java/com/cc/library/service/impl/BorrowRecordServiceImpl.java:92-97 | Missing id fails; otherwise removes the record whatever its status; books untouched |
| BorrowRecordService.OverdueRecords | src/main/java/com/cc/library/service/impl/BorrowRecordServiceImpl.java:111-113 | Exactly the BORROWED records due strictly before `now` |
| BorrowRecordService.FinishedRecordsAreFinal | src/main/java/com/cc/library/service/impl/BorrowRecordServiceImpl.java:48-81 | REJECTED and RETURNED records refuse approval, rejection and return, and nothing changes |
| BorrowRecordService.SecondReturnFails | src/main/java/com/cc/library/service/impl/BorrowRecordServiceImpl.java:79-81 | A second return of the same record fails as not borrowed |
| BorrowRecordService.SuccessfulCallsFollowTheLifecycle | src/main/java/com/cc/library/service/impl/BorrowRecordServiceImpl.java:45-88 | Each successful approval, rejection or return is a lifecycle transition of its record and leaves every other record alone |
| BorrowRecordService.CreateBorrowRequestKeepsStock | src/main/java/com/cc/library/service/impl/BorrowRecordServiceImpl.java:34-40 | A request keeps every book's total and available + on-loan count |
| BorrowRecordService.ApproveKeepsStock | src/main/java/com/cc/library/service/impl/BorrowRecordServiceImpl.java:55-56 | Approval moves one copy from available to on loan: every stock kept |
| BorrowRecordService.RejectKeepsStock | src/main/java/com/cc/library/service/impl/BorrowRecordServiceImpl.java:69 | Rejection keeps every stock |
| BorrowRecordService.ReturnKeepsStock | src/main/java/com/cc/library/service/impl/BorrowRecordServiceImpl.java:83-84 | When available + 1 fits in `int`, return moves one copy back: every stock kept |
| BorrowRecordService.DeleteBorrowRecordLosesLoanedCopy | src/main/java/com/cc/library/service/impl/BorrowRecordServiceImpl.java:92-96 | Deleting a BORROWED record lowers its book's stock by one; any other deletion keeps every stock |
| BorrowRecordService.ApproveInOrder | src/main/java/com/cc/library/service/impl/BorrowRecordServiceImpl.java:45-59 | Approves a list of records one after another. Records keep referring to stored books. No more approvals succeed than there are distinct listed records that were PENDING, so a repeated id succeeds at most once |
| BorrowRecordService.ApprovalsSucceedUpToStock | src/main/java/com/cc/library/service/impl/BorrowRecordServiceImpl.java:52-55 | For distinct PENDING records of one book, exactly min(available, count) approvals succeed, or none when the counter is negative (as `updateBookStock` can leave it), and the counter falls by exactly that many |
| BorrowRecordService.OverdueRecordsAreLoansPastDue | src/main/java/com/cc/library/service/impl/BorrowRecordServiceImpl.java:111-113 | The overdue set grows with time, holds only loans, and never holds a just-returned record |
| Ledger.BalancedBoundsAvailable | src/main/java/com/cc/library/service/impl/BorrowRecordServiceImpl.java:52-56 | In a balanced ledger available ≤ total, with equality exactly when no copy is on loan |
| Ledger.LifecycleKeepsBalance | src/main/java/com/cc/library/service/impl/BorrowRecordServiceImpl.java:28-88 | Request, approval, rejection and return keep every book balanced; balance also rules out the return overflow |
| Ledger.DeleteBorrowedRecordBreaksBalance | src/main/java/com/cc/library/service/impl/BorrowRecordServiceImpl.java:92-97 | Deleting a BORROWED record unbalances its book |
| Ledger.CreateBookKeepsBalance | src/main/java/com/cc/library/service/impl/BookServiceImpl.java:22-28 | A new book starts balanced |
| Ledger.UpdateBookStockKeepsBalance | src/main/java/com/cc/library/service/impl/BookServiceImpl.java:104-109 | Without overflow a stock change keeps every book balanced |
| Ledger.UpdateBookKeepsBalanceIffSameTotal | src/main/java/com/cc/library/service/impl/BookServiceImpl.java:41-47 | After an update, the ledger is balanced exactly when the total was left as it was |
| Ledger.StatusAndDeleteKeepBalance | src/main/java/com/cc/library/service/impl/BookServiceImpl.java:54-98 | Status changes and deleting an unreferenced book keep every remaining book balanced |
| ReservationService.CreateReservation | src/main/java/com/cc/library/service/impl/ReservationServiceImpl.java:42-74 | Book checked first, then user, then status UNAVAILABLE, then no PENDING duplicate; the new reservation is PENDING, dated `now`, expiring at `now` + 7 days |
| ReservationService.CancelReservation | src/main/java/com/cc/library/service/impl/ReservationServiceImpl.java:78-94 | Missing id, then non-owner, then non-PENDING fail; otherwise only the status becomes CANCELLED |
| ReservationService.FulfillReservation | src/main/java/com/cc/library/service/impl/ReservationServiceImpl.java:113-137 | Succeeds exactly for a PENDING, unexpired reservation of an AVAILABLE book, which becomes FULFILLED at `now`; an expired one fails and stays PENDING |
| ReservationService.ExpiredIds | src/main/java/com/cc/library/service/impl/ReservationServiceImpl.java:147-151 | Exactly the PENDING reservations whose expiration date is set and strictly before `now` |
| ReservationService.Sweep | src/main/java/com/cc/library/service/impl/ReservationServiceImpl.java:145-157 | Same ids; the expired PENDING reservations become CANCELLED and every other one is unchanged |
| ReservationService.OnlyLeavingPendingKeepsAtMostOne | src/main/java/com/cc/library/service/impl/ReservationServiceImpl.java:88-92 | A change that only takes reservations out of PENDING keeps at most one PENDING per user and book |
| ReservationService.OperationsKeepAtMostOnePending | src/main/java/com/cc/library/service/impl/ReservationServiceImpl.java:57-59 | Creation, cancellation, fulfilment and the sweep all keep at most one PENDING reservation per user and book |
| ReservationService.SecondCreateIsDuplicate | src/main/java/com/cc/library/service/impl/ReservationServiceImpl.java:57-59 | Reserving the same book twice fails the second time as a duplicate, and changes nothing |
| ReservationService.FinishedReservationsAreFinal | src/main/java/com/cc/library/service/impl/ReservationServiceImpl.java:88-150 | FULFILLED and CANCELLED reservations refuse cancellation and fulfilment, and the sweep leaves them |
| ReservationService.ExpiredReservationWaitsForTheSweep | src/main/java/com/cc/library/service/impl/ReservationServiceImpl.java:128-131 | Fulfilling an expired reservation fails with nothing changed and the reservation still PENDING; after the sweep it fails as not PENDING |
| ReservationService.NoExpirationDateNeverExpires | src/main/java/com/cc/library/service/impl/ReservationServiceImpl.java:128-129 | A reservation without expiration date is left by the sweep and never refused as expired |
| ReservationService.SweepIsIdempotent | src/main/java/com/cc/library/service/impl/ReservationServiceImpl.java:145-157 | After a sweep nothing is left to expire at the same time, so a second sweep changes nothing |
| ReservationService.LaterSweepSubsumesEarlier | src/main/java/com/cc/library/service/impl/ReservationServiceImpl.java:147-151 | What expires at one time still expires later; an earlier sweep followed by a later one equals the later one alone |
| ReservationService.NextPendingMayHaveExpired | src/main/java/com/cc/library/service/impl/ReservationServiceImpl.java:164-168 | The next-in-queue query does not skip an expired PENDING reservation |
| CategoryService.CreateCategory | src/main/java/com/cc/library/service/impl/CategoryServiceImpl.java:19-24 | Fails exactly when the name exists; otherwise stores the category under the new id |
| CategoryService.UpdateCategory | src/main/java/com/cc/library/service/impl/CategoryServiceImpl.java:28-37 | Missing id fails; renaming to another category's name fails, same name allowed; name and description overwritten |
| CategoryService.DeleteCategory | src/main/java/com/cc/library/service/impl/CategoryServiceImpl.java:41-46 | Missing id fails; otherwise removes exactly that entry |
| CategoryService.GetCategoryById | src/main/java/com/cc/library/service/impl/CategoryServiceImpl.java:49-52 | The stored category, or not-found |
| CategoryService.FindByName | src/main/java/com/cc/library/service/impl/CategoryServiceImpl.java:56 | With unique names, the id of the category with that name exactly when one exists |
| CategoryService.GetCategoryByName | src/main/java/com/cc/library/service/impl/CategoryServiceImpl.java:55-58 | A stored category with that name, or not-found exactly when none has it |
| CategoryService.OperationsKeepNamesUnique | src/main/java/com/cc/library/service/impl/CategoryServiceImpl.java:19-46 | Creation, update and deletion keep category names unique |
| CategoryService.SavedCategoryIsFound | src/main/java/com/cc/library/service/impl/CategoryServiceImpl.java:19-58 | A category just created or updated is what lookup by id and by name return |
| CategoryService.DeletedCategoryIsGone | src/main/java/com/cc/library/service/impl/CategoryServiceImpl.java:41-52 | After deletion, lookup by id fails |
| UserService.CreateUser | src/main/java/com/cc/library/service/impl/UserServiceImpl.java:25-34 | Duplicate username fails first, duplicate email second; otherwise stores the account with `encode(password)` |
| UserService.NewPassword | src/main/java/com/cc/library/service/impl/UserServiceImpl.java:59-61 | A non-null, non-empty new password is encoded; otherwise the stored hash is kept |
| UserService.UpdateUser | src/main/java/com/cc/library/service/impl/UserServiceImpl.java:38-64 | Missing id fails; taking another account's username, then email, fails; unchanged values allowed; all other columns overwritten |
| UserService.DeleteUser | src/main/java/com/cc/library/service/impl/UserServiceImpl.java:68-73 | Missing id fails; an account still referred to fails; otherwise removes exactly that entry |
| UserService.GetUserById | src/main/java/com/cc/library/service/impl/UserServiceImpl.java:76-79 | The stored account, or not-found |
| UserService.FindByUsername | src/main/java/com/cc/library/service/impl/UserServiceImpl.java:83 | With unique usernames, the id of the account with that username exactly when one exists |
| UserService.GetUserByUsername | src/main/java/com/cc/library/service/impl/UserServiceImpl.java:82-85 | A stored account with that username, or not-found exactly when none has it |
| UserService.OperationsKeepAccounts | src/main/java/com/cc/library/service/impl/UserServiceImpl.java:25-73 | Creation, update and deletion keep usernames and emails unique |
| UserService.CreatedUserIsFoundByUsername | src/main/java/com/cc/library/service/impl/UserServiceImpl.java:25-85 | A created account is found by its username, holding the encoded password |
| ReviewService.CreateReview | src/main/java/com/cc/library/service/impl/ReviewServiceImpl.java:36-56 | Book checked first, then user; the new review is PENDING with the request's rating and comment |
| ReviewService.Moderate | src/main/java/com/cc/library/service/impl/ReviewServiceImpl.java:74-87 | For the verdict APPROVED or REJECTED: a missing id fails; otherwise only the status changes, to the verdict, from any prior status |
| ReviewService.GetReviewsByBookId | src/main/java/com/cc/library/service/impl/ReviewServiceImpl.java:59-65 | The listed reviews that are APPROVED, no more than were listed |
| ReviewService.FilterKeepsOrder | src/main/java/com/cc/library/service/impl/ReviewServiceImpl.java:62-64 | The filtered list is a subsequence of the listing: the listing's own order is kept, including among reviews with the same `createdAt`. It stays newest first and has no repeats |
| ReviewService.ListingShowsExactlyApproved | src/main/java/com/cc/library/service/impl/ReviewServiceImpl.java:59-65 | Given the repository listing of a book, the result is exactly the book's APPROVED reviews, each once. It is a subsequence of the listing, so it is newest first with ties in the repository's order |
| ReviewService.ModerationDecidesVisibility | src/main/java/com/cc/library/service/impl/ReviewServiceImpl.java:74-87 | Approving shows a review and rejecting hides it; every other review keeps its visibility |
| ReviewService.NewReviewIsNotShown | src/main/java/com/cc/library/service/impl/ReviewServiceImpl.java:48-64 | A review just created is not in the public listing |
| UserController.Register | src/main/java/com/cc/library/controller/UserController.java:31-53 | Fails exactly for an ADMIN request without the right code; ADMIN granted exactly for "ADMIN" ignoring case; otherwise READER; always ACTIVE with the request's fields |
| UserController.AdminRoleSpellings | src/main/java/com/cc/library/controller/UserController.java:40 | Any case mix of "ADMIN" asks for ADMIN; null, "READER" or other words do not |
| UserController.AdminNeedsTheCode | src/main/java/com/cc/library/controller/UserController.java:40-45 | A wrong or missing code fails an ADMIN request rather than downgrading it; the right code grants ADMIN |
| LibrarySystem.Library.CreateBook | src/main/java/com/cc/library/service/impl/BookServiceImpl.java:22-28 | In place: equals `BookService.CreateBook`, keeps `Valid()`, and keeps a balanced ledger balanced |
| LibrarySystem.Library.UpdateBook | src/main/java/com/cc/library/service/impl/BookServiceImpl.java:32-50 | In place: equals `BookService.UpdateBook`, keeps `Valid()` |
| LibrarySystem.Library.DeleteBook | src/main/java/com/cc/library/service/impl/BookServiceImpl.java:54-59 | In place: equals `BookService.DeleteBook` with the referenced books, keeps `Valid()` and balance |
| LibrarySystem.Library.UpdateBookStatus | src/main/java/com/cc/library/service/impl/BookServiceImpl.java:94-98 | In place: equals `BookService.UpdateBookStatus`, keeps `Valid()` and balance |
| LibrarySystem.Library.UpdateBookStock | src/main/java/com/cc/library/service/impl/BookServiceImpl.java:102-111 | In place: equals `BookService.UpdateBookStock`, keeps `Valid()` |
| LibrarySystem.Library.CreateBorrowRequest | src/main/java/com/cc/library/service/impl/BorrowRecordServiceImpl.java:28-41 | In place: equals the transition, keeps `Valid()` and balance |
| LibrarySystem.Library.ApproveBorrowRequest | src/main/java/com/cc/library/service/impl/BorrowRecordServiceImpl.java:45-59 | In place: equals the transition, keeps `Valid()` and balance |
| LibrarySystem.Library.RejectBorrowRequest | src/main/java/com/cc/library/service/impl/BorrowRecordServiceImpl.java:63-72 | In place: equals the transition, keeps `Valid()` and balance |
| LibrarySystem.Library.ReturnBook | src/main/java/com/cc/library/service/impl/BorrowRecordServiceImpl.java:76-88 | In place: equals the transition, keeps `Valid()` and balance |
| LibrarySystem.Library.DeleteBorrowRecord | src/main/java/com/cc/library/service/impl/BorrowRecordServiceImpl.java:92-97 | In place: equals the transition, keeps `Valid()` |
| LibrarySystem.Library.CreateReservation | src/main/java/com/cc/library/service/impl/ReservationServiceImpl.java:42-74 | In place: equals the transition, keeps `Valid()` (including at most one PENDING per user and book) |
| LibrarySystem.Library.CancelReservation | src/main/java/com/cc/library/service/impl/ReservationServiceImpl.java:78-94 | In place: equals the transition, keeps `Valid()` |
| LibrarySystem.Library.FulfillReservation | src/main/java/com/cc/library/service/impl/ReservationServiceImpl.java:113-137 | In place: equals the transition, keeps `Valid()` |
| LibrarySystem.Library.HandleExpiredReservations | src/main/java/com/cc/library/service/impl/ReservationServiceImpl.java:145-157 | Collects the expired ids, cancels them one by one, and ends with the table equal to `Sweep` of the old one; keeps `Valid()` |
| LibrarySystem.Library.GetNextPendingReservation | src/main/java/com/cc/library/service/impl/ReservationServiceImpl.java:164-168 | None exactly when the book has no PENDING reservation; otherwise a PENDING reservation of the book with the earliest reservation date |
| LibrarySystem.Library.CreateCategory | src/main/java/com/cc/library/service/impl/CategoryServiceImpl.java:19-24 | In place: equals the transition, keeps `Valid()` |
| LibrarySystem.Library.UpdateCategory | src/main/java/com/cc/library/service/impl/CategoryServiceImpl.java:28-37 | In place: equals the transition, keeps `Valid()` |
| LibrarySystem.Library.DeleteCategory | src/main/java/com/cc/library/service/impl/CategoryServiceImpl.java:41-46 | In place: equals the transition, keeps `Valid()` |
| LibrarySystem.Library.CreateUser | src/main/java/com/cc/library/service/impl/UserServiceImpl.java:25-34 | In place: equals the transition, keeps `Valid()` |
| LibrarySystem.Library.Register | src/main/java/com/cc/library/controller/UserController.java:31-53 | A refused role decision changes nothing; otherwise the account is created as by `CreateUser` |
| LibrarySystem.Library.UpdateUser | src/main/java/com/cc/library/service/impl/UserServiceImpl.java:38-64 | In place: equals the transition, keeps `Valid()` |
| LibrarySystem.Library.DeleteUser | src/main/java/com/cc/library/service/impl/UserServiceImpl.java:68-73 | In place: equals `UserService.DeleteUser` with the referenced users, keeps `Valid()` |
| LibrarySystem.Library.CreateReview | src/main/java/com/cc/library/service/impl/ReviewServiceImpl.java:36-56 | In place: equals the transition, keeps `Valid()` |
| LibrarySystem.Library.ModerateReview | src/main/java/com/cc/library/service/impl/ReviewServiceImpl.java:74-87 | In place: `approveReview` and `rejectReview` (verdict APPROVED or REJECTED), equal to `Moderate`, keep `Valid()` |

### Source behaviour worth knowing

- `createBorrowRequest` refuses a book with no copy available when the request is made (src/main/java/com/cc/library/service/impl/BorrowRecordServiceImpl.java:31-33), and `approveBorrowRequest` checks again when it approves (BorrowRecordServiceImpl.java:52-54).
- `fulfillReservation` refuses an expired reservation but leaves it PENDING (src/main/java/com/cc/library/service/impl/ReservationServiceImpl.java:128-131). Only the scheduled sweep (ReservationServiceImpl.java:145-157) cancels it.
- `returnBook` raises the available counter by one with no cap at the total (src/main/java/com/cc/library/service/impl/BorrowRecordServiceImpl.java:83). In a balanced ledger the counter is below the total whenever a copy is on loan.
- `getNextPendingReservation` takes the first PENDING reservation by date and does not skip expired ones (src/main/java/com/cc/library/service/impl/ReservationServiceImpl.java:164-168).
- `updateBook` overwrites the total and leaves the available counter alone (src/main/java/com/cc/library/service/impl/BookServiceImpl.java:46). It therefore unbalances the ledger whenever the total changes.
- `updateBookStock` guards only the new total (src/main/java/com/cc/library/service/impl/BookServiceImpl.java:104-109), so the available counter can go negative.
- `deleteBorrowRecord` deletes a BORROWED record without returning its copy (src/main/java/com/cc/library/service/impl/BorrowRecordServiceImpl.java:92-97).
- A book's status is set only by `updateBookStatus` (src/main/java/com/cc/library/service/impl/BookServiceImpl.java:96) or by a full `updateBook` (BookServiceImpl.java:47). Borrowing and returning never change it.
- Review moderation sets APPROVED or REJECTED from any prior status (src/main/java/com/cc/library/service/impl/ReviewServiceImpl.java:74-87). No operation sets a review back to PENDING.

## Left out

- Creation and update timestamps (`createdAt`, `updatedAt` of Book) are not modelled. No operation reads them.
- The model uses one `now` per call where the source reads the clock several times:
  - `ReservationService.CreateReservation` reads it three times (`reservationDate`, `expirationDate`, the persist hook);
  - `ReservationService.FulfillReservation` reads it twice, once for the expiry check (src/main/java/com/cc/library/service/impl/ReservationServiceImpl.java:129) and once for `fulfillmentDate` (line 134).
- The category foreign key of a book is not modelled. `createBook` and `updateBook` are not refused for a missing category, and `deleteCategory` is not refused while books refer to it.
- The foreign keys of borrow records, reservations and reviews are modelled, as the `BooksInUse` and `UsersInUse` sets that `deleteBook` and `deleteUser` must respect. The database enforces them; the service code does not.
- Plain queries with no rule of their own are not modelled: `getAll…`, pagination, search, `getBorrowRecordById`, `getRecordsByStatus`, `getBorrowRecordsByUser`, `getUserReservations`, `getReservationById`, `getReviewById`, `existsBy…`, `getUserProfileDto`.
- `getCurrentUserProfileDto` is not modelled, because it reads the global security context.
- The unused queue position in `createReservation` is not modelled.
- `@Transactional`, the midnight cron trigger of the sweep, and concurrent calls are not modelled. Each operation is one atomic step.
- The password encoder is a deterministic function parameter. BCrypt's random salt and password matching are not modelled.
- UserController.MatchesLetter: Java's case-insensitive comparison is modelled only against the letters of "ADMIN". Those letters match their lower-case forms, and I also matches U+0130 and U+0131. Full Unicode case mapping is not modelled.
- The review rating is a real number. `Double` rounding and the 0.0–5.0 validation of the request are not modelled.
- The source files of the User, Category, Review and BorrowRecord entity classes were not available. The model still defines these records, with fields taken from how the services use them. Three points rest on that reading:
  - the user status is ACTIVE or INACTIVE;
  - a review's `createdAt` is its persist time;
  - usernames, emails and category names are unique, as the services' existence checks intend.
- Four nulls that change behaviour are modelled as options: the update form's password, the registration request's role and register code, and the book form's available count.
- Nullable strings (description, phone, comment) are plain strings.
- A null in a NOT NULL column of a book (title, author, ISBN, category, total copies, status; src/main/java/com/cc/library/entity/Book.java:15-39) is not modelled. In the source, the `save` in `createBook` or `updateBook` refuses it. The model's forms hold no null there, so the model has no such refusal.
- Ids come from one counter shared by all tables, not one identity sequence per table. The model relies only on each created row getting an id no stored row has.
- BookService.CreateBook, CategoryService.CreateCategory, UserService.CreateUser and the matching `LibrarySystem.Library` methods assume every creation inserts a new row. In the source, `createBook`, `createCategory` and `createUser` save the request body as given, id included. If the request carries the id of a stored row, `save` merges into that row instead of inserting. For `createBook` this also resets the row's available count to its total, which unbalances a book with copies on loan. The model's forms carry no id, so this overwrite path is not modelled.
- LibrarySystem.Library.GetNextPendingReservation: when several PENDING reservations share the earliest date, it returns any one of them. The repository's tie order is not specified.
- BorrowRecordService.ReturnKeepsStock: requires that available + 1 fits in an `int`. Past that, Java's `+ 1` wraps around; `Ledger.LifecycleKeepsBalance` shows that a balanced ledger never reaches that point.
- BookService.UpdateBookStockKeepsLoanGap and Ledger.UpdateBookStockKeepsBalance: require that neither sum overflows. `BookService.UpdateBookStockRefusesOverflow` covers the overflowing increase.
