/** Review moderation of `ReviewServiceImpl`: a reader's review of a book is
    stored PENDING, an administrator approves or rejects it, and a book's
    public listing shows only its APPROVED reviews, newest first. */
module ReviewService {
  import opened Common

  datatype ReviewStatus = Pending | Approved | Rejected

  /** A stored review. The rating is the request's `Double`, kept as a real
      number; `createdAt` is the persist time. */
  datatype Review = Review(
    bookId: Id,
    userId: Id,
    rating: real,
    comment: string,
    status: ReviewStatus,
    createdAt: Time)

  /** The body of a review request. */
  datatype ReviewRequest = ReviewRequest(bookId: Id, rating: real, comment: string)

  type Reviews = map<Id, Review>

  /** `createReview(request, userId)`: the book and the user must exist; the
      review carries the request's rating and comment and starts PENDING. */
  function CreateReview(reviews: Reviews, bookIds: set<Id>, userIds: set<Id>,
                        req: ReviewRequest, userId: Id, now: Time, newId: Id): (s: Step<Review, Reviews>)
    requires newId !in reviews
    ensures s.result.Ok? <==> req.bookId in bookIds && userId in userIds
    ensures req.bookId !in bookIds ==> s.result == Err(BookNotFound)
    ensures req.bookId in bookIds && userId !in userIds ==> s.result == Err(UserNotFound)
    ensures s.result.Err? ==> s.after == reviews
    ensures s.result.Ok? ==>
      && s.result.value == Review(req.bookId, userId, req.rating, req.comment, Pending, now)
      && s.after == reviews[newId := s.result.value]
  {
    if req.bookId !in bookIds then Step(Err(BookNotFound), reviews)
    else if userId !in userIds then Step(Err(UserNotFound), reviews)
    else
      var r := Review(req.bookId, userId, req.rating, req.comment, Pending, now);
      Step(Ok(r), reviews[newId := r])
  }

  /** Set a review's status, whatever it was: `approveReview` and
      `rejectReview`. */
  function Moderate(reviews: Reviews, id: Id, verdict: ReviewStatus): (s: Step<Review, Reviews>)
    requires verdict != Pending
    ensures s.result.Ok? <==> id in reviews
    ensures s.result.Err? ==> s.result.error == ReviewNotFound && s.after == reviews
    ensures s.result.Ok? ==>
      && s.result.value == reviews[id].(status := verdict)
      && s.after == reviews[id := s.result.value]
  {
    if id !in reviews then Step(Err(ReviewNotFound), reviews)
    else
      var r := reviews[id].(status := verdict);
      Step(Ok(r), reviews[id := r])
  }

  // ----- The public listing -----

  predicate AllIn(reviews: Reviews, listed: seq<Id>) {
    forall i :: 0 <= i < |listed| ==> listed[i] in reviews
  }

  predicate NoRepeats(listed: seq<Id>) {
    forall i, j :: 0 <= i < j < |listed| ==> listed[i] != listed[j]
  }

  /** Each listed review is at least as recent as those after it. */
  predicate NewestFirst(reviews: Reviews, listed: seq<Id>)
    requires AllIn(reviews, listed)
  {
    forall i, j :: 0 <= i < j < |listed| ==> reviews[listed[i]].createdAt >= reviews[listed[j]].createdAt
  }

  /** `r` is `s` with some elements dropped and the rest in their order. */
  predicate IsSubsequence(r: seq<Id>, s: seq<Id>)
    decreases |s|
  {
    if r == [] then true
    else if s == [] then false
    else if r[0] == s[0] then IsSubsequence(r[1..], s[1..])
    else IsSubsequence(r, s[1..])
  }

  /** `findByBookIdOrderByCreatedAtDesc(bookId)`: every review of the book,
      once each, newest first. */
  predicate ListsBookReviews(reviews: Reviews, bookId: Id, listed: seq<Id>) {
    && AllIn(reviews, listed)
    && (forall i :: 0 <= i < |listed| ==> reviews[listed[i]].bookId == bookId)
    && (forall id :: id in reviews && reviews[id].bookId == bookId ==> id in listed)
    && NoRepeats(listed)
    && NewestFirst(reviews, listed)
  }

  /** `getReviewsByBookId`: the repository's listing with every review that
      is not APPROVED filtered out, order kept. */
  function GetReviewsByBookId(reviews: Reviews, listed: seq<Id>): (r: seq<Id>)
    requires AllIn(reviews, listed)
    ensures |r| <= |listed|
    ensures forall id :: id in r <==> id in listed && id in reviews && reviews[id].status == Approved
    decreases |listed|
  {
    if listed == [] then []
    else
      var rest := GetReviewsByBookId(reviews, listed[1..]);
      if reviews[listed[0]].status == Approved then [listed[0]] + rest else rest
  }

  /** The filter keeps the listing's order, ties included (the result is a
      subsequence of the listing), and adds no repeats. */
  lemma {:induction false} FilterKeepsOrder(reviews: Reviews, listed: seq<Id>)
    requires AllIn(reviews, listed) && NoRepeats(listed) && NewestFirst(reviews, listed)
    ensures var r := GetReviewsByBookId(reviews, listed);
      AllIn(reviews, r) && NoRepeats(r) && NewestFirst(reviews, r) && IsSubsequence(r, listed)
    decreases |listed|
  {
    if listed != [] {
      var tail := listed[1..];
      assert NewestFirst(reviews, tail) by {
        forall i, j | 0 <= i < j < |tail|
          ensures reviews[tail[i]].createdAt >= reviews[tail[j]].createdAt
        {
          assert tail[i] == listed[i + 1] && tail[j] == listed[j + 1];
        }
      }
      FilterKeepsOrder(reviews, tail);
      var rest := GetReviewsByBookId(reviews, tail);
      forall k | 0 <= k < |rest|
        ensures rest[k] != listed[0] && reviews[listed[0]].createdAt >= reviews[rest[k]].createdAt
      {
        assert rest[k] in tail;
        var j :| 0 <= j < |tail| && tail[j] == rest[k];
        assert tail[j] == listed[j + 1];
      }
      var r := GetReviewsByBookId(reviews, listed);
      if reviews[listed[0]].status == Approved {
        assert r[0] == listed[0] && r[1..] == rest;
      } else if rest != [] {
        assert rest[0] != listed[0];
      }
    }
  }

  /** Given the repository's listing of a book, the service returns exactly
      the book's APPROVED reviews, each once, newest first, in the listing's
      own order. */
  lemma ListingShowsExactlyApproved(reviews: Reviews, bookId: Id, listed: seq<Id>)
    requires ListsBookReviews(reviews, bookId, listed)
    ensures var r := GetReviewsByBookId(reviews, listed);
      && (forall id :: id in r <==> id in reviews && reviews[id].bookId == bookId && reviews[id].status == Approved)
      && NoRepeats(r) && NewestFirst(reviews, r) && IsSubsequence(r, listed)
  {
    FilterKeepsOrder(reviews, listed);
  }

  /** Moderation changes neither a review's book nor its age, so the
      repository's listing stays valid; approving a review puts it in the
      public listing, rejecting it takes it out, and every other review keeps
      its place in or out. */
  lemma ModerationDecidesVisibility(reviews: Reviews, bookId: Id, listed: seq<Id>, id: Id, verdict: ReviewStatus)
    requires ListsBookReviews(reviews, bookId, listed) && id in reviews && verdict != Pending
    ensures var after := Moderate(reviews, id, verdict).after;
      && ListsBookReviews(after, bookId, listed)
      && (reviews[id].bookId == bookId ==>
            (id in GetReviewsByBookId(after, listed) <==> verdict == Approved))
      && forall k :: k != id ==>
           (k in GetReviewsByBookId(after, listed) <==> k in GetReviewsByBookId(reviews, listed))
  {
  }

  /** A new review is PENDING, so it is not shown until it is approved. */
  lemma NewReviewIsNotShown(reviews: Reviews, bookIds: set<Id>, userIds: set<Id>,
                            req: ReviewRequest, userId: Id, now: Time, newId: Id, listed: seq<Id>)
    requires newId !in reviews
    requires AllIn(CreateReview(reviews, bookIds, userIds, req, userId, now, newId).after, listed)
    ensures newId !in GetReviewsByBookId(CreateReview(reviews, bookIds, userIds, req, userId, now, newId).after, listed)
  {
  }
}
