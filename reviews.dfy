/** Ratings that users leave on each other's profiles (`UserReviewService`):
    no one rates themselves and each reviewer rates a given user at most
    once.  The review table is a map keyed by (reviewer, reviewed user), so
    that pair is unique by construction. */
module UserReviews {
  import opened Common
  import opened Text
  import opened Users
  import opened UserAccounts

  datatype Review = Review(rating: int, feedback: string)

  /** The `IllegalArgumentException`s `submitReview` raises. */
  datatype ReviewError = NotAuthenticated | UnknownReviewedUser | SelfReview | AlreadyReviewed

  /** The e-mail normalisation of this service, which lets null through. */
  function NormalizeNullableEmail(email: Option<string>): (r: Option<string>)
    ensures r.Some? <==> email.Some?
    ensures r.Some? ==> r.value == NormalizeEmail(email.value)
  {
    match email
    case None => None
    case Some(e) => Some(NormalizeEmail(e))
  }

  class UserReviewService {
    const users: UserRepository
    var reviews: map<(UserId, UserId), Review>

    constructor(users: UserRepository)
      ensures this.users == users && reviews == map[]
    {
      this.users := users;
      reviews := map[];
    }

    /** `hasReviewed`: the reviewer is among the reviewers counted for the
        reviewed user. */
    predicate HasReviewed(reviewer: UserId, reviewed: UserId): (b: bool)
      reads this
      ensures b <==> reviewer in ReviewersOf(reviewed)
    {
      assert reviewer in ReviewersOf(reviewed) ==> (reviewer, reviewed) in reviews by {
        if reviewer in ReviewersOf(reviewed) {
          var k :| k in reviews && k.1 == reviewed && k.0 == reviewer;
          assert k == (reviewer, reviewed);
        }
      }
      (reviewer, reviewed) in reviews
    }

    /** The reviewers of a user; their number is the count `getSummary`
        reports. */
    function ReviewersOf(reviewed: UserId): set<UserId>
      reads this
    {
      Reviewers(reviews, reviewed)
    }

    /** The count of `getSummary`: zero exactly when no one has reviewed
        the user. */
    function ReviewCount(reviewed: UserId): (n: nat)
      reads this
      ensures n == 0 <==> forall reviewer :: !HasReviewed(reviewer, reviewed)
    {
      var reviewers := ReviewersOf(reviewed);
      assert forall reviewer :: HasReviewed(reviewer, reviewed) ==> reviewer in reviewers;
      assert reviewers != {} ==> exists reviewer :: HasReviewed(reviewer, reviewed) by {
        if reviewers != {} {
          var reviewer :| reviewer in reviewers;
          var k :| k in reviews && k.1 == reviewed && k.0 == reviewer;
          assert k == (reviewer, reviewed);
          assert HasReviewed(reviewer, reviewed);
        }
      }
      |reviewers|
    }

    /** `submitReview`: the reviewer must be known by (normalised) e-mail and
        the reviewed user by id; self-reviews and second reviews fail; a new
        review carries the rating and the trimmed feedback. */
    method SubmitReview(reviewerEmail: Option<string>, reviewedId: UserId, rating: int, feedback: string)
      returns (res: Result<(), ReviewError>)
      modifies this`reviews
      requires users.Valid()
      ensures users.Valid()
      ensures
        var email := NormalizeNullableEmail(reviewerEmail);
        if email.None? || email.value !in users.byEmail then res == Err(NotAuthenticated)
        else if forall e :: e in users.byEmail ==> users.byEmail[e].id != reviewedId then res == Err(UnknownReviewedUser)
        else if users.byEmail[email.value].id == reviewedId then res == Err(SelfReview)
        else if old(HasReviewed(users.byEmail[email.value].id, reviewedId)) then res == Err(AlreadyReviewed)
        else res == Ok(()) &&
             reviews == old(reviews)[(users.byEmail[email.value].id, reviewedId) := Review(rating, Trim(feedback))]
      ensures res.Err? ==> reviews == old(reviews)
      ensures res.Ok? ==>
                var reviewer := users.byEmail[NormalizeNullableEmail(reviewerEmail).value].id;
                !old(HasReviewed(reviewer, reviewedId)) && HasReviewed(reviewer, reviewedId) &&
                ReviewCount(reviewedId) == old(ReviewCount(reviewedId)) + 1
    {
      var email := NormalizeNullableEmail(reviewerEmail);
      if email.None? || email.value !in users.byEmail {
        return Err(NotAuthenticated);
      }
      var reviewer := users.byEmail[email.value];
      var reviewed := users.FindById(reviewedId);
      if reviewed.None? {
        return Err(UnknownReviewedUser);
      }
      if reviewer.id == reviewed.value.id {
        return Err(SelfReview);
      }
      if HasReviewed(reviewer.id, reviewedId) {
        return Err(AlreadyReviewed);
      }
      ReviewersAfterInsert(reviews, reviewer.id, reviewedId, Review(rating, Trim(feedback)));
      reviews := reviews[(reviewer.id, reviewedId) := Review(rating, Trim(feedback))];
      res := Ok(());
    }
  }

  function Reviewers(reviews: map<(UserId, UserId), Review>, reviewed: UserId): set<UserId> {
    set k | k in reviews && k.1 == reviewed :: k.0
  }

  /** A first review of a user by a reviewer adds that reviewer to the
      user's reviewers, and nobody else. */
  lemma ReviewersAfterInsert(reviews: map<(UserId, UserId), Review>, reviewer: UserId, reviewed: UserId, review: Review)
    requires (reviewer, reviewed) !in reviews
    ensures Reviewers(reviews[(reviewer, reviewed) := review], reviewed) == Reviewers(reviews, reviewed) + {reviewer}
    ensures |Reviewers(reviews[(reviewer, reviewed) := review], reviewed)| == |Reviewers(reviews, reviewed)| + 1
  {
    assert reviewer !in Reviewers(reviews, reviewed);
    assert Reviewers(reviews[(reviewer, reviewed) := review], reviewed) == Reviewers(reviews, reviewed) + {reviewer};
  }
}
