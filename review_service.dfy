/**
 * `ReviewService`: a review names an existing user and product; patch
 * replaces only the fields the request supplies.
 */
module ReviewService {
  import opened Common
  import opened Domain
  import opened Repositories

  datatype ReviewResponse = ReviewResponse(id: int, userId: int, productId: int, rating: int, comment: Option<string>)

  /** The bean-validation bounds on a review's fields. */
  predicate RatingAllowed(rating: int) {
    1 <= rating <= 5
  }

  predicate CommentAllowed(comment: Option<string>) {
    comment.None? || |comment.value| <= 600
  }

  /** `toResponse`. */
  function ToResponse(id: int, r: Review): (resp: ReviewResponse)
    ensures resp.id == id && Review(resp.userId, resp.productId, resp.rating, resp.comment) == r
  {
    ReviewResponse(id, r.userId, r.productId, r.rating, r.comment)
  }

  /** `create`: NotFound for an unknown user, checked first, then for an
      unknown product; otherwise the review is stored under the next id with
      exactly the given fields. */
  method Create(db: Database, userId: int, productId: int, rating: int, comment: Option<string>) returns (r: Result<ReviewResponse>)
    requires db.Valid()
    requires RatingAllowed(rating) && CommentAllowed(comment)
    modifies db`reviews, db`nextReviewId
    ensures db.Valid()
    ensures userId !in db.users ==>
      r == Err(NotFound) && db.reviews == old(db.reviews) && db.nextReviewId == old(db.nextReviewId)
    ensures userId in db.users && productId !in db.products ==>
      r == Err(NotFound) && db.reviews == old(db.reviews) && db.nextReviewId == old(db.nextReviewId)
    ensures userId in db.users && productId in db.products ==>
      var id := old(db.nextReviewId);
      && id !in old(db.reviews)
      && db.reviews == old(db.reviews)[id := Review(userId, productId, rating, comment)]
      && db.nextReviewId == id + 1
      && r == Ok(ReviewResponse(id, userId, productId, rating, comment))
  {
    if userId !in db.users {
      return Err(NotFound);
    }
    if productId !in db.products {
      return Err(NotFound);
    }
    var review := Review(userId, productId, rating, comment);
    var id := db.nextReviewId;
    db.reviews := db.reviews[id := review];
    db.nextReviewId := id + 1;
    r := Ok(ToResponse(id, review));
  }

  /** `list`: every review, or those of one product, as responses. */
  function List(reviews: map<int, Review>, productId: Option<int>): (r: map<int, ReviewResponse>)
    ensures forall k :: k in r <==> k in reviews && (productId.None? || reviews[k].productId == productId.value)
    ensures forall k :: k in r ==> r[k] == ToResponse(k, reviews[k])
  {
    map k | k in reviews && (productId.None? || reviews[k].productId == productId.value) :: ToResponse(k, reviews[k])
  }

  /** The listings by product split the full listing: each review appears in
      its own product's listing and in no other. */
  lemma ListPartitions(reviews: map<int, Review>, k: int, p: int)
    requires k in reviews
    ensures List(reviews, None).Keys == reviews.Keys
    ensures k in List(reviews, Some(p)) <==> p == reviews[k].productId
    ensures List(reviews, Some(p)).Keys <= List(reviews, None).Keys
  {
  }

  /** `get`: NotFound for a missing id, otherwise the stored review. */
  function Get(reviews: map<int, Review>, id: int): (r: Result<ReviewResponse>)
    ensures r.Err? <==> id !in reviews
    ensures r.Err? ==> r.error == NotFound
    ensures r.Ok? ==> r.value == ToResponse(id, reviews[id])
  {
    if id in reviews then Ok(ToResponse(id, reviews[id])) else Err(NotFound)
  }

  /** The review `patch` leaves behind: a supplied rating or comment replaces
      the stored one, a null one keeps it. */
  function Patched(r: Review, rating: Option<int>, comment: Option<string>): (q: Review)
    ensures q.userId == r.userId && q.productId == r.productId
    ensures q.rating == if rating.Some? then rating.value else r.rating
    ensures q.comment == if comment.Some? then comment else r.comment
    ensures rating.None? && comment.None? ==> q == r
  {
    r.(rating := if rating.Some? then rating.value else r.rating,
       comment := if comment.Some? then comment else r.comment)
  }

  /** A patch never changes who wrote the review or what it is about, keeps
      the rating in range, does nothing when it supplies nothing, and gives
      the same review when applied twice. */
  lemma PatchProperties(r: Review, rating: Option<int>, comment: Option<string>)
    requires RatingAllowed(r.rating)
    requires rating.Some? ==> RatingAllowed(rating.value)
    ensures Patched(r, rating, comment).userId == r.userId
    ensures Patched(r, rating, comment).productId == r.productId
    ensures RatingAllowed(Patched(r, rating, comment).rating)
    ensures Patched(r, None, None) == r
    ensures Patched(Patched(r, rating, comment), rating, comment) == Patched(r, rating, comment)
  {
  }

  /** `patch`: NotFound for a missing id; otherwise the rating and the
      comment are set when supplied, in that order, on the stored row. */
  method Patch(db: Database, id: int, rating: Option<int>, comment: Option<string>) returns (r: Result<ReviewResponse>)
    requires db.Valid()
    requires (rating.Some? ==> RatingAllowed(rating.value)) && CommentAllowed(comment)
    modifies db`reviews
    ensures db.Valid()
    ensures id !in old(db.reviews) ==> r == Err(NotFound) && db.reviews == old(db.reviews)
    ensures id in old(db.reviews) ==>
      && db.reviews == old(db.reviews)[id := Patched(old(db.reviews)[id], rating, comment)]
      && r == Ok(ToResponse(id, Patched(old(db.reviews)[id], rating, comment)))
  {
    if id !in db.reviews {
      return Err(NotFound);
    }
    var review := db.reviews[id];
    if rating.Some? {
      review := review.(rating := rating.value);
    }
    if comment.Some? {
      review := review.(comment := comment);
    }
    db.reviews := db.reviews[id := review];
    r := Ok(ToResponse(id, review));
  }

  /** `delete`: NotFound for a missing id; otherwise exactly that review is
      removed. */
  method Delete(db: Database, id: int) returns (r: Result<()>)
    requires db.Valid()
    modifies db`reviews
    ensures db.Valid()
    ensures id !in old(db.reviews) ==> r == Err(NotFound) && db.reviews == old(db.reviews)
    ensures id in old(db.reviews) ==> r == Ok(()) && db.reviews == old(db.reviews) - {id}
  {
    if id !in db.reviews {
      return Err(NotFound);
    }
    db.reviews := db.reviews - {id};
    r := Ok(());
  }
}
