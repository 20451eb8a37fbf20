/** Reviews: a customer rates a product of one of their delivered orders.
    There is one review per (product, user) pair, and after every change the
    product's rating aggregate is recomputed over all of its reviews. */
module ReviewController {
  import opened Models
  import opened Database

  /** All reviews of a product (`$match: { productId }`, `Review.find({ productId })`). */
  function ReviewsOf(reviews: seq<Review>, productId: ProductId): seq<Review>
  {
    Filter(reviews, (r: Review) => r.productId == productId)
  }

  function SumRatings(reviews: seq<Review>): int
  {
    if reviews == [] then 0 else reviews[0].rating + SumRatings(reviews[1..])
  }

  datatype RatingStats = RatingStats(average: real, count: nat)

  /** The aggregate written to a product: the mean rating and the number of
      its reviews, and 0 for both when it has none. */
  function Stats(reviews: seq<Review>, productId: ProductId): (r: RatingStats)
    ensures r.count == |ReviewsOf(reviews, productId)|
    ensures r.count == 0 ==> r.average == 0.0
    ensures r.count > 0 ==> r.average * r.count as real == SumRatings(ReviewsOf(reviews, productId)) as real
  {
    var mine := ReviewsOf(reviews, productId);
    if |mine| == 0 then RatingStats(0.0, 0)
    else RatingStats(SumRatings(mine) as real / |mine| as real, |mine|)
  }

  lemma {:induction false} SumRatingsBounds(reviews: seq<Review>)
    requires forall i :: 0 <= i < |reviews| ==> 1 <= reviews[i].rating <= 5
    ensures |reviews| <= SumRatings(reviews) <= 5 * |reviews|
  {
    if reviews != [] {
      SumRatingsBounds(reviews[1..]);
    }
  }

  /** Since every stored rating lies in 1..5, a product's average lies in
      1..5 once it has a review, and is 0 before. */
  lemma AverageInRange(reviews: seq<Review>, nextId: nat, productId: ProductId)
    requires ReviewsValid(reviews, nextId)
    ensures Stats(reviews, productId).count > 0 ==> 1.0 <= Stats(reviews, productId).average <= 5.0
    ensures Stats(reviews, productId).count == 0 ==> Stats(reviews, productId).average == 0.0
  {
    var mine := ReviewsOf(reviews, productId);
    RatingsOfProductInRange(reviews, nextId, productId);
    SumRatingsBounds(mine);
    var st := Stats(reviews, productId);
    if st.count > 0 {
      MeanBounds(st.average, st.count, SumRatings(mine));
    }
  }

  /** A product's reviews carry ratings in 1..5 when all stored ones do. */
  lemma RatingsOfProductInRange(reviews: seq<Review>, nextId: nat, productId: ProductId)
    requires ReviewsValid(reviews, nextId)
    ensures forall i :: 0 <= i < |ReviewsOf(reviews, productId)| ==> 1 <= ReviewsOf(reviews, productId)[i].rating <= 5
  {
    var mine := ReviewsOf(reviews, productId);
    forall i | 0 <= i < |mine| ensures 1 <= mine[i].rating <= 5 {
      assert mine[i] in reviews;
    }
  }

  /** A mean of `n` values whose sum lies between `n` and `5n` lies in 1..5. */
  lemma MeanBounds(mean: real, n: nat, sum: int)
    requires n > 0 && mean * n as real == sum as real && n <= sum <= 5 * n
    ensures 1.0 <= mean <= 5.0
  {
    var rn, rs := n as real, sum as real;
    assert rn > 0.0 && rn <= rs <= 5.0 * rn;
    RealMeanBounds(mean, rn, rs);
  }

  lemma RealMeanBounds(mean: real, n: real, sum: real)
    requires n > 0.0 && mean * n == sum && n <= sum <= 5.0 * n
    ensures 1.0 <= mean <= 5.0
  {
    assert (mean - 1.0) * n == sum - n >= 0.0;
    assert (5.0 - mean) * n == 5.0 * n - sum >= 0.0;
  }

  /** Every product's stored aggregate agrees with its current reviews. */
  predicate RatingsConsistent(products: map<ProductId, Product>, reviews: seq<Review>)
  {
    forall p :: p in products ==>
      products[p].averageRating == Stats(reviews, p).average && products[p].totalReviews == Stats(reviews, p).count
  }

  /** `Product.findByIdAndUpdate(productId, { averageRating, totalReviews })`:
      the product's aggregate recomputed over `reviews`; nothing happens when
      the product is gone. */
  function Recompute(products: map<ProductId, Product>, reviews: seq<Review>, productId: ProductId): map<ProductId, Product>
  {
    if productId in products then
      products[productId := products[productId].(averageRating := Stats(reviews, productId).average,
                                                  totalReviews := Stats(reviews, productId).count)]
    else products
  }

  /** Recomputing the one product whose reviews changed restores agreement
      between every product and its reviews. */
  lemma RecomputeRestoresConsistency(products: map<ProductId, Product>, reviews: seq<Review>,
                                     changed: seq<Review>, productId: ProductId)
    requires RatingsConsistent(products, reviews)
    requires forall q :: q != productId ==> ReviewsOf(changed, q) == ReviewsOf(reviews, q)
    ensures RatingsConsistent(Recompute(products, changed, productId), changed)
  {
    var r := Recompute(products, changed, productId);
    forall q | q in r
      ensures r[q].averageRating == Stats(changed, q).average && r[q].totalReviews == Stats(changed, q).count
    {
      if q != productId {
        assert Stats(changed, q) == Stats(reviews, q);
      }
    }
  }

  /** The review a user wrote for a product (`{ productId, userId }`). */
  function FindPair(reviews: seq<Review>, productId: ProductId, userId: UserId): Option<nat>
  {
    FindFirst(reviews, (r: Review) => r.productId == productId && r.userId == userId)
  }

  /** A review by id (`Review.findById`). */
  function FindReview(reviews: seq<Review>, id: ReviewId): Option<nat>
  {
    FindFirst(reviews, (r: Review) => r.id == id)
  }

  /** With one review per pair, a pair that has a review has exactly one. */
  lemma OneReviewPerPair(reviews: seq<Review>, nextId: nat, productId: ProductId, userId: UserId)
    requires ReviewsValid(reviews, nextId)
    ensures |Filter(reviews, (r: Review) => r.productId == productId && r.userId == userId)|
            == if FindPair(reviews, productId, userId).Some? then 1 else 0
  {
    var pair := (r: Review) => r.productId == productId && r.userId == userId;
    FilterAtMostOne(reviews, pair);
    if FindPair(reviews, productId, userId).Some? {
      assert pair(reviews[FindPair(reviews, productId, userId).value]);
    }
  }

  /** The reviews after the upsert and the id of the review it wrote. */
  datatype Upserted = Upserted(reviews: seq<Review>, id: ReviewId)

  /** `Review.findOneAndUpdate({ productId, userId }, …, { upsert: true })`:
      the pair's review gets the new rating and order, or a new review with a
      fresh id is inserted. */
  function Upsert(reviews: seq<Review>, productId: ProductId, userId: UserId, orderId: OrderId,
                  rating: int, freshId: ReviewId): Upserted
  {
    match FindPair(reviews, productId, userId)
    case Some(i) => Upserted(reviews[i := Review(reviews[i].id, productId, userId, orderId, rating)], reviews[i].id)
    case None => Upserted(reviews + [Review(freshId, productId, userId, orderId, rating)], freshId)
  }

  /** After the upsert the pair has exactly one review, carrying the new
      rating and order; a review is added only when the pair had none; the
      invariants hold; no other product's reviews change; and every other
      review, of this product or another, stays where and as it was. */
  lemma UpsertSpec(reviews: seq<Review>, nextId: nat, productId: ProductId, userId: UserId, orderId: OrderId, rating: int)
    requires ReviewsValid(reviews, nextId) && 1 <= rating <= 5
    ensures var up := Upsert(reviews, productId, userId, orderId, rating, nextId);
      && ReviewsValid(up.reviews, nextId + 1)
      && FindPair(up.reviews, productId, userId).Some?
      && up.reviews[FindPair(up.reviews, productId, userId).value] == Review(up.id, productId, userId, orderId, rating)
      && |up.reviews| == |reviews| + (if FindPair(reviews, productId, userId).None? then 1 else 0)
      && (forall q :: q != productId ==> ReviewsOf(up.reviews, q) == ReviewsOf(reviews, q))
    ensures FindPair(reviews, productId, userId).Some? ==>
      forall j :: 0 <= j < |reviews| && j != FindPair(reviews, productId, userId).value ==>
        Upsert(reviews, productId, userId, orderId, rating, nextId).reviews[j] == reviews[j]
    ensures FindPair(reviews, productId, userId).None? ==>
      Upsert(reviews, productId, userId, orderId, rating, nextId).reviews[..|reviews|] == reviews
  {
    UpsertValid(reviews, nextId, productId, userId, orderId, rating);
    UpsertPair(reviews, productId, userId, orderId, rating, nextId);
    UpsertOthers(reviews, productId, userId, orderId, rating, nextId);
  }

  /** The upsert keeps the review invariants, with one more id handed out. */
  lemma UpsertValid(reviews: seq<Review>, nextId: nat, productId: ProductId, userId: UserId, orderId: OrderId, rating: int)
    requires ReviewsValid(reviews, nextId) && 1 <= rating <= 5
    ensures ReviewsValid(Upsert(reviews, productId, userId, orderId, rating, nextId).reviews, nextId + 1)
  {
    var pair := (r: Review) => r.productId == productId && r.userId == userId;
    match FindPair(reviews, productId, userId)
    case Some(i) =>
    case None =>
      forall j | 0 <= j < |reviews| ensures !pair(reviews[j]) {
      }
  }

  /** After the upsert the pair's first review is the one just written; the
      upsert adds a review exactly when the pair had none. */
  lemma UpsertPair(reviews: seq<Review>, productId: ProductId, userId: UserId, orderId: OrderId,
                   rating: int, freshId: ReviewId)
    ensures var up := Upsert(reviews, productId, userId, orderId, rating, freshId);
      && FindPair(up.reviews, productId, userId).Some?
      && up.reviews[FindPair(up.reviews, productId, userId).value] == Review(up.id, productId, userId, orderId, rating)
      && |up.reviews| == |reviews| + (if FindPair(reviews, productId, userId).None? then 1 else 0)
  {
    var up := Upsert(reviews, productId, userId, orderId, rating, freshId);
    var pair := (r: Review) => r.productId == productId && r.userId == userId;
    match FindPair(reviews, productId, userId)
    case Some(i) =>
      FindFirstSameTruth(reviews, up.reviews, pair);
    case None =>
      FindFirstAppend(reviews, up.reviews[|reviews|], pair);
      assert up.reviews == reviews + [up.reviews[|reviews|]];
  }

  /** The upsert changes no other product's reviews. */
  lemma UpsertOthers(reviews: seq<Review>, productId: ProductId, userId: UserId, orderId: OrderId,
                     rating: int, freshId: ReviewId)
    ensures forall q :: q != productId ==>
      ReviewsOf(Upsert(reviews, productId, userId, orderId, rating, freshId).reviews, q) == ReviewsOf(reviews, q)
  {
    var up := Upsert(reviews, productId, userId, orderId, rating, freshId);
    match FindPair(reviews, productId, userId)
    case Some(i) =>
      forall q | q != productId ensures ReviewsOf(up.reviews, q) == ReviewsOf(reviews, q) {
        FilterUpdate(reviews, i, up.reviews[i], (r: Review) => r.productId == q);
      }
    case None =>
      assert up.reviews == reviews + [up.reviews[|reviews|]];
      forall q | q != productId ensures ReviewsOf(up.reviews, q) == ReviewsOf(reviews, q) {
        FilterAppend(reviews, up.reviews[|reviews|], (r: Review) => r.productId == q);
      }
  }

  /** Submitting again for the same pair replaces the earlier submission:
      two upserts leave what the second one alone would have left. */
  lemma ResubmitReplaces(reviews: seq<Review>, productId: ProductId, userId: UserId,
                         firstOrder: OrderId, firstRating: int, firstId: ReviewId,
                         secondOrder: OrderId, secondRating: int, secondId: ReviewId)
    ensures Upsert(Upsert(reviews, productId, userId, firstOrder, firstRating, firstId).reviews,
                   productId, userId, secondOrder, secondRating, secondId)
            == Upsert(reviews, productId, userId, secondOrder, secondRating, firstId)
  {
    var up := Upsert(reviews, productId, userId, firstOrder, firstRating, firstId);
    var pair := (r: Review) => r.productId == productId && r.userId == userId;
    match FindPair(reviews, productId, userId)
    case Some(i) =>
      FindFirstSameTruth(reviews, up.reviews, pair);
    case None =>
      FindFirstAppend(reviews, up.reviews[|reviews|], pair);
      assert up.reviews == reviews + [up.reviews[|reviews|]];
  }

  /** `Review.findByIdAndDelete`: the reviews without the one with that id. */
  function WithoutReview(reviews: seq<Review>, id: ReviewId): seq<Review>
  {
    Filter(reviews, (r: Review) => r.id != id)
  }

  /** Deleting a review keeps the invariants, drops exactly the reviews with
      that id, and leaves every other product's reviews as they were. */
  lemma WithoutReviewSpec(reviews: seq<Review>, nextId: nat, id: ReviewId)
    requires ReviewsValid(reviews, nextId)
    ensures ReviewsValid(WithoutReview(reviews, id), nextId)
    ensures forall x :: x in WithoutReview(reviews, id) <==> x in reviews && x.id != id
    ensures FindReview(reviews, id).Some? ==>
      forall q :: q != reviews[FindReview(reviews, id).value].productId ==>
        ReviewsOf(WithoutReview(reviews, id), q) == ReviewsOf(reviews, q)
    ensures FindReview(reviews, id).None? ==> WithoutReview(reviews, id) == reviews
  {
    var keep := (r: Review) => r.id != id;
    var w := WithoutReview(reviews, id);
    FilterPairwise(reviews, keep, (a: Review, b: Review) => a.id != b.id);
    FilterPairwise(reviews, keep, (a: Review, b: Review) => a.productId != b.productId || a.userId != b.userId);
    forall i | 0 <= i < |w| ensures w[i].id < nextId && 1 <= w[i].rating <= 5 {
      assert w[i] in reviews;
    }
    if FindReview(reviews, id).Some? {
      var k := FindReview(reviews, id).value;
      forall q | q != reviews[k].productId
        ensures ReviewsOf(w, q) == ReviewsOf(reviews, q)
      {
        forall x | x in reviews && x.productId == q ensures x.id != id {
          var m :| 0 <= m < |reviews| && reviews[m] == x;
          assert m != k;
        }
        FilterFilter(reviews, keep, (r: Review) => r.productId == q);
      }
    } else {
      FilterAll(reviews, keep);
    }
  }

  /** When the upsert inserted a new review, deleting it again restores the
      reviews exactly. */
  lemma RollbackAfterInsert(reviews: seq<Review>, nextId: nat, productId: ProductId, userId: UserId,
                            orderId: OrderId, rating: int)
    requires ReviewsValid(reviews, nextId)
    requires FindPair(reviews, productId, userId).None?
    ensures var up := Upsert(reviews, productId, userId, orderId, rating, nextId);
      WithoutReview(up.reviews, up.id) == reviews
  {
    FilterAppend(reviews, Review(nextId, productId, userId, orderId, rating), (r: Review) => r.id != nextId);
    FilterAll(reviews, (r: Review) => r.id != nextId);
  }

  /** When the upsert overwrote the user's earlier review of the product,
      deleting it removes that review too: the pair is left with none. */
  lemma RollbackAfterUpdate(reviews: seq<Review>, nextId: nat, productId: ProductId, userId: UserId,
                            orderId: OrderId, rating: int)
    requires ReviewsValid(reviews, nextId)
    requires FindPair(reviews, productId, userId).Some?
    ensures var up := Upsert(reviews, productId, userId, orderId, rating, nextId);
      && FindPair(WithoutReview(up.reviews, up.id), productId, userId).None?
      && |WithoutReview(up.reviews, up.id)| == |reviews| - 1
  {
    var i := FindPair(reviews, productId, userId).value;
    var up := Upsert(reviews, productId, userId, orderId, rating, nextId);
    var w := WithoutReview(up.reviews, up.id);
    forall j | 0 <= j < |w| ensures !(w[j].productId == productId && w[j].userId == userId) {
      assert w[j] in up.reviews;
      var m :| 0 <= m < |up.reviews| && up.reviews[m] == w[j];
      if m != i {
        assert !(reviews[m].productId == productId && reviews[m].userId == userId) by {
          if m < i {
          } else {
            assert reviews[i].productId != reviews[m].productId || reviews[i].userId != reviews[m].userId;
          }
        }
      }
    }
    WithoutOneOfDistinct(up.reviews, i);
  }

  /** Deleting the id of one review among reviews with distinct ids removes
      exactly one review. */
  lemma {:induction false} WithoutOneOfDistinct(reviews: seq<Review>, i: nat)
    requires i < |reviews|
    requires forall a, b :: 0 <= a < b < |reviews| ==> reviews[a].id != reviews[b].id
    ensures |WithoutReview(reviews, reviews[i].id)| == |reviews| - 1
  {
    var id := reviews[i].id;
    assert reviews[1..][..] == reviews[1..];
    if i == 0 {
      FilterAll(reviews[1..], (r: Review) => r.id != id);
    } else {
      assert reviews[1..][i - 1] == reviews[i];
      WithoutOneOfDistinct(reviews[1..], i - 1);
    }
  }

  /** Whether the order's lines include the product (`orderItems.find`). */
  predicate OrderHasProduct(order: Order, productId: ProductId)
  {
    exists k :: 0 <= k < |order.items| && order.items[k].product == productId
  }

  /** The answer of `createReview`'s checks, in the order the handler makes
      them: ids present, rating in 1..5, order found, order owned by the
      caller, order delivered, product among the order's lines. */
  function Eligibility(orders: seq<Order>, me: Caller, productId: Option<ProductId>, orderId: Option<OrderId>,
                       rating: Option<int>): Status
  {
    if productId.None? || orderId.None? then BadRequest
    else if rating.None? || rating.value < 1 || rating.value > 5 then BadRequest
    else if orderId.value >= |orders| then NotFound
    else if orders[orderId.value].clerkId != me.clerkId then Forbidden
    else if orders[orderId.value].status != Delivered then BadRequest
    else if !OrderHasProduct(orders[orderId.value], productId.value) then BadRequest
    else Ok
  }

  /** The reviews `createReview` leaves once its checks pass: the upserted
      ones, or, when the product no longer exists, those left after deleting
      the review just written. */
  function ReviewsAfterCreate(products: map<ProductId, Product>, reviews: seq<Review>, productId: ProductId,
                              userId: UserId, orderId: OrderId, rating: int, freshId: ReviewId): seq<Review>
  {
    var up := Upsert(reviews, productId, userId, orderId, rating, freshId);
    if productId in products then up.reviews else WithoutReview(up.reviews, up.id)
  }

  /** A passed `createReview` keeps the review invariants and the agreement
      of every product with its reviews; when the product exists, the
      caller's review of it carries the submitted rating and order. */
  lemma ReviewsAfterCreateSpec(products: map<ProductId, Product>, reviews: seq<Review>, nextId: nat,
                               productId: ProductId, userId: UserId, orderId: OrderId, rating: int)
    requires ReviewsValid(reviews, nextId) && 1 <= rating <= 5
    ensures var after := ReviewsAfterCreate(products, reviews, productId, userId, orderId, rating, nextId);
      var up := Upsert(reviews, productId, userId, orderId, rating, nextId);
      && ReviewsValid(after, nextId + 1)
      && (RatingsConsistent(products, reviews) ==> RatingsConsistent(Recompute(products, up.reviews, productId), after))
      && (productId in products ==>
            && FindPair(after, productId, userId).Some?
            && after[FindPair(after, productId, userId).value].rating == rating
            && after[FindPair(after, productId, userId).value].orderId == orderId)
  {
    var up := Upsert(reviews, productId, userId, orderId, rating, nextId);
    UpsertSpec(reviews, nextId, productId, userId, orderId, rating);
    if productId !in products {
      RollbackSpec(products, reviews, nextId, productId, userId, orderId, rating);
    } else if RatingsConsistent(products, reviews) {
      RecomputeRestoresConsistency(products, reviews, up.reviews, productId);
    }
  }

  /** When the product is gone, deleting the review just upserted keeps the
      review invariants and changes no other product's reviews, so every
      product stays consistent with the reviews left. */
  lemma RollbackSpec(products: map<ProductId, Product>, reviews: seq<Review>, nextId: nat,
                     productId: ProductId, userId: UserId, orderId: OrderId, rating: int)
    requires ReviewsValid(reviews, nextId) && 1 <= rating <= 5 && productId !in products
    ensures var up := Upsert(reviews, productId, userId, orderId, rating, nextId);
      && ReviewsValid(WithoutReview(up.reviews, up.id), nextId + 1)
      && (RatingsConsistent(products, reviews) ==>
            RatingsConsistent(Recompute(products, up.reviews, productId), WithoutReview(up.reviews, up.id)))
  {
    var up := Upsert(reviews, productId, userId, orderId, rating, nextId);
    UpsertValid(reviews, nextId, productId, userId, orderId, rating);
    UpsertPair(reviews, productId, userId, orderId, rating, nextId);
    var i := FindPair(up.reviews, productId, userId).value;
    FoundById(up.reviews, nextId + 1, i);
    WithoutReviewSpec(up.reviews, nextId + 1, up.id);
    if RatingsConsistent(products, reviews) {
      UpsertOthers(reviews, productId, userId, orderId, rating, nextId);
      RecomputeRestoresConsistency(products, reviews, WithoutReview(up.reviews, up.id), productId);
    }
  }

  /** With distinct ids, looking up a stored review's id finds that review. */
  lemma FoundById(reviews: seq<Review>, nextId: nat, i: nat)
    requires ReviewsValid(reviews, nextId) && i < |reviews|
    ensures FindReview(reviews, reviews[i].id) == Some(i)
  {
    var r := FindReview(reviews, reviews[i].id);
    assert !(r.value < i) && !(r.value > i);
  }

  /** `createReview`: the checks of `Eligibility` fail with nothing changed;
      otherwise the pair's review is upserted and the product's aggregate
      recomputed, or, when the product is gone, the upserted review is
      deleted again and NotFound returned. */
  method CreateReview(st: Store, me: Caller, productId: Option<ProductId>, orderId: Option<OrderId>,
                      rating: Option<int>) returns (s: Status)
    requires st.Valid()
    modifies st`reviews, st`products, st`nextReviewId
    ensures st.Valid()
    ensures Eligibility(st.orders, me, productId, orderId, rating) != Ok ==>
      && s == Eligibility(st.orders, me, productId, orderId, rating)
      && st.reviews == old(st.reviews) && st.products == old(st.products)
    ensures Eligibility(st.orders, me, productId, orderId, rating) == Ok ==>
      && (s == Ok <==> productId.value in old(st.products))
      && (s != Ok ==> s == NotFound)
      && st.reviews == ReviewsAfterCreate(old(st.products), old(st.reviews), productId.value, me.id,
                                          orderId.value, rating.value, old(st.nextReviewId))
      && st.products == Recompute(old(st.products),
           Upsert(old(st.reviews), productId.value, me.id, orderId.value, rating.value, old(st.nextReviewId)).reviews,
           productId.value)
    ensures s == Ok ==>
      && FindPair(st.reviews, productId.value, me.id).Some?
      && st.reviews[FindPair(st.reviews, productId.value, me.id).value].rating == rating.value
      && st.reviews[FindPair(st.reviews, productId.value, me.id).value].orderId == orderId.value
    ensures RatingsConsistent(old(st.products), old(st.reviews)) ==> RatingsConsistent(st.products, st.reviews)
  {
    s := Eligibility(st.orders, me, productId, orderId, rating);
    if s != Ok {
      return;
    }
    s := SubmitReview(st, productId.value, me.id, orderId.value, rating.value);
  }

  /** The writes of a `createReview` whose checks passed: the upsert, the
      recomputed aggregate and, when the product is gone, the rollback. */
  method SubmitReview(st: Store, productId: ProductId, userId: UserId, orderId: OrderId, rating: int)
    returns (s: Status)
    requires st.Valid() && 1 <= rating <= 5
    modifies st`reviews, st`products, st`nextReviewId
    ensures st.Valid()
    ensures s == (if productId in old(st.products) then Ok else NotFound)
    ensures st.reviews == ReviewsAfterCreate(old(st.products), old(st.reviews), productId, userId,
                                             orderId, rating, old(st.nextReviewId))
    ensures st.products == Recompute(old(st.products),
              Upsert(old(st.reviews), productId, userId, orderId, rating, old(st.nextReviewId)).reviews, productId)
    ensures s == Ok ==>
      && FindPair(st.reviews, productId, userId).Some?
      && st.reviews[FindPair(st.reviews, productId, userId).value].rating == rating
      && st.reviews[FindPair(st.reviews, productId, userId).value].orderId == orderId
    ensures RatingsConsistent(old(st.products), old(st.reviews)) ==> RatingsConsistent(st.products, st.reviews)
  {
    var products, reviews, firstFree := st.products, st.reviews, st.nextReviewId;
    ReviewsAfterCreateSpec(products, reviews, firstFree, productId, userId, orderId, rating);
    var after := ReviewsAfterCreate(products, reviews, productId, userId, orderId, rating, firstFree);
    var recomputed := Recompute(products, Upsert(reviews, productId, userId, orderId, rating, firstFree).reviews, productId);
    s := if productId in products then Ok else NotFound;
    assert CartsValid(st.carts) && OrdersIndexed(st.orders) && UsersValid(st.users, st.nextUserId);
    st.reviews, st.products, st.nextReviewId := after, recomputed, firstFree + 1;
    assert ReviewsValid(st.reviews, st.nextReviewId);
  }

  /** `deleteReview`: NotFound for an unknown review and Forbidden for
      another user's, with nothing changed; otherwise the review is deleted
      and its product's aggregate recomputed over the remaining reviews. */
  method DeleteReview(st: Store, me: Caller, reviewId: ReviewId) returns (s: Status)
    requires st.Valid()
    modifies st`reviews, st`products
    ensures st.Valid()
    ensures FindReview(old(st.reviews), reviewId).None? <==> s == NotFound
    ensures FindReview(old(st.reviews), reviewId).Some? ==>
      (s == Forbidden <==> old(st.reviews)[FindReview(old(st.reviews), reviewId).value].userId != me.id)
    ensures s != Ok ==> s in {NotFound, Forbidden} && st.reviews == old(st.reviews) && st.products == old(st.products)
    ensures s == Ok ==>
      && FindReview(old(st.reviews), reviewId).Some?
      && st.reviews == WithoutReview(old(st.reviews), reviewId)
      && |st.reviews| == |old(st.reviews)| - 1
      && st.products == Recompute(old(st.products), st.reviews, old(st.reviews)[FindReview(old(st.reviews), reviewId).value].productId)
    ensures RatingsConsistent(old(st.products), old(st.reviews)) ==> RatingsConsistent(st.products, st.reviews)
  {
    var found := FindReview(st.reviews, reviewId);
    if found.None? {
      return NotFound;
    }
    var review := st.reviews[found.value];
    if review.userId != me.id {
      return Forbidden;
    }
    ghost var before := st.reviews;
    WithoutReviewSpec(st.reviews, st.nextReviewId, reviewId);
    WithoutOneOfDistinct(st.reviews, found.value);
    st.reviews := WithoutReview(st.reviews, reviewId);
    if RatingsConsistent(st.products, before) {
      RecomputeRestoresConsistency(st.products, before, st.reviews, review.productId);
    }
    st.products := Recompute(st.products, st.reviews, review.productId);
    s := Ok;
  }
}
