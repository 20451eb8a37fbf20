/** The database the controllers share, as one object whose collections the
    handlers replace step by step, and the invariants each collection keeps. */
module Database {
  import opened Models

  /** No two elements of `s` are equal. */
  predicate NoDuplicates<T(==)>(s: seq<T>)
  {
    forall i, j :: 0 <= i < j < |s| ==> s[i] != s[j]
  }

  /** A cart never holds two lines for one product. */
  predicate DistinctLines(items: seq<CartItem>)
  {
    forall i, j :: 0 <= i < j < |items| ==> items[i].product != items[j].product
  }

  /** One cart per user, and no cart with two lines for one product. */
  predicate CartsValid(carts: seq<Cart>)
  {
    && (forall i, j :: 0 <= i < j < |carts| ==> carts[i].clerkId != carts[j].clerkId)
    && (forall i :: 0 <= i < |carts| ==> DistinctLines(carts[i].items))
  }

  /** Orders are never deleted, so an order's id is its position in
      creation order. */
  predicate OrdersIndexed(orders: seq<Order>)
  {
    forall i :: 0 <= i < |orders| ==> orders[i].id == i
  }

  /** Review ids are fresh and distinct, ratings lie in 1..5, and there is at
      most one review per (product, user) pair. */
  predicate ReviewsValid(reviews: seq<Review>, nextId: nat)
  {
    && (forall i :: 0 <= i < |reviews| ==> reviews[i].id < nextId && 1 <= reviews[i].rating <= 5)
    && (forall i, j :: 0 <= i < j < |reviews| ==> reviews[i].id != reviews[j].id)
    && (forall i, j :: 0 <= i < j < |reviews| ==>
          reviews[i].productId != reviews[j].productId || reviews[i].userId != reviews[j].userId)
  }

  /** At most one address of a user is the default one. */
  predicate AtMostOneDefault(addresses: seq<Address>)
  {
    forall i, j :: 0 <= i < j < |addresses| ==> !(addresses[i].isDefault && addresses[j].isDefault)
  }

  /** At most one user per identity-provider id, distinct and fresh user ids, at most one
      default address and a duplicate-free wishlist per user. */
  predicate UsersValid(users: seq<User>, nextId: nat)
  {
    && (forall i, j :: 0 <= i < j < |users| ==> users[i].clerkId != users[j].clerkId)
    && (forall i, j :: 0 <= i < j < |users| ==> users[i].id != users[j].id)
    && (forall i :: 0 <= i < |users| ==>
          users[i].id < nextId && AtMostOneDefault(users[i].addresses) && NoDuplicates(users[i].wishlist))
  }

  class Store {
    var products: map<ProductId, Product>
    var carts: seq<Cart>
    var orders: seq<Order>
    var reviews: seq<Review>
    var users: seq<User>
    var nextReviewId: nat
    var nextUserId: nat
    var nextAddressId: nat

    ghost predicate Valid()
      reads this
    {
      && CartsValid(carts)
      && OrdersIndexed(orders)
      && ReviewsValid(reviews, nextReviewId)
      && UsersValid(users, nextUserId)
    }

    /** A database holding a seeded catalog and nothing else. */
    constructor (catalog: map<ProductId, Product>)
      ensures Valid()
      ensures products == catalog && carts == [] && orders == [] && reviews == [] && users == []
    {
      products := catalog;
      carts, orders, reviews, users := [], [], [], [];
      nextReviewId, nextUserId, nextAddressId := 0, 0, 0;
    }
  }
}
