/** Order placement and a customer's order history. Placement checks every
    line against the stock as it was before the order, creates the order with
    the client's total, then takes each line's quantity off its product. */
module OrderController {
  import opened Models
  import opened Database
  import opened ReviewController

  /** A line passes the stock check: its product exists and has at least the
      line's quantity in stock. */
  predicate LineInStock(products: map<ProductId, Product>, line: OrderItem)
  {
    line.product in products && line.quantity <= products[line.product].stock
  }

  /** The answer of the validation loop: NotFound or BadRequest for the first
      line that fails, Ok when every line passes. */
  function FirstFailure(products: map<ProductId, Product>, items: seq<OrderItem>): Status
  {
    if items == [] then Ok
    else if items[0].product !in products then NotFound
    else if products[items[0].product].stock < items[0].quantity then BadRequest
    else FirstFailure(products, items[1..])
  }

  /** Validation succeeds exactly when every line, each on its own, is in stock. */
  lemma {:induction false} FirstFailureSpec(products: map<ProductId, Product>, items: seq<OrderItem>)
    ensures FirstFailure(products, items) in {Ok, NotFound, BadRequest}
    ensures FirstFailure(products, items) == Ok <==> forall i :: 0 <= i < |items| ==> LineInStock(products, items[i])
    ensures FirstFailure(products, items) == NotFound ==> exists i :: 0 <= i < |items| && items[i].product !in products
  {
    if items != [] {
      FirstFailureSpec(products, items[1..]);
      if FirstFailure(products, items[1..]) == NotFound {
        var i :| 0 <= i < |items[1..]| && items[1..][i].product !in products;
        assert items[i + 1] == items[1..][i];
      }
      if forall i :: 0 <= i < |items[1..]| ==> LineInStock(products, items[1..][i]) {
        forall i | 0 <= i < |items| && i > 0 ensures LineInStock(products, items[i]) {
          assert items[i] == items[1..][i - 1];
        }
      }
    }
  }

  /** Line `i` is the first line of the order that fails the stock check. */
  predicate FailsFirst(products: map<ProductId, Product>, items: seq<OrderItem>, i: nat)
  {
    && i < |items|
    && !LineInStock(products, items[i])
    && forall j :: 0 <= j < i ==> LineInStock(products, items[j])
  }

  /** Validation answers NotFound exactly when the first failing line names a
      missing product, and BadRequest exactly when that line's product exists
      but has too little stock. */
  lemma {:induction false} FirstFailureKind(products: map<ProductId, Product>, items: seq<OrderItem>)
    ensures FirstFailure(products, items) == NotFound <==>
      exists i: nat :: FailsFirst(products, items, i) && items[i].product !in products
    ensures FirstFailure(products, items) == BadRequest <==>
      exists i: nat :: FailsFirst(products, items, i) && items[i].product in products
                  && products[items[i].product].stock < items[i].quantity
  {
    if items != [] {
      if !LineInStock(products, items[0]) {
        assert FailsFirst(products, items, 0);
        forall i: nat | FailsFirst(products, items, i) ensures i == 0 {
        }
      } else {
        var rest := items[1..];
        FirstFailureKind(products, rest);
        FailsFirstShift(products, items);
        if i: nat :| FailsFirst(products, rest, i) {
          assert rest[i] == items[i + 1] && FailsFirst(products, items, i + 1);
        }
        if i: nat :| FailsFirst(products, items, i) {
          assert i > 0 && FailsFirst(products, rest, i - 1) && rest[i - 1] == items[i];
        }
      }
    }
  }

  /** When the first line passes, the first failing line of the order is the
      first failing line of the rest, one position on. */
  lemma FailsFirstShift(products: map<ProductId, Product>, items: seq<OrderItem>)
    requires items != [] && LineInStock(products, items[0])
    ensures forall i: nat :: 0 < i ==> (FailsFirst(products, items, i) <==> FailsFirst(products, items[1..], i - 1))
    ensures !FailsFirst(products, items, 0)
  {
    forall i: nat | 0 < i
      ensures FailsFirst(products, items, i) <==> FailsFirst(products, items[1..], i - 1)
    {
      if i < |items| {
        assert items[1..][i - 1] == items[i];
        assert forall j :: 0 <= j < i - 1 ==> items[1..][j] == items[j + 1];
        if FailsFirst(products, items[1..], i - 1) {
          forall j | 0 <= j < i ensures LineInStock(products, items[j]) {
            if j > 0 {
              assert items[j] == items[1..][j - 1];
            }
          }
        }
      }
    }
  }

  /** `$inc: { stock: -quantity }` for one line; an update of a product that
      does not exist changes nothing. */
  function Decrement(products: map<ProductId, Product>, line: OrderItem): map<ProductId, Product>
  {
    if line.product in products then
      products[line.product := products[line.product].(stock := products[line.product].stock - line.quantity)]
    else products
  }

  /** The catalog after the stock loop has applied every line in order. */
  function Decremented(products: map<ProductId, Product>, items: seq<OrderItem>): map<ProductId, Product>
  {
    if items == [] then products else Decremented(Decrement(products, items[0]), items[1..])
  }

  /** The quantity of `productId` summed over all lines of an order. */
  function OrderedQuantity(items: seq<OrderItem>, productId: ProductId): int
  {
    if items == [] then 0
    else (if items[0].product == productId then items[0].quantity else 0) + OrderedQuantity(items[1..], productId)
  }

  /** After the stock loop each product's stock has dropped by the total
      quantity ordered of it, no other field has changed, and no product has
      appeared or disappeared. */
  lemma {:induction false} DecrementedSpec(products: map<ProductId, Product>, items: seq<OrderItem>)
    ensures Decremented(products, items).Keys == products.Keys
    ensures forall p :: p in products ==>
      Decremented(products, items)[p] == products[p].(stock := products[p].stock - OrderedQuantity(items, p))
  {
    if items != [] {
      DecrementedSpec(Decrement(products, items[0]), items[1..]);
    }
  }

  /** Taking stock off products leaves their rating aggregates as they were. */
  lemma DecrementKeepsRatings(products: map<ProductId, Product>, reviews: seq<Review>, items: seq<OrderItem>)
    ensures RatingsConsistent(products, reviews) ==> RatingsConsistent(Decremented(products, items), reviews)
  {
    DecrementedSpec(products, items);
  }

  /** No product appears in two lines of the order. */
  predicate DistinctProducts(items: seq<OrderItem>)
  {
    forall i, j :: 0 <= i < j < |items| ==> items[i].product != items[j].product
  }

  /** Without repeated products, the quantity ordered of a product is that of
      its only line, or 0. */
  lemma {:induction false} OrderedQuantityOfDistinct(items: seq<OrderItem>, productId: ProductId)
    requires DistinctProducts(items)
    ensures forall k :: 0 <= k < |items| && items[k].product == productId ==> OrderedQuantity(items, productId) == items[k].quantity
    ensures (forall k :: 0 <= k < |items| ==> items[k].product != productId) ==> OrderedQuantity(items, productId) == 0
  {
    if items != [] {
      assert DistinctProducts(items[1..]) by {
        forall i, j | 0 <= i < j < |items[1..]| ensures items[1..][i].product != items[1..][j].product {
          assert items[1..][i] == items[i + 1] && items[1..][j] == items[j + 1];
        }
      }
      OrderedQuantityOfDistinct(items[1..], productId);
      forall k | 0 <= k < |items| && items[k].product == productId
        ensures OrderedQuantity(items, productId) == items[k].quantity
      {
        if k == 0 {
          assert forall m :: 0 <= m < |items[1..]| ==> items[1..][m].product != productId by {
            forall m | 0 <= m < |items[1..]| ensures items[1..][m].product != productId {
              assert items[1..][m] == items[m + 1];
            }
          }
        } else {
          assert items[1..][k - 1] == items[k];
        }
      }
      if forall k :: 0 <= k < |items| ==> items[k].product != productId {
        assert forall m :: 0 <= m < |items[1..]| ==> items[1..][m].product != productId by {
          forall m | 0 <= m < |items[1..]| ensures items[1..][m].product != productId {
            assert items[1..][m] == items[m + 1];
          }
        }
      }
    }
  }

  /** When no product appears in two lines, an order that passes validation
      leaves every stock non-negative. */
  lemma NoOversellWithoutRepeatedProducts(products: map<ProductId, Product>, items: seq<OrderItem>)
    requires forall p :: p in products ==> products[p].stock >= 0
    requires DistinctProducts(items)
    requires FirstFailure(products, items) == Ok
    ensures forall p :: p in Decremented(products, items) ==> Decremented(products, items)[p].stock >= 0
  {
    FirstFailureSpec(products, items);
    DecrementedSpec(products, items);
    forall p | p in products
      ensures Decremented(products, items)[p].stock >= 0
    {
      OrderedQuantityOfDistinct(items, p);
      if k :| 0 <= k < |items| && items[k].product == p {
        assert LineInStock(products, items[k]);
      }
    }
  }

  /** Each line is checked against the stock as it was before the order, so
      two lines of one unit each for a product with one unit in stock both
      pass, and the order drives that stock to -1. */
  lemma OversellWithRepeatedProduct()
    ensures var products := map[0 := Product("Paint Set", "", 1999, 1, "Hobbies", [], 0.0, 0)];
            var items := [OrderItem(0, "Paint Set", 1, 1999), OrderItem(0, "Paint Set", 1, 1999)];
            && FirstFailure(products, items) == Ok
            && 0 in Decremented(products, items)
            && Decremented(products, items)[0].stock == -1
  {
    var products := map[0 := Product("Paint Set", "", 1999, 1, "Hobbies", [], 0.0, 0)];
    var line := OrderItem(0, "Paint Set", 1, 1999);
    assert [line, line][1..] == [line];
    assert FirstFailure(products, [line]) == Ok;
    assert Decrement(products, line)[0].stock == 0;
  }

  /** The order `createOrder` stores: the client's lines, address, payment
      result and total as sent, with status Pending. */
  function PlacedOrder(id: OrderId, me: Caller, items: seq<OrderItem>, shippingAddress: Payload,
                       paymentResult: Payload, totalPrice: int): Order
  {
    Order(id, me.id, me.clerkId, items, shippingAddress, paymentResult, totalPrice, Pending, None, None)
  }

  /** `createOrder`: BadRequest for missing or empty lines; NotFound or
      BadRequest for the first line whose product is missing or short of
      stock, with nothing changed; otherwise one new order and each line's
      quantity taken off its product's stock. */
  method CreateOrder(st: Store, me: Caller, orderItems: Option<seq<OrderItem>>, shippingAddress: Payload,
                     paymentResult: Payload, totalPrice: int) returns (s: Status)
    requires st.Valid()
    modifies st`orders, st`products
    ensures st.Valid()
    ensures orderItems.None? || orderItems.value == [] ==> s == BadRequest
    ensures orderItems.Some? && orderItems.value != [] ==> s == FirstFailure(old(st.products), orderItems.value)
    ensures s != Ok ==> st.orders == old(st.orders) && st.products == old(st.products)
    ensures s == Ok ==>
      && st.orders == old(st.orders) + [PlacedOrder(|old(st.orders)|, me, orderItems.value, shippingAddress, paymentResult, totalPrice)]
      && st.products == Decremented(old(st.products), orderItems.value)
    ensures RatingsConsistent(old(st.products), st.reviews) ==> RatingsConsistent(st.products, st.reviews)
  {
    if orderItems.None? || orderItems.value == [] {
      return BadRequest;
    }
    var items := orderItems.value;

    // validation loop: every line against the stock before the order
    var i := 0;
    while i < |items|
      invariant 0 <= i <= |items|
      invariant st.orders == old(st.orders) && st.products == old(st.products)
      invariant FirstFailure(st.products, items[i..]) == FirstFailure(st.products, items)
    {
      assert items[i..][1..] == items[i + 1..];
      var line := items[i];
      if line.product !in st.products {
        return NotFound;
      }
      if st.products[line.product].stock < line.quantity {
        return BadRequest;
      }
      i := i + 1;
    }

    var placed := PlacedOrder(|st.orders|, me, items, shippingAddress, paymentResult, totalPrice);
    st.orders := st.orders + [placed];

    assert OrdersIndexed(st.orders);
    TakeStock(st, items);
    s := Ok;
  }

  /** The stock loop of `createOrder`: one `$inc` per line, in order, each on
      the product as the earlier lines left it; a line whose product is gone
      matches nothing. */
  method TakeStock(st: Store, items: seq<OrderItem>)
    modifies st`products
    ensures st.products == Decremented(old(st.products), items)
    ensures RatingsConsistent(old(st.products), st.reviews) ==> RatingsConsistent(st.products, st.reviews)
  {
    var j := 0;
    while j < |items|
      invariant 0 <= j <= |items|
      invariant Decremented(st.products, items[j..]) == Decremented(old(st.products), items)
    {
      assert items[j..][1..] == items[j + 1..];
      var line := items[j];
      if line.product in st.products {
        var product := st.products[line.product];
        st.products := st.products[line.product := product.(stock := product.stock - line.quantity)];
      }
      j := j + 1;
    }
    DecrementKeepsRatings(old(st.products), st.reviews, items);
  }

  /** An order as `getUserOrders` lists it, with its derived review flag. */
  datatype OrderView = OrderView(order: Order, hasReviewed: bool)

  /** Some review names the order as the one that justifies it. */
  predicate Reviewed(reviews: seq<Review>, orderId: OrderId)
  {
    exists r :: r in reviews && r.orderId == orderId
  }

  /** `getUserOrders`: exactly the caller's orders, newest first, each flagged
      reviewed exactly when some review refers to it. */
  function UserOrders(orders: seq<Order>, reviews: seq<Review>, clerkId: ClerkId): (r: seq<OrderView>)
    requires OrdersIndexed(orders)
    ensures forall v :: v in r ==> v.order in orders && v.order.clerkId == clerkId
    ensures forall v :: v in r ==> (v.hasReviewed <==> Reviewed(reviews, v.order.id))
    ensures forall k :: 0 <= k < |orders| && orders[k].clerkId == clerkId ==>
      OrderView(orders[k], Reviewed(reviews, orders[k].id)) in r
    ensures forall a, b :: 0 <= a < b < |r| ==> r[a].order.id > r[b].order.id
  {
    if orders == [] then []
    else
      var last := orders[|orders| - 1];
      var older := orders[..|orders| - 1];
      assert forall k :: 0 <= k < |older| ==> older[k] == orders[k];
      var rest := UserOrders(older, reviews, clerkId);
      assert forall v :: v in rest ==> v.order.id < last.id;
      if last.clerkId == clerkId then [OrderView(last, Reviewed(reviews, last.id))] + rest else rest
  }
}
