/** The cart manager: one cart per user, created on first use, whose lines
    are added, re-quantified, removed and cleared, each change checked
    against the product's current stock. */
module CartController {
  import opened Models
  import opened Database

  /** The user's cart (`Cart.findOne({ clerkId })`). */
  function FindCart(carts: seq<Cart>, clerkId: ClerkId): Option<nat>
  {
    FindFirst(carts, (c: Cart) => c.clerkId == clerkId)
  }

  /** The cart line for a product (`items.find` / `items.findIndex`). */
  function FindLine(items: seq<CartItem>, productId: ProductId): Option<nat>
  {
    FindFirst(items, (l: CartItem) => l.product == productId)
  }

  /** The lines of the user's cart; a user without a cart has none. */
  function ItemsOf(carts: seq<Cart>, clerkId: ClerkId): seq<CartItem>
  {
    match FindCart(carts, clerkId)
    case Some(i) => carts[i].items
    case None => []
  }

  /** The carts once the caller's cart, created empty when missing, holds `items`. */
  function WithItems(carts: seq<Cart>, me: Caller, items: seq<CartItem>): seq<Cart>
  {
    match FindCart(carts, me.clerkId)
    case Some(i) => carts[i := carts[i].(items := items)]
    case None => carts + [Cart(me.id, me.clerkId, items)]
  }

  /** Giving the caller's cart new lines creates at most that one cart, keeps
      one cart per user and leaves every other user's cart as it was. */
  lemma WithItemsSpec(carts: seq<Cart>, me: Caller, items: seq<CartItem>)
    requires CartsValid(carts) && DistinctLines(items)
    ensures CartsValid(WithItems(carts, me, items))
    ensures FindCart(WithItems(carts, me, items), me.clerkId).Some?
    ensures ItemsOf(WithItems(carts, me, items), me.clerkId) == items
    ensures forall c :: c != me.clerkId ==> ItemsOf(WithItems(carts, me, items), c) == ItemsOf(carts, c)
  {
    WithItemsOthers(carts, me, items);
    var r := WithItems(carts, me, items);
    match FindCart(carts, me.clerkId)
    case Some(i) =>
      FindFirstSameTruth(carts, r, (x: Cart) => x.clerkId == me.clerkId);
    case None =>
      FindFirstAppend(carts, r[|carts|], (x: Cart) => x.clerkId == me.clerkId);
      assert r == carts + [r[|carts|]];
  }

  /** Giving the caller's cart new lines leaves every other user's lines as
      they were. */
  lemma WithItemsOthers(carts: seq<Cart>, me: Caller, items: seq<CartItem>)
    ensures forall c :: c != me.clerkId ==> ItemsOf(WithItems(carts, me, items), c) == ItemsOf(carts, c)
  {
    var r := WithItems(carts, me, items);
    forall c | c != me.clerkId
      ensures ItemsOf(r, c) == ItemsOf(carts, c)
    {
      match FindCart(carts, me.clerkId)
      case Some(i) =>
        FindFirstSameTruth(carts, r, (x: Cart) => x.clerkId == c);
      case None =>
        FindFirstSameTruth(carts, r[..|carts|], (x: Cart) => x.clerkId == c);
        FindFirstAppend(carts, r[|carts|], (x: Cart) => x.clerkId == c);
        assert r == r[..|carts|] + [r[|carts|]];
    }
  }

  /** The quantity `addToCart` reads from the body: 1 when none is given. */
  function Requested(quantity: Option<int>): int
  {
    if quantity.Some? then quantity.value else 1
  }

  /** The lines after `addToCart`: a product already in the cart has its line
      raised by one, whatever quantity was requested; any other product gets
      a new line with the requested quantity. */
  function AddLine(items: seq<CartItem>, productId: ProductId, quantity: int): seq<CartItem>
  {
    match FindLine(items, productId)
    case Some(k) => items[k := items[k].(quantity := items[k].quantity + 1)]
    case None => items + [CartItem(productId, quantity)]
  }

  /** Whether `addToCart` accepts the request: the product exists, its stock
      covers the requested quantity and, for a product already in the cart,
      also that line's quantity plus one. */
  predicate AddAccepted(products: map<ProductId, Product>, items: seq<CartItem>, productId: ProductId, quantity: int)
  {
    && productId in products
    && quantity <= products[productId].stock
    && (FindLine(items, productId).Some? ==>
          items[FindLine(items, productId).value].quantity + 1 <= products[productId].stock)
  }

  /** Adding a product already in the cart raises its line by exactly one and
      ignores the requested quantity; adding a new product appends one line
      with the requested quantity. Either way the cart never holds two lines
      for one product. */
  lemma AddLineSpec(items: seq<CartItem>, productId: ProductId, quantity: int, other: int)
    requires DistinctLines(items)
    ensures DistinctLines(AddLine(items, productId, quantity))
    ensures FindLine(items, productId).Some? ==>
      var k := FindLine(items, productId).value;
      && AddLine(items, productId, quantity) == AddLine(items, productId, other)
      && |AddLine(items, productId, quantity)| == |items|
      && AddLine(items, productId, quantity)[k] == CartItem(productId, items[k].quantity + 1)
      && forall j :: 0 <= j < |items| && j != k ==> AddLine(items, productId, quantity)[j] == items[j]
    ensures FindLine(items, productId).None? ==>
      AddLine(items, productId, quantity) == items + [CartItem(productId, quantity)]
  {
  }

  /** The lines after `updateCartItem`: the product's line gets `quantity`. */
  function SetQuantity(items: seq<CartItem>, productId: ProductId, quantity: int): seq<CartItem>
  {
    match FindLine(items, productId)
    case Some(k) => items[k := items[k].(quantity := quantity)]
    case None => items
  }

  /** Only the product's line changes, and it then holds the new quantity. */
  lemma SetQuantitySpec(items: seq<CartItem>, productId: ProductId, quantity: int)
    requires DistinctLines(items)
    ensures var r := SetQuantity(items, productId, quantity);
      && |r| == |items|
      && DistinctLines(r)
      && (forall j :: 0 <= j < |items| && items[j].product != productId ==> r[j] == items[j])
      && (forall j :: 0 <= j < |items| && items[j].product == productId ==> r[j] == CartItem(productId, quantity))
  {
  }

  /** The lines after `removeFromCart`: those of other products, in order. */
  function WithoutProduct(items: seq<CartItem>, productId: ProductId): seq<CartItem>
  {
    Filter(items, (l: CartItem) => l.product != productId)
  }

  /** Removal keeps exactly the lines of other products, removing a product
      that is not in the cart changes nothing, and the lines stay distinct. */
  lemma WithoutProductSpec(items: seq<CartItem>, productId: ProductId)
    ensures forall x :: x in WithoutProduct(items, productId) <==> x in items && x.product != productId
    ensures FindLine(items, productId).None? ==> WithoutProduct(items, productId) == items
    ensures DistinctLines(items) ==> DistinctLines(WithoutProduct(items, productId))
  {
    if FindLine(items, productId).None? {
      FilterAll(items, (l: CartItem) => l.product != productId);
    }
    if DistinctLines(items) {
      FilterPairwise(items, (l: CartItem) => l.product != productId, (a: CartItem, b: CartItem) => a.product != b.product);
    }
  }

  /** `getCart`: the caller's cart, created empty when it has none; afterwards
      the caller has exactly one cart. */
  method GetCart(st: Store, me: Caller) returns (cart: Cart)
    requires st.Valid()
    modifies st`carts
    ensures st.Valid()
    ensures FindCart(old(st.carts), me.clerkId).Some? ==> st.carts == old(st.carts)
    ensures FindCart(old(st.carts), me.clerkId).None? ==> st.carts == old(st.carts) + [Cart(me.id, me.clerkId, [])]
    ensures FindCart(st.carts, me.clerkId).Some? && cart == st.carts[FindCart(st.carts, me.clerkId).value]
    ensures cart.clerkId == me.clerkId && cart.items == ItemsOf(old(st.carts), me.clerkId)
  {
    var found := FindCart(st.carts, me.clerkId);
    if found.Some? {
      cart := st.carts[found.value];
    } else {
      cart := Cart(me.id, me.clerkId, []);
      WithItemsSpec(st.carts, me, []);
      st.carts := st.carts + [cart];
    }
  }

  /** `addToCart`: NotFound for an unknown product and BadRequest when the
      stock does not cover the request, with no cart touched; otherwise the
      caller's cart (created when missing) gets `AddLine`. */
  method AddToCart(st: Store, me: Caller, productId: ProductId, quantity: Option<int>) returns (s: Status)
    requires st.Valid()
    modifies st`carts
    ensures st.Valid()
    ensures s == NotFound <==> productId !in st.products
    ensures productId in st.products && st.products[productId].stock < Requested(quantity) ==> s == BadRequest
    ensures s == Ok <==> AddAccepted(st.products, ItemsOf(old(st.carts), me.clerkId), productId, Requested(quantity))
    ensures s != Ok ==> s in {NotFound, BadRequest} && st.carts == old(st.carts)
    ensures s == Ok ==>
      st.carts == WithItems(old(st.carts), me, AddLine(ItemsOf(old(st.carts), me.clerkId), productId, Requested(quantity)))
  {
    var q := Requested(quantity);
    if productId !in st.products {
      return NotFound;
    }
    var product := st.products[productId];
    if product.stock < q {
      return BadRequest;
    }
    var items := ItemsOf(st.carts, me.clerkId);
    var line := FindLine(items, productId);
    if line.Some? && product.stock < items[line.value].quantity + 1 {
      // the cart exists here, since a new cart has no lines
      return BadRequest;
    }
    assert DistinctLines(items);
    AddLineSpec(items, productId, q, q);
    WithItemsSpec(st.carts, me, AddLine(items, productId, q));
    st.carts := WithItems(st.carts, me, AddLine(items, productId, q));
    s := Ok;
  }

  /** Whether `qty` is what `Number.isInteger(qty) && qty >= 1` accepts. */
  predicate ValidQuantity(qty: real)
  {
    qty == qty.Floor as real && qty >= 1.0
  }

  /** `updateCartItem`: BadRequest for a quantity that is not an integer of
      at least 1, before any lookup; NotFound for a missing cart, line or
      product; BadRequest when the stock is below the quantity; otherwise
      only the product's line takes the new quantity. */
  method UpdateCartItem(st: Store, me: Caller, productId: ProductId, qty: real) returns (s: Status)
    requires st.Valid()
    modifies st`carts
    ensures st.Valid()
    ensures s in {Ok, BadRequest, NotFound}
    ensures !ValidQuantity(qty) ==> s == BadRequest
    ensures ValidQuantity(qty) ==>
      (s == NotFound <==>
        FindCart(old(st.carts), me.clerkId).None? || FindLine(ItemsOf(old(st.carts), me.clerkId), productId).None?
        || productId !in st.products)
    ensures ValidQuantity(qty) && s != NotFound ==> (s == BadRequest <==> st.products[productId].stock < qty.Floor)
    ensures s != Ok ==> st.carts == old(st.carts)
    ensures s == Ok ==>
      && ValidQuantity(qty)
      && st.carts == WithItems(old(st.carts), me, SetQuantity(ItemsOf(old(st.carts), me.clerkId), productId, qty.Floor))
  {
    if !ValidQuantity(qty) {
      return BadRequest;
    }
    var found := FindCart(st.carts, me.clerkId);
    if found.None? {
      return NotFound;
    }
    var items := st.carts[found.value].items;
    var line := FindLine(items, productId);
    if line.None? {
      return NotFound;
    }
    if productId !in st.products {
      return NotFound;
    }
    if st.products[productId].stock < qty.Floor {
      return BadRequest;
    }
    SetQuantitySpec(items, productId, qty.Floor);
    WithItemsSpec(st.carts, me, SetQuantity(items, productId, qty.Floor));
    st.carts := WithItems(st.carts, me, SetQuantity(items, productId, qty.Floor));
    s := Ok;
  }

  /** `removeFromCart`: NotFound without a cart; otherwise the cart keeps the
      lines of other products. */
  method RemoveFromCart(st: Store, me: Caller, productId: ProductId) returns (s: Status)
    requires st.Valid()
    modifies st`carts
    ensures st.Valid()
    ensures s == NotFound <==> FindCart(old(st.carts), me.clerkId).None?
    ensures s != Ok ==> s == NotFound && st.carts == old(st.carts)
    ensures s == Ok ==>
      st.carts == WithItems(old(st.carts), me, WithoutProduct(ItemsOf(old(st.carts), me.clerkId), productId))
  {
    var found := FindCart(st.carts, me.clerkId);
    if found.None? {
      return NotFound;
    }
    var items := st.carts[found.value].items;
    WithoutProductSpec(items, productId);
    WithItemsSpec(st.carts, me, WithoutProduct(items, productId));
    st.carts := WithItems(st.carts, me, WithoutProduct(items, productId));
    s := Ok;
  }

  /** `clearCart`: NotFound without a cart; otherwise the cart is emptied. */
  method ClearCart(st: Store, me: Caller) returns (s: Status)
    requires st.Valid()
    modifies st`carts
    ensures st.Valid()
    ensures s == NotFound <==> FindCart(old(st.carts), me.clerkId).None?
    ensures s != Ok ==> s == NotFound && st.carts == old(st.carts)
    ensures s == Ok ==> st.carts == WithItems(old(st.carts), me, [])
  {
    var found := FindCart(st.carts, me.clerkId);
    if found.None? {
      return NotFound;
    }
    WithItemsSpec(st.carts, me, []);
    st.carts := WithItems(st.carts, me, []);
    s := Ok;
  }
}
