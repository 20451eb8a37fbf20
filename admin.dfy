/** The admin handlers: order-status changes with set-once timestamps,
    partial product edits, the dashboard rollup, the latest-orders query and
    product deletion with the derivation of each image's storage key. */
module AdminController {
  import opened Models
  import opened Database
  import opened Text
  import opened OrderController
  import opened ReviewController

  // ---------------------------------------------------------------- statuses

  /** The status named by a request body, when it is one of the three. */
  function ParseStatus(name: string): Option<OrderStatus>
  {
    if name == "Pending" then Some(Pending)
    else if name == "Shipped" then Some(Shipped)
    else if name == "Delivered" then Some(Delivered)
    else None
  }

  function StatusName(status: OrderStatus): string
  {
    match status
    case Pending => "Pending"
    case Shipped => "Shipped"
    case Delivered => "Delivered"
  }

  /** A request names a status exactly when it is that status's name. */
  lemma ParseStatusSpec(name: string, status: OrderStatus)
    ensures ParseStatus(name) == Some(status) <==> name == StatusName(status)
  {
  }

  /** The order after `order.status = status` and the two timestamp guards. */
  function WithStatus(order: Order, status: OrderStatus, now: Time): Order
  {
    order.(status := status,
           shippedAt := if status == Shipped && order.shippedAt.None? then Some(now) else order.shippedAt,
           deliveredAt := if status == Delivered && order.deliveredAt.None? then Some(now) else order.deliveredAt)
  }

  /** Any status may follow any other; a timestamp, once set, keeps its value;
      a timestamp is set exactly when it was set before or the order enters
      that status; nothing else in the order changes. */
  lemma WithStatusSpec(order: Order, status: OrderStatus, now: Time)
    ensures WithStatus(order, status, now).status == status
    ensures order.shippedAt.Some? ==> WithStatus(order, status, now).shippedAt == order.shippedAt
    ensures order.deliveredAt.Some? ==> WithStatus(order, status, now).deliveredAt == order.deliveredAt
    ensures WithStatus(order, status, now).shippedAt.Some? <==> order.shippedAt.Some? || status == Shipped
    ensures WithStatus(order, status, now).deliveredAt.Some? <==> order.deliveredAt.Some? || status == Delivered
    ensures WithStatus(order, status, now).(status := order.status, shippedAt := order.shippedAt,
                                            deliveredAt := order.deliveredAt) == order
  {
  }

  /** Repeating a status change later changes nothing more. */
  lemma WithStatusIdempotent(order: Order, status: OrderStatus, first: Time, later: Time)
    ensures WithStatus(WithStatus(order, status, first), status, later) == WithStatus(order, status, first)
  {
  }

  /** One admin request: the status asked for and the instant it arrives. */
  datatype StatusChange = StatusChange(status: OrderStatus, at: Time)

  /** The order after a series of accepted status changes. */
  function ApplyChanges(order: Order, changes: seq<StatusChange>): Order
    decreases changes
  {
    if changes == [] then order else ApplyChanges(WithStatus(order, changes[0].status, changes[0].at), changes[1..])
  }

  /** The instant of the first change into `status`, if there is one. */
  function FirstEntry(changes: seq<StatusChange>, status: OrderStatus): Option<Time>
  {
    if changes == [] then None
    else if changes[0].status == status then Some(changes[0].at)
    else FirstEntry(changes[1..], status)
  }

  /** Over any history of changes, `shippedAt` and `deliveredAt` record the
      first time the order entered Shipped and Delivered, unless already set,
      and the status is the last one requested. */
  lemma {:induction false} StampsRecordFirstEntry(order: Order, changes: seq<StatusChange>)
    ensures ApplyChanges(order, changes).shippedAt ==
      if order.shippedAt.Some? then order.shippedAt else FirstEntry(changes, Shipped)
    ensures ApplyChanges(order, changes).deliveredAt ==
      if order.deliveredAt.Some? then order.deliveredAt else FirstEntry(changes, Delivered)
    ensures ApplyChanges(order, changes).status == if changes == [] then order.status else changes[|changes| - 1].status
    decreases changes
  {
    if changes != [] {
      StampsRecordFirstEntry(WithStatus(order, changes[0].status, changes[0].at), changes[1..]);
      if |changes| > 1 {
        assert changes[1..][|changes[1..]| - 1] == changes[|changes| - 1];
      }
    }
  }

  /** `updateOrderStatus`: BadRequest for a status outside the three names,
      checked before the lookup; NotFound for an unknown order; otherwise the
      order takes the status and its timestamps follow `WithStatus`. */
  method UpdateOrderStatus(st: Store, orderId: OrderId, status: string, now: Time) returns (s: Status)
    requires st.Valid()
    modifies st`orders
    ensures st.Valid()
    ensures ParseStatus(status).None? ==> s == BadRequest
    ensures ParseStatus(status).Some? && orderId >= |old(st.orders)| ==> s == NotFound
    ensures s != Ok ==> st.orders == old(st.orders)
    ensures s == Ok <==> ParseStatus(status).Some? && orderId < |old(st.orders)|
    ensures s == Ok ==>
      st.orders == old(st.orders)[orderId := WithStatus(old(st.orders)[orderId], ParseStatus(status).value, now)]
  {
    var parsed := ParseStatus(status);
    if parsed.None? {
      return BadRequest;
    }
    if orderId >= |st.orders| {
      return NotFound;
    }
    var order := st.orders[orderId];
    order := order.(status := parsed.value);
    if parsed.value == Shipped && order.shippedAt.None? {
      order := order.(shippedAt := Some(now));
    }
    if parsed.value == Delivered && order.deliveredAt.None? {
      order := order.(deliveredAt := Some(now));
    }
    st.orders := st.orders[orderId := order];
    s := Ok;
  }

  // ---------------------------------------------------------------- products

  /** The fields of an edit request: text fields count only when truthy,
      price and stock whenever they are given, and the uploaded images'
      URLs (none when nothing was uploaded). */
  datatype ProductEdit = ProductEdit(
    name: Option<string>,
    description: Option<string>,
    price: Option<int>,
    stock: Option<int>,
    category: Option<string>,
    uploads: seq<Url>)

  /** The product `updateProduct` saves. */
  function Edited(product: Product, edit: ProductEdit): Product
  {
    product.(name := if Truthy(edit.name) then edit.name.value else product.name,
             description := if Truthy(edit.description) then edit.description.value else product.description,
             price := if edit.price.Some? then edit.price.value else product.price,
             stock := if edit.stock.Some? then edit.stock.value else product.stock,
             category := if Truthy(edit.category) then edit.category.value else product.category,
             images := if edit.uploads != [] then edit.uploads else product.images)
  }

  /** A truthy name, description or category replaces the stored one, a
      given price or stock replaces the stored one, and uploaded images
      replace the stored images; every field not sent keeps its value. An
      edit never touches the rating aggregate; an edit with nothing truthy,
      given or uploaded leaves the product as it was; and applying the same
      edit twice is applying it once. */
  lemma EditedSpec(product: Product, edit: ProductEdit)
    ensures Truthy(edit.name) ==> Edited(product, edit).name == edit.name.value
    ensures !Truthy(edit.name) ==> Edited(product, edit).name == product.name
    ensures Truthy(edit.description) ==> Edited(product, edit).description == edit.description.value
    ensures !Truthy(edit.description) ==> Edited(product, edit).description == product.description
    ensures edit.price.Some? ==> Edited(product, edit).price == edit.price.value
    ensures edit.price.None? ==> Edited(product, edit).price == product.price
    ensures edit.stock.Some? ==> Edited(product, edit).stock == edit.stock.value
    ensures edit.stock.None? ==> Edited(product, edit).stock == product.stock
    ensures Truthy(edit.category) ==> Edited(product, edit).category == edit.category.value
    ensures !Truthy(edit.category) ==> Edited(product, edit).category == product.category
    ensures edit.uploads != [] ==> Edited(product, edit).images == edit.uploads
    ensures edit.uploads == [] ==> Edited(product, edit).images == product.images
    ensures Edited(product, edit).averageRating == product.averageRating
    ensures Edited(product, edit).totalReviews == product.totalReviews
    ensures (&& !Truthy(edit.name) && !Truthy(edit.description) && !Truthy(edit.category)
             && edit.price.None? && edit.stock.None? && edit.uploads == []) ==> Edited(product, edit) == product
    ensures Edited(Edited(product, edit), edit) == Edited(product, edit)
  {
  }

  /** An edit keeps every product's aggregate in agreement with its reviews. */
  lemma EditKeepsRatings(products: map<ProductId, Product>, reviews: seq<Review>, id: ProductId, edit: ProductEdit)
    requires id in products
    ensures RatingsConsistent(products, reviews) ==>
      RatingsConsistent(products[id := Edited(products[id], edit)], reviews)
  {
    EditedSpec(products[id], edit);
  }

  /** At most this many images per product. */
  const MaxImages := 3

  /** `updateProduct`: NotFound for an unknown id; BadRequest, with nothing
      saved, for more than three uploads; otherwise the product becomes
      `Edited`, which keeps every product's rating aggregate in agreement with
      its reviews. */
  method UpdateProduct(st: Store, id: ProductId, edit: ProductEdit) returns (s: Status)
    requires st.Valid()
    modifies st`products
    ensures st.Valid()
    ensures id !in old(st.products) ==> s == NotFound
    ensures id in old(st.products) && |edit.uploads| > MaxImages ==> s == BadRequest
    ensures s != Ok ==> st.products == old(st.products)
    ensures s == Ok <==> id in old(st.products) && |edit.uploads| <= MaxImages
    ensures s == Ok ==> st.products == old(st.products)[id := Edited(old(st.products)[id], edit)]
    ensures RatingsConsistent(old(st.products), st.reviews) ==> RatingsConsistent(st.products, st.reviews)
  {
    if id !in st.products {
      return NotFound;
    }
    var product := st.products[id];
    if Truthy(edit.name) { product := product.(name := edit.name.value); }
    if Truthy(edit.description) { product := product.(description := edit.description.value); }
    if edit.price.Some? { product := product.(price := edit.price.value); }
    if edit.stock.Some? { product := product.(stock := edit.stock.value); }
    if Truthy(edit.category) { product := product.(category := edit.category.value); }
    if |edit.uploads| > 0 {
      if |edit.uploads| > MaxImages {
        return BadRequest;
      }
      product := product.(images := edit.uploads);
    }
    assert product == Edited(st.products[id], edit);
    EditKeepsRatings(st.products, st.reviews, id, edit);
    st.products := st.products[id := product];
    s := Ok;
  }

  /** The storage key of an uploaded image: "products/" followed by the part
      of the URL after the first "/products/", up to the next "/products/" and
      then up to the first "."; a URL without "/products/" gives
      "products/undefined". */
  function PublicId(url: Url): string
  {
    match IndexOf(url, "/products/")
    case None => "products/undefined"
    case Some(i) => "products/" + Before(Before(url[i + |"/products/"|..], "/products/"), ".")
  }

  /** Every key starts with "products/" and so is never empty (the guard
      before each destroy call never skips one), and no "." follows the
      prefix. */
  lemma PublicIdSpec(url: Url)
    ensures |PublicId(url)| >= |"products/"| && PublicId(url)[..|"products/"|] == "products/"
    ensures PublicId(url) != ""
    ensures forall m :: |"products/"| <= m < |PublicId(url)| ==> PublicId(url)[m] != '.'
  {
    var name := KeyName(url);
    Prefixed(name);
  }

  /** Every key is "products/" followed by a name free of ".". */
  lemma KeyName(url: Url) returns (name: string)
    ensures PublicId(url) == "products/" + name
    ensures forall m :: 0 <= m < |name| ==> name[m] != '.'
  {
    match IndexOf(url, "/products/")
    case None =>
      name := "undefined";
    case Some(i) =>
      var seg := Before(url[i + |"/products/"|..], "/products/");
      name := Before(seg, ".");
      forall m | 0 <= m < |name| ensures name[m] != '.' {
        NoDotBefore(seg, m);
      }
  }

  /** "products/" followed by a dot-free name keeps the prefix and has no
      "." after it. */
  lemma Prefixed(name: string)
    requires forall m :: 0 <= m < |name| ==> name[m] != '.'
    ensures var key := "products/" + name;
      && |key| >= |"products/"| && key[..|"products/"|] == "products/"
      && forall m :: |"products/"| <= m < |key| ==> key[m] != '.'
  {
    var key := "products/" + name;
    assert key[..9] == "products/";
    forall m | 9 <= m < |key| ensures key[m] != '.' {
      assert key[m] == name[m - 9];
    }
  }

  /** The text before the first "." contains no ".". */
  lemma NoDotBefore(s: string, m: nat)
    requires m < |Before(s, ".")|
    ensures Before(s, ".")[m] != '.'
  {
    assert Before(s, ".")[m] == s[m];
    assert !MatchAt(s, ".", m);
    assert s[m..m + 1] == [s[m]];
  }

  /** The first "/products/" of an uploaded image's URL is the one after
      `base`, and what follows it is `<name>.<ext>`. */
  lemma UploadSuffix(base: string, tail: string)
    requires IndexOf(base + "/products/", "/products/") == Some(|base|)
    ensures IndexOf(base + "/products/" + tail, "/products/") == Some(|base|)
    ensures (base + "/products/" + tail)[|base| + |"/products/"|..] == tail
  {
    IndexOfExtend(base + "/products/", tail, "/products/");
  }

  /** Cutting `<name>.<ext>` at a later "/products/" keeps `<name>.` in
      front, since the name holds no "/". */
  lemma SegmentKeepsName(name: string, ext: string) returns (rest: string)
    requires '/' !in name
    ensures Before(name + "." + ext, "/products/") == name + "." + rest
  {
    var after := name + "." + ext;
    match IndexOf(after, "/products/")
    case None =>
      rest := ext;
    case Some(j) =>
      assert after[j..j + 10] == "/products/";
      assert after[j] == after[j..j + 10][0] == '/';
      assert j > |name|;
      rest := after[|name| + 1..j];
      assert after[..j] == name + "." + rest;
  }

  /** For a URL of the shape the uploader produces, `…/products/<name>.<ext>`
      with a name free of "/" and ".", the key is "products/<name>". */
  lemma PublicIdOfUpload(base: string, name: string, ext: string)
    requires IndexOf(base + "/products/", "/products/") == Some(|base|)
    requires '/' !in name && '.' !in name
    ensures PublicId(base + "/products/" + name + "." + ext) == "products/" + name
  {
    var tail := name + "." + ext;
    assert base + "/products/" + name + "." + ext == base + "/products/" + tail;
    UploadSuffix(base, tail);
    var rest := SegmentKeepsName(name, ext);
    IndexOfFirstChar(name, '.', rest);
    assert name + "." + rest == name + ['.'] + rest;
    assert (name + "." + rest)[..|name|] == name;
  }

  /** The storage keys `deleteProduct` asks the image host to destroy, one
      per image, in order. */
  function StorageKeys(images: seq<Url>): (keys: seq<string>)
    ensures |keys| == |images|
    ensures forall k :: 0 <= k < |keys| ==> keys[k] == PublicId(images[k])
  {
    seq(|images|, k requires 0 <= k < |images| => PublicId(images[k]))
  }

  /** Every key destroyed with a product names a file in the "products"
      folder, with no extension. */
  lemma StorageKeysInFolder(images: seq<Url>)
    ensures forall k :: 0 <= k < |StorageKeys(images)| ==>
      |StorageKeys(images)[k]| >= |"products/"| && StorageKeys(images)[k][..|"products/"|] == "products/"
    ensures forall k, m :: 0 <= k < |StorageKeys(images)| && |"products/"| <= m < |StorageKeys(images)[k]| ==>
      StorageKeys(images)[k][m] != '.'
  {
    forall k | 0 <= k < |images| {
      PublicIdSpec(images[k]);
    }
  }

  /** `deleteProduct`: NotFound for an unknown id; otherwise a destroy request
      for the key of each of its images and the product removed from the
      catalog, with every other product as it was. */
  method DeleteProduct(st: Store, id: ProductId) returns (s: Status, destroyed: seq<string>)
    requires st.Valid()
    modifies st`products
    ensures st.Valid()
    ensures id !in old(st.products) ==> s == NotFound && destroyed == [] && st.products == old(st.products)
    ensures id in old(st.products) ==>
      && s == Ok
      && destroyed == StorageKeys(old(st.products)[id].images)
      && st.products == old(st.products) - {id}
    ensures RatingsConsistent(old(st.products), st.reviews) ==> RatingsConsistent(st.products, st.reviews)
  {
    if id !in st.products {
      return NotFound, [];
    }
    var product := st.products[id];
    destroyed := [];
    if |product.images| > 0 {
      destroyed := StorageKeys(product.images);
    }
    st.products := st.products - {id};
    s := Ok;
  }

  // ---------------------------------------------------------------- rollups

  /** `$sum` of `totalPrice` over all orders; 0 when there are none. */
  function Revenue(orders: seq<Order>): int
  {
    if orders == [] then 0 else orders[0].totalPrice + Revenue(orders[1..])
  }

  /** A new order adds its client-supplied total to the revenue. */
  lemma {:induction false} RevenueAppend(orders: seq<Order>, order: Order)
    ensures Revenue(orders + [order]) == Revenue(orders) + order.totalPrice
  {
    if orders != [] {
      assert (orders + [order])[1..] == orders[1..] + [order];
      RevenueAppend(orders[1..], order);
    }
  }

  /** With non-negative totals the revenue is non-negative and at least each
      order's total. */
  lemma {:induction false} RevenueBounds(orders: seq<Order>)
    requires forall k :: 0 <= k < |orders| ==> orders[k].totalPrice >= 0
    ensures Revenue(orders) >= 0
    ensures forall k :: 0 <= k < |orders| ==> Revenue(orders) >= orders[k].totalPrice
  {
    if orders != [] {
      RevenueBounds(orders[1..]);
      forall k | 0 < k < |orders| ensures Revenue(orders) >= orders[k].totalPrice {
        assert orders[1..][k - 1] == orders[k];
      }
    }
  }

  datatype DashboardStats = DashboardStats(totalRevenue: int, totalOrders: nat, totalCustomers: nat, totalProducts: nat)

  /** `getDashboardStats`: revenue and the sizes of the three collections. */
  function Dashboard(orders: seq<Order>, users: seq<User>, products: map<ProductId, Product>): DashboardStats
  {
    DashboardStats(Revenue(orders), |orders|, |users|, |products.Keys|)
  }

  /** Placing an order adds one order and its total to the dashboard and
      leaves the customer and product counts as they were. */
  lemma DashboardAfterPlacement(orders: seq<Order>, users: seq<User>, products: map<ProductId, Product>,
                                placed: Order)
    ensures Dashboard(orders + [placed], users, Decremented(products, placed.items))
            == Dashboard(orders, users, products).(totalRevenue := Revenue(orders) + placed.totalPrice,
                                                   totalOrders := |orders| + 1)
  {
    RevenueAppend(orders, placed);
    DecrementedSpec(products, placed.items);
  }

  /** The number of orders the admin order list shows. */
  const LatestLimit := 5

  /** `Order.find().sort({ createdAt: -1 }).limit(limit)` over orders kept in
      creation order: the newest `limit` orders, newest first. */
  function LatestOrders(orders: seq<Order>, limit: nat): (r: seq<Order>)
    ensures |r| == if |orders| < limit then |orders| else limit
    ensures forall k :: 0 <= k < |r| ==> r[k] == orders[|orders| - 1 - k]
  {
    if orders == [] || limit == 0 then []
    else [orders[|orders| - 1]] + LatestOrders(orders[..|orders| - 1], limit - 1)
  }

  /** The admin list holds at most five orders, in strictly decreasing id
      order, and every order left out is older than every order shown. */
  lemma LatestAreNewest(orders: seq<Order>)
    requires OrdersIndexed(orders)
    ensures |LatestOrders(orders, LatestLimit)| <= LatestLimit
    ensures forall a, b :: 0 <= a < b < |LatestOrders(orders, LatestLimit)| ==>
      LatestOrders(orders, LatestLimit)[a].id > LatestOrders(orders, LatestLimit)[b].id
    ensures forall k, m :: (0 <= k < |orders| - |LatestOrders(orders, LatestLimit)| &&
      0 <= m < |LatestOrders(orders, LatestLimit)|) ==> orders[k].id < LatestOrders(orders, LatestLimit)[m].id
  {
  }
}
