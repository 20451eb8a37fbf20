/** Documents of the shop's five collections (products, carts, orders,
    reviews, users) as the controllers read and write them. Prices and
    order totals are integer cents; ids are naturals standing for Mongo
    ObjectIds; timestamps are opaque instants. */
module Models {

  datatype Option<T> = None | Some(value: T)

  /** What a handler answers, standing for the HTTP status it sends:
      200/201, 400, 403 and 404. */
  datatype Status = Ok | BadRequest | Forbidden | NotFound

  type ProductId = nat
  type OrderId = nat
  type ReviewId = nat
  type UserId = nat
  type AddressId = nat
  type ClerkId = string
  type Url = string
  /** An instant as `new Date()` produces it. */
  type Time = nat
  /** A request payload stored without interpretation (shipping address
      snapshot, payment result). */
  type Payload = string

  datatype Product = Product(
    name: string,
    description: string,
    price: int,
    stock: int,
    category: string,
    images: seq<Url>,
    averageRating: real,
    totalReviews: nat)

  datatype CartItem = CartItem(product: ProductId, quantity: int)

  datatype Cart = Cart(user: UserId, clerkId: ClerkId, items: seq<CartItem>)

  datatype OrderItem = OrderItem(product: ProductId, name: string, quantity: int, price: int)

  datatype OrderStatus = Pending | Shipped | Delivered

  datatype Order = Order(
    id: OrderId,
    user: UserId,
    clerkId: ClerkId,
    items: seq<OrderItem>,
    shippingAddress: Payload,
    paymentResult: Payload,
    totalPrice: int,
    status: OrderStatus,
    shippedAt: Option<Time>,
    deliveredAt: Option<Time>)

  datatype Review = Review(id: ReviewId, productId: ProductId, userId: UserId, orderId: OrderId, rating: int)

  datatype Address = Address(
    id: AddressId,
    addressLabel: Option<string>,
    fullName: string,
    streetAddress: string,
    city: string,
    state: string,
    zipCode: string,
    phoneNumber: Option<string>,
    isDefault: bool)

  datatype User = User(
    id: UserId,
    clerkId: ClerkId,
    email: Option<string>,
    name: string,
    imageUrl: Option<Url>,
    addresses: seq<Address>,
    wishlist: seq<ProductId>)

  /** The authenticated requester that the auth middleware attaches to a
      request: its `_id` and its identity-provider id. */
  datatype Caller = Caller(id: UserId, clerkId: ClerkId)

  /** JavaScript truthiness of an optional string field: a missing value and
      the empty string are falsy. */
  predicate Truthy(s: Option<string>)
  {
    s.Some? && s.value != ""
  }

  /** The index of the first element satisfying `f`, as `findOne`,
      `Array.find` and `Array.findIndex` locate it. */
  function FindFirst<T>(s: seq<T>, f: T -> bool): (r: Option<nat>)
    ensures r.Some? ==> r.value < |s| && f(s[r.value])
    ensures r.Some? ==> forall j :: 0 <= j < r.value ==> !f(s[j])
    ensures r.None? <==> forall j :: 0 <= j < |s| ==> !f(s[j])
  {
    if s == [] then None
    else if f(s[0]) then Some(0)
    else match FindFirst(s[1..], f)
      case None => None
      case Some(k) => Some(k + 1)
  }

  /** `FindFirst` only looks at whether each element satisfies the test. */
  lemma FindFirstSameTruth<T>(s: seq<T>, t: seq<T>, f: T -> bool)
    requires |s| == |t| && forall j :: 0 <= j < |s| ==> f(s[j]) == f(t[j])
    ensures FindFirst(s, f) == FindFirst(t, f)
  {
    var a, b := FindFirst(s, f), FindFirst(t, f);
    if a.Some? && b.Some? {
      assert !(a.value < b.value) && !(b.value < a.value);
    }
  }

  /** Appending an element changes `FindFirst` only when nothing before matched. */
  lemma FindFirstAppend<T>(s: seq<T>, x: T, f: T -> bool)
    ensures FindFirst(s + [x], f) == if FindFirst(s, f).Some? then FindFirst(s, f) else if f(x) then Some(|s|) else None
  {
    FindFirstSameTruth(s, (s + [x])[..|s|], f);
    var a, b := FindFirst(s, f), FindFirst(s + [x], f);
    if a.Some? && b.Some? {
      assert (s + [x])[a.value] == s[a.value];
      assert !(a.value < b.value) && !(b.value < a.value);
    }
    if a.None? && f(x) {
      assert (s + [x])[|s|] == x;
    }
  }

  /** The elements of `s` that `keep` accepts, in their order, as
      `Array.filter` and Mongo's `pull` leave them. */
  function Filter<T(!new)>(s: seq<T>, keep: T -> bool): (r: seq<T>)
    ensures |r| <= |s|
    ensures forall x :: x in r <==> x in s && keep(x)
  {
    if s == [] then [] else (if keep(s[0]) then [s[0]] else []) + Filter(s[1..], keep)
  }

  /** Filtering what every element passes changes nothing. */
  lemma {:induction false} FilterAll<T(!new)>(s: seq<T>, keep: T -> bool)
    requires forall j :: 0 <= j < |s| ==> keep(s[j])
    ensures Filter(s, keep) == s
  {
    if s != [] {
      FilterAll(s[1..], keep);
    }
  }

  /** Filtering commutes with appending one element. */
  lemma {:induction false} FilterAppend<T(!new)>(s: seq<T>, x: T, keep: T -> bool)
    ensures Filter(s + [x], keep) == Filter(s, keep) + (if keep(x) then [x] else [])
  {
    if s != [] {
      assert (s + [x])[1..] == s[1..] + [x];
      FilterAppend(s[1..], x, keep);
    }
  }

  /** Replacing a rejected element by another rejected one does not change
      what the filter keeps. */
  lemma {:induction false} FilterUpdate<T(!new)>(s: seq<T>, i: nat, x: T, keep: T -> bool)
    requires i < |s| && !keep(s[i]) && !keep(x)
    ensures Filter(s[i := x], keep) == Filter(s, keep)
  {
    if i == 0 {
      assert s[i := x][1..] == s[1..];
    } else {
      assert s[i := x][1..] == s[1..][i - 1 := x];
      FilterUpdate(s[1..], i - 1, x, keep);
    }
  }

  /** A first filter that keeps everything the second one keeps does not
      change the second one's result. */
  lemma {:induction false} FilterFilter<T(!new)>(s: seq<T>, first: T -> bool, second: T -> bool)
    requires forall x :: x in s && second(x) ==> first(x)
    ensures Filter(Filter(s, first), second) == Filter(s, second)
  {
    if s != [] {
      FilterFilter(s[1..], first, second);
      var rest := Filter(s[1..], first);
      if first(s[0]) {
        var t := [s[0]] + rest;
        assert Filter(s, first) == t;
        assert t[0] == s[0] && t[1..] == rest;
        assert Filter(t, second) == (if second(s[0]) then [s[0]] else []) + Filter(rest, second);
      } else {
        assert Filter(s, first) == rest;
        assert Filter(s, second) == Filter(s[1..], second);
      }
    }
  }

  /** Filtering what no element passes leaves nothing. */
  lemma {:induction false} FilterNone<T(!new)>(s: seq<T>, keep: T -> bool)
    requires forall j :: 0 <= j < |s| ==> !keep(s[j])
    ensures Filter(s, keep) == []
  {
    if s != [] {
      FilterNone(s[1..], keep);
    }
  }

  /** When no two elements both pass, the filter keeps one element exactly
      when some element passes, and none otherwise. */
  lemma {:induction false} FilterAtMostOne<T(!new)>(s: seq<T>, keep: T -> bool)
    requires forall i, j :: 0 <= i < j < |s| && keep(s[i]) ==> !keep(s[j])
    ensures |Filter(s, keep)| == if exists j :: 0 <= j < |s| && keep(s[j]) then 1 else 0
  {
    if s != [] {
      if keep(s[0]) {
        assert forall j :: 0 <= j < |s[1..]| ==> !keep(s[1..][j]) by {
          forall j | 0 <= j < |s[1..]| ensures !keep(s[1..][j]) {
            assert s[1..][j] == s[j + 1];
          }
        }
        FilterNone(s[1..], keep);
      } else {
        assert forall i, j :: 0 <= i < j < |s[1..]| && keep(s[1..][i]) ==> !keep(s[1..][j]) by {
          forall i, j | 0 <= i < j < |s[1..]| && keep(s[1..][i]) ensures !keep(s[1..][j]) {
            assert s[1..][i] == s[i + 1] && s[1..][j] == s[j + 1];
          }
        }
        FilterAtMostOne(s[1..], keep);
        if exists j :: 0 <= j < |s| && keep(s[j]) {
          var j :| 0 <= j < |s| && keep(s[j]);
          assert s[1..][j - 1] == s[j];
        }
        if exists j :: 0 <= j < |s[1..]| && keep(s[1..][j]) {
          var j :| 0 <= j < |s[1..]| && keep(s[1..][j]);
          assert s[j + 1] == s[1..][j];
        }
      }
    }
  }

  /** Filtering distributes over concatenation. */
  lemma {:induction false} FilterConcat<T(!new)>(a: seq<T>, b: seq<T>, keep: T -> bool)
    ensures Filter(a + b, keep) == Filter(a, keep) + Filter(b, keep)
  {
    if a == [] {
      assert a + b == b;
    } else {
      assert (a + b)[1..] == a[1..] + b;
      FilterConcat(a[1..], b, keep);
    }
  }

  /** Filtering out the only rejected element is cutting it out. */
  lemma FilterSkipOne<T(!new)>(s: seq<T>, k: nat, keep: T -> bool)
    requires k < |s| && !keep(s[k])
    requires forall i :: 0 <= i < |s| && i != k ==> keep(s[i])
    ensures Filter(s, keep) == s[..k] + s[k + 1..]
  {
    var pre, post := s[..k], s[k + 1..];
    forall j | 0 <= j < |pre| ensures keep(pre[j]) {
      assert pre[j] == s[j];
    }
    forall j | 0 <= j < |post| ensures keep(post[j]) {
      assert post[j] == s[k + 1 + j];
    }
    FilterAll(pre, keep);
    FilterAll(post, keep);
    assert s == pre + [s[k]] + post;
    FilterDropMiddle(pre, s[k], post, keep);
  }

  /** Filtering drops a rejected element between two runs it keeps whole. */
  lemma FilterDropMiddle<T(!new)>(pre: seq<T>, x: T, post: seq<T>, keep: T -> bool)
    requires Filter(pre, keep) == pre && Filter(post, keep) == post && !keep(x)
    ensures Filter(pre + [x] + post, keep) == pre + post
  {
    FilterConcat(pre + [x], post, keep);
    FilterAppend(pre, x, keep);
    assert pre + [] == pre;
  }

  /** A relation that holds between every element and every later one still
      does so after filtering. */
  lemma {:induction false} FilterPairwise<T(!new)>(s: seq<T>, keep: T -> bool, rel: (T, T) -> bool)
    requires forall i, j :: 0 <= i < j < |s| ==> rel(s[i], s[j])
    ensures forall i, j :: 0 <= i < j < |Filter(s, keep)| ==> rel(Filter(s, keep)[i], Filter(s, keep)[j])
  {
    if s != [] {
      FilterPairwise(s[1..], keep, rel);
      var rest := Filter(s[1..], keep);
      if keep(s[0]) {
        var r := [s[0]] + rest;
        forall i, j | 0 <= i < j < |r| ensures rel(r[i], r[j]) {
          if i == 0 {
            assert r[j] == rest[j - 1] && r[j] in s[1..];
            var k :| 0 <= k < |s[1..]| && s[1..][k] == r[j];
            assert s[k + 1] == r[j];
          } else {
            assert r[i] == rest[i - 1] && r[j] == rest[j - 1];
          }
        }
      }
    }
  }

  /** The user whose identity-provider id is `clerkId` (`findOne({ clerkId })`). */
  function FindUser(users: seq<User>, clerkId: ClerkId): Option<nat>
  {
    FindFirst(users, (u: User) => u.clerkId == clerkId)
  }
}
