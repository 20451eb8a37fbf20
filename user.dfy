/** The signed-in user's profile: the address book, in which at most one
    address is the default, and a wishlist without repeated products. The
    user is the one the auth middleware found for the caller. */
module UserController {
  import opened Models
  import opened Database

  /** The address fields of a request body; every one may be missing. */
  datatype AddressForm = AddressForm(
    addressLabel: Option<string>,
    fullName: Option<string>,
    streetAddress: Option<string>,
    city: Option<string>,
    state: Option<string>,
    zipCode: Option<string>,
    phoneNumber: Option<string>,
    isDefault: Option<bool>)

  /** The five fields `addAddress` demands, each truthy. */
  predicate HasRequiredFields(form: AddressForm)
  {
    Truthy(form.fullName) && Truthy(form.streetAddress) && Truthy(form.city) && Truthy(form.state) && Truthy(form.zipCode)
  }

  /** Each address with its default flag cleared. */
  function Undefaulted(addresses: seq<Address>): seq<Address>
  {
    seq(|addresses|, i requires 0 <= i < |addresses| => addresses[i].(isDefault := false))
  }

  /** The `forEach` that sets `isDefault = false` on every address. */
  method ClearDefaults(addresses: seq<Address>) returns (r: seq<Address>)
    ensures r == Undefaulted(addresses)
  {
    r := addresses;
    var i := 0;
    while i < |r|
      invariant 0 <= i <= |r| == |addresses|
      invariant forall k :: 0 <= k < i ==> r[k] == addresses[k].(isDefault := false)
      invariant forall k :: i <= k < |r| ==> r[k] == addresses[k]
    {
      r := r[i := r[i].(isDefault := false)];
      i := i + 1;
    }
  }

  /** The address `addAddress` appends: the given fields, default only when
      `isDefault` is true. */
  function NewAddress(id: AddressId, form: AddressForm): Address
    requires HasRequiredFields(form)
  {
    Address(id, form.addressLabel, form.fullName.value, form.streetAddress.value, form.city.value,
            form.state.value, form.zipCode.value, form.phoneNumber, form.isDefault == Some(true))
  }

  /** The address book after appending `address`, all earlier defaults
      cleared first when it is the default. */
  function WithAddress(addresses: seq<Address>, address: Address): seq<Address>
  {
    (if address.isDefault then Undefaulted(addresses) else addresses) + [address]
  }

  /** Appending keeps at most one default; the new address comes last; the
      earlier ones change at most their flag, and keep it too unless the new
      one is the default, in which case it is the only one. */
  lemma WithAddressSpec(addresses: seq<Address>, address: Address)
    requires AtMostOneDefault(addresses)
    ensures var r := WithAddress(addresses, address);
      && AtMostOneDefault(r)
      && |r| == |addresses| + 1 && r[|addresses|] == address
      && (forall i :: 0 <= i < |addresses| ==> r[i] == addresses[i].(isDefault := r[i].isDefault))
      && (address.isDefault ==> forall i :: 0 <= i < |addresses| ==> !r[i].isDefault)
      && (!address.isDefault ==> r[..|addresses|] == addresses)
  {
    var r := WithAddress(addresses, address);
    assert r[..|addresses|] == if address.isDefault then Undefaulted(addresses) else addresses;
  }

  /** A field of the request replaces the stored one only when truthy. */
  function Pick(given: Option<string>, current: string): string
  {
    if Truthy(given) then given.value else current
  }

  function PickOptional(given: Option<string>, current: Option<string>): Option<string>
  {
    if Truthy(given) then given else current
  }

  /** The address after the field assignments of `updateAddress`. */
  function Merged(address: Address, form: AddressForm): Address
  {
    address.(addressLabel := PickOptional(form.addressLabel, address.addressLabel),
             fullName := Pick(form.fullName, address.fullName),
             streetAddress := Pick(form.streetAddress, address.streetAddress),
             city := Pick(form.city, address.city),
             state := Pick(form.state, address.state),
             zipCode := Pick(form.zipCode, address.zipCode),
             phoneNumber := PickOptional(form.phoneNumber, address.phoneNumber),
             isDefault := if form.isDefault.Some? then form.isDefault.value else address.isDefault)
  }

  /** Each truthy field of the form replaces the stored one and every other
      field keeps its value; a given default flag replaces the stored one.
      A merge keeps the id and never empties a filled field; a form with
      nothing truthy and no flag changes nothing; merging the same form again
      changes nothing more. */
  lemma MergedSpec(address: Address, form: AddressForm)
    ensures Merged(address, form).id == address.id
    ensures Truthy(form.addressLabel) ==> Merged(address, form).addressLabel == form.addressLabel
    ensures !Truthy(form.addressLabel) ==> Merged(address, form).addressLabel == address.addressLabel
    ensures Truthy(form.fullName) ==> Merged(address, form).fullName == form.fullName.value
    ensures !Truthy(form.fullName) ==> Merged(address, form).fullName == address.fullName
    ensures Truthy(form.streetAddress) ==> Merged(address, form).streetAddress == form.streetAddress.value
    ensures !Truthy(form.streetAddress) ==> Merged(address, form).streetAddress == address.streetAddress
    ensures Truthy(form.city) ==> Merged(address, form).city == form.city.value
    ensures !Truthy(form.city) ==> Merged(address, form).city == address.city
    ensures Truthy(form.state) ==> Merged(address, form).state == form.state.value
    ensures !Truthy(form.state) ==> Merged(address, form).state == address.state
    ensures Truthy(form.zipCode) ==> Merged(address, form).zipCode == form.zipCode.value
    ensures !Truthy(form.zipCode) ==> Merged(address, form).zipCode == address.zipCode
    ensures Truthy(form.phoneNumber) ==> Merged(address, form).phoneNumber == form.phoneNumber
    ensures !Truthy(form.phoneNumber) ==> Merged(address, form).phoneNumber == address.phoneNumber
    ensures form.isDefault.Some? ==> Merged(address, form).isDefault == form.isDefault.value
    ensures form.isDefault.None? ==> Merged(address, form).isDefault == address.isDefault
    ensures address.fullName != "" ==> Merged(address, form).fullName != ""
    ensures address.streetAddress != "" ==> Merged(address, form).streetAddress != ""
    ensures address.city != "" ==> Merged(address, form).city != ""
    ensures address.state != "" ==> Merged(address, form).state != ""
    ensures address.zipCode != "" ==> Merged(address, form).zipCode != ""
    ensures (&& !Truthy(form.addressLabel) && !Truthy(form.fullName) && !Truthy(form.streetAddress)
             && !Truthy(form.city) && !Truthy(form.state) && !Truthy(form.zipCode)
             && !Truthy(form.phoneNumber) && form.isDefault.None?) ==> Merged(address, form) == address
    ensures Merged(Merged(address, form), form) == Merged(address, form)
  {
  }

  /** The address with this id (`user.addresses.id(addressId)`). */
  function FindAddress(addresses: seq<Address>, id: AddressId): Option<nat>
  {
    FindFirst(addresses, (a: Address) => a.id == id)
  }

  /** The address book after `updateAddress` changed the address at `j`. */
  function Updated(addresses: seq<Address>, j: nat, form: AddressForm): seq<Address>
    requires j < |addresses|
  {
    var base := if form.isDefault == Some(true) then Undefaulted(addresses) else addresses;
    base[j := Merged(base[j], form)]
  }

  /** An update keeps at most one default; the chosen address becomes the
      merge of its old value and the form; the others change at most their
      flag, keep it unless the form sets the default, and lose it when it
      does. */
  lemma UpdatedSpec(addresses: seq<Address>, j: nat, form: AddressForm)
    requires j < |addresses| && AtMostOneDefault(addresses)
    ensures var r := Updated(addresses, j, form);
      && AtMostOneDefault(r)
      && |r| == |addresses|
      && r[j] == Merged(addresses[j], form)
      && (forall i :: 0 <= i < |r| && i != j ==> r[i] == addresses[i].(isDefault := r[i].isDefault))
      && (form.isDefault != Some(true) ==> forall i :: 0 <= i < |r| && i != j ==> r[i] == addresses[i])
      && (form.isDefault == Some(true) ==> forall i :: 0 <= i < |r| && i != j ==> !r[i].isDefault)
  {
  }

  /** The address book without the address with this id (`pull`). */
  function WithoutAddress(addresses: seq<Address>, id: AddressId): seq<Address>
  {
    Filter(addresses, (a: Address) => a.id != id)
  }

  /** Deleting keeps at most one default and every other address, and an
      absent id changes nothing. */
  lemma WithoutAddressSpec(addresses: seq<Address>, id: AddressId)
    requires AtMostOneDefault(addresses)
    ensures AtMostOneDefault(WithoutAddress(addresses, id))
    ensures forall a :: a in WithoutAddress(addresses, id) <==> a in addresses && a.id != id
    ensures FindAddress(addresses, id).None? ==> WithoutAddress(addresses, id) == addresses
  {
    FilterPairwise(addresses, (a: Address) => a.id != id, (a: Address, b: Address) => !(a.isDefault && b.isDefault));
    if FindAddress(addresses, id).None? {
      FilterAll(addresses, (a: Address) => a.id != id);
    }
  }

  /** Replacing one user by a record with the same ids, at most one default
      address and a duplicate-free wishlist keeps the users valid. */
  lemma ReplaceUser(users: seq<User>, nextId: nat, k: nat, user: User)
    requires UsersValid(users, nextId) && k < |users|
    requires user.id == users[k].id && user.clerkId == users[k].clerkId
    requires AtMostOneDefault(user.addresses) && NoDuplicates(user.wishlist)
    ensures UsersValid(users[k := user], nextId)
  {
  }

  /** `addAddress`: BadRequest, with nothing changed, when a required field
      is missing; otherwise the caller's address book becomes `WithAddress`
      of a new address with a fresh id. */
  method AddAddress(st: Store, me: Caller, form: AddressForm) returns (s: Status)
    requires st.Valid() && FindUser(st.users, me.clerkId).Some?
    modifies st`users, st`nextAddressId
    ensures st.Valid()
    ensures !HasRequiredFields(form) ==> s == BadRequest && st.users == old(st.users)
    ensures HasRequiredFields(form) ==>
      var k := FindUser(old(st.users), me.clerkId).value;
      && s == Ok
      && st.users == old(st.users)[k := old(st.users)[k].(addresses :=
           WithAddress(old(st.users)[k].addresses, NewAddress(old(st.nextAddressId), form)))]
  {
    if !HasRequiredFields(form) {
      return BadRequest;
    }
    var k := FindUser(st.users, me.clerkId).value;
    var user := st.users[k];
    var addresses := user.addresses;
    if form.isDefault == Some(true) {
      addresses := ClearDefaults(addresses);
    }
    var address := NewAddress(st.nextAddressId, form);
    addresses := addresses + [address];
    WithAddressSpec(user.addresses, address);
    ReplaceUser(st.users, st.nextUserId, k, user.(addresses := addresses));
    st.users := st.users[k := user.(addresses := addresses)];
    st.nextAddressId := st.nextAddressId + 1;
    s := Ok;
  }

  /** `updateAddress`: NotFound, with nothing changed, for an unknown
      address; otherwise the caller's address book becomes `Updated`. */
  method UpdateAddress(st: Store, me: Caller, addressId: AddressId, form: AddressForm) returns (s: Status)
    requires st.Valid() && FindUser(st.users, me.clerkId).Some?
    modifies st`users
    ensures st.Valid()
    ensures var k := FindUser(old(st.users), me.clerkId).value;
      var found := FindAddress(old(st.users)[k].addresses, addressId);
      && (found.None? ==> s == NotFound && st.users == old(st.users))
      && (found.Some? ==> s == Ok && st.users == old(st.users)[k := old(st.users)[k].(addresses :=
            Updated(old(st.users)[k].addresses, found.value, form))])
  {
    var k := FindUser(st.users, me.clerkId).value;
    var user := st.users[k];
    var found := FindAddress(user.addresses, addressId);
    if found.None? {
      return NotFound;
    }
    var j := found.value;
    var addresses := user.addresses;
    if form.isDefault == Some(true) {
      addresses := ClearDefaults(addresses);
    }
    var address := addresses[j];
    address := address.(addressLabel := PickOptional(form.addressLabel, address.addressLabel));
    address := address.(fullName := Pick(form.fullName, address.fullName));
    address := address.(streetAddress := Pick(form.streetAddress, address.streetAddress));
    address := address.(city := Pick(form.city, address.city));
    address := address.(state := Pick(form.state, address.state));
    address := address.(zipCode := Pick(form.zipCode, address.zipCode));
    address := address.(phoneNumber := PickOptional(form.phoneNumber, address.phoneNumber));
    if form.isDefault.Some? {
      address := address.(isDefault := form.isDefault.value);
    }
    addresses := addresses[j := address];
    UpdatedSpec(user.addresses, j, form);
    ReplaceUser(st.users, st.nextUserId, k, user.(addresses := addresses));
    st.users := st.users[k := user.(addresses := addresses)];
    s := Ok;
  }

  /** `deleteAddress`: the caller's address book becomes `WithoutAddress`;
      an unknown id is not an error. */
  method DeleteAddress(st: Store, me: Caller, addressId: AddressId) returns (s: Status)
    requires st.Valid() && FindUser(st.users, me.clerkId).Some?
    modifies st`users
    ensures st.Valid()
    ensures s == Ok
    ensures var k := FindUser(old(st.users), me.clerkId).value;
      st.users == old(st.users)[k := old(st.users)[k].(addresses := WithoutAddress(old(st.users)[k].addresses, addressId))]
  {
    var k := FindUser(st.users, me.clerkId).value;
    var user := st.users[k];
    WithoutAddressSpec(user.addresses, addressId);
    var addresses := WithoutAddress(user.addresses, addressId);
    ReplaceUser(st.users, st.nextUserId, k, user.(addresses := addresses));
    st.users := st.users[k := user.(addresses := addresses)];
    s := Ok;
  }

  /** The wishlist without the product (`pull`). */
  function WithoutWish(wishlist: seq<ProductId>, productId: ProductId): seq<ProductId>
  {
    Filter(wishlist, (p: ProductId) => p != productId)
  }

  /** Adding an absent product keeps the wishlist duplicate-free, and
      removing it again gives back the wishlist it was added to. */
  lemma WishlistAddSpec(wishlist: seq<ProductId>, productId: ProductId)
    requires NoDuplicates(wishlist) && productId !in wishlist
    ensures NoDuplicates(wishlist + [productId])
    ensures WithoutWish(wishlist + [productId], productId) == wishlist
  {
    FilterAppend(wishlist, productId, (p: ProductId) => p != productId);
    FilterAll(wishlist, (p: ProductId) => p != productId);
  }

  /** Removing keeps the wishlist duplicate-free and holds exactly the other
      products. */
  lemma WishlistRemoveSpec(wishlist: seq<ProductId>, productId: ProductId)
    requires NoDuplicates(wishlist)
    ensures NoDuplicates(WithoutWish(wishlist, productId))
    ensures forall p :: p in WithoutWish(wishlist, productId) <==> p in wishlist && p != productId
  {
    FilterPairwise(wishlist, (p: ProductId) => p != productId, (a: ProductId, b: ProductId) => a != b);
  }

  /** `addToWishlist`: BadRequest, with nothing changed, for a product
      already listed; otherwise it is appended. */
  method AddToWishlist(st: Store, me: Caller, productId: ProductId) returns (s: Status)
    requires st.Valid() && FindUser(st.users, me.clerkId).Some?
    modifies st`users
    ensures st.Valid()
    ensures var k := FindUser(old(st.users), me.clerkId).value;
      && (productId in old(st.users)[k].wishlist ==> s == BadRequest && st.users == old(st.users))
      && (productId !in old(st.users)[k].wishlist ==>
            && s == Ok
            && st.users == old(st.users)[k := old(st.users)[k].(wishlist := old(st.users)[k].wishlist + [productId])])
  {
    var k := FindUser(st.users, me.clerkId).value;
    var user := st.users[k];
    if productId in user.wishlist {
      return BadRequest;
    }
    WishlistAddSpec(user.wishlist, productId);
    ReplaceUser(st.users, st.nextUserId, k, user.(wishlist := user.wishlist + [productId]));
    st.users := st.users[k := user.(wishlist := user.wishlist + [productId])];
    s := Ok;
  }

  /** `removeFromWishlist`: BadRequest, with nothing changed, for a product
      not listed; otherwise the wishlist becomes `WithoutWish`. */
  method RemoveFromWishlist(st: Store, me: Caller, productId: ProductId) returns (s: Status)
    requires st.Valid() && FindUser(st.users, me.clerkId).Some?
    modifies st`users
    ensures st.Valid()
    ensures var k := FindUser(old(st.users), me.clerkId).value;
      && (productId !in old(st.users)[k].wishlist ==> s == BadRequest && st.users == old(st.users))
      && (productId in old(st.users)[k].wishlist ==>
            && s == Ok
            && st.users == old(st.users)[k := old(st.users)[k].(wishlist := WithoutWish(old(st.users)[k].wishlist, productId))])
  {
    var k := FindUser(st.users, me.clerkId).value;
    var user := st.users[k];
    if productId !in user.wishlist {
      return BadRequest;
    }
    WishlistRemoveSpec(user.wishlist, productId);
    var wishlist := WithoutWish(user.wishlist, productId);
    ReplaceUser(st.users, st.nextUserId, k, user.(wishlist := wishlist));
    st.users := st.users[k := user.(wishlist := wishlist)];
    s := Ok;
  }
}
