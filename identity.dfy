/** The three handlers that keep the users collection in step with the
    identity provider: create inserts only when no user has the provider id,
    update sets only the fields present in the event and never inserts, and
    delete removes the user with that id. */
module IdentitySync {
  import opened Models
  import opened Database
  import opened Text

  /** The parts of a provider event the handlers read. `emailAddresses` is
      the event's address list, each entry with an optional address;
      `imageUrl` is None when the field is undefined, and a null image is
      carried as the empty string since both become null. */
  datatype UserEvent = UserEvent(
    clerkId: ClerkId,
    emailAddresses: Option<seq<Option<string>>>,
    firstName: Option<string>,
    lastName: Option<string>,
    imageUrl: Option<string>)

  /** `[first_name, last_name].filter(Boolean).join(" ").trim()`. */
  function DisplayName(first: Option<string>, last: Option<string>): string
  {
    Trim(if Truthy(first) && Truthy(last) then first.value + " " + last.value
         else if Truthy(first) then first.value
         else if Truthy(last) then last.value
         else "")
  }

  /** The derived name has no surrounding whitespace; it is empty exactly
      when every present part is whitespace only; and two names without
      surrounding whitespace are joined by exactly one space. */
  lemma DisplayNameSpec(first: Option<string>, last: Option<string>)
    ensures var n := DisplayName(first, last);
      n == [] || (!IsJsWhitespace(n[0]) && !IsJsWhitespace(n[|n| - 1]))
    ensures DisplayName(first, last) == "" <==>
      (!Truthy(first) || AllWhitespace(first.value)) && (!Truthy(last) || AllWhitespace(last.value))
    ensures Truthy(first) && Truthy(last) && !IsJsWhitespace(first.value[0]) && !IsJsWhitespace(last.value[|last.value| - 1])
            ==> DisplayName(first, last) == first.value + " " + last.value
  {
    var joined := if Truthy(first) && Truthy(last) then first.value + " " + last.value
                  else if Truthy(first) then first.value
                  else if Truthy(last) then last.value
                  else "";
    TrimSpec(joined);
    if Truthy(first) && Truthy(last) {
      var f, l := first.value, last.value;
      assert joined == f + " " + l;
      if AllWhitespace(joined) {
        forall m | 0 <= m < |f| ensures IsJsWhitespace(f[m]) { assert f[m] == joined[m]; }
        forall m | 0 <= m < |l| ensures IsJsWhitespace(l[m]) { assert l[m] == joined[|f| + 1 + m]; }
      }
      if AllWhitespace(f) && AllWhitespace(l) {
        forall m | 0 <= m < |joined| ensures IsJsWhitespace(joined[m]) {
          if m < |f| {
            assert joined[m] == f[m];
          } else if m > |f| {
            assert joined[m] == l[m - |f| - 1];
          }
        }
      }
      if !IsJsWhitespace(f[0]) && !IsJsWhitespace(l[|l| - 1]) {
        TrimUntouched(joined);
      }
    }
  }

  /** `email_addresses?.[0]?.email_address` when the list may be missing. */
  function FirstEmail(emailAddresses: Option<seq<Option<string>>>): Option<string>
  {
    if emailAddresses.Some? && |emailAddresses.value| > 0 then emailAddresses.value[0] else None
  }

  /** The record `syncUser` inserts: the name falls back to "User", a missing
      or empty email and image become null, and the address book and the
      wishlist start empty. */
  function NewUser(id: UserId, event: UserEvent): User
  {
    var name := DisplayName(event.firstName, event.lastName);
    User(id, event.clerkId,
         if Truthy(FirstEmail(event.emailAddresses)) then FirstEmail(event.emailAddresses) else None,
         if name == "" then "User" else name,
         if Truthy(event.imageUrl) then event.imageUrl else None,
         [], [])
  }

  /** A new user carries the given id and the event's provider id; the
      event's first email and its image when they are non-empty, and null
      otherwise; the derived name when it is non-empty, and "User"
      otherwise, so never an empty name. */
  lemma NewUserSpec(id: UserId, event: UserEvent)
    ensures NewUser(id, event).id == id && NewUser(id, event).clerkId == event.clerkId
    ensures Truthy(FirstEmail(event.emailAddresses)) ==> NewUser(id, event).email == FirstEmail(event.emailAddresses)
    ensures !Truthy(FirstEmail(event.emailAddresses)) ==> NewUser(id, event).email.None?
    ensures DisplayName(event.firstName, event.lastName) != "" ==>
      NewUser(id, event).name == DisplayName(event.firstName, event.lastName)
    ensures DisplayName(event.firstName, event.lastName) == "" ==> NewUser(id, event).name == "User"
    ensures Truthy(event.imageUrl) ==> NewUser(id, event).imageUrl == event.imageUrl
    ensures !Truthy(event.imageUrl) ==> NewUser(id, event).imageUrl.None?
    ensures NewUser(id, event).name != ""
    ensures NewUser(id, event).name == "User" || NewUser(id, event).name == DisplayName(event.firstName, event.lastName)
    ensures NewUser(id, event).email.Some? ==> NewUser(id, event).email.value != ""
    ensures NewUser(id, event).imageUrl.Some? ==> NewUser(id, event).imageUrl == event.imageUrl && event.imageUrl.value != ""
    ensures NewUser(id, event).addresses == [] && NewUser(id, event).wishlist == []
  {
  }

  /** `findOneAndUpdate({ clerkId }, { $setOnInsert }, { upsert: true })`:
      the record is inserted when no user has its provider id. */
  function InsertIfAbsent(users: seq<User>, user: User): seq<User>
  {
    if FindUser(users, user.clerkId).Some? then users else users + [user]
  }

  /** Inserting keeps one user per provider id; afterwards the id has a
      user; and an existing user is left exactly as it was. */
  lemma InsertIfAbsentSpec(users: seq<User>, nextId: nat, user: User)
    requires UsersValid(users, nextId) && user.id == nextId
    requires user.addresses == [] && user.wishlist == []
    ensures UsersValid(InsertIfAbsent(users, user), nextId + 1)
    ensures FindUser(InsertIfAbsent(users, user), user.clerkId).Some?
    ensures FindUser(users, user.clerkId).Some? ==> InsertIfAbsent(users, user) == users
    ensures FindUser(users, user.clerkId).None? ==>
      InsertIfAbsent(users, user) == users + [user] && FindUser(users + [user], user.clerkId) == Some(|users|)
  {
    FindFirstAppend(users, user, (u: User) => u.clerkId == user.clerkId);
    if FindUser(users, user.clerkId).None? {
      AppendKeepsValid(users, nextId, user);
    }
  }

  /** Appending a fresh user whose provider id no user has keeps users valid. */
  lemma AppendKeepsValid(users: seq<User>, nextId: nat, user: User)
    requires UsersValid(users, nextId) && user.id == nextId
    requires user.addresses == [] && user.wishlist == []
    requires FindUser(users, user.clerkId).None?
    ensures UsersValid(users + [user], nextId + 1)
  {
    var r := users + [user];
    forall i, j | 0 <= i < j < |r|
      ensures r[i].clerkId != r[j].clerkId && r[i].id != r[j].id
    {
      assert r[i] == users[i];
      if j < |users| {
        assert r[j] == users[j];
      }
    }
  }

  /** Replaying a create event, whatever fresh id it would use, changes
      nothing. */
  lemma InsertIfAbsentIdempotent(users: seq<User>, user: User, replay: User)
    requires replay.clerkId == user.clerkId
    ensures InsertIfAbsent(InsertIfAbsent(users, user), replay) == InsertIfAbsent(users, user)
  {
    FindFirstAppend(users, user, (u: User) => u.clerkId == user.clerkId);
  }

  /** The `$set` object of an update: a field is present only when the
      event supplies it. */
  datatype Patch = Patch(email: Option<string>, name: Option<string>, imageUrl: Option<Option<Url>>)

  /** The `update` object `updateUserInDB` builds; None when the event has no
      address list, where reading its first entry throws. */
  function PatchOf(event: UserEvent): Option<Patch>
  {
    if event.emailAddresses.None? then None
    else
      var email := FirstEmail(event.emailAddresses);
      var name := DisplayName(event.firstName, event.lastName);
      Some(Patch(if Truthy(email) then email else None,
                 if name != "" then Some(name) else None,
                 if event.imageUrl.Some? then Some(if event.imageUrl.value != "" then event.imageUrl else None) else None))
  }

  predicate EmptyPatch(patch: Patch)
  {
    patch.email.None? && patch.name.None? && patch.imageUrl.None?
  }

  /** The user after `$set`. */
  function Patched(user: User, patch: Patch): User
  {
    user.(email := if patch.email.Some? then patch.email else user.email,
          name := if patch.name.Some? then patch.name.value else user.name,
          imageUrl := if patch.imageUrl.Some? then patch.imageUrl.value else user.imageUrl)
  }

  /** A patch sets the email exactly when the event's first email is
      non-empty, and to that email; the name exactly when the derived name is
      non-empty, and to that name; the image exactly when the event has an
      image field, to null when it is empty. It never sets an empty email or
      name or an empty image; it touches only email, name and image; an empty
      patch changes nothing; and applying it twice is applying it once. */
  lemma PatchSpec(event: UserEvent, user: User)
    requires PatchOf(event).Some?
    ensures var patch := PatchOf(event).value;
      && (patch.email.Some? <==> Truthy(FirstEmail(event.emailAddresses)))
      && (patch.email.Some? ==> patch.email == FirstEmail(event.emailAddresses))
      && (patch.name.Some? <==> DisplayName(event.firstName, event.lastName) != "")
      && (patch.name.Some? ==> patch.name.value == DisplayName(event.firstName, event.lastName))
      && (patch.imageUrl.Some? <==> event.imageUrl.Some?)
      && (Truthy(event.imageUrl) ==> patch.imageUrl == Some(event.imageUrl))
      && (event.imageUrl == Some("") ==> patch.imageUrl == Some(None))
    ensures var patch := PatchOf(event).value;
      && (patch.email.Some? ==> patch.email.value != "")
      && (patch.name.Some? ==> patch.name.value != "")
      && (patch.imageUrl.Some? && patch.imageUrl.value.Some? ==> patch.imageUrl.value.value != "")
      && Patched(user, patch).(email := user.email, name := user.name, imageUrl := user.imageUrl) == user
      && (EmptyPatch(patch) ==> Patched(user, patch) == user)
      && Patched(Patched(user, patch), patch) == Patched(user, patch)
  {
  }

  /** Each of email, name and image takes the patch's value when the patch
      sets it and keeps the user's value otherwise; no other field changes. */
  lemma PatchedSpec(user: User, patch: Patch)
    ensures patch.email.Some? ==> Patched(user, patch).email == patch.email
    ensures patch.email.None? ==> Patched(user, patch).email == user.email
    ensures patch.name.Some? ==> Patched(user, patch).name == patch.name.value
    ensures patch.name.None? ==> Patched(user, patch).name == user.name
    ensures patch.imageUrl.Some? ==> Patched(user, patch).imageUrl == patch.imageUrl.value
    ensures patch.imageUrl.None? ==> Patched(user, patch).imageUrl == user.imageUrl
    ensures Patched(user, patch).id == user.id && Patched(user, patch).clerkId == user.clerkId
    ensures Patched(user, patch).addresses == user.addresses && Patched(user, patch).wishlist == user.wishlist
  {
  }

  /** `findOneAndUpdate({ clerkId }, { $set })` without upsert: the user with
      that id is patched, and nothing happens when there is none. */
  function ApplyPatch(users: seq<User>, clerkId: ClerkId, patch: Patch): seq<User>
  {
    match FindUser(users, clerkId)
    case None => users
    case Some(k) => users[k := Patched(users[k], patch)]
  }

  /** An update keeps one user per provider id, never inserts, turns the
      first user with the provider id into its patched self, changes no other
      user, and with an empty patch changes nothing. */
  lemma ApplyPatchSpec(users: seq<User>, nextId: nat, clerkId: ClerkId, patch: Patch)
    requires UsersValid(users, nextId)
    ensures UsersValid(ApplyPatch(users, clerkId, patch), nextId)
    ensures |ApplyPatch(users, clerkId, patch)| == |users|
    ensures FindUser(users, clerkId).None? ==> ApplyPatch(users, clerkId, patch) == users
    ensures FindUser(users, clerkId).Some? ==>
      ApplyPatch(users, clerkId, patch)[FindUser(users, clerkId).value] == Patched(users[FindUser(users, clerkId).value], patch)
    ensures forall k :: 0 <= k < |users| && users[k].clerkId != clerkId ==> ApplyPatch(users, clerkId, patch)[k] == users[k]
    ensures EmptyPatch(patch) ==> ApplyPatch(users, clerkId, patch) == users
  {
    match FindUser(users, clerkId)
    case None =>
    case Some(k) =>
      if EmptyPatch(patch) {
        assert Patched(users[k], patch) == users[k];
      }
  }

  /** `findOneAndDelete({ clerkId })`: the first user with that id removed. */
  function RemoveUser(users: seq<User>, clerkId: ClerkId): seq<User>
  {
    match FindUser(users, clerkId)
    case None => users
    case Some(k) => users[..k] + users[k + 1..]
  }

  /** Deleting keeps the users valid, leaves no user with that id, keeps
      every other user in order, and an absent id changes nothing. */
  lemma RemoveUserSpec(users: seq<User>, nextId: nat, clerkId: ClerkId)
    requires UsersValid(users, nextId)
    ensures UsersValid(RemoveUser(users, clerkId), nextId)
    ensures FindUser(RemoveUser(users, clerkId), clerkId).None?
    ensures RemoveUser(users, clerkId) == Filter(users, (u: User) => u.clerkId != clerkId)
  {
    var keep := (u: User) => u.clerkId != clerkId;
    match FindUser(users, clerkId)
    case None =>
      FilterAll(users, keep);
    case Some(k) =>
      CutKeepsValid(users, nextId, k);
      FilterSkipOne(users, k, keep);
      var r := users[..k] + users[k + 1..];
      forall i | 0 <= i < |r| ensures r[i].clerkId != clerkId {
        if i < k {
          assert r[i] == users[i];
        } else {
          assert r[i] == users[i + 1];
        }
      }
  }

  /** Cutting one user out of valid users leaves them valid. */
  lemma CutKeepsValid(users: seq<User>, nextId: nat, k: nat)
    requires UsersValid(users, nextId) && k < |users|
    ensures UsersValid(users[..k] + users[k + 1..], nextId)
  {
    var r := users[..k] + users[k + 1..];
    assert forall i :: 0 <= i < |r| ==> r[i] == users[if i < k then i else i + 1];
  }

  /** `syncUser`: the event's user is inserted unless one with its provider
      id exists. */
  method SyncUser(st: Store, event: UserEvent)
    requires st.Valid()
    modifies st`users, st`nextUserId
    ensures st.Valid()
    ensures st.users == InsertIfAbsent(old(st.users), NewUser(old(st.nextUserId), event))
  {
    var user := NewUser(st.nextUserId, event);
    InsertIfAbsentSpec(st.users, st.nextUserId, user);
    st.users := InsertIfAbsent(st.users, user);
    st.nextUserId := st.nextUserId + 1;
  }

  /** `updateUserInDB`: throws, with nothing changed, when the event has no
      address list; returns early on an empty patch; otherwise patches the
      user with that provider id, if any. */
  method UpdateUserInDb(st: Store, event: UserEvent) returns (threw: bool)
    requires st.Valid()
    modifies st`users
    ensures st.Valid()
    ensures threw <==> event.emailAddresses.None?
    ensures threw ==> st.users == old(st.users)
    ensures !threw ==> st.users == ApplyPatch(old(st.users), event.clerkId, PatchOf(event).value)
  {
    var patch := PatchOf(event);
    if patch.None? {
      return true;
    }
    ApplyPatchSpec(st.users, st.nextUserId, event.clerkId, patch.value);
    threw := false;
    if EmptyPatch(patch.value) {
      return;
    }
    st.users := ApplyPatch(st.users, event.clerkId, patch.value);
  }

  /** `deleteUserFromDB`: the user with that provider id, if any, is removed. */
  method DeleteUserFromDb(st: Store, clerkId: ClerkId)
    requires st.Valid()
    modifies st`users
    ensures st.Valid()
    ensures st.users == RemoveUser(old(st.users), clerkId)
  {
    RemoveUserSpec(st.users, st.nextUserId, clerkId);
    st.users := RemoveUser(st.users, clerkId);
  }
}
