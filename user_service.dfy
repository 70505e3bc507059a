/** `UserService`: account lookups, credential checks, account creation and
    profile updates over the account collection. */
module UserService {
  import opened Common
  import opened Text
  import opened Models

  /** `findById`: no lookup for a malformed id; otherwise the account without
      its password. */
  function FindById(p: Platform, users: seq<Account>, id: Id): (r: Option<UserView>)
    ensures !p.isValidId(id) ==> r.None?
    ensures p.isValidId(id) ==>
      (r.Some? <==> FindAccount(users, id).Some?) &&
      (r.Some? ==> r.value == View(FindAccount(users, id).value))
  {
    if !p.isValidId(id) then None
    else match FindAccount(users, id)
      case None => None
      case Some(a) => Some(View(a))
  }

  /** `verifyCredentials`: the account stored under `username`, exactly when
      the password compares true against its stored hash. */
  function VerifyCredentials(p: Platform, users: seq<Account>, username: string, password: string)
    : (r: Option<Account>)
    ensures FindByUsername(users, username).None? ==> r.None?
    ensures r.Some? <==>
      exists i :: 0 <= i < |users| && users[i].username == username &&
                  FindByUsername(users, username) == Some(users[i]) &&
                  p.compare(password, users[i].password)
    ensures r.Some? ==> r.value in users && r.value.username == username
  {
    match FindByUsername(users, username)
    case None => None
    case Some(a) => if p.compare(password, a.password) then Some(a) else None
  }

  /** With distinct usernames, the stored account answers to its own username
      and password: verification is the two-way match of both. */
  lemma {:induction false} VerifyStoredAccount(p: Platform, users: seq<Account>, i: nat, password: string)
    requires DistinctUsernames(users) && i < |users|
    ensures VerifyCredentials(p, users, users[i].username, password) ==
      if p.compare(password, users[i].password) then Some(users[i]) else None
    decreases |users|
  {
    if i > 0 && users[0].username != users[i].username {
      assert users[1..][i - 1] == users[i];
      assert DistinctUsernames(users[1..]) by {
        forall j, k | 0 <= j < k < |users[1..]|
          ensures users[1..][j].username != users[1..][k].username
        {
          assert users[1..][j] == users[j + 1] && users[1..][k] == users[k + 1];
        }
      }
      VerifyStoredAccount(p, users[1..], i - 1, password);
    }
  }

  datatype UserData = UserData(name: Option<string>, username: Option<string>, password: Option<string>)

  /** The outcome of `createUser(userData)`: bcrypt rejects a missing
      password, `save()` rejects what the schema's validation rejects and a
      username the unique index already holds. */
  function CreateUserOutcome(p: Platform, users: seq<Account>, data: UserData, newId: Id)
    : (r: Settled<Account>)
    ensures data.password.None? ==> r.Rejected?
    ensures r.Resolved? ==>
      && data.password.Some?
      && r.value.password == p.hash(data.password.value)
      && r.value.id == newId && Some(r.value.username) == data.username
      && Some(r.value.name) == (if data.name.Some? then Some(Trim(data.name.value)) else None)
      && WellFormed(r.value)
      && FindByUsername(users, r.value.username).None?
    ensures data.password.Some? && NewAccount(newId, data.name, data.username, Some(p.hash(data.password.value))).Resolved? ==>
      (r.Resolved? <==> FindByUsername(users, data.username.value).None?)
  {
    if data.password.None? then Rejected("Illegal arguments")
    else
      match NewAccount(newId, data.name, data.username, Some(p.hash(data.password.value)))
      case Rejected(e) => Rejected(e)
      case Resolved(a) =>
        if FindByUsername(users, a.username).Some? then Rejected("E11000 duplicate key")
        else Resolved(a)
  }

  /** `createUser`: on success exactly one account, holding the hash of the
      supplied password, is appended; otherwise nothing is written. */
  method CreateUser(p: Platform, db: Db, data: UserData, newId: Id) returns (r: Settled<Account>)
    requires db.Valid() && FindAccount(db.users, newId).None?
    modifies db
    ensures db.Valid() && db.notes == old(db.notes)
    ensures r == CreateUserOutcome(p, old(db.users), data, newId)
    ensures db.users == if r.Resolved? then old(db.users) + [r.value] else old(db.users)
  {
    r := CreateUserOutcome(p, db.users, data, newId);
    if r.Resolved? {
      AppendAccountValid(db.users, r.value);
      db.users := db.users + [r.value];
    }
  }

  /** The fields `$set` may carry; `None` is a key absent from `updateData`. */
  datatype ProfileUpdate = ProfileUpdate(name: Option<string>, username: Option<string>, password: Option<string>)

  /** The password strip as written: `if (updateData.password) delete
      updateData.password` — only a truthy password is removed. */
  function StripPasswordAsWritten(data: ProfileUpdate): (r: ProfileUpdate)
    ensures Truthy(data.password) ==> r.password.None?
    ensures !Truthy(data.password) ==> r == data
    ensures r.name == data.name && r.username == data.username
  {
    if Truthy(data.password) then data.(password := None) else data
  }

  /** The strip the comment promises: the password key is removed whenever it
      is present. */
  function StripPassword(data: ProfileUpdate): (r: ProfileUpdate)
    ensures r.password.None?
    ensures r.name == data.name && r.username == data.username
  {
    data.(password := None)
  }

  /** `$set: updateData` on an account: each present field overwrites the
      stored one (the schema's `trim` applies to `name`); absent fields keep
      their stored value. */
  function ApplyUpdate(a: Account, data: ProfileUpdate): (r: Account)
    ensures r.id == a.id
    ensures r.name == if data.name.Some? then Trim(data.name.value) else a.name
    ensures r.username == if data.username.Some? then data.username.value else a.username
    ensures r.password == if data.password.Some? then data.password.value else a.password
  {
    Account(
      a.id,
      if data.name.Some? then Trim(data.name.value) else a.name,
      if data.username.Some? then data.username.value else a.username,
      if data.password.Some? then data.password.value else a.password)
  }

  /** After the corrected strip the stored password is never touched. */
  lemma StrippedUpdateKeepsPassword(a: Account, data: ProfileUpdate)
    ensures ApplyUpdate(a, StripPassword(data)).password == a.password
  {
  }

  /** As written, an update carrying `password: ""` survives the strip and
      overwrites the stored hash with the empty string. */
  lemma AsWrittenOverwritesPassword(a: Account)
    requires a.password != ""
    ensures ApplyUpdate(a, StripPasswordAsWritten(ProfileUpdate(None, None, Some("")))).password == ""
    ensures ApplyUpdate(a, StripPasswordAsWritten(ProfileUpdate(None, None, Some("")))).password != a.password
  {
  }

  /** Whether another account already holds `username` (the unique index). */
  predicate UsernameHeldByOther(users: seq<Account>, id: Id, username: string) {
    exists i :: 0 <= i < |users| && users[i].username == username && users[i].id != id
  }

  /** The outcome of `updateProfile(userId, updateData)`: `null` for a
      malformed or unknown id, a rejection when the new username is another
      account's, otherwise the updated account without its password. */
  function UpdateProfileOutcome(p: Platform, users: seq<Account>, userId: Id, data: ProfileUpdate)
    : (r: Settled<Option<UserView>>)
    ensures !p.isValidId(userId) ==> r == Resolved(None)
    ensures p.isValidId(userId) && FindAccount(users, userId).None? ==> r == Resolved(None)
    ensures p.isValidId(userId) && FindAccount(users, userId).Some? ==>
      && (r.Rejected? <==>
            UsernameHeldByOther(users, userId, ApplyUpdate(FindAccount(users, userId).value, StripPassword(data)).username))
      && (r.Resolved? ==> r.value.Some?)
    ensures r.Resolved? && r.value.Some? ==>
      && FindAccount(users, userId).Some?
      && r.value.value == View(ApplyUpdate(FindAccount(users, userId).value, StripPassword(data)))
  {
    if !p.isValidId(userId) then Resolved(None)
    else match FindAccount(users, userId)
      case None => Resolved(None)
      case Some(a) =>
        var updated := ApplyUpdate(a, StripPassword(data));
        if UsernameHeldByOther(users, userId, updated.username) then Rejected("E11000 duplicate key")
        else Resolved(Some(View(updated)))
  }

  /** Replacing an account by one with the same id and a username no other
      account holds keeps ids and usernames unique. */
  lemma ReplaceAccountValid(users: seq<Account>, a: Account)
    requires AccountsValid(users)
    requires !UsernameHeldByOther(users, a.id, a.username)
    ensures AccountsValid(ReplaceAccount(users, a))
  {
    var r := ReplaceAccount(users, a);
    forall i, j | 0 <= i < j < |r| ensures r[i].id != r[j].id && r[i].username != r[j].username {
      assert r[i].id == users[i].id && r[j].id == users[j].id;
    }
  }

  /** `updateProfile`: nothing changes for a malformed or unknown id or a
      taken username; otherwise only the stored account with that id is
      replaced, by the old one with the supplied fields set, and its password
      is kept. */
  method UpdateProfile(p: Platform, db: Db, userId: Id, data: ProfileUpdate)
    returns (r: Settled<Option<UserView>>)
    requires db.Valid()
    modifies db
    ensures db.Valid() && db.notes == old(db.notes)
    ensures r == UpdateProfileOutcome(p, old(db.users), userId, data)
    ensures r.Resolved? && r.value.Some? ==>
      var before := FindAccount(old(db.users), userId).value;
      var after := ApplyUpdate(before, StripPassword(data));
      db.users == ReplaceAccount(old(db.users), after) && after.password == before.password
    ensures !(r.Resolved? && r.value.Some?) ==> db.users == old(db.users)
  {
    r := UpdateProfileOutcome(p, db.users, userId, data);
    if r.Resolved? && r.value.Some? {
      var a := FindAccount(db.users, userId).value;
      var updated := ApplyUpdate(a, StripPassword(data));
      ReplaceAccountValid(db.users, updated);
      db.users := ReplaceAccount(db.users, updated);
    }
  }
}
