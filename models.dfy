/** The two MongoDB collections the handlers read and write: user accounts
    (the `userLoginSchema`) and notes (the fields the note routes set).
    A collection is the sequence of its documents in natural order; every
    document has a distinct `id`, and lookups return the first match, as
    `findOne` and `findById` do. */
module Models {
  import opened Common
  import opened Text

  /** A stored account; `password` holds the bcrypt hash. */
  datatype Account = Account(id: Id, name: string, username: string, password: string)

  /** An account without its password: what `.select('-password')` returns
      and what the session keeps as `req.session.user`. */
  datatype UserView = UserView(id: Id, name: string, username: string)

  function View(a: Account): (v: UserView)
    ensures v.id == a.id && v.name == a.name && v.username == a.username
  {
    UserView(a.id, a.name, a.username)
  }

  /** A stored note. `uploader` is absent on legacy documents;
      `uploaderName` is the denormalised display name. */
  datatype Note = Note(
    id: Id,
    title: string,
    fileUrl: string,
    fileType: string,
    uploader: Option<Id>,
    uploaderName: Option<string>,
    uploadedAt: int)

  // ---------------------------------------------------------------- accounts

  /** `User.findById(id)`: the first account in collection order with that id.
    * `FindByUsername` and `FindNote` are the same first-match scan, keyed by the
    * username and by the note id; each is written out so its contract names its own key. */
  function FindAccount(users: seq<Account>, id: Id): (r: Option<Account>)
    ensures r.None? <==> forall i :: 0 <= i < |users| ==> users[i].id != id
    ensures r.Some? ==> r.value in users && r.value.id == id
  {
    if users == [] then None
    else if users[0].id == id then Some(users[0])
    else FindAccount(users[1..], id)
  }

  /** `User.findOne({ username })`: the first account with that username (see `FindAccount`). */
  function FindByUsername(users: seq<Account>, username: string): (r: Option<Account>)
    ensures r.None? <==> forall i :: 0 <= i < |users| ==> users[i].username != username
    ensures r.Some? ==> r.value in users && r.value.username == username
  {
    if users == [] then None
    else if users[0].username == username then Some(users[0])
    else FindByUsername(users[1..], username)
  }

  predicate DistinctAccountIds(users: seq<Account>) {
    forall i, j :: 0 <= i < j < |users| ==> users[i].id != users[j].id
  }

  /** The unique index on `username`. */
  predicate DistinctUsernames(users: seq<Account>) {
    forall i, j :: 0 <= i < j < |users| ==> users[i].username != users[j].username
  }

  predicate AccountsValid(users: seq<Account>) {
    DistinctAccountIds(users) && DistinctUsernames(users)
  }

  /** The schema's `required` fields are non-empty and `name` is trimmed. */
  predicate WellFormed(a: Account) {
    a.name != "" && Trim(a.name) == a.name && a.username != "" && a.password != ""
  }

  /** What `new User({ name, username, password })` followed by `save()`
      leaves in the collection, or the validation error it rejects with:
      `trim` is applied to `name`, then `name`, `username` and `password`
      are `required` (present and non-empty). The unique index on
      `username` is checked by the callers that save. */
  function NewAccount(id: Id, name: Option<string>, username: Option<string>, hashed: Option<string>)
    : (r: Settled<Account>)
    ensures r.Resolved? <==>
      name.Some? && !AllSpace(name.value) && Truthy(username) && Truthy(hashed)
    ensures r.Resolved? ==>
      r.value == Account(id, Trim(name.value), username.value, hashed.value) && WellFormed(r.value)
  {
    if name.None? || username.None? || hashed.None? then Rejected("ValidationError")
    else
      var trimmed := Trim(name.value);
      if trimmed == "" || username.value == "" || hashed.value == "" then Rejected("ValidationError")
      else
        TrimKeeps(trimmed);
        Resolved(Account(id, trimmed, username.value, hashed.value))
  }

  /** Appending an account whose id and username are new keeps both unique. */
  lemma {:induction false} AppendAccountValid(users: seq<Account>, a: Account)
    requires AccountsValid(users)
    requires FindAccount(users, a.id).None? && FindByUsername(users, a.username).None?
    ensures AccountsValid(users + [a])
  {
    var s := users + [a];
    forall i, j | 0 <= i < j < |s| ensures s[i].id != s[j].id && s[i].username != s[j].username {
      if j == |users| {
        assert s[i] == users[i];
      }
    }
  }

  /** Once appended, an account with a new username is what a lookup by that
      username finds. */
  lemma {:induction false} FindAppendedByUsername(users: seq<Account>, a: Account)
    requires FindByUsername(users, a.username).None?
    ensures FindByUsername(users + [a], a.username) == Some(a)
    decreases |users|
  {
    if users == [] {
      assert users + [a] == [a];
    } else {
      assert (users + [a])[1..] == users[1..] + [a];
      FindAppendedByUsername(users[1..], a);
    }
  }

  /** `findByIdAndUpdate` on the stored document: the account with `a.id`
      is replaced by `a`, every other document stays where it was. */
  function ReplaceAccount(users: seq<Account>, a: Account): (r: seq<Account>)
    ensures |r| == |users|
    ensures forall i :: 0 <= i < |users| ==> r[i] == if users[i].id == a.id then a else users[i]
  {
    if users == [] then []
    else [if users[0].id == a.id then a else users[0]] + ReplaceAccount(users[1..], a)
  }

  /** After a replacement, the id finds the new account and every other id
      finds what it found before. */
  lemma {:induction false} FindAfterReplace(users: seq<Account>, a: Account, id: Id)
    requires FindAccount(users, a.id).Some?
    ensures FindAccount(ReplaceAccount(users, a), id) ==
      if id == a.id then Some(a) else FindAccount(users, id)
    decreases |users|
  {
    if users[0].id != a.id {
      assert ReplaceAccount(users, a)[1..] == ReplaceAccount(users[1..], a);
      FindAfterReplace(users[1..], a, id);
    } else {
      assert ReplaceAccount(users, a)[0] == a;
      if id != a.id {
        assert ReplaceAccount(users, a)[1..] == ReplaceAccount(users[1..], a);
        FindReplacedOther(users[1..], a, id);
      }
    }
  }

  lemma {:induction false} FindReplacedOther(users: seq<Account>, a: Account, id: Id)
    requires id != a.id
    ensures FindAccount(ReplaceAccount(users, a), id) == FindAccount(users, id)
    decreases |users|
  {
    if users != [] {
      assert ReplaceAccount(users, a)[1..] == ReplaceAccount(users[1..], a);
      FindReplacedOther(users[1..], a, id);
    }
  }

  // ------------------------------------------------------------------- notes

  /** `Note.findById(id)`: the first note with that id (see `FindAccount`). */
  function FindNote(notes: seq<Note>, id: Id): (r: Option<Note>)
    ensures r.None? <==> forall i :: 0 <= i < |notes| ==> notes[i].id != id
    ensures r.Some? ==> r.value in notes && r.value.id == id
  {
    if notes == [] then None
    else if notes[0].id == id then Some(notes[0])
    else FindNote(notes[1..], id)
  }

  predicate DistinctNoteIds(notes: seq<Note>) {
    forall i, j :: 0 <= i < j < |notes| ==> notes[i].id != notes[j].id
  }

  /** The collection after `findByIdAndDelete(id)`. */
  function Without(notes: seq<Note>, id: Id): (r: seq<Note>)
    ensures forall n :: n in r <==> n in notes && n.id != id
    ensures |r| <= |notes|
  {
    if notes == [] then []
    else if notes[0].id == id then Without(notes[1..], id)
    else [notes[0]] + Without(notes[1..], id)
  }

  /** Deleting an id keeps the other ids distinct. */
  lemma {:induction false} WithoutDistinct(notes: seq<Note>, id: Id)
    requires DistinctNoteIds(notes)
    ensures DistinctNoteIds(Without(notes, id))
    decreases |notes|
  {
    if notes != [] {
      WithoutDistinct(notes[1..], id);
      var rest := Without(notes[1..], id);
      if notes[0].id != id {
        var r := [notes[0]] + rest;
        forall i, j | 0 <= i < j < |r| ensures r[i].id != r[j].id {
          if i == 0 {
            assert r[j] in rest;
            assert r[j] in notes[1..];
          } else {
            assert r[i] == rest[i - 1] && r[j] == rest[j - 1];
          }
        }
      }
    }
  }

  /** After `findByIdAndDelete(id)` the id is gone and every other id finds
      the same note as before. */
  lemma {:induction false} FindAfterDelete(notes: seq<Note>, id: Id, other: Id)
    ensures FindNote(Without(notes, id), other) ==
      if other == id then None else FindNote(notes, other)
    decreases |notes|
  {
    if notes != [] {
      FindAfterDelete(notes[1..], id, other);
    }
  }

  /** After `save()` of a note with a new id, that id finds it and every
      other id finds what it found before. */
  lemma {:induction false} FindAfterAppend(notes: seq<Note>, n: Note, other: Id)
    requires FindNote(notes, n.id).None?
    ensures FindNote(notes + [n], other) ==
      if other == n.id then Some(n) else FindNote(notes, other)
    decreases |notes|
  {
    if notes == [] {
      assert notes + [n] == [n];
    } else {
      assert (notes + [n])[1..] == notes[1..] + [n];
      FindAfterAppend(notes[1..], n, other);
    }
  }

  lemma {:induction false} AppendNoteDistinct(notes: seq<Note>, n: Note)
    requires DistinctNoteIds(notes) && FindNote(notes, n.id).None?
    ensures DistinctNoteIds(notes + [n])
  {
    var s := notes + [n];
    forall i, j | 0 <= i < j < |s| ensures s[i].id != s[j].id {
      if j == |notes| {
        assert s[i] == notes[i];
      }
    }
  }

  // ---------------------------------------------------------------- database

  /** The database: both collections, updated in place by `save`,
      `findByIdAndUpdate` and `findByIdAndDelete`. */
  class Db {
    var users: seq<Account>
    var notes: seq<Note>

    ghost predicate Valid()
      reads this
    {
      AccountsValid(users) && DistinctNoteIds(notes)
    }

    constructor ()
      ensures Valid() && users == [] && notes == []
    {
      users := [];
      notes := [];
    }
  }
}
