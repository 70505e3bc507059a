/** `NoteService`: filtered listings sorted newest first, the query choice of
    `getNotesByUploader`, and guarded lookup, creation and deletion. */
module NoteService {
  import opened Common
  import opened Models

  // ------------------------------------------------------- sort by uploadedAt

  /** `.sort({ uploadedAt: -1 })`: newest first. */
  predicate SortedDesc(s: seq<Note>) {
    forall i, j :: 0 <= i < j < |s| ==> s[i].uploadedAt >= s[j].uploadedAt
  }

  function InsertDesc(n: Note, s: seq<Note>): (r: seq<Note>)
    requires SortedDesc(s)
    ensures SortedDesc(r)
    ensures multiset(r) == multiset(s) + multiset{n}
    ensures |r| == |s| + 1
    ensures r[0] == n || (s != [] && r[0] == s[0])
  {
    if s == [] || n.uploadedAt >= s[0].uploadedAt then [n] + s
    else
      var rest := InsertDesc(n, s[1..]);
      assert multiset(s) == multiset{s[0]} + multiset(s[1..]) by {
        assert s == [s[0]] + s[1..];
      }
      [s[0]] + rest
  }

  /** An insertion sort, newest first. */
  function SortDesc(s: seq<Note>): (r: seq<Note>)
    ensures SortedDesc(r)
    ensures multiset(r) == multiset(s)
  {
    if s == [] then []
    else
      assert s == [s[0]] + s[1..];
      InsertDesc(s[0], SortDesc(s[1..]))
  }

  // ----------------------------------------------------------------- filters

  /** The Mongo filters the code passes to `find`. */
  datatype Query =
    | AllNotes                        // `{}`
    | UploaderIs(id: Id)              // `{ uploader: id }`
    | UploaderNamed(name: string)     // `{ $or: [{ uploaderName: name }, { 'uploader.username': name }] }`

  /** `'uploader.username'`: the username of the account the reference points to. */
  function UploaderUsername(users: seq<Account>, n: Note): (r: Option<string>)
    ensures r.None? <==> n.uploader.None? || forall i :: 0 <= i < |users| ==> users[i].id != n.uploader.value
    ensures r.Some? ==> exists i :: 0 <= i < |users| && Some(users[i].id) == n.uploader && users[i].username == r.value
  {
    if n.uploader.None? then None
    else match FindAccount(users, n.uploader.value)
      case None => None
      case Some(a) => Some(a.username)
  }

  /** Whether filter `q` selects note `n`. */
  predicate Matches(q: Query, users: seq<Account>, n: Note) {
    match q
    case AllNotes => true
    case UploaderIs(id) => n.uploader == Some(id)
    case UploaderNamed(name) => n.uploaderName == Some(name) || UploaderUsername(users, n) == Some(name)
  }

  /** With distinct account ids, the name filter selects exactly the notes
      carrying that display name or referring to an account with that
      username. */
  lemma NameFilterMeaning(users: seq<Account>, n: Note, name: string)
    requires DistinctAccountIds(users)
    ensures Matches(UploaderNamed(name), users, n) <==>
      || n.uploaderName == Some(name)
      || exists i :: 0 <= i < |users| && Some(users[i].id) == n.uploader && users[i].username == name
  {
    if i :| 0 <= i < |users| && Some(users[i].id) == n.uploader && users[i].username == name {
      var a := FindAccount(users, users[i].id);
      var j :| 0 <= j < |users| && users[j] == a.value;
      assert users[j].id == users[i].id;
      assert j == i;
    }
  }

  /** The documents `find(filter)` selects; the empty filter selects all. */
  function Select(notes: seq<Note>, q: Query, users: seq<Account>): (r: seq<Note>)
    ensures forall n :: n in r <==> n in notes && Matches(q, users, n)
    ensures multiset(r) <= multiset(notes)
    ensures q.AllNotes? ==> r == notes
  {
    if notes == [] then []
    else
      assert notes == [notes[0]] + notes[1..];
      var rest := Select(notes[1..], q, users);
      if Matches(q, users, notes[0]) then [notes[0]] + rest else rest
  }

  /** `getAllNotes(filters)`: the matching notes, newest first. */
  function GetAllNotes(notes: seq<Note>, users: seq<Account>, q: Query): (r: seq<Note>)
    ensures SortedDesc(r)
    ensures forall n :: n in r <==> n in notes && Matches(q, users, n)
    ensures multiset(r) <= multiset(notes)
    ensures q.AllNotes? ==> multiset(r) == multiset(notes)
  {
    var selected := Select(notes, q, users);
    var r := SortDesc(selected);
    assert forall n :: n in r <==> n in selected by {
      forall n ensures n in r <==> n in selected {
        assert n in r <==> n in multiset(r);
      }
    }
    r
  }

  /** Selecting from a collection with distinct ids yields distinct ids. */
  lemma {:induction false} SelectDistinct(notes: seq<Note>, q: Query, users: seq<Account>)
    requires DistinctNoteIds(notes)
    ensures DistinctNoteIds(Select(notes, q, users))
    decreases |notes|
  {
    if notes != [] {
      SelectDistinct(notes[1..], q, users);
      var rest := Select(notes[1..], q, users);
      if Matches(q, users, notes[0]) {
        var r := [notes[0]] + rest;
        forall i, j | 0 <= i < j < |r| ensures r[i].id != r[j].id {
          if i == 0 {
            assert r[j] in rest;
            assert r[j] in notes[1..];
          } else {
            assert r[i] == rest[i - 1] && r[j] == rest[j - 1];
          }
        }
      }
    }
  }

  /** Distinct ids survive insertion of a note whose id is new. */
  lemma {:induction false} InsertDistinct(n: Note, s: seq<Note>)
    requires SortedDesc(s) && DistinctNoteIds(s)
    requires forall x :: x in s ==> x.id != n.id
    ensures DistinctNoteIds(InsertDesc(n, s))
    decreases |s|
  {
    var r := InsertDesc(n, s);
    if s == [] || n.uploadedAt >= s[0].uploadedAt {
      forall i, j | 0 <= i < j < |r| ensures r[i].id != r[j].id {
        if i > 0 {
          assert r[i] == s[i - 1] && r[j] == s[j - 1];
        } else {
          assert r[j] == s[j - 1];
        }
      }
    } else {
      assert DistinctNoteIds(s[1..]) by {
        forall i, j | 0 <= i < j < |s[1..]| ensures s[1..][i].id != s[1..][j].id {
          assert s[1..][i] == s[i + 1] && s[1..][j] == s[j + 1];
        }
      }
      InsertDistinct(n, s[1..]);
      var rest := InsertDesc(n, s[1..]);
      assert r == [s[0]] + rest;
      forall i, j | 0 <= i < j < |r| ensures r[i].id != r[j].id {
        if i == 0 {
          assert r[j] in multiset(rest);
          assert r[j] == n || r[j] in s[1..];
        } else {
          assert r[i] == rest[i - 1] && r[j] == rest[j - 1];
        }
      }
    }
  }

  lemma {:induction false} SortDistinct(s: seq<Note>)
    requires DistinctNoteIds(s)
    ensures DistinctNoteIds(SortDesc(s))
    decreases |s|
  {
    if s != [] {
      assert DistinctNoteIds(s[1..]) by {
        forall i, j | 0 <= i < j < |s[1..]| ensures s[1..][i].id != s[1..][j].id {
          assert s[1..][i] == s[i + 1] && s[1..][j] == s[j + 1];
        }
      }
      SortDistinct(s[1..]);
      var sorted := SortDesc(s[1..]);
      forall x | x in sorted ensures x.id != s[0].id {
        assert x in multiset(sorted);
        var k :| 0 < k < |s| && s[k] == x;
      }
      InsertDistinct(s[0], sorted);
    }
  }

  /** A listing never shows the same document twice. */
  lemma ListingDistinct(notes: seq<Note>, users: seq<Account>, q: Query)
    requires DistinctNoteIds(notes)
    ensures DistinctNoteIds(GetAllNotes(notes, users, q))
  {
    SelectDistinct(notes, q, users);
    SortDistinct(Select(notes, q, users));
  }

  // ------------------------------------------------------------ the service

  /** The filter `getNotesByUploader(identifier)` chooses. */
  function QueryFor(p: Platform, identifier: string): (q: Query)
    ensures p.isValidId(identifier) ==> q == UploaderIs(identifier)
    ensures !p.isValidId(identifier) ==> q == UploaderNamed(identifier)
  {
    if p.isValidId(identifier) then UploaderIs(identifier) else UploaderNamed(identifier)
  }

  /** `getNotesByUploader(identifier)`: for a well-formed id the notes whose
      reference is that id; otherwise the notes whose display name or
      referenced username is the identifier; newest first either way. */
  function GetNotesByUploader(p: Platform, notes: seq<Note>, users: seq<Account>, identifier: string)
    : (r: seq<Note>)
    ensures SortedDesc(r) && multiset(r) <= multiset(notes)
    ensures p.isValidId(identifier) ==>
      forall n :: n in r <==> n in notes && n.uploader == Some(identifier)
    ensures !p.isValidId(identifier) ==>
      forall n :: n in r <==>
        n in notes && (n.uploaderName == Some(identifier) || UploaderUsername(users, n) == Some(identifier))
  {
    GetAllNotes(notes, users, QueryFor(p, identifier))
  }

  /** `getNotesByUploader(identifier)` as the database evaluates the query on
      stored notes. `uploader` holds an id string, not an embedded document, so
      the path `'uploader.username'` reaches no account and only `uploaderName`
      can select: the join finds nothing, as over an empty account collection. */
  function GetNotesByUploaderAsWritten(p: Platform, notes: seq<Note>, identifier: string): (r: seq<Note>)
    ensures SortedDesc(r) && multiset(r) <= multiset(notes)
    ensures p.isValidId(identifier) ==>
      forall n :: n in r <==> n in notes && n.uploader == Some(identifier)
    ensures !p.isValidId(identifier) ==>
      forall n :: n in r <==> n in notes && n.uploaderName == Some(identifier)
  {
    GetNotesByUploader(p, notes, [], identifier)
  }

  /** `getNoteById`: `null` for a malformed id whatever the collection holds. */
  function GetNoteById(p: Platform, notes: seq<Note>, id: Id): (r: Option<Note>)
    ensures !p.isValidId(id) ==> r.None?
    ensures p.isValidId(id) ==>
      (r.None? <==> forall i :: 0 <= i < |notes| ==> notes[i].id != id) &&
      (r.Some? ==> r.value in notes && r.value.id == id)
  {
    if !p.isValidId(id) then None else FindNote(notes, id)
  }

  /** `createNote(noteData)`: appends exactly the given note. */
  method CreateNote(db: Db, note: Note) returns (saved: Note)
    requires db.Valid() && FindNote(db.notes, note.id).None?
    modifies db
    ensures db.Valid() && db.users == old(db.users)
    ensures saved == note && db.notes == old(db.notes) + [note]
    ensures forall id :: FindNote(db.notes, id) == if id == note.id then Some(note) else FindNote(old(db.notes), id)
  {
    AppendNoteDistinct(db.notes, note);
    forall id ensures FindNote(db.notes + [note], id) == if id == note.id then Some(note) else FindNote(db.notes, id) {
      FindAfterAppend(db.notes, note, id);
    }
    db.notes := db.notes + [note];
    saved := note;
  }

  /** `deleteNote(id)`: `null` and no change for a malformed id; otherwise
      the deleted document (or `null`) and the collection without it, every
      other id finding what it found before. */
  method DeleteNote(p: Platform, db: Db, id: Id) returns (deleted: Option<Note>)
    requires db.Valid()
    modifies db
    ensures db.Valid() && db.users == old(db.users)
    ensures !p.isValidId(id) ==> deleted.None? && db.notes == old(db.notes)
    ensures p.isValidId(id) ==> deleted == FindNote(old(db.notes), id) && db.notes == Without(old(db.notes), id)
    ensures forall other :: other != id ==> FindNote(db.notes, other) == FindNote(old(db.notes), other)
    ensures p.isValidId(id) ==> FindNote(db.notes, id).None?
  {
    if !p.isValidId(id) {
      return None;
    }
    deleted := FindNote(db.notes, id);
    forall other ensures FindNote(Without(db.notes, id), other) == if other == id then None else FindNote(db.notes, other) {
      FindAfterDelete(db.notes, id, other);
    }
    WithoutDistinct(db.notes, id);
    db.notes := Without(db.notes, id);
  }
}
