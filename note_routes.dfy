/** The note routes: listing, listing by user, upload, delete and download. */
module NoteRoutes {
  import opened Common
  import opened Text
  import opened Models
  import opened AuthMiddleware
  import opened NoteService

  const UsernameRequiredMsg := "Username is required"
  const NoFileMsg := "No file uploaded"
  const DeletedMsg := "Note deleted successfully"
  const FileNotFoundMsg := "File not found"

  // ---------------------------------------------------------------- listings

  /** `GET /` (JSON branch): every note, newest first. */
  function ListAll(notes: seq<Note>, users: seq<Account>): (r: Response<seq<Note>>)
    ensures r.Ok? && r.status == 200
    ensures SortedDesc(r.body)
    ensures multiset(r.body) == multiset(notes)
  {
    Ok(200, GetAllNotes(notes, users, AllNotes))
  }

  /** `GET /user/:username` (JSON branch): 400 for an empty name; otherwise
      exactly the notes whose display name or referenced username is the
      parameter, newest first. */
  function ListByUser(notes: seq<Note>, users: seq<Account>, username: string): (r: Response<seq<Note>>)
    ensures r.Err? <==> username == ""
    ensures r.Err? ==> r == Err(BadRequest, UsernameRequiredMsg)
    ensures r.Ok? ==> r.status == 200 && SortedDesc(r.body) && multiset(r.body) <= multiset(notes)
    ensures r.Ok? ==> forall n :: n in r.body <==>
      n in notes && (n.uploaderName == Some(username) || UploaderUsername(users, n) == Some(username))
  {
    if username == "" then Err(BadRequest, UsernameRequiredMsg)
    else Ok(200, GetAllNotes(notes, users, UploaderNamed(username)))
  }

  /** `GET /user/:username` as the database evaluates the `$or` on stored notes:
      the `'uploader.username'` path reaches no account (see
      `GetNotesByUploaderAsWritten`), so only the display name selects. */
  function ListByUserAsWritten(notes: seq<Note>, username: string): (r: Response<seq<Note>>)
    ensures r.Err? <==> username == ""
    ensures r.Err? ==> r == Err(BadRequest, UsernameRequiredMsg)
    ensures r.Ok? ==> r.status == 200 && SortedDesc(r.body) && multiset(r.body) <= multiset(notes)
    ensures r.Ok? ==> forall n :: n in r.body <==> n in notes && n.uploaderName == Some(username)
  {
    ListByUser(notes, [], username)
  }

  /** As written, a note whose display name differs from its uploader's
      username is missing from the listing under that username, both in the
      route and in the service; the join through the account finds it. */
  lemma DottedPathMissesUploads(p: Platform)
    requires !p.isValidId("alice")
    ensures var a := Account("i", "Alice", "alice", "h");
      var n := Note("n", "notes", "url", "application/pdf", Some("i"), Some("Alice"), 0);
      && ListByUserAsWritten([n], "alice") == Ok(200, [])
      && GetNotesByUploaderAsWritten(p, [n], "alice") == []
      && ListByUser([n], [a], "alice").Ok? && n in ListByUser([n], [a], "alice").body
      && n in GetNotesByUploader(p, [n], [a], "alice")
  {
  }

  /** Through the join, every note referring to an account is listed under
      that account's username, whatever its display name, by the route and,
      for a name that is not an id, by the service. */
  lemma UploadsListedUnderUsername(p: Platform, notes: seq<Note>, users: seq<Account>, n: Note, i: nat)
    requires DistinctAccountIds(users) && i < |users| && users[i].username != ""
    requires n in notes && n.uploader == Some(users[i].id)
    ensures var r := ListByUser(notes, users, users[i].username); r.Ok? && n in r.body
    ensures !p.isValidId(users[i].username) ==> n in GetNotesByUploader(p, notes, users, users[i].username)
  {
    NameFilterMeaning(users, n, users[i].username);
  }

  // ------------------------------------------------------------------ upload

  /** What multer puts in `req.file` (the buffer itself goes to the object store). */
  datatype UploadedFile = UploadedFile(originalname: string, mimetype: string)

  /** The `public_id` sent to the object store: the `Date.now()` stamp, a
      dash, and the original name with every whitespace run turned into `_`. */
  function PublicId(stamp: string, originalname: string): (id: string)
    ensures |id| > |stamp| && id[..|stamp| + 1] == stamp + "-"
    ensures id[|stamp| + 1..] == ReplaceSpaceRuns(originalname)
    ensures NoSpace(id[|stamp| + 1..])
    ensures |id| <= |stamp| + 1 + |originalname|
  {
    var name := ReplaceSpaceRuns(originalname);
    assert (stamp + "-" + name)[|stamp| + 1..] == name;
    stamp + "-" + name
  }

  /** The note the upload route saves: the body title if truthy, else the
      file's original name; the object store's URL; the session id as
      uploader; the session name if truthy, else the username, as display
      name; `uploadedAt` stamped at save time. */
  function BuildNote(user: UserView, file: UploadedFile, title: Option<string>, url: string, newId: Id, now: int)
    : (n: Note)
    ensures n.id == newId && n.fileUrl == url && n.fileType == file.mimetype && n.uploadedAt == now
    ensures n.title == Or(title, file.originalname)
    ensures n.uploader == Some(user.id)
    ensures n.uploaderName == Some(if user.name != "" then user.name else user.username)
  {
    Note(newId, Or(title, file.originalname), url, file.mimetype, Some(user.id),
         Some(Or(Some(user.name), user.username)), now)
  }

  /** What `POST /upload` answers, given the session user, multer's file,
      the body title and the object store's `secure_url` (`None` when the
      upload stream reports an error). */
  function UploadOutcome(user: Option<UserView>, file: Option<UploadedFile>, title: Option<string>,
                         secureUrl: Option<string>, newId: Id, now: int): (r: Response<Note>)
    ensures user.None? ==> r == Err(Unauthorized, UnauthorizedMsg)
    ensures user.Some? && file.None? ==> r == Err(BadRequest, NoFileMsg)
    ensures user.Some? && file.Some? && secureUrl.None? ==> r == Err(ServerError, InternalError)
    ensures r.Ok? <==> user.Some? && file.Some? && secureUrl.Some?
    ensures r.Ok? ==>
      r.status == 201 && r.body == BuildNote(user.value, file.value, title, secureUrl.value, newId, now)
  {
    match RequireAuth(user)
    case Halt(f, m) => Err(f, m)
    case Next =>
      if file.None? then Err(BadRequest, NoFileMsg)
      else if secureUrl.None? then Err(ServerError, InternalError)
      else Ok(201, BuildNote(user.value, file.value, title, secureUrl.value, newId, now))
  }

  /** `POST /upload`: the note is saved only on success; the `public_id` is
      requested whenever the route gets as far as the object store. */
  method Upload(db: Db, user: Option<UserView>, file: Option<UploadedFile>, title: Option<string>,
                stamp: string, secureUrl: Option<string>, newId: Id, now: int)
    returns (r: Response<Note>, publicId: Option<string>)
    requires db.Valid() && FindNote(db.notes, newId).None?
    modifies db
    ensures db.Valid() && db.users == old(db.users)
    ensures r == UploadOutcome(user, file, title, secureUrl, newId, now)
    ensures db.notes == if r.Ok? then old(db.notes) + [r.body] else old(db.notes)
    ensures publicId == if user.Some? && file.Some? then Some(PublicId(stamp, file.value.originalname)) else None
  {
    publicId := None;
    r := UploadOutcome(user, file, title, secureUrl, newId, now);
    if user.Some? && file.Some? {
      publicId := Some(PublicId(stamp, file.value.originalname));
    }
    if r.Ok? {
      AppendNoteDistinct(db.notes, r.body);
      db.notes := db.notes + [r.body];
    }
  }

  /** Whoever uploads a note owns it by reference. */
  lemma UploaderOwnsUpload(user: UserView, file: UploadedFile, title: Option<string>, url: string, newId: Id, now: int)
    ensures MatchOwner(BuildNote(user, file, title, url, newId, now), Some(user)) == ByReference
  {
  }

  /** An uploaded note shows up in the listing under its display name. */
  lemma UploadListedUnderName(notes: seq<Note>, users: seq<Account>, user: UserView, file: UploadedFile,
                              title: Option<string>, url: string, newId: Id, now: int)
    requires user.name != "" || user.username != ""
    ensures var n := BuildNote(user, file, title, url, newId, now);
      var r := ListByUser(notes + [n], users, n.uploaderName.value);
      r.Ok? && n in r.body
  {
    var n := BuildNote(user, file, title, url, newId, now);
    assert n in notes + [n];
  }

  // ------------------------------------------------------------------ delete

  /** The guard chain of `DELETE /:id`: `requireAuth`, then
      `validateObjectId`, then `checkOwnership(Note)`, then the delete. */
  function DeleteOutcome(p: Platform, notes: seq<Note>, user: Option<UserView>, id: Id): (r: Response<string>)
    ensures user.None? ==> r == Err(Unauthorized, UnauthorizedMsg)
    ensures user.Some? && !p.isValidId(id) ==> r == Err(BadRequest, InvalidIdMsg)
    ensures user.Some? && p.isValidId(id) && FindNote(notes, id).None? ==> r == Err(NotFound, ResourceNotFoundMsg)
    ensures user.Some? && p.isValidId(id) && FindNote(notes, id).Some? ==>
      match MatchOwner(FindNote(notes, id).value, user)
      case NoMatch => r == Err(Forbidden, NotOwnerMsg)
      case Threw => r == Err(ServerError, OwnershipErrorMsg)
      case _ => r == Ok(200, DeletedMsg)
  {
    match RequireAuth(user).Then(ValidateObjectId(p, id)).Then(OwnershipVerdict(FindNote(notes, id), user))
    case Halt(f, m) => Err(f, m)
    case Next => Ok(200, DeletedMsg)
  }

  /** `DELETE /:id`: the note is removed only after every guard passed, and
      then exactly that id is gone. */
  method Delete(p: Platform, db: Db, req: Request) returns (r: Response<string>)
    requires db.Valid()
    modifies db, req
    ensures db.Valid() && db.users == old(db.users)
    ensures r == DeleteOutcome(p, old(db.notes), req.user, req.id)
    ensures r.Ok? ==>
      && db.notes == Without(old(db.notes), req.id)
      && req.resource == FindNote(old(db.notes), req.id)
      && FindNote(db.notes, req.id).None?
      && forall other :: other != req.id ==> FindNote(db.notes, other) == FindNote(old(db.notes), other)
    ensures r.Err? ==> db.notes == old(db.notes) && req.resource == old(req.resource)
  {
    var v := RequireAuth(req.user);
    if v.Halt? {
      return Err(v.failure, v.message);
    }
    v := ValidateObjectId(p, req.id);
    if v.Halt? {
      return Err(v.failure, v.message);
    }
    v := CheckOwnership(db, req);
    if v.Halt? {
      return Err(v.failure, v.message);
    }
    forall other ensures FindNote(Without(db.notes, req.id), other) ==
      if other == req.id then None else FindNote(db.notes, other)
    {
      FindAfterDelete(db.notes, req.id, other);
    }
    WithoutDistinct(db.notes, req.id);
    db.notes := Without(db.notes, req.id);
    r := Ok(200, DeletedMsg);
  }

  /** A second delete of the same id is a plain 404. */
  lemma DeleteTwice(p: Platform, notes: seq<Note>, user: Option<UserView>, id: Id)
    requires DeleteOutcome(p, notes, user, id).Ok?
    ensures DeleteOutcome(p, Without(notes, id), user, id) == Err(NotFound, ResourceNotFoundMsg)
  {
    FindAfterDelete(notes, id, id);
  }

  /** The uploader can delete what they uploaded. */
  lemma UploaderCanDelete(p: Platform, notes: seq<Note>, user: UserView, file: UploadedFile,
                          title: Option<string>, url: string, newId: Id, now: int)
    requires p.isValidId(newId) && FindNote(notes, newId).None?
    ensures DeleteOutcome(p, notes + [BuildNote(user, file, title, url, newId, now)], Some(user), newId)
      == Ok(200, DeletedMsg)
  {
    FindAfterAppend(notes, BuildNote(user, file, title, url, newId, now), newId);
  }

  // ---------------------------------------------------------------- download

  /** `GET /download/:id`: 400 for a malformed id, 404 for an absent note,
      otherwise a redirect to the note's file URL. */
  function Download(p: Platform, notes: seq<Note>, id: Id): (r: Response<string>)
    ensures !p.isValidId(id) ==> r == Err(BadRequest, InvalidIdMsg)
    ensures p.isValidId(id) && FindNote(notes, id).None? ==> r == Err(NotFound, FileNotFoundMsg)
    ensures r.Ok? <==> p.isValidId(id) && FindNote(notes, id).Some?
    ensures r.Ok? ==> r == Ok(302, FindNote(notes, id).value.fileUrl)
  {
    match ValidateObjectId(p, id)
    case Halt(f, m) => Err(f, m)
    case Next =>
      match FindNote(notes, id)
      case None => Err(NotFound, FileNotFoundMsg)
      case Some(n) => Ok(302, n.fileUrl)
  }

  /** After an upload, downloading the new id redirects to the stored URL. */
  lemma UploadThenDownload(p: Platform, notes: seq<Note>, n: Note)
    requires p.isValidId(n.id) && FindNote(notes, n.id).None?
    ensures Download(p, notes + [n], n.id) == Ok(302, n.fileUrl)
  {
    FindAfterAppend(notes, n, n.id);
  }
}
