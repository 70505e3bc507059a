/** The guard middlewares: `requireAuth`, `validateObjectId` and
    `checkOwnership`. */
module AuthMiddleware {
  import opened Common
  import opened Models

  const UnauthorizedMsg := "Unauthorized"
  const InvalidIdMsg := "Invalid ID format"
  const ResourceNotFoundMsg := "Resource not found"
  const NotOwnerMsg := "Not authorized to perform this action"
  const OwnershipErrorMsg := "Server error during ownership verification"

  /** `requireAuth`: 401 exactly when the session has no user; otherwise
      `next()`. */
  function RequireAuth(user: Option<UserView>): (v: Verdict)
    ensures v.Halt? <==> user.None?
    ensures v.Halt? ==> v == Halt(Unauthorized, UnauthorizedMsg)
  {
    if user.None? then Halt(Unauthorized, UnauthorizedMsg) else Next
  }

  /** `validateObjectId`: 400 exactly when the path id is not a well-formed
      ObjectId; otherwise `next()`. */
  function ValidateObjectId(p: Platform, id: Id): (v: Verdict)
    ensures v.Halt? <==> !p.isValidId(id)
    ensures v.Halt? ==> v == Halt(BadRequest, InvalidIdMsg)
  {
    if !p.isValidId(id) then Halt(BadRequest, InvalidIdMsg) else Next
  }

  /** How the `isOwner` expression of `checkOwnership` evaluates: which of
      its two signals made it true, false, or the TypeError it throws
      (`doc.uploader.toString()` on a missing uploader is evaluated first;
      then `req.session.user.id` on a missing session user). */
  datatype OwnerMatch = ByReference | ByLegacyName | NoMatch | Threw

  function MatchOwner(doc: Note, user: Option<UserView>): (m: OwnerMatch)
    ensures m == Threw <==> doc.uploader.None? || user.None?
    ensures m == ByReference <==> doc.uploader.Some? && user.Some? && doc.uploader.value == user.value.id
    ensures m == ByLegacyName <==>
      && doc.uploader.Some? && user.Some? && doc.uploader.value != user.value.id
      && Truthy(doc.uploaderName) && doc.uploaderName.value == user.value.username
  {
    if doc.uploader.None? then Threw
    else if user.None? then Threw
    else if doc.uploader.value == user.value.id then ByReference
    else if Truthy(doc.uploaderName) && doc.uploaderName.value == user.value.username then ByLegacyName
    else NoMatch
  }

  /** The answer of `checkOwnership` for the document `findById` returned. */
  function OwnershipVerdict(doc: Option<Note>, user: Option<UserView>): (v: Verdict)
    ensures doc.None? ==> v == Halt(NotFound, ResourceNotFoundMsg)
    ensures doc.Some? ==> (v.Next? <==> MatchOwner(doc.value, user) in {ByReference, ByLegacyName})
    ensures doc.Some? && MatchOwner(doc.value, user) == NoMatch ==> v == Halt(Forbidden, NotOwnerMsg)
    ensures doc.Some? && MatchOwner(doc.value, user) == Threw ==> v == Halt(ServerError, OwnershipErrorMsg)
  {
    if doc.None? then Halt(NotFound, ResourceNotFoundMsg)
    else
      match MatchOwner(doc.value, user)
      case Threw => Halt(ServerError, OwnershipErrorMsg)
      case NoMatch => Halt(Forbidden, NotOwnerMsg)
      case _ => Next
  }

  /** The uploader reference alone grants ownership. */
  lemma OwnerByReference(doc: Note, u: UserView)
    requires doc.uploader == Some(u.id)
    ensures OwnershipVerdict(Some(doc), Some(u)) == Next
  {
  }

  /** The legacy name alone also grants ownership, whatever account the
      reference points to. */
  lemma OwnerByLegacyName(doc: Note, u: UserView)
    requires doc.uploader.Some? && u.username != ""
    requires doc.uploaderName == Some(u.username)
    ensures OwnershipVerdict(Some(doc), Some(u)) == Next
  {
  }

  /** A legacy note without an uploader reference is never owned: the guard
      fails with 500 before the name is compared, even when the name matches. */
  lemma MissingUploaderIsServerError(doc: Note, user: Option<UserView>)
    requires doc.uploader.None?
    ensures OwnershipVerdict(Some(doc), user) == Halt(ServerError, OwnershipErrorMsg)
  {
  }

  /** The request state the guards read and write: the path id, the session
      user, and `req.resource`, which `checkOwnership` sets. */
  class Request {
    const id: Id
    const user: Option<UserView>
    var resource: Option<Note>

    constructor (id: Id, user: Option<UserView>)
      ensures this.id == id && this.user == user && resource == None
    {
      this.id := id;
      this.user := user;
      resource := None;
    }
  }

  /** `checkOwnership(Note)`: reads the note, answers 404/403/500 or sets
      `req.resource` to exactly the fetched document and calls `next()`. */
  method CheckOwnership(db: Db, req: Request) returns (v: Verdict)
    modifies req
    ensures v == OwnershipVerdict(FindNote(db.notes, req.id), req.user)
    ensures v.Next? ==> req.resource == FindNote(db.notes, req.id) && req.resource.Some?
    ensures v.Halt? ==> req.resource == old(req.resource)
  {
    var doc := FindNote(db.notes, req.id);
    if doc.None? {
      return Halt(NotFound, ResourceNotFoundMsg);
    }
    var m := MatchOwner(doc.value, req.user);
    if m == Threw {
      return Halt(ServerError, OwnershipErrorMsg);
    }
    if m == NoMatch {
      return Halt(Forbidden, NotOwnerMsg);
    }
    req.resource := doc;
    v := Next;
  }
}
