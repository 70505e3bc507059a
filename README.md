# Note-sharing app: request guards and store updates

This project models, in Dafny, the logic at the centre of a small Express/Mongoose note-sharing
server. It covers:

- the guard middlewares `requireAuth`, `validateObjectId` and `checkOwnership`;
- the account routes `/register`, `/login`, `/logout` and `/me`;
- the note routes: list all, list by user, upload, delete and download;
- the two service classes `NoteService` and `UserService`;
- three pure helpers of the browser script: `escapeHtml`, `getNotificationIcon` and
  `getNotificationColor`.

State is kept in two classes:

- `Models.Db` holds the two MongoDB collections, `users` and `notes`. Each is a sequence of
  documents in natural order. The ids are distinct and usernames are unique; that is
  `Db.Valid()`.
- `AuthRoutes.Session` holds the session slot `req.session.user`.

Each handler is a function that computes its outcome, plus a method that applies that outcome to
the state and states the whole new state.

- Outcomes: `Response` is either `Ok(status, body)` or `Err(failure, message)`. A middleware's
  `Verdict` is either `Next` or `Halt(failure, message)`. `Settled` is a promise's
  resolve/reject.
- Library behaviour is passed in as a `Platform` value: `Types.ObjectId.isValid`, bcrypt's `hash`
  and bcrypt's `compare`. The only property assumed of bcrypt is `HashSound`, meaning a password
  compares true against its own hash. It appears only as a lemma precondition.
- Fresh document ids, `Date.now()` and the object store's `secure_url` are parameters.

Modules follow the source layout:

| file | module | contents |
|---|---|---|
| common.dfy | `Common` | shared vocabulary |
| text.dfy | `Text` | `trim` and whitespace-run replacement |
| models.dfy | `Models` | documents, collections, `Db` |
| auth_middleware.dfy | `AuthMiddleware` | the guards |
| user_service.dfy | `UserService` | the user service |
| note_service.dfy | `NoteService` | the note service |
| auth_routes.dfy | `AuthRoutes` | the account routes |
| note_routes.dfy | `NoteRoutes` | the note routes |
| client_script.dfy | `ClientScript` | the browser helpers |

## Model

| member | source | states |
|---|---|---|
| Common.Or | routes/noteRoutes.js:83 | `a \|\| b` on an optional string: the first operand when it is present and non-empty, else the second |
| Common.Verdict.Then | routes/noteRoutes.js:101-105 | chaining middlewares: the chain calls `next()` exactly when both parts do; the first halt is the answer, and when the first part calls `next()` the answer is the second part's |
| Text.ReplaceSpaceRuns | routes/noteRoutes.js:71 | `replace(/\s+/g, '_')` leaves no whitespace and never lengthens the name |
| Text.ReplaceKeepsWord | routes/noteRoutes.js:71 | a name without whitespace passes through unchanged |
| Text.ReplaceOneRun | routes/noteRoutes.js:71 | a maximal whitespace run becomes exactly one `_`, and the characters before it are kept in order; together with ReplaceKeepsWord this fixes the output for every input |
| Text.Trim | models/userlogin.js:4 | the schema's `trim`: the result is the name with a leading and a trailing all-whitespace stretch cut off; it is empty exactly when the name is all whitespace, and otherwise starts and ends with a non-space |
| Text.TrimPadded | models/userlogin.js:4 | padding a word that starts and ends with a non-space by whitespace on both sides and trimming gives back exactly the word |
| Text.TrailingRun | models/userlogin.js:4 | the trailing whitespace counted on a text ending in a non-space followed by a whitespace run is exactly that run |
| Text.TrimKeeps | models/userlogin.js:4 | trimming leaves a name that does not start or end with whitespace unchanged |
| Models.FindAccount | services/userService.js:14 | `findById` on accounts: absent exactly when no account has the id, else a member with that id |
| Models.FindByUsername | services/userService.js:7-9 | `findOne({ username })`: absent exactly when no account has the username, else a member with it |
| Models.View | routes/authRoutes.js:30-34 | the session projection of an account carries its id, name and username (and no password) |
| Models.NewAccount | models/userlogin.js:3-7 | `save()` of a new account resolves exactly when the trimmed name, the username and the password are non-empty; the stored account is the trimmed one and is well formed |
| Models.AppendAccountValid | models/userlogin.js:5 | appending an account with a new id and a new username keeps ids and usernames unique |
| Models.FindAppendedByUsername | routes/authRoutes.js:27 | after saving an account with a new username, a lookup by that username finds exactly it |
| Models.ReplaceAccount | services/userService.js:45-49 | `findByIdAndUpdate`: the document with the id is replaced; every other position is unchanged; the length is kept |
| Models.FindAfterReplace | services/userService.js:45-49 | after the replacement the id finds the new account, and every other id finds what it found before |
| Models.FindReplacedOther | services/userService.js:45-49 | lookups of other ids are unaffected by the replacement |
| Models.FindNote | middleware/auth.js:23 | `Note.findById`: absent exactly when no note has the id, else a member with that id |
| Models.Without | routes/noteRoutes.js:107 | `findByIdAndDelete(id)`: the notes left are exactly the old notes whose id differs |
| Models.WithoutDistinct | routes/noteRoutes.js:107 | deleting keeps note ids distinct |
| Models.FindAfterDelete | routes/noteRoutes.js:107 | after the delete the id finds nothing, and every other id finds the same note as before |
| Models.FindAfterAppend | routes/noteRoutes.js:90 | after saving a note with a new id, that id finds it, and every other id finds what it found before |
| Models.AppendNoteDistinct | routes/noteRoutes.js:90 | saving a note with a new id keeps note ids distinct |
| Models.Db.constructor | models/userlogin.js:3-7 | both collections start empty and valid |
| AuthMiddleware.Request.constructor | middleware/auth.js:36 | a request starts with its id and session user and with no `req.resource` attached |
| AuthMiddleware.RequireAuth | middleware/auth.js:4-9 | 401 "Unauthorized" exactly when there is no session user; otherwise `next()` |
| AuthMiddleware.ValidateObjectId | middleware/auth.js:12-18 | 400 "Invalid ID format" exactly when the id is not a valid ObjectId; otherwise `next()` |
| AuthMiddleware.MatchOwner | middleware/auth.js:29-30 | `isOwner` has three non-throwing results. By reference when the uploader equals the session id. By legacy name when the ids differ but a non-empty `uploaderName` equals the session username. No match otherwise. It throws exactly when the uploader or the session user is missing |
| AuthMiddleware.OwnershipVerdict | middleware/auth.js:23-41 | 404 when there is no document; `next()` exactly when either signal holds; 403 on no match; 500 when the expression throws |
| AuthMiddleware.OwnerByReference | middleware/auth.js:29 | a matching uploader reference alone grants access |
| AuthMiddleware.OwnerByLegacyName | middleware/auth.js:29-30 | a matching non-empty legacy name grants access whatever the reference is |
| AuthMiddleware.MissingUploaderIsServerError | middleware/auth.js:29-41 | a note without an uploader reference always gives 500, even when its name matches |
| AuthMiddleware.CheckOwnership | middleware/auth.js:21-42 | answers with OwnershipVerdict on the stored note. On `next()`, `req.resource` is exactly the fetched document. On a halt, `req.resource` is untouched |
| UserService.FindById | services/userService.js:12-15 | nothing for a malformed id; otherwise the stored account without its password, or nothing when it is absent |
| UserService.VerifyCredentials | services/userService.js:28-34 | nothing for an unknown username; the account found by the lookup exactly when the password compares true against its hash |
| UserService.VerifyStoredAccount | services/userService.js:28-34 | with unique usernames, every stored account is returned for its own username exactly when the password matches its hash |
| UserService.CreateUserOutcome | services/userService.js:18-25 | rejects a missing password. Otherwise it resolves exactly when validation passes and the username is new. The stored password is the hash, and the name is trimmed |
| UserService.CreateUser | services/userService.js:18-25 | on success exactly the new account is appended; otherwise the collection is unchanged; uniqueness is kept |
| UserService.StripPasswordAsWritten | services/userService.js:41-43 | as written, only a truthy password is removed from the update; any other update is left as it is; name and username are always kept |
| UserService.StripPassword | services/userService.js:40-43 | the corrected strip: the password is always removed, and name and username are kept |
| UserService.ApplyUpdate | services/userService.js:45-49 | `$set` overwrites exactly the supplied fields (the name trimmed); the id and the absent fields keep their stored values |
| UserService.StrippedUpdateKeepsPassword | services/userService.js:40-49 | an update after the corrected strip never changes the stored password |
| UserService.AsWrittenOverwritesPassword | services/userService.js:41-49 | as written, `password: ""` passes the strip and overwrites the stored hash |
| UserService.UpdateProfileOutcome | services/userService.js:37-50 | null for a malformed or unknown id. Otherwise it rejects exactly when another account holds the username the update would store, and resolves with the updated account without its password |
| UserService.ReplaceAccountValid | services/userService.js:45-49 | replacing an account keeps ids and usernames unique, provided no other account holds the new username |
| UserService.UpdateProfile | services/userService.js:37-50 | changes only the account with that id, by the stripped update, and keeps its password; a null or rejected outcome leaves the collection unchanged |
| NoteService.SortDesc | services/noteService.js:7-8 | `.sort({ uploadedAt: -1 })`: ordered newest first, and a permutation of its input |
| NoteService.Select | services/noteService.js:7 | `find(filter)`: exactly the notes that match the filter, with no document added; the empty filter returns the whole collection |
| NoteService.UploaderUsername | services/noteService.js:18 | the corrected reading of `'uploader.username'` (see Findings): the username of the account the uploader reference points to; absent exactly when there is no reference or no account has that id |
| NoteService.Matches | services/noteService.js:13-20 | whether a filter selects a note, with the name filter joined through the accounts (the corrected reading, see Findings); its meaning is stated by NameFilterMeaning |
| NoteService.NameFilterMeaning | services/noteService.js:15-20 | the corrected `$or` filter selects a note exactly when its `uploaderName` is the name or the account its reference points to has that username |
| NoteService.GetAllNotes | services/noteService.js:6-9 | exactly the matching notes, newest first, as a sub-multiset of the collection; for the empty filter, a permutation of the whole collection |
| NoteService.ListingDistinct | services/noteService.js:6-9 | a listing never shows the same id twice |
| NoteService.QueryFor | services/noteService.js:13-20 | a valid ObjectId selects by uploader reference; anything else selects by name or username |
| NoteService.GetNotesByUploader | services/noteService.js:12-23 | for a valid id, exactly the notes with that uploader; otherwise (corrected, see Findings) exactly the notes whose `uploaderName` or referenced username is the identifier; newest first, and a sub-multiset of the collection |
| NoteService.GetNotesByUploaderAsWritten | services/noteService.js:12-23 | as the query evaluates on stored notes: for a valid id the notes with that uploader, otherwise exactly the notes whose `uploaderName` is the identifier; newest first, a sub-multiset |
| NoteService.GetNoteById | services/noteService.js:32-35 | null for a malformed id whatever is stored; otherwise the stored note with the id, or null |
| NoteService.CreateNote | services/noteService.js:26-29 | appends exactly the given note; the new id finds it and the other lookups are unchanged |
| NoteService.DeleteNote | services/noteService.js:38-41 | a malformed id gives null and no change. Otherwise it returns the deleted note, the id becomes absent, and every other id is unaffected |
| AuthRoutes.RegisterOutcome | routes/authRoutes.js:8-41 | 201 exactly when all three fields are truthy, the username is new, the name is not all whitespace and the hash is non-empty; 400 exactly for a missing field; 409 exactly for a taken username; 500 when `save()` rejects; no other status. On 201 the body is the projection of the stored account, which holds the hash |
| AuthRoutes.Register | routes/authRoutes.js:8-41 | on 201 exactly one account is appended and the session user is its projection; on an error neither changes; uniqueness is kept |
| AuthRoutes.LoginOutcome | routes/authRoutes.js:44-73 | 400 "Username and password are required" exactly for a missing field; for present fields, 401 "Invalid credentials" exactly when the credentials do not verify (unknown username or wrong password) and 200 with the projection exactly when they do; no other status |
| AuthRoutes.LoginFailuresIndistinguishable | routes/authRoutes.js:51-59 | an unknown username and a wrong password get the same 401 answer |
| AuthRoutes.Login | routes/authRoutes.js:44-73 | the session user becomes the projection on success and is unchanged otherwise |
| AuthRoutes.RegisterThenLogin | routes/authRoutes.js:20-66 | after a registration, logging in with the same username and password succeeds with the same session user |
| AuthRoutes.Logout | routes/authRoutes.js:76-81 | the session user is gone and the answer is "Logout successful" |
| AuthRoutes.Me | routes/authRoutes.js:84-89 | 401 exactly without a session user; otherwise that user verbatim |
| AuthRoutes.Registered | routes/authRoutes.js:20-27 | the `new User(...).save()` of the form: rejects without a password; a stored account has the fresh id, the form's username, the trimmed name and the hash of the password |
| AuthRoutes.Session.constructor | middleware/auth.js:5 | a new session has no user |
| NoteRoutes.ListAll | routes/noteRoutes.js:14-24 | 200 with every stored note, newest first: a permutation of the collection |
| NoteRoutes.ListByUser | routes/noteRoutes.js:27-50 | 400 exactly for an empty username; otherwise (corrected, see Findings) exactly the notes whose `uploaderName` or referenced username is that name, newest first, and a sub-multiset of the collection |
| NoteRoutes.ListByUserAsWritten | routes/noteRoutes.js:27-50 | as the `$or` evaluates on stored notes: 400 exactly for an empty username, otherwise exactly the notes whose `uploaderName` is that name, newest first, a sub-multiset |
| NoteRoutes.DottedPathMissesUploads | routes/noteRoutes.js:42-47 | a note uploaded by `alice` under display name `Alice` is missing from both as-written listings for `alice`, and present in both corrected ones |
| NoteRoutes.UploadsListedUnderUsername | routes/noteRoutes.js:42-47 | corrected: with distinct account ids, every note referring to an account is listed under that account's username, by the route and by the service |
| NoteRoutes.PublicId | routes/noteRoutes.js:71 | the stamp, a dash, then exactly `replace(/\s+/g, '_')` of the original name, which has no whitespace and is no longer than the original |
| NoteRoutes.BuildNote | routes/noteRoutes.js:82-88 | title is the body title if truthy, else the original name. Uploader is the session id. The display name is the session name if non-empty, else the username. URL and type come from the upload |
| NoteRoutes.UploadOutcome | routes/noteRoutes.js:53-98 | 401 without a session user, 400 without a file, 500 when the object store fails, and otherwise 201 with the built note |
| NoteRoutes.Upload | routes/noteRoutes.js:53-98 | the note is appended only on 201; the `public_id` is requested exactly when a user and a file are present |
| NoteRoutes.UploaderOwnsUpload | routes/noteRoutes.js:86 | the uploader of a note owns it by reference |
| NoteRoutes.UploadListedUnderName | routes/noteRoutes.js:87 | a newly uploaded note appears in the by-user listing under its display name |
| NoteRoutes.DeleteOutcome | routes/noteRoutes.js:101-113 | a fixed order: 401, then 400, then 404, then 403 or 500, and 200 only when every guard passes |
| NoteRoutes.Delete | routes/noteRoutes.js:101-113 | on 200 the note is removed, `req.resource` is it, and every other id is unaffected; on an error nothing changes |
| NoteRoutes.DeleteTwice | routes/noteRoutes.js:107 | deleting the same id again gives 404 |
| NoteRoutes.UploaderCanDelete | routes/noteRoutes.js:101-113 | a user may delete a note they have just uploaded |
| NoteRoutes.Download | routes/noteRoutes.js:116-137 | 400 for a malformed id, 404 for an absent note, otherwise a redirect to its `fileUrl` |
| NoteRoutes.UploadThenDownload | routes/noteRoutes.js:116-137 | downloading a newly saved note redirects to its stored URL |
| ClientScript.Entity | public/script.js:230 | the replacement of one special character is a markup-free `&…;` entity |
| ClientScript.Lookup | public/script.js:230 | the table lookup for a matched run: the entity for a single character, the text "undefined" for a longer run |
| ClientScript.EscapeHtml | public/script.js:230 | the output never contains `<`, `>` or `"` |
| ClientScript.EscapeRun | public/script.js:230 | the replacement at a match, where the whole maximal run is looked up; no markup in the output |
| ClientScript.EscapeAtRun | public/script.js:230 | a maximal special run at the start is replaced by its lookup, and the rest is escaped after it |
| ClientScript.EscapePlainPrefix | public/script.js:230 | a prefix without special characters is copied in order in front of the escaping of the rest |
| ClientScript.EscapeKeepsPlain | public/script.js:230 | text without `&<>"` is copied unchanged |
| ClientScript.EscapeOneRun | public/script.js:230 | the plain prefix is copied in order and the maximal special run after it is replaced by its lookup; together with EscapeKeepsPlain this fixes the output for every input |
| ClientScript.LoneSpecialEscaped | public/script.js:230 | a lone `&`, `<`, `>` or `"` becomes `&amp;`, `&lt;`, `&gt;` or `&quot;` |
| ClientScript.RunBecomesUndefined | public/script.js:230 | a run of two or more special characters becomes the text "undefined" |
| ClientScript.EscapeHtmlLosesRuns | public/script.js:230 | `"<<"` and `"&&"` both escape to "undefined" |
| ClientScript.EscapeEach | public/script.js:230 | the corrected escaping: no `<`, `>` or `"` in the output, and plain text is unchanged |
| ClientScript.EscapeEachRoundTrip | public/script.js:230 | decoding the corrected escaping gives back the input |
| ClientScript.NotificationIcon | public/script.js:598-605 | the icon table is total and gives the info icon exactly to types other than success, warning and error |
| ClientScript.NotificationColor | public/script.js:607-614 | the colour table is total and gives the blue gradient exactly to types other than success, warning and error |
| ClientScript.NotificationTablesAgree | public/script.js:598-614 | two types share an icon exactly when they share a colour |

## Left out

- Transport is left out:
  - HTTP itself, `asyncHandler` and `apiResponse` (folded into `Response`);
  - HTML/JSON content negotiation, `res.render` and the HTML redirect of the by-user listing;
  - cookies, and the session store beyond the `user` slot.
  - the `.populate({ path: 'uploader', select: 'name username' })` of the list-all route
    (routes/noteRoutes.js:15-16): the body there carries `uploader` as `{ _id, name, username }`, or
    null when the account is gone, while `NoteRoutes.ListAll` returns the stored reference.
- `Logout` models `req.session.destroy` as clearing the session user. Clearing the cookie and the
  destroy callback are not modelled.
- The object-store upload stream, `Date.now()` and multer's buffering are inputs. `secureUrl` is
  `None` when the stream reports an error, and `stamp` is the clock reading. The file buffer is not
  modelled.
- bcrypt and `Types.ObjectId.isValid` are opaque functions of a `Platform` value. The salt, the cost
  factor and the hashing algorithm are not modelled.
- Concurrency is not modelled. Two registrations racing past the `findOne` check are caught in the
  real system by the unique index; here requests run one at a time.
- models/userlogin.js and models/noteSchema.js export schemas, not compiled models. The model treats
  them as the two collections.
- The note schema declares only `title`, `file` and `fileType`. The upload route sets `title`,
  `fileUrl`, `fileType`, `uploader` and `uploaderName` (routes/noteRoutes.js:82-88); nothing sets
  `uploadedAt`. Strict-mode dropping of undeclared fields is not modelled, and saving a note always
  succeeds.
- NoteRoutes.BuildNote: `uploadedAt == now` is the model's own assumption. Notes saved by the code
  carry no `uploadedAt`, so `.sort({ uploadedAt: -1 })` does not order them, and the newest-first
  order that `SortDesc` and the listings promise is not what the code produces for such notes.
- Store reads and writes never reject in the model, except through the unique index on `username`
  and the account schema's validation. The `save()` of a new account rejects on validation or a
  duplicate key (`Models.NewAccount`, `UserService.CreateUserOutcome`), and `findByIdAndUpdate`
  rejects on a duplicate key (`UserService.UpdateProfileOutcome`). `findById`, `findOne`, `find`,
  the `save()` of a note and `findByIdAndDelete` always settle normally. A rejection of one of those
  would answer 500, through the catch at middleware/auth.js:38-41 in `checkOwnership` or through
  `asyncHandler` (utils/helpers.js:14-16) in the routes.
- NoteService.GetNotesByUploader, NoteRoutes.ListByUser and NoteService.UploaderUsername model the
  corrected by-user filter, which joins `'uploader.username'` through the account collection. The
  code as written stores `uploader` as an id string, so that path matches no stored note and only
  `uploaderName` selects; that behaviour is `GetNotesByUploaderAsWritten` and `ListByUserAsWritten`
  (see Findings).
- A note without an uploader reference is never owned: `doc.uploader.toString()`
  (middleware/auth.js:29) throws before `uploaderName` is compared, so `checkOwnership` answers 500
  (`AuthMiddleware.MissingUploaderIsServerError`).
- Request bodies carry strings or nothing. Non-string body values are not modelled, nor are query
  operators smuggled in as objects, nor `String(str)` on non-strings in `escapeHtml`.
- `Models.NewAccount` models a validation failure as a rejection with one reason, whatever field
  failed. `UserService.CreateUserOutcome` likewise uses fixed reasons instead of the exact error
  text.
- `UserService.ApplyUpdate` applies the schema's `trim` to an updated name. It does not run
  `required` validation, since `findByIdAndUpdate` does not run validators by default.
- A stored document with a malformed id, and the resulting cast error of `findById`, are not modelled:
  every route guards lookups with `validateObjectId` or `isValidObjectId`.
- `UserService.UpdateProfile` uses the corrected password strip (see Findings). It models removing
  the key from `updateData` in place as a new value. The caller's object is not shown being mutated.
- The rest of the browser script is DOM and network glue and is not modelled. server.js and
  utils/helpers.js are not part of this model.
- The collections are sequences, not maps. Collection order decides which document `findOne`
  returns. The order of notes with equal `uploadedAt` in a listing is not stated, and deleting a note
  is stated as a change of membership, not of order.

## Findings

| source | as written | input that shows it | evidently intended | confidence | as-written member | corrected member |
|---|---|---|---|---|---|---|
| public/script.js:230 | `/[&<>"]+/g` matches whole runs of special characters, and the table has entries only for single characters | `escapeHtml("<<")` and `escapeHtml("&&")` both give `"undefined"` | each special character replaced by its own entity, so decoding gives the text back | high, not executed | ClientScript.EscapeHtmlLosesRuns | ClientScript.EscapeEachRoundTrip |
| services/userService.js:41-43 | `if (updateData.password) delete updateData.password` removes only a truthy password | `updateProfile(id, { password: "" })` sets the stored hash to `""` | the password key removed whenever present, so the stored password never changes | high, not executed | UserService.AsWrittenOverwritesPassword | UserService.StrippedUpdateKeepsPassword |
| routes/noteRoutes.js:42-47 | the `$or` filter's `{ 'uploader.username': name }` clause (here and at services/noteService.js:18) reads a path into `uploader`, which the upload route stores as an id string (routes/noteRoutes.js:86), so it matches no stored note | `GET /user/alice` on a note with `uploader` the id of account `alice` and `uploaderName` `"Alice"` gives `[]` | a user's uploads listed under their username, through the account the reference points to | medium, not executed | NoteRoutes.DottedPathMissesUploads | NoteRoutes.UploadsListedUnderUsername |
