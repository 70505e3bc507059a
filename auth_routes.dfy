/** The `/register`, `/login`, `/logout` and `/me` routes: field-presence
    checks, username uniqueness and the session projection
    `{ id, name, username }`. */
module AuthRoutes {
  import opened Common
  import opened Text
  import opened Models
  import opened UserService

  const FieldsRequiredMsg := "Name, username and password are required"
  const UserExistsMsg := "User already exists"
  const CredentialsRequiredMsg := "Username and password are required"
  const InvalidCredentialsMsg := "Invalid credentials"
  const LogoutMsg := "Logout successful"
  const NotAuthenticatedMsg := "Not authenticated"

  /** The session store's `req.session`, of which the routes use `user`. */
  class Session {
    var user: Option<UserView>

    constructor ()
      ensures user == None
    {
      user := None;
    }
  }

  datatype RegisterForm = RegisterForm(name: Option<string>, username: Option<string>, password: Option<string>)
  datatype LoginForm = LoginForm(username: Option<string>, password: Option<string>)

  /** The account a successful registration stores. */
  function Registered(p: Platform, form: RegisterForm, newId: Id): (r: Settled<Account>)
    ensures form.password.None? ==> r.Rejected?
    ensures r.Resolved? ==>
      && form.password.Some? && r.value.password == p.hash(form.password.value)
      && r.value.id == newId && Some(r.value.username) == form.username
      && form.name.Some? && r.value.name == Trim(form.name.value)
  {
    NewAccount(newId, form.name, form.username, if form.password.Some? then Some(p.hash(form.password.value)) else None)
  }

  /** What `POST /register` answers: 400 for a missing field, 409 for a taken
      username, 500 when `save()` rejects (a name that `trim` empties), and
      otherwise 201 with the stored account's projection. */
  function RegisterOutcome(p: Platform, users: seq<Account>, form: RegisterForm, newId: Id)
    : (r: Response<UserView>)
    ensures r == Err(BadRequest, FieldsRequiredMsg) <==>
      !Truthy(form.name) || !Truthy(form.username) || !Truthy(form.password)
    ensures r.Err? && r.failure == Conflict <==>
      && Truthy(form.name) && Truthy(form.username) && Truthy(form.password)
      && exists i :: 0 <= i < |users| && users[i].username == form.username.value
    ensures r.Err? && r.failure == ServerError <==>
      && Truthy(form.name) && Truthy(form.username) && Truthy(form.password)
      && FindByUsername(users, form.username.value).None?
      && (AllSpace(form.name.value) || p.hash(form.password.value) == "")
    ensures r.Ok? <==>
      && Truthy(form.name) && Truthy(form.username) && Truthy(form.password)
      && FindByUsername(users, form.username.value).None?
      && !AllSpace(form.name.value) && p.hash(form.password.value) != ""
    ensures r.Err? ==> r.failure in {BadRequest, Conflict, ServerError}
    ensures r.Ok? ==>
      && Truthy(form.password)
      && r == Ok(201, UserView(newId, Trim(form.name.value), form.username.value))
      && Registered(p, form, newId) == Resolved(Account(newId, r.body.name, r.body.username, p.hash(form.password.value)))
  {
    if !Truthy(form.name) || !Truthy(form.username) || !Truthy(form.password) then
      Err(BadRequest, FieldsRequiredMsg)
    else if FindByUsername(users, form.username.value).Some? then
      Err(Conflict, UserExistsMsg)
    else match Registered(p, form, newId)
      case Rejected(_) => Err(ServerError, InternalError)
      case Resolved(a) => Ok(201, View(a))
  }

  /** `POST /register`: on success exactly one account is appended and the
      session user becomes its projection; otherwise neither changes. */
  method Register(p: Platform, db: Db, session: Session, form: RegisterForm, newId: Id)
    returns (r: Response<UserView>)
    requires db.Valid() && FindAccount(db.users, newId).None?
    modifies db, session
    ensures db.Valid() && db.notes == old(db.notes)
    ensures r == RegisterOutcome(p, old(db.users), form, newId)
    ensures r.Ok? ==>
      && db.users == old(db.users) + [Registered(p, form, newId).value]
      && session.user == Some(View(Registered(p, form, newId).value))
    ensures r.Err? ==> db.users == old(db.users) && session.user == old(session.user)
  {
    r := RegisterOutcome(p, db.users, form, newId);
    if r.Ok? {
      var a := Registered(p, form, newId).value;
      AppendAccountValid(db.users, a);
      db.users := db.users + [a];
      session.user := Some(View(a));
    }
  }

  /** What `POST /login` answers: 400 for a missing field; 401 with one and
      the same message for an unknown username and for a wrong password;
      otherwise 200 with the account's projection. */
  function LoginOutcome(p: Platform, users: seq<Account>, form: LoginForm): (r: Response<UserView>)
    ensures r == Err(BadRequest, CredentialsRequiredMsg) <==> !Truthy(form.username) || !Truthy(form.password)
    ensures r.Err? && r.failure == Unauthorized ==> r.message == InvalidCredentialsMsg
    ensures Truthy(form.username) && Truthy(form.password) ==>
      (r.Ok? <==> VerifyCredentials(p, users, form.username.value, form.password.value).Some?)
    ensures r.Ok? ==>
      r.status == 200 && r.body == View(VerifyCredentials(p, users, form.username.value, form.password.value).value)
    ensures Truthy(form.username) && Truthy(form.password) ==>
      (VerifyCredentials(p, users, form.username.value, form.password.value).None? ==>
         r == Err(Unauthorized, InvalidCredentialsMsg))
    ensures r.Err? ==> r.failure in {BadRequest, Unauthorized}
  {
    if !Truthy(form.username) || !Truthy(form.password) then Err(BadRequest, CredentialsRequiredMsg)
    else match VerifyCredentials(p, users, form.username.value, form.password.value)
      case None => Err(Unauthorized, InvalidCredentialsMsg)
      case Some(a) => Ok(200, View(a))
  }

  /** An unknown username and a wrong password get the same answer. */
  lemma {:induction false} LoginFailuresIndistinguishable(p: Platform, users: seq<Account>, unknown: string, known: string, wrong: string, other: string)
    requires unknown != "" && known != "" && wrong != "" && other != ""
    requires FindByUsername(users, unknown).None?
    requires FindByUsername(users, known).Some? && !p.compare(wrong, FindByUsername(users, known).value.password)
    ensures LoginOutcome(p, users, LoginForm(Some(unknown), Some(other))) ==
            LoginOutcome(p, users, LoginForm(Some(known), Some(wrong)))
    ensures LoginOutcome(p, users, LoginForm(Some(unknown), Some(other))) == Err(Unauthorized, InvalidCredentialsMsg)
  {
  }

  /** `POST /login`: the session user becomes the projection on success and
      is left as it was otherwise; the account collection is only read. */
  method Login(p: Platform, db: Db, session: Session, form: LoginForm) returns (r: Response<UserView>)
    modifies session
    ensures r == LoginOutcome(p, db.users, form)
    ensures session.user == if r.Ok? then Some(r.body) else old(session.user)
  {
    r := LoginOutcome(p, db.users, form);
    if r.Ok? {
      session.user := Some(r.body);
    }
  }

  /** A registration followed by a login with the same username and password
      succeeds and yields the same session user. */
  lemma RegisterThenLogin(p: Platform, users: seq<Account>, form: RegisterForm, newId: Id)
    requires HashSound(p)
    requires RegisterOutcome(p, users, form, newId).Ok?
    ensures var a := Registered(p, form, newId).value;
      LoginOutcome(p, users + [a], LoginForm(form.username, form.password)) ==
      Ok(200, RegisterOutcome(p, users, form, newId).body)
  {
    var a := Registered(p, form, newId).value;
    FindAppendedByUsername(users, a);
  }

  /** `POST /logout`: the session, and with it the session user, is gone. */
  method Logout(session: Session) returns (r: Response<string>)
    modifies session
    ensures session.user == None && r == Ok(200, LogoutMsg)
  {
    session.user := None;
    r := Ok(200, LogoutMsg);
  }

  /** `GET /me`: 401 without a session user, otherwise that user verbatim. */
  function Me(user: Option<UserView>): (r: Response<UserView>)
    ensures r.Err? <==> user.None?
    ensures r.Err? ==> r == Err(Unauthorized, NotAuthenticatedMsg)
    ensures r.Ok? ==> r == Ok(200, user.value)
  {
    if user.None? then Err(Unauthorized, NotAuthenticatedMsg) else Ok(200, user.value)
  }
}
