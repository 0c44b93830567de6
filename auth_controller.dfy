/** backend/controllers/AuthController.php: login, the caller's own profile, and
    password change. */
module AuthController {
  import opened Common
  import Query
  import opened Schema
  import opened Jwt
  import opened AuthMiddleware

  /** `SELECT ... WHERE u.school_id = :school_id` and `fetch()`: the first account
      with that school id. */
  function AccountOf(users: seq<User>, schoolId: string): (r: Option<User>)
    ensures r.Some? ==> r.value in users && r.value.schoolId == schoolId
    ensures r.None? <==> forall u :: u in users ==> u.schoolId != schoolId
  {
    Query.Find(users, (u: User) => u.schoolId == schoolId)
  }

  /** The account a login with these credentials opens, if any: it must exist and
      its stored hash must verify the password. */
  function CheckCredentials(users: seq<User>, hasher: PasswordHasher, schoolId: string, password: string)
    : (r: Option<User>)
    ensures r.Some? <==> AccountOf(users, schoolId).Some? &&
                         hasher.verify(password, AccountOf(users, schoolId).value.passwordHash)
    ensures r.Some? ==> r == AccountOf(users, schoolId)
  {
    match AccountOf(users, schoolId)
    case None => None
    case Some(u) => if hasher.verify(password, u.passwordHash) then Some(u) else None
  }

  /** With school ids unique, the lookup finds the one account holding the id. */
  lemma AccountOfUnique(users: seq<User>, u: User)
    requires Query.Pairwise(users, DistinctSchoolIds)
    requires u in users
    ensures AccountOf(users, u.schoolId) == Some(u)
  {
    var i :| 0 <= i < |users| && users[i] == u;
    forall j | 0 <= j < |users| && j != i ensures users[j].schoolId != u.schoolId {
      if j < i {
        assert DistinctSchoolIds(users[j], users[i]);
      } else {
        assert DistinctSchoolIds(users[i], users[j]);
      }
    }
  }

  /** An account whose stored hash was made from a password (as `createUser` and
      `resetPassword` store it) logs in with that password, given unique school ids
      and the hashing library's law. */
  lemma StoredPasswordLogsIn(users: seq<User>, hasher: PasswordHasher, u: User, password: string, salt: int)
    requires HashLaw(hasher)
    requires Query.Pairwise(users, DistinctSchoolIds)
    requires u in users && u.passwordHash == hasher.hash(password, salt)
    ensures CheckCredentials(users, hasher, u.schoolId, password) == Some(u)
  {
    AccountOfUnique(users, u);
  }

  /** The claims a login token carries for an account. */
  function ClaimsOf(u: User): (c: Claims)
    ensures c.userId == u.id && c.schoolId == u.schoolId && c.role == u.role
    ensures c.departmentId == u.departmentId && c.fullName == u.fullName
  {
    Claims(u.id, u.schoolId, u.role, u.departmentId, u.fullName)
  }

  /** What a successful login answers with. */
  datatype Session = Session(token: string, user: UserView)

  /** `login` at time `now`: school id and password are required; unknown school id
      and wrong password are the same 401 and log nothing. A good login logs a
      `Login` entry under the account's office (unless that INSERT fails, which is
      swallowed) before the token is made, so a token that cannot be made (no
      secret: 500) still leaves the entry behind. */
  method Login(db: Database, codec: Codec, secret: Option<string>, hasher: PasswordHasher,
               schoolId: Option<string>, password: Option<string>, now: int, logFails: bool)
    returns (r: Reply<Session>)
    requires db.Valid()
    modifies db`logs, db`nextLogId
    ensures db.Valid()
    ensures Blank(schoolId) || Blank(password) ==> r == Error(BadRequest)
    ensures !Blank(schoolId) && !Blank(password) ==> r != Error(BadRequest)
    ensures !Blank(schoolId) && !Blank(password) ==>
              (r == Error(Unauthorized) <==> CheckCredentials(db.users, hasher, schoolId.value, password.value).None?)
    ensures r == Error(BadRequest) || r == Error(Unauthorized) || logFails ==>
              db.logs == old(db.logs) && db.nextLogId == old(db.nextLogId)
    ensures r != Error(BadRequest) && r != Error(Unauthorized) ==>
              && !Blank(schoolId) && !Blank(password)
              && CheckCredentials(db.users, hasher, schoolId.value, password.value).Some?
              && var u := CheckCredentials(db.users, hasher, schoolId.value, password.value).value;
                 && (!logFails ==>
                       db.logs == old(db.logs) + [LogEntry(old(db.nextLogId), u.id, OfficeOf(db.departments, Some(u)),
                                                           "Login", None, None, now)])
                 && (Encode(codec, secret, ClaimsOf(u), now).Failure? ==> r == Error(InternalError))
                 && (Encode(codec, secret, ClaimsOf(u), now).Success? ==>
                       r == Ok(Session(Encode(codec, secret, ClaimsOf(u), now).value, ViewOf(db.departments, u))))
  {
    if Blank(schoolId) || Blank(password) {
      r := Error(BadRequest);
      return;
    }
    match CheckCredentials(db.users, hasher, schoolId.value, password.value)
    case None =>
      r := Error(Unauthorized);
    case Some(u) =>
      if !logFails {
        db.InsertLog(u.id, OfficeOf(db.departments, Some(u)), "Login", None, None, now);
      }
      match Encode(codec, secret, ClaimsOf(u), now)
      case Failure(_) =>
        r := Error(InternalError);
      case Success(token) =>
        r := Ok(Session(token, ViewOf(db.departments, u)));
  }

  /** The token of a login, presented as `Bearer <token>` with the same secret
      before it expires, authenticates as the account that logged in, role and
      department included. */
  lemma LoginTokenAuthenticates(ctx: Context, u: User, issuedAt: int)
    requires ctx.secret.Some?
    requires var p := TokenPayload(ClaimsOf(u), issuedAt, issuedAt + DEFAULT_EXPIRES_IN);
             ctx.codec.jsonDecode(ctx.codec.jsonEncode(p)) == Some(p)
    requires ctx.now <= issuedAt + DEFAULT_EXPIRES_IN
    requires Encode(ctx.codec, ctx.secret, ClaimsOf(u), issuedAt).Success?
    requires ctx.authorization == Some("Bearer " + Encode(ctx.codec, ctx.secret, ClaimsOf(u), issuedAt).value)
    ensures Authenticate(ctx).Ok?
    ensures Authenticate(ctx).value.claims.userId == u.id
    ensures Authenticate(ctx).value.claims.role == u.role
    ensures Authenticate(ctx).value.claims.departmentId == u.departmentId
    ensures Authenticate(ctx).value.exp == issuedAt + DEFAULT_EXPIRES_IN
  {
    AuthenticateIssuedToken(ctx, ClaimsOf(u), issuedAt, DEFAULT_EXPIRES_IN);
  }

  /** `getProfile`: the caller's own account, without its password hash. */
  function GetProfile(ctx: Context, users: seq<User>, departments: seq<Department>): (r: Reply<UserView>)
    ensures Authenticate(ctx).Error? ==> r == Error(Unauthorized)
    ensures Authenticate(ctx).Ok? ==>
              (r == Error(NotFound) <==> forall u :: u in users ==> u.id != Authenticate(ctx).value.claims.userId)
    ensures Authenticate(ctx).Ok? ==>
              (r.Ok? <==> exists u :: u in users && u.id == Authenticate(ctx).value.claims.userId)
    ensures r.Ok? ==> exists u :: u in users && u.id == Authenticate(ctx).value.claims.userId &&
                                  r.value == ViewOf(departments, u)
  {
    match Authenticate(ctx)
    case Error(s) => Error(s)
    case Ok(p) =>
      match UserById(users, p.claims.userId)
      case None => Error(NotFound)
      case Some(u) => Ok(ViewOf(departments, u))
  }

  /** `changePassword`: both passwords are required; the current one must verify
      against the caller's stored hash (a missing account never verifies). The new
      password is stored hashed with `salt`; unlike `createUser`, its length is not
      checked. */
  method ChangePassword(db: Database, ctx: Context, hasher: PasswordHasher, oldPassword: Option<string>,
                        newPassword: Option<string>, salt: int) returns (s: Status)
    requires db.Valid()
    modifies db`users
    ensures db.Valid()
    ensures Authenticate(ctx).Error? ==> s == Unauthorized
    ensures Authenticate(ctx).Ok? && (Blank(oldPassword) || Blank(newPassword)) ==> s == BadRequest
    ensures Authenticate(ctx).Ok? && !Blank(oldPassword) && !Blank(newPassword) ==>
              var account := UserById(old(db.users), Authenticate(ctx).value.claims.userId);
              && (s == OK <==> account.Some? && hasher.verify(oldPassword.value, account.value.passwordHash))
              && (s != OK ==> s == Unauthorized)
    ensures s != OK ==> db.users == old(db.users)
    ensures s == OK ==>
              && |db.users| == |old(db.users)|
              && forall k :: 0 <= k < |db.users| ==>
                   db.users[k] == if old(db.users)[k].id == Authenticate(ctx).value.claims.userId
                                  then old(db.users)[k].(passwordHash := hasher.hash(newPassword.value, salt))
                                  else old(db.users)[k]
    ensures s == OK && HashLaw(hasher) ==>
              forall k :: 0 <= k < |db.users| && db.users[k].id == Authenticate(ctx).value.claims.userId ==>
                hasher.verify(newPassword.value, db.users[k].passwordHash)
  {
    match Authenticate(ctx)
    case Error(e) =>
      s := e;
    case Ok(p) =>
      if Blank(oldPassword) || Blank(newPassword) {
        s := BadRequest;
      } else {
        var account := UserById(db.users, p.claims.userId);
        if account.None? || !hasher.verify(oldPassword.value, account.value.passwordHash) {
          s := Unauthorized;
        } else {
          db.SetPasswordHash(p.claims.userId, hasher.hash(newPassword.value, salt));
          s := OK;
        }
      }
  }
}
