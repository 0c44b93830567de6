/** backend/controllers/UsersController.php: account administration, Admin only. */
module UsersController {
  import opened Common
  import Query
  import opened Schema
  import opened Jwt
  import opened AuthMiddleware

  /** The only password length the controller accepts. */
  const PASSWORD_LENGTH: nat := 4

  function ViewCreatedAt(v: UserView): int { v.createdAt }

  /** `ORDER BY u.created_at DESC`. */
  function NewestFirst(): (le: (UserView, UserView) -> bool)
    ensures Query.TotalPreorder(le)
    ensures forall a, b :: le(a, b) <==> a.createdAt >= b.createdAt
  {
    Query.ByColumn(ViewCreatedAt, Query.Descending())
  }

  function Views(departments: seq<Department>): (view: User -> UserView)
    ensures forall u :: view(u) == ViewOf(departments, u)
  {
    (u: User) => ViewOf(departments, u)
  }

  /** The listing `getUsers` returns: every account's view, newest first. */
  function Listing(users: seq<User>, departments: seq<Department>): seq<UserView> {
    Query.SortBy(Query.Map(users, Views(departments)), NewestFirst())
  }

  /** The listing holds one view per account, and nothing else. */
  lemma ListingFacts(users: seq<User>, departments: seq<Department>)
    ensures |Listing(users, departments)| == |users|
    ensures multiset(Listing(users, departments)) == multiset(Query.Map(users, Views(departments)))
    ensures Query.SortedBy(Listing(users, departments), NewestFirst())
    ensures forall u :: u in users ==> ViewOf(departments, u) in Listing(users, departments)
    ensures forall v :: v in Listing(users, departments) ==> exists u :: u in users && v == ViewOf(departments, u)
  {
    var views := Query.Map(users, Views(departments));
    var sorted := Listing(users, departments);
    assert |multiset(sorted)| == |multiset(views)|;
    forall u | u in users ensures ViewOf(departments, u) in sorted {
      var k :| 0 <= k < |users| && users[k] == u;
      assert views[k] in multiset(views);
    }
    forall v | v in sorted ensures exists u :: u in users && v == ViewOf(departments, u) {
      assert v in multiset(views);
      var k :| 0 <= k < |views| && views[k] == v;
      assert users[k] in users;
    }
  }

  /** `getUsers`: every account, newest first, shown without its password hash. */
  function GetUsers(ctx: Context, users: seq<User>, departments: seq<Department>): (r: Reply<seq<UserView>>)
    ensures r.Error? <==> RequireRole(ctx, [ADMIN]).Error?
    ensures r.Error? ==> r.status == RequireRole(ctx, [ADMIN]).status
    ensures r.Ok? ==> |r.value| == |users|
    ensures r.Ok? ==> multiset(r.value) == multiset(Query.Map(users, Views(departments)))
    ensures r.Ok? ==> forall i, j :: 0 <= i < j < |r.value| ==> r.value[i].createdAt >= r.value[j].createdAt
    ensures r.Ok? ==> forall u :: u in users ==> ViewOf(departments, u) in r.value
    ensures r.Ok? ==> forall v :: v in r.value ==> exists u :: u in users && v == ViewOf(departments, u)
  {
    match RequireRole(ctx, [ADMIN])
    case Error(s) => Error(s)
    case Ok(_) =>
      ListingFacts(users, departments);
      Ok(Listing(users, departments))
  }

  /** An account that would break the unique index on `school_id` or `email`. */
  predicate Clashes(users: seq<User>, schoolId: string, email: Option<string>) {
    exists u :: u in users && (u.schoolId == schoolId || (email.Some? && u.email == email))
  }

  /** The INSERT of `createUser` when it does not break a unique index. */
  method Enrol(db: Database, schoolId: string, passwordHash: string, fullName: Option<string>,
               email: Option<string>, role: Option<string>, departmentId: Option<int>, now: int)
    returns (id: int)
    requires db.Valid()
    requires !Clashes(db.users, schoolId, email)
    modifies db`users, db`nextUserId
    ensures db.Valid()
    ensures id == old(db.nextUserId)
    ensures db.users == old(db.users) + [User(id, schoolId, passwordHash, fullName, email, role, departmentId, now)]
    ensures db.nextUserId == old(db.nextUserId) + 1
  {
    id := db.nextUserId;
    var u := User(id, schoolId, passwordHash, fullName, email, role, departmentId, now);
    KeyedAppend(db.users, UserKey, db.nextUserId, u);
    Query.PairwiseAppend(db.users, u, DistinctSchoolIds);
    Query.PairwiseAppend(db.users, u, DistinctEmails);
    db.users := db.users + [u];
    db.nextUserId := db.nextUserId + 1;
  }

  /** The checks `createUser` makes before touching the table, in order:
      required fields, then the role, then the password length. */
  function CheckNewUser(schoolId: Option<string>, password: Option<string>, email: Option<string>,
                        role: Option<string>): (s: Status)
    ensures Blank(schoolId) || Blank(password) || Blank(email) || Blank(role) ==> s == BadRequest
    ensures !Blank(role) && role.value !in VALID_ROLES ==> s == BadRequest
    ensures !Blank(password) && |password.value| != PASSWORD_LENGTH ==> s == BadRequest
    ensures s == OK <==> !Blank(schoolId) && !Blank(password) && !Blank(email) && !Blank(role) &&
                         role.value in VALID_ROLES && |password.value| == PASSWORD_LENGTH
    ensures s != OK ==> s == BadRequest
  {
    if Blank(schoolId) || Blank(password) || Blank(email) || Blank(role) then BadRequest
    else if role.value !in VALID_ROLES then BadRequest
    else if |password.value| != PASSWORD_LENGTH then BadRequest
    else OK
  }

  /** `createUser`: after `CheckNewUser`, a school id or email already in use is a
      409; otherwise the account is stored with the password hashed (with `salt`)
      and the reply is 201 with the new id. */
  method CreateUser(db: Database, ctx: Context, hasher: PasswordHasher, schoolId: Option<string>,
                    password: Option<string>, fullName: Option<string>, email: Option<string>,
                    role: Option<string>, departmentId: Option<int>, salt: int, now: int)
    returns (r: Reply<int>)
    requires db.Valid()
    modifies db`users, db`nextUserId
    ensures db.Valid()
    ensures RequireRole(ctx, [ADMIN]).Error? ==> r == Error(RequireRole(ctx, [ADMIN]).status)
    ensures RequireRole(ctx, [ADMIN]).Ok? && CheckNewUser(schoolId, password, email, role) != OK
            ==> r == Error(BadRequest)
    ensures RequireRole(ctx, [ADMIN]).Ok? && CheckNewUser(schoolId, password, email, role) == OK
            ==> (r == Error(Conflict) <==> Clashes(old(db.users), schoolId.value, email))
    ensures RequireRole(ctx, [ADMIN]).Ok? && CheckNewUser(schoolId, password, email, role) == OK
            && !Clashes(old(db.users), schoolId.value, email)
            ==> r.Ok?
    ensures r.Ok? ==> RequireRole(ctx, [ADMIN]).Ok? && CheckNewUser(schoolId, password, email, role) == OK
    ensures r.Error? ==> db.users == old(db.users) && db.nextUserId == old(db.nextUserId)
    ensures r.Ok? ==>
              && r.value == old(db.nextUserId)
              && db.users == old(db.users) + [User(r.value, schoolId.value, hasher.hash(password.value, salt),
                                                   fullName, email, role, departmentId, now)]
              && db.nextUserId == old(db.nextUserId) + 1
    ensures r.Ok? && HashLaw(hasher) ==> hasher.verify(password.value, db.users[|db.users| - 1].passwordHash)
  {
    var auth := RequireRole(ctx, [ADMIN]);
    if auth.Error? {
      r := Error(auth.status);
    } else if CheckNewUser(schoolId, password, email, role) != OK {
      r := Error(BadRequest);
    } else if Clashes(db.users, schoolId.value, email) {
      r := Error(Conflict);
    } else {
      var id := Enrol(db, schoolId.value, hasher.hash(password.value, salt), fullName, email, role,
                      departmentId, now);
      r := Ok(id);
    }
  }

  /** The change `updateUser` makes to the account it targets. */
  function Amendment(fullName: Option<string>, email: Option<string>, role: Option<string>,
                 departmentId: Option<int>): (change: User -> User)
    ensures forall u :: change(u) == u.(fullName := fullName, email := email, role := role, departmentId := departmentId)
  {
    (u: User) => u.(fullName := fullName, email := email, role := role, departmentId := departmentId)
  }

  /** The UPDATE of `updateUser` breaks the unique index on `email` exactly when the
      account exists and another account already has that email. */
  predicate EmailTaken(users: seq<User>, id: int, email: Option<string>) {
    && UserById(users, id).Some?
    && email.Some?
    && exists u :: u in users && u.id != id && u.email == email
  }

  /** An update of one keyed row that gives it an email no other row has keeps
      emails distinct, and school ids are not touched. */
  lemma AmendKeepsDistinct(users: seq<User>, next: int, id: int, change: User -> User, email: Option<string>)
    requires Keyed(users, UserKey, next)
    requires Query.Pairwise(users, DistinctSchoolIds) && Query.Pairwise(users, DistinctEmails)
    requires forall u :: change(u).id == u.id && change(u).schoolId == u.schoolId && change(u).email == email
    requires !EmailTaken(users, id, email)
    ensures Query.Pairwise(Query.UpdateWhere(users, (u: User) => u.id == id, change), DistinctSchoolIds)
    ensures Query.Pairwise(Query.UpdateWhere(users, (u: User) => u.id == id, change), DistinctEmails)
  {
    var r := Query.UpdateWhere(users, (u: User) => u.id == id, change);
    forall i, j | 0 <= i < j < |r| ensures DistinctSchoolIds(r[i], r[j]) && DistinctEmails(r[i], r[j]) {
      assert DistinctSchoolIds(users[i], users[j]) && DistinctEmails(users[i], users[j]);
      assert users[i].id < users[j].id by { assert Before(UserKey)(users[i], users[j]); }
      if users[i].id == id {
        assert UserById(users, id).Some?;
        assert users[j] in users;
      } else if users[j].id == id {
        assert UserById(users, id).Some?;
        assert users[i] in users;
      }
    }
  }

  /** The UPDATE of `updateUser` when it does not break the unique index. */
  method Amend(db: Database, id: int, fullName: Option<string>, email: Option<string>,
               role: Option<string>, departmentId: Option<int>)
    requires db.Valid()
    requires !EmailTaken(db.users, id, email)
    modifies db`users
    ensures db.Valid()
    ensures |db.users| == |old(db.users)|
    ensures forall k :: 0 <= k < |db.users| ==>
              db.users[k] == if old(db.users)[k].id == id
                             then old(db.users)[k].(fullName := fullName, email := email, role := role,
                                                    departmentId := departmentId)
                             else old(db.users)[k]
  {
    var change := Amendment(fullName, email, role, departmentId);
    var hit := (u: User) => u.id == id;
    KeyedUpdate(db.users, UserKey, db.nextUserId, hit, change);
    AmendKeepsDistinct(db.users, db.nextUserId, id, change, email);
    db.users := Query.UpdateWhere(db.users, hit, change);
  }

  /** `updateUser($id)`: name, email, role and department are overwritten as sent
      (the role is not checked against the three known ones). An email held by
      another account makes the UPDATE fail, which the controller answers with 500
      rather than 409. The reply is 200 whether or not the account exists. */
  method UpdateUser(db: Database, ctx: Context, id: int, fullName: Option<string>, email: Option<string>,
                    role: Option<string>, departmentId: Option<int>) returns (s: Status)
    requires db.Valid()
    modifies db`users
    ensures db.Valid()
    ensures RequireRole(ctx, [ADMIN]).Error? ==> s == RequireRole(ctx, [ADMIN]).status
    ensures RequireRole(ctx, [ADMIN]).Ok? && EmailTaken(old(db.users), id, email) ==> s == InternalError
    ensures s != OK ==> db.users == old(db.users)
    ensures RequireRole(ctx, [ADMIN]).Ok? && !EmailTaken(old(db.users), id, email) ==>
              && s == OK
              && |db.users| == |old(db.users)|
              && forall k :: 0 <= k < |db.users| ==>
                   db.users[k] == if old(db.users)[k].id == id
                                  then old(db.users)[k].(fullName := fullName, email := email, role := role,
                                                         departmentId := departmentId)
                                  else old(db.users)[k]
  {
    match RequireRole(ctx, [ADMIN])
    case Error(e) =>
      s := e;
    case Ok(_) =>
      if EmailTaken(db.users, id, email) {
        s := InternalError;
      } else {
        Amend(db, id, fullName, email, role, departmentId);
        s := OK;
      }
  }

  /** `deleteUser($id)`: the account with that id goes. The reply is 200 whether or
      not it existed. */
  method DeleteUser(db: Database, ctx: Context, id: int) returns (s: Status)
    requires db.Valid()
    modifies db`users
    ensures db.Valid()
    ensures RequireRole(ctx, [ADMIN]).Error? ==> s == RequireRole(ctx, [ADMIN]).status && db.users == old(db.users)
    ensures RequireRole(ctx, [ADMIN]).Ok? ==>
              && s == OK
              && forall u :: multiset(db.users)[u] == if u.id == id then 0 else multiset(old(db.users))[u]
  {
    match RequireRole(ctx, [ADMIN])
    case Error(e) =>
      s := e;
    case Ok(_) =>
      var keep := (u: User) => u.id != id;
      KeyedFilter(db.users, UserKey, db.nextUserId, keep);
      Query.FilterPairwise(db.users, keep, DistinctSchoolIds);
      Query.FilterPairwise(db.users, keep, DistinctEmails);
      db.users := Query.Filter(db.users, keep);
      s := OK;
  }

  /** `resetPassword($id)`: a new four-character password, hashed with `salt`,
      replaces the hash of the account with that id. */
  method ResetPassword(db: Database, ctx: Context, hasher: PasswordHasher, id: int,
                       newPassword: Option<string>, salt: int) returns (s: Status)
    requires db.Valid()
    modifies db`users
    ensures db.Valid()
    ensures RequireRole(ctx, [ADMIN]).Error? ==> s == RequireRole(ctx, [ADMIN]).status
    ensures RequireRole(ctx, [ADMIN]).Ok? && (Blank(newPassword) || |newPassword.value| != PASSWORD_LENGTH)
            ==> s == BadRequest
    ensures RequireRole(ctx, [ADMIN]).Ok? && !Blank(newPassword) && |newPassword.value| == PASSWORD_LENGTH
            ==> s == OK
    ensures s != OK ==> db.users == old(db.users)
    ensures s == OK ==>
              && |db.users| == |old(db.users)|
              && forall k :: 0 <= k < |db.users| ==>
                   db.users[k] == if old(db.users)[k].id == id
                                  then old(db.users)[k].(passwordHash := hasher.hash(newPassword.value, salt))
                                  else old(db.users)[k]
    ensures s == OK && HashLaw(hasher) ==>
              forall k :: 0 <= k < |db.users| && db.users[k].id == id ==>
                hasher.verify(newPassword.value, db.users[k].passwordHash)
  {
    match RequireRole(ctx, [ADMIN])
    case Error(e) =>
      s := e;
    case Ok(_) =>
      if Blank(newPassword) || |newPassword.value| != PASSWORD_LENGTH {
        s := BadRequest;
      } else {
        db.SetPasswordHash(id, hasher.hash(newPassword.value, salt));
        s := OK;
      }
  }
}
