/** backend/controllers/DepartmentsController.php: the department list, its Admin
    maintenance, and the per-department record count. */
module DepartmentsController {
  import opened Common
  import Query
  import opened Schema
  import opened Jwt
  import opened AuthMiddleware

  function NameOf(d: Department): string { d.name }

  /** `ORDER BY name ASC`, byte by byte. */
  function ByName(): (le: (Department, Department) -> bool)
    ensures Query.TotalPreorder(le)
    ensures forall a, b :: le(a, b) == Query.LexLe(a.name, b.name)
  {
    Query.ByColumn(NameOf, Query.Lexicographic())
  }

  /** `getDepartments`: every department, for any authenticated caller. */
  function GetDepartments(ctx: Context, departments: seq<Department>): (r: Reply<seq<Department>>)
    ensures r.Error? <==> Authenticate(ctx).Error?
    ensures r.Error? ==> r.status == Unauthorized
    ensures r.Ok? ==> multiset(r.value) == multiset(departments)
    ensures r.Ok? ==> forall i, j :: 0 <= i < j < |r.value| ==> Query.LexLe(r.value[i].name, r.value[j].name)
  {
    match Authenticate(ctx)
    case Error(s) => Error(s)
    case Ok(_) => Ok(Query.SortBy(departments, ByName()))
  }

  /** The INSERT of `createDepartment` when the name is unused. */
  method Found(db: Database, name: string) returns (id: int)
    requires db.Valid()
    requires forall d :: d in db.departments ==> d.name != name
    modifies db`departments, db`nextDepartmentId
    ensures db.Valid()
    ensures id == old(db.nextDepartmentId)
    ensures db.departments == old(db.departments) + [Department(id, name)]
    ensures db.nextDepartmentId == old(db.nextDepartmentId) + 1
  {
    id := db.nextDepartmentId;
    var d := Department(id, name);
    KeyedAppend(db.departments, DepartmentKey, db.nextDepartmentId, d);
    Query.PairwiseAppend(db.departments, d, DistinctNames);
    db.departments := db.departments + [d];
    db.nextDepartmentId := db.nextDepartmentId + 1;
  }

  /** `createDepartment`: Admin only; a name is required and must be unused. The
      reply is 201 with the new id. */
  method CreateDepartment(db: Database, ctx: Context, name: Option<string>) returns (r: Reply<int>)
    requires db.Valid()
    modifies db`departments, db`nextDepartmentId
    ensures db.Valid()
    ensures RequireRole(ctx, [ADMIN]).Error? ==> r == Error(RequireRole(ctx, [ADMIN]).status)
    ensures RequireRole(ctx, [ADMIN]).Ok? && Blank(name) ==> r == Error(BadRequest)
    ensures r == Error(Conflict) <==>
              RequireRole(ctx, [ADMIN]).Ok? && !Blank(name) && exists d :: d in old(db.departments) && d.name == name.value
    ensures RequireRole(ctx, [ADMIN]).Ok? && !Blank(name)
            && !(exists d :: d in old(db.departments) && d.name == name.value)
            ==> r.Ok?
    ensures r.Error? ==> db.departments == old(db.departments) && db.nextDepartmentId == old(db.nextDepartmentId)
    ensures r.Ok? ==>
              && r.value == old(db.nextDepartmentId)
              && db.departments == old(db.departments) + [Department(r.value, name.value)]
              && db.nextDepartmentId == old(db.nextDepartmentId) + 1
  {
    match RequireRole(ctx, [ADMIN])
    case Error(s) =>
      r := Error(s);
    case Ok(_) =>
      if Blank(name) {
        r := Error(BadRequest);
      } else if exists d :: d in db.departments && d.name == name.value {
        r := Error(Conflict);
      } else {
        var id := Found(db, name.value);
        r := Ok(id);
      }
  }

  /** The UPDATE of `updateDepartment` breaks the unique index on `name` exactly
      when the department exists and another one already has that name. */
  predicate NameTaken(departments: seq<Department>, id: int, name: string) {
    && DepartmentById(departments, id).Some?
    && exists d :: d in departments && d.id != id && d.name == name
  }

  /** Renaming one keyed row to a name no other row has keeps names distinct. */
  lemma RenameKeepsDistinct(departments: seq<Department>, next: int, id: int, name: string)
    requires Keyed(departments, DepartmentKey, next)
    requires Query.Pairwise(departments, DistinctNames)
    requires !NameTaken(departments, id, name)
    ensures Query.Pairwise(Query.UpdateWhere(departments, (d: Department) => d.id == id,
                                             (d: Department) => d.(name := name)), DistinctNames)
  {
    var r := Query.UpdateWhere(departments, (d: Department) => d.id == id, (d: Department) => d.(name := name));
    forall i, j | 0 <= i < j < |r| ensures DistinctNames(r[i], r[j]) {
      assert DistinctNames(departments[i], departments[j]);
      assert departments[i].id < departments[j].id by {
        assert Before(DepartmentKey)(departments[i], departments[j]);
      }
      if departments[i].id == id {
        assert DepartmentById(departments, id).Some?;
        assert departments[j] in departments;
      } else if departments[j].id == id {
        assert DepartmentById(departments, id).Some?;
        assert departments[i] in departments;
      }
    }
  }

  /** `updateDepartment($id)`: Admin only; a name is required. A name held by
      another department makes the UPDATE fail, which the controller answers with
      500 rather than 409. The reply is 200 whether or not the department exists. */
  method UpdateDepartment(db: Database, ctx: Context, id: int, name: Option<string>) returns (s: Status)
    requires db.Valid()
    modifies db`departments
    ensures db.Valid()
    ensures RequireRole(ctx, [ADMIN]).Error? ==> s == RequireRole(ctx, [ADMIN]).status
    ensures RequireRole(ctx, [ADMIN]).Ok? && Blank(name) ==> s == BadRequest
    ensures RequireRole(ctx, [ADMIN]).Ok? && !Blank(name) && NameTaken(old(db.departments), id, name.value)
            ==> s == InternalError
    ensures RequireRole(ctx, [ADMIN]).Ok? && !Blank(name) && !NameTaken(old(db.departments), id, name.value)
            ==> s == OK
    ensures s != OK ==> db.departments == old(db.departments)
    ensures s == OK ==>
              && |db.departments| == |old(db.departments)|
              && forall k :: 0 <= k < |db.departments| ==>
                   db.departments[k] == if old(db.departments)[k].id == id
                                        then Department(id, name.value)
                                        else old(db.departments)[k]
  {
    match RequireRole(ctx, [ADMIN])
    case Error(e) =>
      s := e;
    case Ok(_) =>
      if Blank(name) {
        s := BadRequest;
      } else if NameTaken(db.departments, id, name.value) {
        s := InternalError;
      } else {
        var hit := (d: Department) => d.id == id;
        var change := (d: Department) => d.(name := name.value);
        KeyedUpdate(db.departments, DepartmentKey, db.nextDepartmentId, hit, change);
        RenameKeepsDistinct(db.departments, db.nextDepartmentId, id, name.value);
        db.departments := Query.UpdateWhere(db.departments, hit, change);
        s := OK;
      }
  }

  /** `deleteDepartment($id)`: Admin only; the department with that id goes. The
      reply is 200 whether or not it existed. */
  method DeleteDepartment(db: Database, ctx: Context, id: int) returns (s: Status)
    requires db.Valid()
    modifies db`departments
    ensures db.Valid()
    ensures RequireRole(ctx, [ADMIN]).Error? ==>
              s == RequireRole(ctx, [ADMIN]).status && db.departments == old(db.departments)
    ensures RequireRole(ctx, [ADMIN]).Ok? ==>
              && s == OK
              && forall d :: multiset(db.departments)[d] == if d.id == id then 0 else multiset(old(db.departments))[d]
  {
    match RequireRole(ctx, [ADMIN])
    case Error(e) =>
      s := e;
    case Ok(_) =>
      var keep := (d: Department) => d.id != id;
      KeyedFilter(db.departments, DepartmentKey, db.nextDepartmentId, keep);
      Query.FilterPairwise(db.departments, keep, DistinctNames);
      db.departments := Query.Filter(db.departments, keep);
      s := OK;
  }

  /** One row of `getDepartmentAnalytics`. */
  datatype AnalyticsRow = AnalyticsRow(department: string, documentCount: nat)

  /** `COUNT(r.id)` over `LEFT JOIN records r ON d.id = r.department_id`: the
      records filed under the department (zero when there are none). */
  function DocumentCount(records: seq<Record>, departmentId: int): (n: nat)
    ensures n <= |records|
    ensures n == |Query.Filter(records, (x: Record) => SqlEq(x.departmentId, Some(departmentId)))|
  {
    |Query.Filter(records, (x: Record) => SqlEq(x.departmentId, Some(departmentId)))|
  }

  function RowOf(records: seq<Record>): (row: Department -> AnalyticsRow)
    ensures forall d :: row(d) == AnalyticsRow(d.name, DocumentCount(records, d.id))
  {
    (d: Department) => AnalyticsRow(d.name, DocumentCount(records, d.id))
  }

  /** The departments the analytics cover for `p`: all of them for an Admin, else
      only the caller's own (none when the caller has no department). */
  predicate Covered(p: TokenPayload, d: Department) {
    IsAdmin(p) || SqlEq(Some(d.id), p.claims.departmentId)
  }

  function DepartmentOf(row: AnalyticsRow): string { row.department }

  /** `ORDER BY d.name ASC`. */
  function ByDepartment(): (le: (AnalyticsRow, AnalyticsRow) -> bool)
    ensures Query.TotalPreorder(le)
    ensures forall a, b :: le(a, b) == Query.LexLe(a.department, b.department)
  {
    Query.ByColumn(DepartmentOf, Query.Lexicographic())
  }

  /** `getDepartmentAnalytics`: one row per covered department with the number of
      records filed under it, by department name. */
  function GetDepartmentAnalytics(ctx: Context, departments: seq<Department>, records: seq<Record>)
    : (r: Reply<seq<AnalyticsRow>>)
    ensures r.Error? <==> Authenticate(ctx).Error?
    ensures r.Error? ==> r.status == Unauthorized
    ensures r.Ok? ==> forall i, j :: 0 <= i < j < |r.value| ==>
              Query.LexLe(r.value[i].department, r.value[j].department)
    ensures r.Ok? ==>
              multiset(r.value) ==
              multiset(Query.Map(Query.Filter(departments, (d: Department) => Covered(Authenticate(ctx).value, d)),
                                 RowOf(records)))
  {
    match Authenticate(ctx)
    case Error(s) => Error(s)
    case Ok(p) =>
      Ok(Query.SortBy(Query.Map(Query.Filter(departments, (d: Department) => Covered(p, d)), RowOf(records)),
                      ByDepartment()))
  }

  /** Every analytics row names a covered department and carries its record count. */
  lemma AnalyticsRowsCounted(ctx: Context, departments: seq<Department>, records: seq<Record>, row: AnalyticsRow)
    requires GetDepartmentAnalytics(ctx, departments, records).Ok?
    requires row in GetDepartmentAnalytics(ctx, departments, records).value
    ensures exists d :: d in departments && Covered(Authenticate(ctx).value, d) &&
                        row == AnalyticsRow(d.name, DocumentCount(records, d.id))
  {
    var p := Authenticate(ctx).value;
    var covered := Query.Filter(departments, (d: Department) => Covered(p, d));
    var rows := Query.Map(covered, RowOf(records));
    assert row in multiset(GetDepartmentAnalytics(ctx, departments, records).value);
    assert row in multiset(rows);
    var k :| 0 <= k < |rows| && rows[k] == row;
    Query.FilterMembership(departments, (d: Department) => Covered(p, d), covered[k]);
  }

  /** Rows with strictly increasing ids that all carry the same id number at most one. */
  lemma OneIdAtMostOneRow(rows: seq<Department>, id: Option<int>)
    requires forall i, j :: 0 <= i < j < |rows| ==> rows[i].id < rows[j].id
    requires forall k :: 0 <= k < |rows| ==> Some(rows[k].id) == id
    ensures |rows| <= 1
  {
    if |rows| > 0 {
      IdSpread(rows);
      assert rows[|rows| - 1].id == rows[0].id;
    }
  }

  /** Strictly increasing ids span at least one less than the number of rows. */
  lemma {:induction false} IdSpread(rows: seq<Department>)
    requires |rows| > 0
    requires forall i, j :: 0 <= i < j < |rows| ==> rows[i].id < rows[j].id
    ensures rows[|rows| - 1].id - rows[0].id >= |rows| - 1
  {
    if |rows| > 1 {
      var init := rows[..|rows| - 1];
      IdSpread(init);
      assert rows[|rows| - 2].id < rows[|rows| - 1].id;
    }
  }

  /** With department ids unique, a caller who is not an Admin gets at most one row:
      that of their own department. */
  lemma NonAdminSeesOneDepartment(ctx: Context, departments: seq<Department>, next: int, records: seq<Record>)
    requires Keyed(departments, DepartmentKey, next)
    requires Authenticate(ctx).Ok? && !IsAdmin(Authenticate(ctx).value)
    ensures |GetDepartmentAnalytics(ctx, departments, records).value| <= 1
  {
    var p := Authenticate(ctx).value;
    var covered := Query.Filter(departments, (d: Department) => Covered(p, d));
    Query.FilterPairwise(departments, (d: Department) => Covered(p, d), Before(DepartmentKey));
    // Every covered department carries the caller's department id, while ids
    // strictly increase along the table: there is no room for a second one.
    forall k | 0 <= k < |covered| ensures Some(covered[k].id) == p.claims.departmentId {
      assert Covered(p, covered[k]);
    }
    assert forall i, j :: 0 <= i < j < |covered| ==> covered[i].id < covered[j].id by {
      forall i, j | 0 <= i < j < |covered| ensures covered[i].id < covered[j].id {
        assert Before(DepartmentKey)(covered[i], covered[j]);
      }
    }
    OneIdAtMostOneRow(covered, p.claims.departmentId);
    var rows := GetDepartmentAnalytics(ctx, departments, records).value;
    assert |multiset(rows)| == |Query.Map(covered, RowOf(records))|;
  }
}
