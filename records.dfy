/** backend/controllers/RecordsController.php: the records registry. Every
    endpoint authenticates first; reads and writes of a non-Admin are confined to
    rows of the caller's own department. */
module RecordsController {
  import opened Common
  import Query
  import opened Schema
  import opened Jwt
  import opened AuthMiddleware

  /** The department rule: Admin reaches every row, anyone else only rows whose
      `department_id` equals their own (SQL `=`, so a NULL on either side matches nothing). */
  predicate InDepartment(p: TokenPayload, departmentId: Option<int>) {
    IsAdmin(p) || SqlEq(departmentId, p.claims.departmentId)
  }

  function Visible(p: TokenPayload): (keep: Record -> bool)
    ensures forall r :: keep(r) == InDepartment(p, r.departmentId)
  {
    (r: Record) => InDepartment(p, r.departmentId)
  }

  function CreatedAtOf(r: Record): int { r.createdAt }

  /** `ORDER BY r.created_at DESC`. */
  function NewestFirst(): (le: (Record, Record) -> bool)
    ensures Query.TotalPreorder(le)
    ensures forall a, b :: le(a, b) <==> a.createdAt >= b.createdAt
  {
    Query.ByColumn(CreatedAtOf, Query.Descending())
  }

  /** `getRecords`: the caller's records, newest first. */
  function GetRecords(ctx: Context, records: seq<Record>): (r: Reply<seq<Record>>)
    ensures r.Error? <==> Authenticate(ctx).Error?
    ensures r.Error? ==> r.status == Unauthorized
    ensures r.Ok? ==> forall i, j :: 0 <= i < j < |r.value| ==> r.value[i].createdAt >= r.value[j].createdAt
    ensures r.Ok? ==>
              forall x :: multiset(r.value)[x] ==
                (if InDepartment(Authenticate(ctx).value, x.departmentId) then multiset(records)[x] else 0)
  {
    var auth := Authenticate(ctx);
    if auth.Error? then Error(auth.status)
    else
      ListingFacts(auth.value, records);
      Ok(Listing(auth.value, records))
  }

  /** The rows `p` may see, newest first. */
  function Listing(p: TokenPayload, records: seq<Record>): seq<Record> {
    Query.SortBy(Query.Filter(records, Visible(p)), NewestFirst())
  }

  lemma ListingFacts(p: TokenPayload, records: seq<Record>)
    ensures var r := Listing(p, records);
            && (forall i, j :: 0 <= i < j < |r| ==> r[i].createdAt >= r[j].createdAt)
            && (forall x :: multiset(r)[x] == if InDepartment(p, x.departmentId) then multiset(records)[x] else 0)
  {
    var keep := Visible(p);
    var seen := Query.Filter(records, keep);
    var r := Query.SortBy(seen, NewestFirst());
    forall x: Record ensures multiset(r)[x] == if InDepartment(p, x.departmentId) then multiset(records)[x] else 0 {
      assert multiset(seen)[x] == if keep(x) then multiset(records)[x] else 0;
    }
    forall i, j | 0 <= i < j < |r| ensures r[i].createdAt >= r[j].createdAt {
      assert NewestFirst()(r[i], r[j]);
    }
  }

  /** A non-Admin's listing holds rows of the caller's own department only, and
      what rows of other departments hold has no influence on it. */
  lemma GetRecordsScope(ctx: Context, records: seq<Record>, others: seq<Record>)
    requires Authenticate(ctx).Ok? && !IsAdmin(Authenticate(ctx).value)
    requires Query.Filter(others, Visible(Authenticate(ctx).value)) == Query.Filter(records, Visible(Authenticate(ctx).value))
    ensures forall x :: x in GetRecords(ctx, records).value ==>
              x.departmentId.Some? && x.departmentId == Authenticate(ctx).value.claims.departmentId
    ensures GetRecords(ctx, others) == GetRecords(ctx, records)
  {
    var rows := GetRecords(ctx, records).value;
    forall x | x in rows
      ensures x.departmentId.Some? && x.departmentId == Authenticate(ctx).value.claims.departmentId
    {
      assert x in multiset(rows);
    }
  }

  /** A record with the files attached to it. */
  datatype RecordDetail = RecordDetail(record: Record, files: seq<RecordFile>)

  function Wanted(p: TokenPayload, id: int): (hit: Record -> bool)
    ensures forall r :: hit(r) == (r.id == id && InDepartment(p, r.departmentId))
  {
    (r: Record) => r.id == id && InDepartment(p, r.departmentId)
  }

  function OfRecord(id: int): (keep: RecordFile -> bool)
    ensures forall f :: keep(f) == (f.recordId == id)
  {
    (f: RecordFile) => f.recordId == id
  }

  /** `getRecord($id)`: the record if it exists and is in the caller's scope, with
      every file row that names it. */
  function GetRecord(ctx: Context, records: seq<Record>, files: seq<RecordFile>, id: int): (r: Reply<RecordDetail>)
    ensures Authenticate(ctx).Error? ==> r == Error(Unauthorized)
    ensures Authenticate(ctx).Ok? ==>
              (r.Ok? <==> exists x :: x in records && x.id == id && InDepartment(Authenticate(ctx).value, x.departmentId))
    ensures Authenticate(ctx).Ok? && r.Error? ==> r.status == NotFound
    ensures r.Ok? ==> r.value.record in records && r.value.record.id == id
                      && InDepartment(Authenticate(ctx).value, r.value.record.departmentId)
    ensures r.Ok? ==> forall f :: multiset(r.value.files)[f] == if f.recordId == id then multiset(files)[f] else 0
  {
    match Authenticate(ctx)
    case Error(s) => Error(s)
    case Ok(p) =>
      match Query.Find(records, Wanted(p, id))
      case None => Error(NotFound)
      case Some(x) => Ok(RecordDetail(x, Query.Filter(files, OfRecord(id))))
  }

  /** A record of another department and a record that does not exist give the
      same answer: the reply depends only on the rows in the caller's scope. */
  lemma GetRecordHidesOtherDepartments(ctx: Context, records: seq<Record>, files: seq<RecordFile>, id: int)
    requires Authenticate(ctx).Ok?
    ensures GetRecord(ctx, records, files, id)
            == GetRecord(ctx, Query.Filter(records, Visible(Authenticate(ctx).value)), files, id)
  {
    var p := Authenticate(ctx).value;
    Query.FindFilter(records, Visible(p), Wanted(p, id));
  }

  /** The department a new record is filed under: the one the request names for
      an Admin, the caller's own for anyone else. */
  function OwningDepartment(p: TokenPayload, requested: Option<int>): (d: Option<int>)
    ensures IsAdmin(p) ==> d == requested
    ensures !IsAdmin(p) ==> d == p.claims.departmentId
  {
    if IsAdmin(p) then requested else p.claims.departmentId
  }

  /** `createRecord`: one row appended, filed under `OwningDepartment` and created
      by the caller. `disposalDate` is what the database derives for the new row. */
  method CreateRecord(db: Database, ctx: Context, data: RecordFields, departmentId: Option<int>,
                      now: int, disposalDate: Option<int>) returns (r: Reply<int>)
    requires db.Valid()
    modifies db`records, db`nextRecordId
    ensures db.Valid()
    ensures Authenticate(ctx).Error? ==>
              r == Error(Unauthorized) && db.records == old(db.records) && db.nextRecordId == old(db.nextRecordId)
    ensures Authenticate(ctx).Ok? ==>
              var p := Authenticate(ctx).value;
              && r == Ok(old(db.nextRecordId))
              && db.records == old(db.records) + [Record(old(db.nextRecordId), data,
                                                         OwningDepartment(p, departmentId),
                                                         p.claims.userId, now, disposalDate)]
              && db.nextRecordId == old(db.nextRecordId) + 1
  {
    match Authenticate(ctx)
    case Error(s) =>
      r := Error(s);
    case Ok(p) =>
      var row := Record(db.nextRecordId, data, OwningDepartment(p, departmentId), p.claims.userId, now, disposalDate);
      KeyedAppend(db.records, RecordKey, db.nextRecordId, row);
      db.records := db.records + [row];
      r := Ok(db.nextRecordId);
      db.nextRecordId := db.nextRecordId + 1;
  }

  /** A record a non-Admin with a department creates is one that caller can read
      back at once under its new id. */
  lemma CreatedRecordReadable(ctx: Context, records: seq<Record>, files: seq<RecordFile>, row: Record,
                              departmentId: Option<int>)
    requires Authenticate(ctx).Ok? && Authenticate(ctx).value.claims.departmentId.Some?
    requires forall x :: x in records ==> x.id != row.id
    requires row.departmentId == OwningDepartment(Authenticate(ctx).value, departmentId)
    requires !IsAdmin(Authenticate(ctx).value)
    ensures GetRecord(ctx, records + [row], files, row.id).Ok?
    ensures GetRecord(ctx, records + [row], files, row.id).value.record == row
  {
    var p := Authenticate(ctx).value;
    Query.FindAppend(records, row, Wanted(p, row.id));
  }

  /** The change `updateRecord` makes to a row it matches. */
  function Revise(data: RecordFields, disposalDate: Option<int>): (change: Record -> Record)
    ensures forall x :: change(x) == x.(fields := data, disposalDate := disposalDate)
  {
    (x: Record) => x.(fields := data, disposalDate := disposalDate)
  }

  /** `updateRecord($id)`: the fifteen descriptive columns of the row with that id
      are overwritten, provided the row is in the caller's scope. The reply is 200
      whether or not any row matched. */
  method UpdateRecord(db: Database, ctx: Context, id: int, data: RecordFields, disposalDate: Option<int>)
    returns (status: Status)
    requires db.Valid()
    modifies db`records
    ensures db.Valid()
    ensures Authenticate(ctx).Error? ==> status == Unauthorized && db.records == old(db.records)
    ensures Authenticate(ctx).Ok? ==> status == OK
    ensures |db.records| == |old(db.records)|
    ensures forall k :: 0 <= k < |db.records| ==>
              db.records[k] == if Authenticate(ctx).Ok? && old(db.records)[k].id == id
                                  && InDepartment(Authenticate(ctx).value, old(db.records)[k].departmentId)
                               then old(db.records)[k].(fields := data, disposalDate := disposalDate)
                               else old(db.records)[k]
    ensures forall k :: 0 <= k < |db.records| ==>
              && db.records[k].id == old(db.records)[k].id
              && db.records[k].departmentId == old(db.records)[k].departmentId
              && db.records[k].createdBy == old(db.records)[k].createdBy
              && db.records[k].createdAt == old(db.records)[k].createdAt
  {
    match Authenticate(ctx)
    case Error(s) =>
      status := s;
    case Ok(p) =>
      KeyedUpdate(db.records, RecordKey, db.nextRecordId, Wanted(p, id), Revise(data, disposalDate));
      db.records := Query.UpdateWhere(db.records, Wanted(p, id), Revise(data, disposalDate));
      status := OK;
  }

  /** The roles `deleteRecord` admits. */
  const DELETERS: seq<string> := [ADMIN, CUSTODIAN]

  /** `deleteRecord($id)`: Admin and Custodian only; the row with that id goes if it
      is in the caller's scope. The reply is 200 whether or not any row matched. */
  method DeleteRecord(db: Database, ctx: Context, id: int) returns (status: Status)
    requires db.Valid()
    modifies db`records
    ensures db.Valid()
    ensures Authenticate(ctx).Error? ==> status == Unauthorized && db.records == old(db.records)
    ensures Authenticate(ctx).Ok? && !RoleIn(Authenticate(ctx).value.claims.role, DELETERS) ==>
              status == Forbidden && db.records == old(db.records)
    ensures Authenticate(ctx).Ok? && RoleIn(Authenticate(ctx).value.claims.role, DELETERS) ==>
              && status == OK
              && forall x :: multiset(db.records)[x] ==
                   if x.id == id && InDepartment(Authenticate(ctx).value, x.departmentId) then 0
                   else multiset(old(db.records))[x]
  {
    match Authenticate(ctx)
    case Error(s) =>
      status := s;
    case Ok(p) =>
      if !RoleIn(p.claims.role, DELETERS) {
        status := Forbidden;
      } else {
        var keep := (x: Record) => !(x.id == id && InDepartment(p, x.departmentId));
        KeyedFilter(db.records, RecordKey, db.nextRecordId, keep);
        db.records := Query.Filter(db.records, keep);
        status := OK;
      }
  }

  function DisposalDayOf(r: Record): int { r.disposalDate.GetOr(0) }

  /** `ORDER BY r.calculated_disposal_date ASC`. */
  function EarliestFirst(): (le: (Record, Record) -> bool)
    ensures Query.TotalPreorder(le)
    ensures forall a, b :: le(a, b) <==> DisposalDayOf(a) <= DisposalDayOf(b)
  {
    Query.ByColumn(DisposalDayOf, Query.Ascending())
  }

  /** A record due for disposal review on day `today`, within the caller's scope. */
  predicate Due(p: TokenPayload, today: int, r: Record) {
    r.disposalDate.Some? && r.disposalDate.value <= today && InDepartment(p, r.departmentId)
  }

  /** The due records of `p`'s scope, earliest disposal date first. */
  function Reminders(p: TokenPayload, records: seq<Record>, today: int): seq<Record> {
    Query.SortBy(Query.Filter(records, (x: Record) => Due(p, today, x)), EarliestFirst())
  }

  lemma RemindersFacts(p: TokenPayload, records: seq<Record>, today: int)
    ensures var r := Reminders(p, records, today);
            && (forall k :: 0 <= k < |r| ==> Due(p, today, r[k]))
            && (forall i, j :: 0 <= i < j < |r| ==> DisposalDayOf(r[i]) <= DisposalDayOf(r[j]))
            && (forall x :: multiset(r)[x] == if Due(p, today, x) then multiset(records)[x] else 0)
  {
    var keep := (x: Record) => Due(p, today, x);
    var due := Query.Filter(records, keep);
    var sorted := Query.SortBy(due, EarliestFirst());
    assert forall x :: multiset(sorted)[x] == if Due(p, today, x) then multiset(records)[x] else 0 by {
      forall x ensures multiset(sorted)[x] == if Due(p, today, x) then multiset(records)[x] else 0 {
        assert multiset(due)[x] == if keep(x) then multiset(records)[x] else 0;
      }
    }
    forall k | 0 <= k < |sorted| ensures Due(p, today, sorted[k]) {
      assert sorted[k] in multiset(sorted);
    }
  }

  /** `getDisposalReminders` on day `today` (`CURDATE()`): the due records of the
      caller's scope, earliest disposal date first. */
  function GetDisposalReminders(ctx: Context, records: seq<Record>, today: int): (r: Reply<seq<Record>>)
    ensures r.Error? <==> Authenticate(ctx).Error?
    ensures r.Error? ==> r.status == Unauthorized
    ensures r.Ok? ==> forall k :: 0 <= k < |r.value| ==>
              r.value[k].disposalDate.Some? && r.value[k].disposalDate.value <= today
    ensures r.Ok? ==> forall i, j :: 0 <= i < j < |r.value| ==>
              r.value[i].disposalDate.value <= r.value[j].disposalDate.value
    ensures r.Ok? ==>
              forall x :: multiset(r.value)[x] ==
                (if Due(Authenticate(ctx).value, today, x) then multiset(records)[x] else 0)
  {
    var auth := Authenticate(ctx);
    if auth.Error? then Error(auth.status)
    else
      RemindersFacts(auth.value, records, today);
      Ok(Reminders(auth.value, records, today))
  }

  /** The rule of `getPublicDocuments`: only Staff is confined to its own department. */
  predicate PublicFor(p: TokenPayload, d: PublicDocument) {
    !IsStaff(p) || SqlEq(d.departmentId, p.claims.departmentId)
  }

  /** `getPublicDocuments`: every public document, except that Staff sees only
      those of its own department. */
  function GetPublicDocuments(ctx: Context, documents: seq<PublicDocument>): (r: Reply<seq<PublicDocument>>)
    ensures r.Error? <==> Authenticate(ctx).Error?
    ensures r.Error? ==> r.status == Unauthorized
    ensures r.Ok? && !IsStaff(Authenticate(ctx).value) ==> r.value == documents
    ensures r.Ok? ==>
              forall x :: multiset(r.value)[x] ==
                (if PublicFor(Authenticate(ctx).value, x) then multiset(documents)[x] else 0)
  {
    match Authenticate(ctx)
    case Error(s) => Error(s)
    case Ok(p) =>
      var r := Query.Filter(documents, (d: PublicDocument) => PublicFor(p, d));
      assert !IsStaff(p) ==> r == documents by {
        if !IsStaff(p) { Query.FilterEverything(documents, (d: PublicDocument) => PublicFor(p, d)); }
      }
      Ok(r)
  }
}
