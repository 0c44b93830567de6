/** backend/controllers/DocumentRequestsController.php: requests for access to a
    record. Anyone authenticated files one and sees their own; only an Admin sees
    all of them and sets their status. */
module RequestsController {
  import opened Common
  import Query
  import opened Schema
  import opened Jwt
  import opened AuthMiddleware

  /** The rows `getRequests` returns to `p`: the inner joins drop requests whose
      record or requester row is gone, and a non-Admin sees only their own. */
  predicate Listed(p: TokenPayload, records: seq<Record>, users: seq<User>, q: DocumentRequest) {
    && RecordById(records, q.recordId).Some?
    && UserById(users, q.requesterId).Some?
    && (IsAdmin(p) || q.requesterId == p.claims.userId)
  }

  function RequestDateOf(q: DocumentRequest): int { q.requestDate }

  /** `ORDER BY dr.request_date DESC`. */
  function LatestFirst(): (le: (DocumentRequest, DocumentRequest) -> bool)
    ensures Query.TotalPreorder(le)
    ensures forall a, b :: le(a, b) <==> a.requestDate >= b.requestDate
  {
    Query.ByColumn(RequestDateOf, Query.Descending())
  }

  /** `getRequests`. */
  function GetRequests(ctx: Context, requests: seq<DocumentRequest>, records: seq<Record>, users: seq<User>)
    : (r: Reply<seq<DocumentRequest>>)
    ensures r.Error? <==> Authenticate(ctx).Error?
    ensures r.Error? ==> r.status == Unauthorized
    ensures r.Ok? ==> forall i, j :: 0 <= i < j < |r.value| ==> r.value[i].requestDate >= r.value[j].requestDate
    ensures r.Ok? ==>
              forall x :: multiset(r.value)[x] ==
                (if Listed(Authenticate(ctx).value, records, users, x) then multiset(requests)[x] else 0)
  {
    match Authenticate(ctx)
    case Error(s) => Error(s)
    case Ok(p) =>
      Ok(Query.SortBy(Query.Filter(requests, (q: DocumentRequest) => Listed(p, records, users, q)), LatestFirst()))
  }

  /** A non-Admin is shown only requests they filed themselves. */
  lemma GetRequestsOwnOnly(ctx: Context, requests: seq<DocumentRequest>, records: seq<Record>, users: seq<User>)
    requires Authenticate(ctx).Ok? && !IsAdmin(Authenticate(ctx).value)
    ensures forall x :: x in GetRequests(ctx, requests, records, users).value ==>
              x.requesterId == Authenticate(ctx).value.claims.userId
  {
    var rows := GetRequests(ctx, requests, records, users).value;
    forall x | x in rows ensures x.requesterId == Authenticate(ctx).value.claims.userId {
      assert x in multiset(rows);
    }
  }

  /** A request whose record has been deleted is no longer listed, even for an Admin. */
  lemma GetRequestsDropsOrphans(ctx: Context, requests: seq<DocumentRequest>, records: seq<Record>,
                                users: seq<User>, q: DocumentRequest)
    requires Authenticate(ctx).Ok?
    requires forall x :: x in records ==> x.id != q.recordId
    ensures q !in GetRequests(ctx, requests, records, users).value
  {
    var rows := GetRequests(ctx, requests, records, users).value;
    assert multiset(rows)[q] == 0;
  }

  /** `createRequest`: one `Pending` request appended, filed by the caller (never
      by whoever the payload names), answered with 201 and the new id. */
  method CreateRequest(db: Database, ctx: Context, recordId: Option<int>, purpose: Option<string>,
                       idDocumentPath: Option<string>, now: int) returns (r: Reply<int>)
    requires db.Valid()
    modifies db`requests, db`nextRequestId
    ensures db.Valid()
    ensures Authenticate(ctx).Error? ==> r == Error(Unauthorized)
    ensures Authenticate(ctx).Ok? && (BlankId(recordId) || Blank(purpose)) ==> r == Error(BadRequest)
    ensures r.Error? ==> db.requests == old(db.requests) && db.nextRequestId == old(db.nextRequestId)
    ensures Authenticate(ctx).Ok? && !BlankId(recordId) && !Blank(purpose) ==>
              && r == Ok(old(db.nextRequestId))
              && db.requests == old(db.requests) +
                   [DocumentRequest(old(db.nextRequestId), recordId.value, Authenticate(ctx).value.claims.userId,
                                    purpose.value, idDocumentPath, PENDING, now, None, None)]
              && db.nextRequestId == old(db.nextRequestId) + 1
  {
    match Authenticate(ctx)
    case Error(s) =>
      r := Error(s);
    case Ok(p) =>
      if BlankId(recordId) || Blank(purpose) {
        r := Error(BadRequest);
      } else {
        var row := DocumentRequest(db.nextRequestId, recordId.value, p.claims.userId, purpose.value,
                                   idDocumentPath, PENDING, now, None, None);
        KeyedAppend(db.requests, RequestKey, db.nextRequestId, row);
        db.requests := db.requests + [row];
        r := Ok(db.nextRequestId);
        db.nextRequestId := db.nextRequestId + 1;
      }
  }

  /** The change a status update makes to the request it targets. */
  function Decide(status: string, approver: int, now: int): (change: DocumentRequest -> DocumentRequest)
    ensures forall q :: change(q) == q.(status := status, approverId := Some(approver), approvalDate := Some(now))
  {
    (q: DocumentRequest) => q.(status := status, approverId := Some(approver), approvalDate := Some(now))
  }

  /** `updateRequestStatus($id)`: Admin only; the status must be one of
      Pending, Approved, Denied. Whatever the current status, the request with
      that id takes the new one, with the caller as approver and `now` as
      approval date. The reply is 200 whether or not any row matched. */
  method UpdateRequestStatus(db: Database, ctx: Context, id: int, status: Option<string>, now: int)
    returns (s: Status)
    requires db.Valid()
    modifies db`requests
    ensures db.Valid()
    ensures RequireRole(ctx, [ADMIN]).Error? ==> s == RequireRole(ctx, [ADMIN]).status
    ensures RequireRole(ctx, [ADMIN]).Ok? && (Blank(status) || status.value !in VALID_STATUSES) ==> s == BadRequest
    ensures s != OK ==> db.requests == old(db.requests)
    ensures RequireRole(ctx, [ADMIN]).Ok? && !Blank(status) && status.value in VALID_STATUSES ==>
              && s == OK
              && |db.requests| == |old(db.requests)|
              && forall k :: 0 <= k < |db.requests| ==>
                   db.requests[k] == if old(db.requests)[k].id == id
                                     then old(db.requests)[k].(status := status.value,
                                                               approverId := Some(RequireRole(ctx, [ADMIN]).value.claims.userId),
                                                               approvalDate := Some(now))
                                     else old(db.requests)[k]
  {
    match RequireRole(ctx, [ADMIN])
    case Error(e) =>
      s := e;
    case Ok(p) =>
      if Blank(status) || status.value !in VALID_STATUSES {
        s := BadRequest;
      } else {
        var change := Decide(status.value, p.claims.userId, now);
        var hit := (q: DocumentRequest) => q.id == id;
        KeyedUpdate(db.requests, RequestKey, db.nextRequestId, hit, change);
        db.requests := Query.UpdateWhere(db.requests, hit, change);
        s := OK;
      }
  }
}
