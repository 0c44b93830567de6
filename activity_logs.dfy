/** backend/controllers/ActivityLogsController.php: the audit trail, read-only.
    Staff is refused, a Custodian sees the entries of users of their own
    department, and every other caller sees everything. */
module ActivityLogsController {
  import opened Common
  import Query
  import opened Schema
  import opened Jwt
  import opened AuthMiddleware

  /** `LIMIT 1000`. */
  const MAX_LOG_ROWS: nat := 1000

  /** The entries `getLogs` can show to `p`: the inner join drops entries whose
      user row is gone, and a Custodian is confined to users of their department. */
  predicate Shown(p: TokenPayload, users: seq<User>, e: LogEntry) {
    && UserById(users, e.userId).Some?
    && (!IsCustodian(p) || SqlEq(UserById(users, e.userId).value.departmentId, p.claims.departmentId))
  }

  function AtOf(e: LogEntry): int { e.at }

  /** `ORDER BY al.action_date_time DESC`. */
  function LatestFirst(): (le: (LogEntry, LogEntry) -> bool)
    ensures Query.TotalPreorder(le)
    ensures forall a, b :: le(a, b) <==> a.at >= b.at
  {
    Query.ByColumn(AtOf, Query.Descending())
  }

  /** The matching entries, newest first, cut to the first 1000. */
  function Selected(p: TokenPayload, logs: seq<LogEntry>, users: seq<User>): seq<LogEntry> {
    Query.Take(Query.SortBy(Query.Filter(logs, (e: LogEntry) => Shown(p, users, e)), LatestFirst()), MAX_LOG_ROWS)
  }

  /** What the selection promises: at most 1000 entries, newest first, each one
      showable to `p`, none invented. */
  lemma SelectedFacts(p: TokenPayload, logs: seq<LogEntry>, users: seq<User>)
    ensures |Selected(p, logs, users)| <= MAX_LOG_ROWS
    ensures Query.SortedBy(Selected(p, logs, users), LatestFirst())
    ensures forall k :: 0 <= k < |Selected(p, logs, users)| ==> Shown(p, users, Selected(p, logs, users)[k])
    ensures forall x :: multiset(Selected(p, logs, users))[x] <= multiset(logs)[x]
  {
    var all := Query.Filter(logs, (e: LogEntry) => Shown(p, users, e));
    var sorted := Query.SortBy(all, LatestFirst());
    var taken := Query.Take(sorted, MAX_LOG_ROWS);
    Query.TakeSorted(sorted, MAX_LOG_ROWS, LatestFirst());
    TakeMultiset(sorted, MAX_LOG_ROWS);
    forall k | 0 <= k < |taken| ensures Shown(p, users, taken[k]) {
      assert taken[k] in multiset(sorted);
      assert taken[k] in multiset(all);
    }
  }

  lemma TakeMultiset<T>(s: seq<T>, n: nat)
    ensures multiset(Query.Take(s, n)) <= multiset(s)
  {
    var t := Query.Take(s, n);
    assert s == t + s[|t|..];
  }

  /** `getLogs`. Being a function, it changes no table. */
  function GetLogs(ctx: Context, logs: seq<LogEntry>, users: seq<User>): (r: Reply<seq<LogEntry>>)
    ensures Authenticate(ctx).Error? ==> r == Error(Unauthorized)
    ensures Authenticate(ctx).Ok? ==> (r == Error(Forbidden) <==> IsStaff(Authenticate(ctx).value))
    ensures Authenticate(ctx).Ok? && !IsStaff(Authenticate(ctx).value) ==> r.Ok?
    ensures r.Ok? ==> |r.value| <= MAX_LOG_ROWS
    ensures r.Ok? ==> forall i, j :: 0 <= i < j < |r.value| ==> r.value[i].at >= r.value[j].at
    ensures r.Ok? ==> forall k :: 0 <= k < |r.value| ==> Shown(Authenticate(ctx).value, users, r.value[k])
    ensures r.Ok? ==> forall x :: multiset(r.value)[x] <= multiset(logs)[x]
  {
    match Authenticate(ctx)
    case Error(s) => Error(s)
    case Ok(p) =>
      if IsStaff(p) then Error(Forbidden)
      else
        SelectedFacts(p, logs, users);
        Ok(Selected(p, logs, users))
  }

  /** With no more than 1000 matching entries, a caller who is not a Custodian or
      Staff (an Admin, or a role the three checks do not name) sees every entry
      whose user still exists. */
  lemma GetLogsUnfiltered(ctx: Context, logs: seq<LogEntry>, users: seq<User>)
    requires Authenticate(ctx).Ok?
    requires !IsStaff(Authenticate(ctx).value) && !IsCustodian(Authenticate(ctx).value)
    requires |logs| <= MAX_LOG_ROWS
    ensures GetLogs(ctx, logs, users).Ok?
    ensures forall x :: multiset(GetLogs(ctx, logs, users).value)[x] ==
              (if UserById(users, x.userId).Some? then multiset(logs)[x] else 0)
  {
    var p := Authenticate(ctx).value;
    var all := Query.Filter(logs, (e: LogEntry) => Shown(p, users, e));
    var sorted := Query.SortBy(all, LatestFirst());
    assert |sorted| == |all| by {
      assert |multiset(sorted)| == |multiset(all)|;
    }
    assert Query.Take(sorted, MAX_LOG_ROWS) == sorted;
  }

  /** The limit cuts off the oldest entries: a showable entry left out of the
      listing is no newer than any entry in it, and nothing is left out while the
      listing is short of 1000 entries. */
  lemma GetLogsKeepsNewest(ctx: Context, logs: seq<LogEntry>, users: seq<User>, x: LogEntry)
    requires GetLogs(ctx, logs, users).Ok?
    requires x in logs && Shown(Authenticate(ctx).value, users, x)
    requires x !in GetLogs(ctx, logs, users).value
    ensures |GetLogs(ctx, logs, users).value| == MAX_LOG_ROWS
    ensures forall k :: 0 <= k < |GetLogs(ctx, logs, users).value| ==> GetLogs(ctx, logs, users).value[k].at >= x.at
  {
    var p := Authenticate(ctx).value;
    assert GetLogs(ctx, logs, users).value == Selected(p, logs, users);
    SelectedKeepsNewest(p, logs, users, x);
  }

  lemma SelectedKeepsNewest(p: TokenPayload, logs: seq<LogEntry>, users: seq<User>, x: LogEntry)
    requires x in logs && Shown(p, users, x)
    requires x !in Selected(p, logs, users)
    ensures |Selected(p, logs, users)| == MAX_LOG_ROWS
    ensures forall k :: 0 <= k < |Selected(p, logs, users)| ==> Selected(p, logs, users)[k].at >= x.at
  {
    var keep := (e: LogEntry) => Shown(p, users, e);
    var all := Query.Filter(logs, keep);
    var sorted := Query.SortBy(all, LatestFirst());
    assert multiset(all)[x] == multiset(logs)[x];
    assert x in multiset(sorted);
    Query.TakeLeavesLater(sorted, MAX_LOG_ROWS, LatestFirst(), x);
  }

  /** A Custodian sees only entries of users in the Custodian's own department. */
  lemma GetLogsCustodianScope(ctx: Context, logs: seq<LogEntry>, users: seq<User>)
    requires Authenticate(ctx).Ok? && IsCustodian(Authenticate(ctx).value)
    ensures forall k :: 0 <= k < |GetLogs(ctx, logs, users).value| ==>
              var u := UserById(users, GetLogs(ctx, logs, users).value[k].userId);
              u.Some? && u.value.departmentId.Some? && u.value.departmentId == Authenticate(ctx).value.claims.departmentId
  {
  }
}
