/** backend/api.php: the front controller. The request path is normalised into
    segments and a (verb, segments) pair is dispatched to one endpoint; OPTIONS
    is answered before any routing. `parse_url` is left to the caller: `path` is
    already the path part of the URI. */
module Router {
  import opened Common
  import opened Strings

  /** The endpoint a request reaches. Ids travel as the raw path segment. */
  datatype Endpoint =
    | Preflight
    | Login | GetProfile | ChangePassword
    | GetRecords | GetDisposalReminders | GetPublicDocuments | GetRecord(id: string)
    | CreateRecord | UpdateRecord(id: string) | DeleteRecord(id: string)
    | GetDepartments | GetDepartmentAnalytics | CreateDepartment
    | UpdateDepartment(id: string) | DeleteDepartment(id: string)
    | GetUsers | CreateUser | UpdateUser(id: string) | DeleteUser(id: string) | ResetPassword(id: string)
    | GetRequests | CreateRequest | UpdateRequestStatus(id: string)
    | GetLogs
    | UploadFile | GetFiles(id: string) | DeleteFile(id: string)
    /** 404 "Endpoint not found": a known resource, an unknown method or sub-path. */
    | EndpointNotFound
    /** 404 "API endpoint not found": an unknown first segment. */
    | ApiNotFound

  /** The script path the normalisation strips. */
  const SCRIPT_PATH: string := "/backend/api.php"

  /** The first segments the switch knows. */
  const RESOURCES: seq<string> := ["auth", "records", "departments", "users", "requests", "activity-logs", "files"]

  /** `explode('/', trim(str_replace('/backend/api.php', '', $path), '/'))`. */
  function Segments(path: string): (segs: seq<string>)
    ensures |segs| >= 1
    ensures forall k :: 0 <= k < |segs| ==> '/' !in segs[k]
  {
    Split(Trim(ReplaceAll(path, SCRIPT_PATH, ""), '/'), '/')
  }

  /** `$segments[i]`: an index past the end reads as null. */
  function Seg(segs: seq<string>, i: nat): (r: Option<string>)
    ensures r.Some? <==> i < |segs|
    ensures r.Some? ==> r.value == segs[i]
  {
    if i < |segs| then Some(segs[i]) else None
  }

  /** The whitespace PHP allows around a numeric string. */
  predicate IsSpace(c: char) {
    c == ' ' || c == '\t' || c == '\n' || c == '\r' || c == '\U{B}' || c == '\U{C}'
  }

  predicate IsDigit(c: char) { '0' <= c <= '9' }

  /** The first index at or after `i` that is not whitespace. */
  function SkipSpace(s: string, i: nat): (j: nat)
    requires i <= |s|
    ensures i <= j <= |s|
    ensures forall k :: i <= k < j ==> IsSpace(s[k])
    ensures j == |s| || !IsSpace(s[j])
    decreases |s| - i
  {
    if i < |s| && IsSpace(s[i]) then SkipSpace(s, i + 1) else i
  }

  /** The end of the run of digits starting at `i`. */
  function SkipDigits(s: string, i: nat): (j: nat)
    requires i <= |s|
    ensures i <= j <= |s|
    ensures forall k :: i <= k < j ==> IsDigit(s[k])
    ensures j == |s| || !IsDigit(s[j])
    decreases |s| - i
  {
    if i < |s| && IsDigit(s[i]) then SkipDigits(s, i + 1) else i
  }

  /** Past an optional `+` or `-` at `i`. */
  function SkipSign(s: string, i: nat): (j: nat)
    requires i <= |s|
    ensures j == i || j == i + 1
    ensures j <= |s|
  {
    if i < |s| && (s[i] == '+' || s[i] == '-') then i + 1 else i
  }

  /** Past an exponent `e`/`E`, optional sign and at least one digit at `i`; `i`
      itself when there is no complete exponent there. */
  function SkipExponent(s: string, i: nat): (j: nat)
    requires i <= |s|
    ensures i <= j <= |s|
  {
    if i < |s| && (s[i] == 'e' || s[i] == 'E') then
      var digits := SkipSign(s, i + 1);
      var end := SkipDigits(s, digits);
      if end > digits then end else i
    else i
  }

  /** PHP 8 `is_numeric` on a string: optional surrounding whitespace, an optional
      sign, digits with at most one decimal point (at least one digit in all), and
      an optional exponent. */
  predicate IsNumeric(s: string) {
    var start := SkipSign(s, SkipSpace(s, 0));
    var intEnd := SkipDigits(s, start);
    var fracEnd := if intEnd < |s| && s[intEnd] == '.' then SkipDigits(s, intEnd + 1) else intEnd;
    var mantissaDigits := (intEnd - start) + (if fracEnd > intEnd then fracEnd - intEnd - 1 else 0);
    mantissaDigits > 0 && SkipSpace(s, SkipExponent(s, fracEnd)) == |s|
  }

  /** A numeric string holds a digit. */
  lemma NumericHasDigit(s: string)
    requires IsNumeric(s)
    ensures exists k :: 0 <= k < |s| && IsDigit(s[k])
  {
    var start := SkipSign(s, SkipSpace(s, 0));
    var intEnd := SkipDigits(s, start);
    if intEnd > start {
      assert IsDigit(s[start]);
    } else {
      assert s[intEnd] == '.' && IsDigit(s[intEnd + 1]);
    }
  }

  /** The decimal text of a natural number, as a client puts an id into a path, is numeric. */
  lemma {:induction false} DecimalIsNumeric(n: nat)
    ensures IsNumeric(NatToString(n))
  {
    var s := NatToString(n);
    assert SkipSpace(s, 0) == 0 by { assert !IsSpace(s[0]); }
    assert SkipSign(s, 0) == 0;
    DigitsRun(s, 0);
    assert SkipExponent(s, |s|) == |s|;
  }

  lemma {:induction false} DigitsRun(s: string, i: nat)
    requires i <= |s|
    requires forall k :: i <= k < |s| ==> IsDigit(s[k])
    ensures SkipDigits(s, i) == |s|
    decreases |s| - i
  {
    if i < |s| {
      DigitsRun(s, i + 1);
    }
  }

  /** The `switch ($segments[0])` of the router, with the branches of each case in
      the order the code tests them. */
  function Dispatch(verb: string, segs: seq<string>): (e: Endpoint)
    requires |segs| >= 1
    ensures !e.Preflight?
    ensures !e.ResetPassword?
    ensures e == ApiNotFound <==> segs[0] !in RESOURCES
    ensures e.GetRecord? ==> |segs| >= 2 && e.id == segs[1] && IsNumeric(segs[1])
    ensures segs[0] == "records" && verb == "POST" ==> e == CreateRecord
    ensures segs[0] == "users" && verb == "POST" ==> e == CreateUser
    ensures segs[0] == "activity-logs" ==> e == (if verb == "GET" then GetLogs else EndpointNotFound)
    ensures segs[0] in RESOURCES && |segs| < 2 && (verb == "PUT" || verb == "DELETE") ==> e == EndpointNotFound
    ensures segs[0] == "records" && verb == "GET" && |segs| >= 2 && segs[1] in ["disposal-reminders", "public"]
            ==> e == (if segs[1] == "public" then GetPublicDocuments else GetDisposalReminders)
    ensures segs[0] == "records" && verb == "GET" && |segs| >= 2 && segs[1] !in ["disposal-reminders", "public"]
            ==> e == (if IsNumeric(segs[1]) then GetRecord(segs[1]) else EndpointNotFound)
  {
    var second := Seg(segs, 1);
    var third := Seg(segs, 2);
    match segs[0]
    case "auth" =>
      if second == Some("login") && verb == "POST" then Login
      else if second == Some("profile") && verb == "GET" then GetProfile
      else if second == Some("change-password") && verb == "POST" then ChangePassword
      else EndpointNotFound
    case "records" =>
      if verb == "GET" && second.None? then GetRecords
      else if verb == "GET" && second == Some("disposal-reminders") then GetDisposalReminders
      else if verb == "GET" && second == Some("public") then GetPublicDocuments
      else if verb == "GET" && second.Some? && IsNumeric(second.value) then GetRecord(second.value)
      else if verb == "POST" then CreateRecord
      else if verb == "PUT" && second.Some? then UpdateRecord(second.value)
      else if verb == "DELETE" && second.Some? then DeleteRecord(second.value)
      else EndpointNotFound
    case "departments" =>
      if verb == "GET" && second.None? then GetDepartments
      else if verb == "GET" && second == Some("analytics") then GetDepartmentAnalytics
      else if verb == "POST" then CreateDepartment
      else if verb == "PUT" && second.Some? then UpdateDepartment(second.value)
      else if verb == "DELETE" && second.Some? then DeleteDepartment(second.value)
      else EndpointNotFound
    case "users" =>
      if verb == "GET" then GetUsers
      else if verb == "POST" then CreateUser
      else if verb == "PUT" && second.Some? then UpdateUser(second.value)
      else if verb == "DELETE" && second.Some? then DeleteUser(second.value)
      // Tested after every POST has already gone to createUser: never taken.
      else if verb == "POST" && second.Some? && third == Some("reset-password") then ResetPassword(second.GetOr(""))
      else EndpointNotFound
    case "requests" =>
      if verb == "GET" then GetRequests
      else if verb == "POST" then CreateRequest
      else if verb == "PUT" && second.Some? then UpdateRequestStatus(second.value)
      else EndpointNotFound
    case "activity-logs" =>
      if verb == "GET" then GetLogs else EndpointNotFound
    case "files" =>
      if verb == "POST" then UploadFile
      else if verb == "GET" && second.Some? then GetFiles(second.value)
      else if verb == "DELETE" && second.Some? then DeleteFile(second.value)
      else EndpointNotFound
    case _ => ApiNotFound
  }

  /** The whole router for a request method and path. */
  function Route(verb: string, path: string): (e: Endpoint)
    ensures e.Preflight? <==> verb == "OPTIONS"
    ensures !e.ResetPassword?
    ensures e.GetRecord? ==> IsNumeric(e.id)
  {
    if verb == "OPTIONS" then Preflight else Dispatch(verb, Segments(path))
  }

  /** The dispatch as evidently intended: the reset-password branch tested before
      the generic POST of `users`, everything else unchanged. */
  function IntendedDispatch(verb: string, segs: seq<string>): (e: Endpoint)
    requires |segs| >= 1
    ensures segs[0] == "users" && verb == "POST" && |segs| >= 3 && segs[2] == "reset-password"
            ==> e == ResetPassword(segs[1])
    ensures e != Dispatch(verb, segs) ==> e.ResetPassword? && Dispatch(verb, segs) == CreateUser
  {
    if segs[0] == "users" && verb == "POST" && Seg(segs, 1).Some? && Seg(segs, 2) == Some("reset-password")
    then ResetPassword(segs[1])
    else Dispatch(verb, segs)
  }

  function IntendedRoute(verb: string, path: string): (e: Endpoint)
    ensures e.Preflight? <==> verb == "OPTIONS"
    ensures e != Route(verb, path) ==> e.ResetPassword? && Route(verb, path) == CreateUser
  {
    if verb == "OPTIONS" then Preflight else IntendedDispatch(verb, Segments(path))
  }

  /** Normalisation of a request path `/backend/api.php/p1/.../pn` gives back the
      segments, when none is empty or holds a `/` or a `.`. */
  lemma SegmentsOfRequestPath(parts: seq<string>)
    requires |parts| >= 1
    requires forall k :: 0 <= k < |parts| ==> |parts[k]| > 0 && '/' !in parts[k] && '.' !in parts[k]
    ensures Segments(SCRIPT_PATH + "/" + Join(parts, '/')) == parts
  {
    var joined := Join(parts, '/');
    JoinAvoids(parts, '/', '.');
    ScriptPathRemoved("/" + joined);
    assert SCRIPT_PATH + "/" + joined == SCRIPT_PATH + ("/" + joined);
    SlashesTrimmed(parts);
    SplitJoin(parts, '/');
  }

  /** The script path is removed from the front of a path tail that holds no `.`. */
  lemma ScriptPathRemoved(rest: string)
    requires '.' !in rest
    ensures ReplaceAll(SCRIPT_PATH + rest, SCRIPT_PATH, "") == rest
  {
    ReplaceAllLeading(SCRIPT_PATH, rest, "");
    ReplaceAllAbsent(rest, SCRIPT_PATH, "", '.');
    assert "" + rest == rest;
  }

  /** Trimming `/` off `"/" + joined` leaves the joined non-empty segments. */
  lemma SlashesTrimmed(parts: seq<string>)
    requires |parts| >= 1
    requires forall k :: 0 <= k < |parts| ==> |parts[k]| > 0 && '/' !in parts[k]
    ensures Trim("/" + Join(parts, '/'), '/') == Join(parts, '/')
  {
    var joined := Join(parts, '/');
    var rest := "/" + joined;
    assert joined[0] == parts[0][0] by {
      assert parts[0][0] != '/';
    }
    assert TrimLeft(rest, '/') == joined by {
      assert rest[1..] == joined;
    }
    JoinLast(parts, '/');
    assert TrimRight(joined, '/') == joined;
  }

  /** The decimal text of a number is a path segment free of `/` and `.`. */
  lemma DecimalSegment(n: nat)
    ensures |NatToString(n)| > 0 && '/' !in NatToString(n) && '.' !in NatToString(n)
  {
    var id := NatToString(n);
    assert forall k :: 0 <= k < |id| ==> IsDigit(id[k]);
  }

  /** The request path of one record splits into its resource and its number. */
  lemma RecordPathSegments(n: nat)
    ensures Segments(SCRIPT_PATH + "/records/" + NatToString(n)) == ["records", NatToString(n)]
  {
    var id := NatToString(n);
    DecimalSegment(n);
    assert Join(["records", id], '/') == "records/" + id;
    assert SCRIPT_PATH + "/records/" + id == SCRIPT_PATH + "/" + Join(["records", id], '/');
    SegmentsOfRequestPath(["records", id]);
  }

  /** `GET /backend/api.php/records/<n>` reaches `getRecord` with the number's text. */
  lemma GetRecordByNumber(n: nat)
    ensures Route("GET", SCRIPT_PATH + "/records/" + NatToString(n)) == GetRecord(NatToString(n))
  {
    var id := NatToString(n);
    RecordPathSegments(n);
    DecimalIsNumeric(n);
    DecimalSegment(n);
    assert id !in ["disposal-reminders", "public"] by {
      assert IsDigit(id[0]);
    }
    assert Dispatch("GET", ["records", id]) == GetRecord(id);
  }

  /** The reset-password path splits into the resource, the number and the action. */
  lemma ResetPathSegments(n: nat)
    ensures Segments(SCRIPT_PATH + "/users/" + NatToString(n) + "/reset-password")
            == ["users", NatToString(n), "reset-password"]
  {
    DecimalSegment(n);
    ResetPathJoined(NatToString(n));
    SegmentsOfRequestPath(["users", NatToString(n), "reset-password"]);
  }

  /** The reset-password path is the script path followed by its three segments joined. */
  lemma ResetPathJoined(id: string)
    ensures SCRIPT_PATH + "/users/" + id + "/reset-password"
            == SCRIPT_PATH + "/" + Join(["users", id, "reset-password"], '/')
  {
    var parts := ["users", id, "reset-password"];
    var tail := id + "/" + "reset-password";
    assert Join(parts[1..], '/') == tail by {
      assert parts[1..] == [id, "reset-password"];
      assert [id, "reset-password"][1..] == ["reset-password"];
    }
    assert Join(parts, '/') == "users" + "/" + tail;
  }

  /** As written, `POST /backend/api.php/users/<n>/reset-password` reaches
      `createUser`; the intended router sends it to `resetPassword`. */
  lemma ResetPasswordShadowed(n: nat)
    ensures Route("POST", SCRIPT_PATH + "/users/" + NatToString(n) + "/reset-password") == CreateUser
    ensures IntendedRoute("POST", SCRIPT_PATH + "/users/" + NatToString(n) + "/reset-password")
            == ResetPassword(NatToString(n))
  {
    ResetPathSegments(n);
  }
}
