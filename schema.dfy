/** The MySQL tables the controllers read and write, as rows of datatypes held in
    one `Database` object. Every table has an AUTO_INCREMENT primary key `id`;
    `users.school_id`, `users.email` and `departments.name` carry unique indexes. */
module Schema {
  import opened Common
  import Query

  /** The fifteen descriptive columns of a record that create and update write. */
  datatype RecordFields = RecordFields(
    seriesTitleDescription: Option<string>, periodCovered: Option<string>, volume: Option<string>,
    recordMedium: Option<string>, restrictions: Option<string>, location: Option<string>,
    frequencyOfUse: Option<string>, duplication: Option<string>, timeValue: Option<string>,
    utilityValue: Option<string>, retentionPeriodActive: Option<string>,
    retentionPeriodStorage: Option<string>, retentionPeriodTotal: Option<string>,
    dispositionProvision: Option<string>, dateOfRecord: Option<string>)

  /** A row of `records`. `disposalDate` is `calculated_disposal_date`, a day number
      the database derives; `createdBy` is `created_by_user_id`. */
  datatype Record = Record(id: int, fields: RecordFields, departmentId: Option<int>,
                           createdBy: int, createdAt: int, disposalDate: Option<int>)

  /** A row of `record_files`: `fileName` is the uploader's name for the file,
      `filePath` the name it is stored under. */
  datatype RecordFile = RecordFile(id: int, recordId: int, fileName: string, filePath: string,
                                   fileSize: int, uploadedBy: int, uploadDate: int)

  /** A row of `document_requests`. */
  datatype DocumentRequest = DocumentRequest(
    id: int, recordId: int, requesterId: int, purpose: string, idDocumentPath: Option<string>,
    status: string, requestDate: int, approverId: Option<int>, approvalDate: Option<int>)

  /** A row of `users`. */
  datatype User = User(id: int, schoolId: string, passwordHash: string, fullName: Option<string>,
                       email: Option<string>, role: Option<string>, departmentId: Option<int>,
                       createdAt: int)

  /** A row of `departments`. */
  datatype Department = Department(id: int, name: string)

  /** A row of `activity_logs`; `at` is `action_date_time`. */
  datatype LogEntry = LogEntry(id: int, userId: int, office: string, operation: string,
                               recordSeries: Option<string>, details: Option<string>, at: int)

  /** A row of `publicly_available_documents`; only the column the endpoint filters on. */
  datatype PublicDocument = PublicDocument(id: int, departmentId: Option<int>)

  /** `password_hash` (with the salt it draws made an input) and `password_verify`. */
  datatype PasswordHasher = PasswordHasher(hash: (string, int) -> string, verify: (string, string) -> bool)

  /** The law the hashing library promises: a hash verifies its own password. */
  ghost predicate HashLaw(hasher: PasswordHasher) {
    forall password, salt :: hasher.verify(password, hasher.hash(password, salt))
  }

  /** The office an audit entry is filed under when the acting user has no department. */
  const ADMIN_OFFICE: string := "Admin Office"

  /** The request statuses `updateRequestStatus` accepts. */
  const VALID_STATUSES: seq<string> := ["Pending", "Approved", "Denied"]

  /** The status a new request gets from its column default. */
  const PENDING: string := "Pending"

  function RecordKey(r: Record): int { r.id }
  function FileKey(f: RecordFile): int { f.id }
  function RequestKey(q: DocumentRequest): int { q.id }
  function UserKey(u: User): int { u.id }
  function DepartmentKey(d: Department): int { d.id }
  function LogKey(e: LogEntry): int { e.id }

  /** Rows ordered by a strictly increasing key. */
  function Before<T(!new)>(key: T -> int): (rel: (T, T) -> bool)
    ensures forall a, b :: rel(a, b) <==> key(a) < key(b)
  {
    (a: T, b: T) => key(a) < key(b)
  }

  /** The AUTO_INCREMENT discipline: keys from 1 upwards, increasing in table order
      (so never repeated), all below the next key the table will hand out. */
  predicate Keyed<T(!new)>(s: seq<T>, key: T -> int, next: int) {
    && 1 <= next
    && Query.Pairwise(s, Before(key))
    && forall k :: 0 <= k < |s| ==> 1 <= key(s[k]) < next
  }

  /** Unique index on `school_id`. */
  predicate DistinctSchoolIds(a: User, b: User) { a.schoolId != b.schoolId }

  /** Unique index on `email`: NULLs never collide. */
  predicate DistinctEmails(a: User, b: User) { a.email.None? || a.email != b.email }

  /** Unique index on `departments.name`. */
  predicate DistinctNames(a: Department, b: Department) { a.name != b.name }

  /** A row whose key is the next one handed out extends a keyed table. */
  lemma KeyedAppend<T(!new)>(s: seq<T>, key: T -> int, next: int, x: T)
    requires Keyed(s, key, next) && key(x) == next
    ensures Keyed(s + [x], key, next + 1)
  {
    var r := s + [x];
    forall i, j | 0 <= i < j < |r| ensures Before(key)(r[i], r[j]) {
      if j < |s| { assert r[i] == s[i] && r[j] == s[j]; }
    }
  }

  /** Deleting rows keeps a table keyed. */
  lemma KeyedFilter<T(!new)>(s: seq<T>, key: T -> int, next: int, keep: T -> bool)
    requires Keyed(s, key, next)
    ensures Keyed(Query.Filter(s, keep), key, next)
  {
    Query.FilterPairwise(s, keep, Before(key));
    forall k | 0 <= k < |Query.Filter(s, keep)| ensures 1 <= key(Query.Filter(s, keep)[k]) < next {
      Query.FilterMembership(s, keep, Query.Filter(s, keep)[k]);
    }
  }

  /** An update that leaves the key alone keeps a table keyed. */
  lemma KeyedUpdate<T(!new)>(s: seq<T>, key: T -> int, next: int, hit: T -> bool, change: T -> T)
    requires Keyed(s, key, next)
    requires forall x :: key(change(x)) == key(x)
    ensures Keyed(Query.UpdateWhere(s, hit, change), key, next)
  {
    var r := Query.UpdateWhere(s, hit, change);
    forall i, j | 0 <= i < j < |r| ensures Before(key)(r[i], r[j]) {
      assert key(r[i]) == key(s[i]) && key(r[j]) == key(s[j]);
    }
  }

  /** The row of a table with a given key, if any. */
  function UserById(users: seq<User>, id: int): (r: Option<User>)
    ensures r.Some? ==> r.value in users && r.value.id == id
    ensures r.None? <==> forall u :: u in users ==> u.id != id
  {
    Query.Find(users, (u: User) => u.id == id)
  }

  function DepartmentById(departments: seq<Department>, id: int): (r: Option<Department>)
    ensures r.Some? ==> r.value in departments && r.value.id == id
    ensures r.None? <==> forall d :: d in departments ==> d.id != id
  {
    Query.Find(departments, (d: Department) => d.id == id)
  }

  function RecordById(records: seq<Record>, id: int): (r: Option<Record>)
    ensures r.Some? ==> r.value in records && r.value.id == id
    ensures r.None? <==> forall x :: x in records ==> x.id != id
  {
    Query.Find(records, (x: Record) => x.id == id)
  }

  function FileById(files: seq<RecordFile>, id: int): (r: Option<RecordFile>)
    ensures r.Some? ==> r.value in files && r.value.id == id
    ensures r.None? <==> forall f :: f in files ==> f.id != id
  {
    Query.Find(files, (f: RecordFile) => f.id == id)
  }

  /** `LEFT JOIN departments d ON x.department_id = d.id`, the `d.name` column. */
  function DepartmentName(departments: seq<Department>, departmentId: Option<int>): (r: Option<string>)
    ensures r.Some? <==> departmentId.Some? && DepartmentById(departments, departmentId.value).Some?
    ensures r.Some? ==> exists d :: d in departments && SqlEq(departmentId, Some(d.id)) && d.name == r.value
  {
    if departmentId.None? then None
    else match DepartmentById(departments, departmentId.value)
      case None => None
      case Some(d) => Some(d.name)
  }

  /** The office an audit entry of this user is filed under: the name of the user's
      department, or `'Admin Office'` when there is none. */
  function OfficeOf(departments: seq<Department>, user: Option<User>): (office: string)
    ensures user.Some? && DepartmentName(departments, user.value.departmentId).Some? ==>
              office == DepartmentName(departments, user.value.departmentId).value
    ensures user.None? || DepartmentName(departments, user.value.departmentId).None? ==> office == ADMIN_OFFICE
  {
    match user
    case None => ADMIN_OFFICE
    case Some(u) => DepartmentName(departments, u.departmentId).GetOr(ADMIN_OFFICE)
  }

  /** A user as the endpoints show one: every column but `password_hash`, plus the
      joined department name. */
  datatype UserView = UserView(id: int, schoolId: string, fullName: Option<string>, email: Option<string>,
                               role: Option<string>, departmentId: Option<int>,
                               departmentName: Option<string>, createdAt: int)

  function ViewOf(departments: seq<Department>, u: User): (v: UserView)
    ensures v.id == u.id && v.schoolId == u.schoolId && v.fullName == u.fullName && v.email == u.email
    ensures v.role == u.role && v.departmentId == u.departmentId && v.createdAt == u.createdAt
    ensures v.departmentName == DepartmentName(departments, u.departmentId)
  {
    UserView(u.id, u.schoolId, u.fullName, u.email, u.role, u.departmentId,
             DepartmentName(departments, u.departmentId), u.createdAt)
  }

  /** The database every controller shares. */
  class Database {
    var records: seq<Record>
    var files: seq<RecordFile>
    var requests: seq<DocumentRequest>
    var users: seq<User>
    var departments: seq<Department>
    var logs: seq<LogEntry>
    var publicDocuments: seq<PublicDocument>
    /** Names of the uploaded files present in the upload directory. */
    var blobs: set<string>
    var nextRecordId: int
    var nextFileId: int
    var nextRequestId: int
    var nextUserId: int
    var nextDepartmentId: int
    var nextLogId: int

    /** Primary keys and unique indexes hold. */
    predicate Valid()
      reads this
    {
      && Keyed(records, RecordKey, nextRecordId)
      && Keyed(files, FileKey, nextFileId)
      && Keyed(requests, RequestKey, nextRequestId)
      && Keyed(users, UserKey, nextUserId)
      && Keyed(departments, DepartmentKey, nextDepartmentId)
      && Keyed(logs, LogKey, nextLogId)
      && Query.Pairwise(users, DistinctSchoolIds)
      && Query.Pairwise(users, DistinctEmails)
      && Query.Pairwise(departments, DistinctNames)
    }

    /** An empty schema. */
    constructor ()
      ensures Valid()
      ensures records == [] && files == [] && requests == [] && users == []
      ensures departments == [] && logs == [] && publicDocuments == [] && blobs == {}
    {
      records, files, requests, users := [], [], [], [];
      departments, logs, publicDocuments, blobs := [], [], [], {};
      nextRecordId, nextFileId, nextRequestId := 1, 1, 1;
      nextUserId, nextDepartmentId, nextLogId := 1, 1, 1;
    }

    /** `UPDATE users SET password_hash = :hash WHERE id = :id`. */
    method SetPasswordHash(id: int, hash: string)
      requires Valid()
      modifies this`users
      ensures Valid()
      ensures |users| == |old(users)|
      ensures forall k :: 0 <= k < |users| ==>
                users[k] == if old(users)[k].id == id then old(users)[k].(passwordHash := hash) else old(users)[k]
    {
      var change := (u: User) => u.(passwordHash := hash);
      var hit := (u: User) => u.id == id;
      KeyedUpdate(users, UserKey, nextUserId, hit, change);
      var updated := Query.UpdateWhere(users, hit, change);
      forall i, j | 0 <= i < j < |updated|
        ensures DistinctSchoolIds(updated[i], updated[j]) && DistinctEmails(updated[i], updated[j])
      {
        assert DistinctSchoolIds(users[i], users[j]) && DistinctEmails(users[i], users[j]);
      }
      users := updated;
    }

    /** `INSERT INTO record_files`, stamped with the current time. */
    method InsertFile(recordId: int, fileName: string, filePath: string, fileSize: int, uploadedBy: int, now: int)
      returns (id: int)
      requires Valid()
      modifies this`files, this`nextFileId
      ensures Valid()
      ensures id == old(nextFileId)
      ensures files == old(files) + [RecordFile(id, recordId, fileName, filePath, fileSize, uploadedBy, now)]
      ensures nextFileId == old(nextFileId) + 1
    {
      id := nextFileId;
      var row := RecordFile(id, recordId, fileName, filePath, fileSize, uploadedBy, now);
      KeyedAppend(files, FileKey, nextFileId, row);
      files := files + [row];
      nextFileId := nextFileId + 1;
    }

    /** `INSERT INTO activity_logs`, stamped with the current time. */
    method InsertLog(userId: int, office: string, operation: string,
                     recordSeries: Option<string>, details: Option<string>, now: int)
      requires Valid()
      modifies this`logs, this`nextLogId
      ensures Valid()
      ensures logs == old(logs) + [LogEntry(old(nextLogId), userId, office, operation, recordSeries, details, now)]
      ensures nextLogId == old(nextLogId) + 1
    {
      var entry := LogEntry(nextLogId, userId, office, operation, recordSeries, details, now);
      KeyedAppend(logs, LogKey, nextLogId, entry);
      logs := logs + [entry];
      nextLogId := nextLogId + 1;
    }
  }
}
