/** backend/controllers/FileUploadController.php: files attached to records. The
    upload directory is the `blobs` set of stored names; `uniqid()`, `time()`, the
    outcome of `move_uploaded_file` and of the audit INSERT are inputs. */
module FileUploadController {
  import opened Common
  import opened Strings
  import Query
  import opened Schema
  import opened Jwt
  import opened AuthMiddleware

  /** `UPLOAD_ERR_OK`. */
  const UPLOAD_ERR_OK: int := 0

  /** The size limit, 10 MiB; a file of exactly this size is accepted. */
  const MAX_FILE_SIZE: int := 10 * 1024 * 1024

  /** The `$_FILES['file']` entry: client file name, size in bytes, error code. */
  datatype Upload = Upload(name: string, size: int, errorCode: int)

  /** What a successful upload answers with (201): the `file_id` it reports and
      the stored name. */
  datatype UploadReceipt = UploadReceipt(fileId: int, filename: string)

  /** `uniqid() . '_' . time() . '.' . $extension`. */
  function StoredName(uniqueId: string, now: int, clientName: string): string {
    uniqueId + "_" + IntToString(now) + "." + Extension(clientName)
  }

  /** The stored name keeps the extension of the client's file name, and nothing
      else of that name. */
  lemma StoredNameKeepsExtension(uniqueId: string, now: int, clientName: string)
    ensures Extension(StoredName(uniqueId, now, clientName)) == Extension(clientName)
  {
    ExtensionOfAppended(uniqueId + "_" + IntToString(now), Extension(clientName));
  }

  /** The checks `uploadFile` makes before touching storage, in order. */
  function Validate(file: Option<Upload>, recordId: Option<int>): (s: Status)
    ensures s == OK <==> file.Some? && recordId.Some? && file.value.errorCode == UPLOAD_ERR_OK
                         && file.value.size <= MAX_FILE_SIZE
    ensures s != OK ==> s == BadRequest
  {
    if file.None? || recordId.None? then BadRequest
    else if file.value.errorCode != UPLOAD_ERR_OK then BadRequest
    else if file.value.size > MAX_FILE_SIZE then BadRequest
    else OK
  }

  /** A file row inserted under the next key is the one its id finds. */
  lemma NewFileFound(files: seq<RecordFile>, row: RecordFile)
    requires Keyed(files, FileKey, row.id)
    ensures FileById(files + [row], row.id) == Some(row)
  {
    assert forall f :: f in files ==> f.id < row.id;
    assert row in files + [row];
  }

  /** The storage steps of a validated upload by user `caller`: the file lands in
      the upload directory under `name`, its row is inserted, and an `Upload` entry
      is logged under the caller's office unless that INSERT fails. */
  method Store(db: Database, caller: int, file: Upload, recordId: int, name: string, now: int, logFails: bool)
    returns (id: int)
    requires db.Valid()
    modifies db`files, db`nextFileId, db`blobs, db`logs, db`nextLogId
    ensures db.Valid()
    ensures id == old(db.nextFileId)
    ensures db.blobs == old(db.blobs) + {name}
    ensures db.files == old(db.files) + [RecordFile(id, recordId, file.name, name, file.size, caller, now)]
    ensures db.nextFileId == old(db.nextFileId) + 1
    ensures FileById(db.files, id) == Some(db.files[|db.files| - 1])
    ensures logFails ==> db.logs == old(db.logs) && db.nextLogId == old(db.nextLogId)
    ensures !logFails ==>
              db.logs == old(db.logs) + [LogEntry(old(db.nextLogId), caller,
                                                  OfficeOf(db.departments, UserById(db.users, caller)),
                                                  "Upload", None, Some("File: " + file.name), now)]
  {
    db.blobs := db.blobs + {name};
    id := db.InsertFile(recordId, file.name, name, file.size, caller, now);
    NewFileFound(old(db.files), db.files[|db.files| - 1]);
    if !logFails {
      db.InsertLog(caller, OfficeOf(db.departments, UserById(db.users, caller)), "Upload", None,
                   Some("File: " + file.name), now);
    }
  }

  /** `uploadFile` as evidently intended: after authentication and the checks of
      `Validate`, the file is moved into the upload directory (a failed move is a
      500) and stored by `Store`; the reply is 201 with the id of the new file row,
      by which that row is found, and the stored name. */
  method UploadFileIntended(db: Database, ctx: Context, file: Option<Upload>, recordId: Option<int>,
                            uniqueId: string, now: int, moved: bool, logFails: bool)
    returns (r: Reply<UploadReceipt>)
    requires db.Valid()
    modifies db`files, db`nextFileId, db`blobs, db`logs, db`nextLogId
    ensures db.Valid()
    ensures Authenticate(ctx).Error? ==> r == Error(Unauthorized)
    ensures Authenticate(ctx).Ok? && Validate(file, recordId) != OK ==> r == Error(BadRequest)
    ensures Authenticate(ctx).Ok? && Validate(file, recordId) == OK && !moved ==> r == Error(InternalError)
    ensures r.Ok? <==> Authenticate(ctx).Ok? && Validate(file, recordId) == OK && moved
    ensures r.Error? ==>
              && db.files == old(db.files) && db.nextFileId == old(db.nextFileId) && db.blobs == old(db.blobs)
              && db.logs == old(db.logs) && db.nextLogId == old(db.nextLogId)
    ensures r.Ok? ==>
              && r.value == UploadReceipt(old(db.nextFileId), StoredName(uniqueId, now, file.value.name))
              && db.blobs == old(db.blobs) + {r.value.filename}
              && db.files == old(db.files) + [RecordFile(r.value.fileId, recordId.value, file.value.name, r.value.filename,
                                                         file.value.size, Authenticate(ctx).value.claims.userId, now)]
              && db.nextFileId == old(db.nextFileId) + 1
    ensures r.Ok? && logFails ==> db.logs == old(db.logs) && db.nextLogId == old(db.nextLogId)
    ensures r.Ok? && !logFails ==>
              var caller := Authenticate(ctx).value.claims.userId;
              db.logs == old(db.logs) + [LogEntry(old(db.nextLogId), caller,
                                                  OfficeOf(db.departments, UserById(db.users, caller)),
                                                  "Upload", None, Some("File: " + file.value.name), now)]
    ensures r.Ok? ==> FileById(db.files, r.value.fileId) == Some(db.files[|db.files| - 1])
  {
    var auth := Authenticate(ctx);
    if auth.Error? {
      r := Error(auth.status);
    } else if Validate(file, recordId) != OK {
      r := Error(BadRequest);
    } else if !moved {
      r := Error(InternalError);
    } else {
      var name := StoredName(uniqueId, now, file.value.name);
      var id := Store(db, auth.value.claims.userId, file.value, recordId.value, name, now, logFails);
      r := Ok(UploadReceipt(id, name));
    }
  }

  /** `uploadFile` as written: the same steps and the same new state as
      `UploadFileIntended`, but the reply's `file_id` is `lastInsertId()` read after
      `logActivity` has run its own INSERT on the connection. When that INSERT
      succeeds the reply names the new activity-log row, so it finds no file or
      another one whenever the two tables' next ids differ; when it fails, the
      reply is whatever the driver reports, the input `driverId`. */
  method UploadFile(db: Database, ctx: Context, file: Option<Upload>, recordId: Option<int>,
                    uniqueId: string, now: int, moved: bool, logFails: bool, driverId: int)
    returns (r: Reply<UploadReceipt>)
    requires db.Valid()
    modifies db`files, db`nextFileId, db`blobs, db`logs, db`nextLogId
    ensures db.Valid()
    ensures Authenticate(ctx).Error? ==> r == Error(Unauthorized)
    ensures Authenticate(ctx).Ok? && Validate(file, recordId) != OK ==> r == Error(BadRequest)
    ensures Authenticate(ctx).Ok? && Validate(file, recordId) == OK && !moved ==> r == Error(InternalError)
    ensures r.Ok? <==> Authenticate(ctx).Ok? && Validate(file, recordId) == OK && moved
    ensures r.Error? ==>
              && db.files == old(db.files) && db.nextFileId == old(db.nextFileId) && db.blobs == old(db.blobs)
              && db.logs == old(db.logs) && db.nextLogId == old(db.nextLogId)
    ensures r.Ok? ==>
              && r.value == UploadReceipt(LastInsertId(old(db.nextLogId), logFails, driverId),
                                          StoredName(uniqueId, now, file.value.name))
              && db.blobs == old(db.blobs) + {r.value.filename}
              && db.files == old(db.files) + [RecordFile(old(db.nextFileId), recordId.value, file.value.name,
                                                         r.value.filename, file.value.size,
                                                         Authenticate(ctx).value.claims.userId, now)]
              && db.nextFileId == old(db.nextFileId) + 1
    ensures r.Ok? && logFails ==> db.logs == old(db.logs) && db.nextLogId == old(db.nextLogId)
    ensures r.Ok? && !logFails ==>
              var caller := Authenticate(ctx).value.claims.userId;
              db.logs == old(db.logs) + [LogEntry(old(db.nextLogId), caller,
                                                  OfficeOf(db.departments, UserById(db.users, caller)),
                                                  "Upload", None, Some("File: " + file.value.name), now)]
    ensures r.Ok? && !logFails ==> r.value.fileId == db.logs[|db.logs| - 1].id
    ensures r.Ok? && !logFails && old(db.nextLogId) != old(db.nextFileId) ==>
              FileById(db.files, r.value.fileId) != Some(db.files[|db.files| - 1])
  {
    var logId := db.nextLogId;
    r := UploadFileIntended(db, ctx, file, recordId, uniqueId, now, moved, logFails);
    if r.Ok? {
      r := Ok(r.value.(fileId := LastInsertId(logId, logFails, driverId)));
    }
  }

  /** `$this->conn->lastInsertId()` once `logActivity` has run: the id of the
      activity-log row it inserted, or, when that INSERT failed, `driverId`. */
  function LastInsertId(logId: int, logFails: bool, driverId: int): int {
    if logFails then driverId else logId
  }

  /** The discrepancy of `UploadFile`: after a logged upload, the id it reports is
      the new activity-log row's, and looking it up among the files never yields
      the row just inserted unless the two counters happened to agree. */
  lemma UploadReplyNamesLogRow(files: seq<RecordFile>, row: RecordFile, logs: seq<LogEntry>,
                               entry: LogEntry, driverId: int)
    requires Keyed(files, FileKey, row.id) && Keyed(logs, LogKey, entry.id)
    ensures LastInsertId(entry.id, false, driverId) == (logs + [entry])[|logs|].id
    ensures FileById(files + [row], LastInsertId(entry.id, false, driverId)) == Some(row)
            <==> row.id == entry.id
  {
    if row.id == entry.id {
      NewFileFound(files, row);
    }
  }

  /** The rows `getFiles` returns: the record's files whose uploader still exists
      (the join with `users` is an inner join). */
  predicate Attached(users: seq<User>, recordId: int, f: RecordFile) {
    f.recordId == recordId && UserById(users, f.uploadedBy).Some?
  }

  function UploadDateOf(f: RecordFile): int { f.uploadDate }

  /** `ORDER BY rf.upload_date DESC`. */
  function LatestFirst(): (le: (RecordFile, RecordFile) -> bool)
    ensures Query.TotalPreorder(le)
    ensures forall a, b :: le(a, b) <==> a.uploadDate >= b.uploadDate
  {
    Query.ByColumn(UploadDateOf, Query.Descending())
  }

  /** The list `getFiles` returns: the attached rows, latest upload first. */
  function Attachments(files: seq<RecordFile>, users: seq<User>, recordId: int): seq<RecordFile> {
    Query.SortBy(Query.Filter(files, (f: RecordFile) => Attached(users, recordId, f)), LatestFirst())
  }

  /** The list is ordered by upload date, newest first, and holds each attached
      row as often as the table does and nothing else. */
  lemma AttachmentsFacts(files: seq<RecordFile>, users: seq<User>, recordId: int)
    ensures var r := Attachments(files, users, recordId);
            forall i, j :: 0 <= i < j < |r| ==> r[i].uploadDate >= r[j].uploadDate
    ensures forall x :: multiset(Attachments(files, users, recordId))[x]
                        == (if Attached(users, recordId, x) then multiset(files)[x] else 0)
  {
    var kept := Query.Filter(files, (f: RecordFile) => Attached(users, recordId, f));
    var r, le := Attachments(files, users, recordId), LatestFirst();
    assert multiset(r) == multiset(kept);
    forall i, j | 0 <= i < j < |r| ensures r[i].uploadDate >= r[j].uploadDate {
      assert le(r[i], r[j]);
    }
  }

  /** `getFiles($record_id)`. */
  function GetFiles(ctx: Context, files: seq<RecordFile>, users: seq<User>, recordId: int): (r: Reply<seq<RecordFile>>)
    ensures r.Error? <==> Authenticate(ctx).Error?
    ensures r.Error? ==> r.status == Unauthorized
    ensures r.Ok? ==> forall i, j :: 0 <= i < j < |r.value| ==> r.value[i].uploadDate >= r.value[j].uploadDate
    ensures r.Ok? ==>
              forall x :: multiset(r.value)[x] == (if Attached(users, recordId, x) then multiset(files)[x] else 0)
  {
    match Authenticate(ctx)
    case Error(s) => Error(s)
    case Ok(_) =>
      AttachmentsFacts(files, users, recordId);
      Ok(Attachments(files, users, recordId))
  }

  /** Unlike the records themselves, a record's files are not confined to the
      caller's department: any two authenticated callers get the same list. */
  lemma GetFilesIgnoresScope(ctx1: Context, ctx2: Context, files: seq<RecordFile>, users: seq<User>, recordId: int)
    requires Authenticate(ctx1).Ok? && Authenticate(ctx2).Ok?
    ensures GetFiles(ctx1, files, users, recordId) == GetFiles(ctx2, files, users, recordId)
  {
  }

  /** The DELETE of `deleteFile` and the `unlink` of the stored copy. */
  method Remove(db: Database, fileId: int, storedName: string)
    requires db.Valid()
    modifies db`files, db`blobs
    ensures db.Valid()
    ensures db.blobs == old(db.blobs) - {storedName}
    ensures forall f :: multiset(db.files)[f] == if f.id == fileId then 0 else multiset(old(db.files))[f]
  {
    var keep := (x: RecordFile) => x.id != fileId;
    KeyedFilter(db.files, FileKey, db.nextFileId, keep);
    db.files := Query.Filter(db.files, keep);
    db.blobs := db.blobs - {storedName};
  }

  /** `deleteFile($file_id)`: a file that does not exist is a 404; otherwise its row
      and its stored copy go, whoever the caller is. Nothing is logged. */
  method DeleteFile(db: Database, ctx: Context, fileId: int) returns (s: Status)
    requires db.Valid()
    modifies db`files, db`blobs
    ensures db.Valid()
    ensures Authenticate(ctx).Error? ==> s == Unauthorized
    ensures Authenticate(ctx).Ok? && FileById(old(db.files), fileId).None? ==> s == NotFound
    ensures s != OK ==> db.files == old(db.files) && db.blobs == old(db.blobs)
    ensures s == OK <==> Authenticate(ctx).Ok? && FileById(old(db.files), fileId).Some?
    ensures s == OK ==>
              && db.blobs == old(db.blobs) - {FileById(old(db.files), fileId).value.filePath}
              && forall f :: multiset(db.files)[f] == if f.id == fileId then 0 else multiset(old(db.files))[f]
  {
    match Authenticate(ctx)
    case Error(e) =>
      s := e;
    case Ok(_) =>
      match FileById(db.files, fileId)
      case None =>
        s := NotFound;
      case Some(f) =>
        Remove(db, fileId, f.filePath);
        s := OK;
  }

  /** After a successful delete no row of the table has that id any more. */
  lemma DeletedFileGone(files: seq<RecordFile>, fileId: int)
    ensures FileById(Query.Filter(files, (x: RecordFile) => x.id != fileId), fileId).None?
  {
    var rest := Query.Filter(files, (x: RecordFile) => x.id != fileId);
    forall f | f in rest ensures f.id != fileId {
      Query.FilterMembership(files, (x: RecordFile) => x.id != fileId, f);
    }
  }
}
