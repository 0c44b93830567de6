# Records-management backend: a verified model

This project models the PHP backend of a departmental records-management system.
The system has three roles: Admin, Departmental Record Custodian and Staff. They
share one registry of records, departments, users, document requests, file
attachments and an activity log. The model covers the following parts:

- **Session tokens** (`Jwt`, `Base64`). The hand-rolled HS256 JSON Web Token codec:
  - base64url segments (section 5 of RFC 4648) built on a concrete `base64_encode`;
  - PHP's non-strict `base64_decode`;
  - the `iat`/`exp` stamping and the order in which `decode` runs its checks;
  - the one-time cache of the signing secret.
- **The gate** (`AuthMiddleware`). `authenticate` turns the Authorization header into
  the token payload or a 401. `requireRole` adds a 403 for roles it does not list.
- **The controllers** (`RecordsController`, `RequestsController`, `UsersController`,
  `DepartmentsController`, `ActivityLogsController`, `FileUploadController`,
  `AuthController`):
  - Each read is a function over table contents. It authenticates, applies the
    department or ownership scope of the caller's role, then sorts and limits like
    the SQL it sends.
  - Each write is a method on the `Schema.Database` class, whose fields are the
    tables. It states the whole new state of the tables it touches, and keeps the
    database invariant: ids below the next-id counter and strictly increasing,
    unique school ids, e-mails and department names.
- **The router** (`Router`). `api.php` strips the script path, trims and splits the
  request path, then dispatches on the HTTP verb and the path segments to an
  endpoint.

Supporting modules:

- `Common`: statuses, replies, PHP `empty()`, SQL `=` with NULL.
- `Strings`: `explode`, `implode`, `str_replace`, `trim`, `rtrim`, `strtr` and
  `pathinfo` extension.
- `Query`: `WHERE` as a filter, `ORDER BY` as a sorted permutation, `LIMIT`,
  `UPDATE ... WHERE`, first match.

Library code the model cannot see is passed in as function-valued fields:

- HMAC-SHA256 and JSON: `Jwt.Codec`.
- `password_hash` and `password_verify`: `Schema.PasswordHasher`.

The laws these are expected to obey appear only as preconditions of the lemmas that
need them. JSON decoding must undo encoding. A fresh hash must verify its password
(`Schema.HashLaw`).

The clock, `uniqid()`, the password salt, whether `move_uploaded_file` succeeds,
whether an activity-log insert fails, and the id the driver reports after such a
failed insert are all inputs.

The model follows the code where the system's own description asks for more:

- A request's status may be changed from any status, including a final one.
- Only login and file upload write activity-log entries.
- Files are not scoped by department.
- A duplicate e-mail on `updateUser` and a duplicate name on `updateDepartment`
  answer 500, not 409.
- `changePassword` does not check the length of the new password.
- Staff asking for the activity log get 401 for a bad token and 403 only once
  authenticated.

## Model

| member | source | states |
|---|---|---|
| Jwt.ReadSecret | backend/utils/JWT.php:10-19 | a secret is available exactly when the environment value is present and not PHP-empty, and it is that value |
| Jwt.SecretCache.GetSecret | backend/utils/JWT.php:10-19 | once a secret has been cached it is returned without reading the environment again; before that the environment value is read and cached |
| Jwt.Base64UrlEncode | backend/utils/JWT.php:65-67 | the output uses only the base64url alphabet and never contains `+`, `/`, `=` or `.` |
| Jwt.Base64UrlDecode | backend/utils/JWT.php:69-71 | a same-length character map sending `-` to `+` and `_` to `/` and leaving every other character unchanged |
| Jwt.UrlEncodeIsTranslatedUnpadded | backend/utils/JWT.php:65-67 | trimming `=` after the `+/`→`-_` translation leaves the translated unpadded encoding |
| Jwt.UrlDecodeUndoesTranslation | backend/utils/JWT.php:65-71 | `base64UrlDecode` undoes the translation step of `base64UrlEncode`, giving the standard encoding without padding |
| Jwt.UrlRoundTrip | backend/utils/JWT.php:65-71 | `base64_decode(base64UrlDecode(base64UrlEncode(d))) == d` for all bytes `d` |
| Jwt.Encode | backend/utils/JWT.php:21-34 | fails exactly when no secret is configured; otherwise the token splits into exactly three URL-safe segments, the third is the base64url HMAC of the first two joined by `.`, and the second decodes to the JSON of the claims with `iat = now` and `exp = now + expiresIn` (one day by default) |
| Jwt.TokenSegments | backend/utils/JWT.php:27-33 | three URL-safe segments joined by dots split back into exactly those three |
| Jwt.Decode | backend/utils/JWT.php:36-63 | not exactly three segments gives InvalidFormat; a signature mismatch gives InvalidSignature, checked before expiry; a success carries a matching signature and a payload whose `exp` is not before `now` |
| Jwt.DecodeEncode | backend/utils/JWT.php:21-63 | round trip: under the same secret, up to and including the expiry second, decoding an issued token returns its claims with `iat` and `exp` |
| Jwt.ExpiredTokenRefused | backend/utils/JWT.php:58-60 | an issued token decoded after its `exp` second is refused as Expired |
| Jwt.AcceptedAtExpiry | backend/utils/JWT.php:58-60 | a token is still accepted in the very second named by its `exp` |
| Base64.IndexOf | backend/utils/JWT.php:69-71 | every alphabet character has a 6-bit value |
| Base64.CharOf | backend/utils/JWT.php:65-67 | every 6-bit value has an alphabet character whose value is that number (the two tables are inverse) |
| Base64.EncodeUnpadded | backend/utils/JWT.php:65-67 | the unpadded encoding uses only alphabet characters |
| Base64.Padding | backend/utils/JWT.php:65-67 | the padding consists of `=` characters only |
| Base64.FilterKeepsAlphabet | backend/utils/JWT.php:69-71 | the non-strict decoder's filtering keeps an alphabet-only prefix and drops padding after it |
| Base64.DecodeGroup | backend/utils/JWT.php:65-71 | the four characters of each full group decode back to its three bytes |
| Base64.DecodeEncodeUnpadded | backend/utils/JWT.php:65-71 | decoding the unpadded encoding gives the input back, one group at a time |
| Base64.DecodeEncode | backend/utils/JWT.php:65-71 | `base64_decode(base64_encode(s)) == s` |
| Base64.DecodeEncodeWithoutPadding | backend/utils/JWT.php:69-71 | the decoder also accepts the encoding with its padding stripped |
| AuthMiddleware.Authenticate | backend/middleware/AuthMiddleware.php:11-32 | a missing or empty header gives 401; every failure is the same 401; success happens exactly when decoding the bearer-stripped header succeeds, and returns the decoded payload unchanged |
| AuthMiddleware.RequireRole | backend/middleware/AuthMiddleware.php:34-44 | a bad token is always 401, never 403; 403 exactly when the authenticated role is not in the allowed list; a success is the authenticated payload with an allowed role |
| AuthMiddleware.BearerPrefixRemoved | backend/middleware/AuthMiddleware.php:21-22 | `"Bearer " + t` yields `t` for any token without a space |
| AuthMiddleware.BearerRemovedAnywhere | backend/middleware/AuthMiddleware.php:21-22 | removal is not a prefix strip: a header without the scheme passes unchanged and a `"Bearer "` in the middle is removed too |
| AuthMiddleware.IssuedTokenHasNoSpace | backend/utils/JWT.php:27-33 | an issued token contains no space |
| AuthMiddleware.AuthenticateIssuedToken | backend/middleware/AuthMiddleware.php:11-32 | an issued token sent as `Bearer <token>` before expiry with the same secret authenticates as exactly the payload it was issued for |
| RecordsController.Visible | backend/controllers/RecordsController.php:32-36 | the row filter holds exactly for rows in the caller's department scope (all rows for Admin) |
| RecordsController.NewestFirst | backend/controllers/RecordsController.php:37 | a total preorder that orders rows by `created_at` descending |
| RecordsController.GetRecords | backend/controllers/RecordsController.php:22-55 | 401 exactly when authentication fails; otherwise the rows are sorted by `created_at` descending and are exactly the in-scope rows, with multiplicity |
| RecordsController.ListingFacts | backend/controllers/RecordsController.php:32-43 | the listing is sorted newest first and its multiset is the in-scope part of the table |
| RecordsController.GetRecordsScope | backend/controllers/RecordsController.php:32-36 | a non-Admin only sees rows of their own department, and rows of other departments have no influence on the answer |
| RecordsController.Wanted | backend/controllers/RecordsController.php:64-80 | the lookup predicate holds exactly for the row with that id inside the caller's scope |
| RecordsController.OfRecord | backend/controllers/RecordsController.php:92-96 | the file filter holds exactly for files of that record |
| RecordsController.GetRecord | backend/controllers/RecordsController.php:60-105 | 401 for a bad token; success exactly when an in-scope row with that id exists, otherwise 404; the answer is that row plus exactly the file rows with that `record_id` |
| RecordsController.GetRecordHidesOtherDepartments | backend/controllers/RecordsController.php:64-89 | the answer is the same as if out-of-scope rows did not exist, so an absent id and another department's id are indistinguishable |
| RecordsController.OwningDepartment | backend/controllers/RecordsController.php:115 | Admin's payload department is kept; anyone else gets their own department |
| RecordsController.CreateRecord | backend/controllers/RecordsController.php:110-163 | 401 with no change for a bad token; otherwise exactly one row is appended with the next id, the caller as creator and the owning department |
| RecordsController.CreatedRecordReadable | backend/controllers/RecordsController.php:110-163 | a record a non-Admin creates can then be read back by that non-Admin with `getRecord` |
| RecordsController.Revise | backend/controllers/RecordsController.php:173-205 | the update replaces the descriptive fields and the disposal date, nothing else |
| RecordsController.UpdateRecord | backend/controllers/RecordsController.php:168-227 | 200 for any authenticated caller; only the in-scope row with that id is revised, and id, department, creator and creation time of every row are unchanged |
| RecordsController.DeleteRecord | backend/controllers/RecordsController.php:232-266 | 403 with no change unless the role is Admin or Custodian; otherwise 200, even when nothing matched, and exactly the in-scope rows with that id are gone |
| RecordsController.EarliestFirst | backend/controllers/RecordsController.php:286 | a total preorder that orders rows by disposal date ascending |
| RecordsController.RemindersFacts | backend/controllers/RecordsController.php:278-286 | the reminders are exactly the in-scope rows due by today, sorted by disposal date ascending |
| RecordsController.GetDisposalReminders | backend/controllers/RecordsController.php:271-304 | 401 exactly when authentication fails; otherwise every row has a disposal date no later than today, the rows ascend by that date, and they are exactly the due in-scope rows |
| RecordsController.GetPublicDocuments | backend/controllers/RecordsController.php:309-338 | only Staff are filtered by department; everyone else gets every published document in order |
| RequestsController.LatestFirst | backend/controllers/DocumentRequestsController.php:43 | a total preorder that orders requests by `request_date` descending |
| RequestsController.GetRequests | backend/controllers/DocumentRequestsController.php:23-61 | 401 exactly when authentication fails; otherwise sorted by request date descending and exactly the listed requests: joined to an existing record and requester, and the caller's own unless Admin |
| RequestsController.GetRequestsOwnOnly | backend/controllers/DocumentRequestsController.php:39-49 | a non-Admin sees only requests they made |
| RequestsController.GetRequestsDropsOrphans | backend/controllers/DocumentRequestsController.php:31-36 | a request whose record no longer exists is never listed |
| RequestsController.CreateRequest | backend/controllers/DocumentRequestsController.php:66-99 | an empty record id or purpose gives 400 with no insert; otherwise one Pending request is appended with the caller as requester |
| RequestsController.Decide | backend/controllers/DocumentRequestsController.php:122-126 | a decision sets status, approver and approval date and nothing else |
| RequestsController.UpdateRequestStatus | backend/controllers/DocumentRequestsController.php:104-142 | non-Admins get the gate's 401 or 403; an empty or unknown status gives 400 with no change; otherwise the request with that id gets the status, the caller as approver and now as approval date, whatever its previous status |
| UsersController.NewestFirst | backend/controllers/UsersController.php:30 | a total preorder that orders users by `created_at` descending |
| UsersController.Views | backend/controllers/UsersController.php:26-29 | each user is shown through its hash-free view |
| UsersController.ListingFacts | backend/controllers/UsersController.php:26-30 | the listing is a permutation of the users' views (one per user), sorted newest first |
| UsersController.GetUsers | backend/controllers/UsersController.php:22-43 | Admin-only; a permutation of the users' hash-free views, sorted by `created_at` descending |
| UsersController.Enrol | backend/controllers/UsersController.php:76-88 | appends exactly one user with the next id and keeps the database invariant |
| UsersController.CheckNewUser | backend/controllers/UsersController.php:52-71 | the fields are accepted exactly when none is empty, the role is one of the three and the password has length 4; every refusal is 400 |
| UsersController.CreateUser | backend/controllers/UsersController.php:48-105 | Admin-only; invalid fields give 400; 409 exactly when the school id or e-mail is already taken, with no insert; a valid, non-clashing request from an Admin always succeeds, appending one row whose stored hash verifies the password |
| UsersController.Amendment | backend/controllers/UsersController.php:115-128 | an update changes name, e-mail, role and department only |
| UsersController.AmendKeepsDistinct | backend/controllers/UsersController.php:115-128 | an update that does not take another user's e-mail keeps school ids and e-mails unique |
| UsersController.Amend | backend/controllers/UsersController.php:115-128 | only the row with that id changes, and only in those four columns |
| UsersController.UpdateUser | backend/controllers/UsersController.php:110-139 | Admin-only; an e-mail taken by another user gives 500 with no change; otherwise the row with that id changes in those four columns only; the role is not validated |
| UsersController.DeleteUser | backend/controllers/UsersController.php:144-160 | Admin-only; exactly the rows with that id are removed |
| UsersController.ResetPassword | backend/controllers/UsersController.php:165-198 | Admin-only; an empty or non-4-character password gives 400 with no change; a 4-character password from an Admin always succeeds, and then only that user's hash changes, and it verifies the new password |
| DepartmentsController.ByName | backend/controllers/DepartmentsController.php:26 | a total preorder that orders departments by name ascending |
| DepartmentsController.GetDepartments | backend/controllers/DepartmentsController.php:22-38 | open to every authenticated caller; a permutation of the table sorted by name |
| DepartmentsController.Found | backend/controllers/DepartmentsController.php:54-57 | appends exactly one department with the next id and keeps names unique |
| DepartmentsController.CreateDepartment | backend/controllers/DepartmentsController.php:43-74 | Admin-only; an empty name gives 400; 409 exactly when the name exists; an unused non-empty name from an Admin always succeeds, appending one row |
| DepartmentsController.RenameKeepsDistinct | backend/controllers/DepartmentsController.php:90-94 | renaming to a name no other department has keeps names unique |
| DepartmentsController.UpdateDepartment | backend/controllers/DepartmentsController.php:79-103 | Admin-only; an empty name gives 400; a name taken by another department gives 500; no change on failure; a non-empty name no other department holds always succeeds for an Admin, and only that department's name changes |
| DepartmentsController.DeleteDepartment | backend/controllers/DepartmentsController.php:108-124 | Admin-only; exactly the row with that id is removed |
| DepartmentsController.DocumentCount | backend/controllers/DepartmentsController.php:133-142 | the count is the number of records whose department equals that id, zero included |
| DepartmentsController.RowOf | backend/controllers/DepartmentsController.php:133-142 | each department yields its name with its record count |
| DepartmentsController.ByDepartment | backend/controllers/DepartmentsController.php:142 | a total preorder that orders analytics rows by department name |
| DepartmentsController.GetDepartmentAnalytics | backend/controllers/DepartmentsController.php:129-160 | 401 exactly when authentication fails; otherwise one row per covered department with its record count, sorted by name |
| DepartmentsController.AnalyticsRowsCounted | backend/controllers/DepartmentsController.php:133-148 | every analytics row is a covered department's name with its true record count |
| DepartmentsController.NonAdminSeesOneDepartment | backend/controllers/DepartmentsController.php:138-148 | a non-Admin's analytics holds at most one row |
| ActivityLogsController.LatestFirst | backend/controllers/ActivityLogsController.php:44 | a total preorder that orders entries by time descending |
| ActivityLogsController.SelectedFacts | backend/controllers/ActivityLogsController.php:34-50 | the selection has at most 1000 entries, is newest first, holds only shown entries, and takes each entry at most as often as the log holds it |
| ActivityLogsController.GetLogs | backend/controllers/ActivityLogsController.php:23-62 | 401 for a bad token; 403 exactly for Staff; every other caller succeeds, with at most 1000 entries, newest first, all within scope, drawn from the log |
| ActivityLogsController.GetLogsUnfiltered | backend/controllers/ActivityLogsController.php:39-41 | a caller who is neither Staff nor Custodian (the Admin) sees every entry whose user still exists, when there are at most 1000 |
| ActivityLogsController.GetLogsKeepsNewest | backend/controllers/ActivityLogsController.php:44 | a shown entry is left out only when 1000 entries at least as recent were returned |
| ActivityLogsController.SelectedKeepsNewest | backend/controllers/ActivityLogsController.php:44 | the limit keeps the newest shown entries |
| ActivityLogsController.GetLogsCustodianScope | backend/controllers/ActivityLogsController.php:40-50 | a Custodian sees only entries of existing users in their own department |
| FileUploadController.StoredNameKeepsExtension | backend/controllers/FileUploadController.php:58-59 | the stored name keeps the client name's extension |
| FileUploadController.Validate | backend/controllers/FileUploadController.php:32-54 | an upload passes exactly when file and record id are present, the error code is OK and the size is at most 10 MiB; every refusal is 400 |
| FileUploadController.NewFileFound | backend/controllers/FileUploadController.php:68-77 | a file row inserted under the next key is the row a lookup by its id returns |
| FileUploadController.Store | backend/controllers/FileUploadController.php:63-80 | one blob and one file row are added, plus one Upload log entry unless logging fails; the returned id finds the new row |
| FileUploadController.UploadFile | backend/controllers/FileUploadController.php:29-93 | as written: 401, 400 or 500 leave every table unchanged; success exactly when authenticated, valid and moved; then one file row with the caller as uploader, the stored name, and one `File: <name>` log entry unless logging fails; the reported `file_id` is the new log entry's id, which misses the new file row whenever the two next ids differ |
| FileUploadController.UploadFileIntended | backend/controllers/FileUploadController.php:29-93 | the same outcomes and new state, but the reported `file_id` finds exactly the new file row |
| FileUploadController.UploadReplyNamesLogRow | backend/controllers/FileUploadController.php:80-85 | after a logged upload the reported id is the new log entry's, and it finds the new file row exactly when the two ids coincide |
| FileUploadController.LatestFirst | backend/controllers/FileUploadController.php:106 | a total preorder that orders files by upload date descending |
| FileUploadController.AttachmentsFacts | backend/controllers/FileUploadController.php:102-112 | the list is ordered by upload date descending and holds each attached row as often as the table does, and nothing else |
| FileUploadController.GetFiles | backend/controllers/FileUploadController.php:98-120 | 401 exactly when authentication fails; otherwise exactly the files of that record whose uploader exists, newest first |
| FileUploadController.GetFilesIgnoresScope | backend/controllers/FileUploadController.php:98-120 | every authenticated caller gets the same files |
| FileUploadController.Remove | backend/controllers/FileUploadController.php:143-152 | removes exactly the file rows with that id and the named blob |
| FileUploadController.DeleteFile | backend/controllers/FileUploadController.php:125-161 | 401 for a bad token; 404 with no change for an unknown id; otherwise the row and its blob are removed and nothing is logged |
| FileUploadController.DeletedFileGone | backend/controllers/FileUploadController.php:143-146 | after the delete no file with that id remains |
| Schema.OfficeOf | backend/controllers/FileUploadController.php:163-185 | the office logged is the user's department name, or `Admin Office` when there is none |
| Schema.ViewOf | backend/controllers/AuthController.php:103-109 | the view keeps every column but the password hash and adds the department name |
| Schema.UserById | backend/controllers/AuthController.php:135-140 | finds a user with that id exactly when one exists |
| Schema.FileById | backend/controllers/FileUploadController.php:130-140 | finds a file with that id exactly when one exists |
| Schema.Database.SetPasswordHash | backend/controllers/UsersController.php:183-189 | only the hash of the rows with that id changes; the invariant holds |
| Schema.Database.InsertFile | backend/controllers/FileUploadController.php:68-76 | appends one file row with the next id |
| Schema.Database.InsertLog | backend/controllers/AuthController.php:165-178 | appends one log entry with the next id |
| AuthController.AccountOf | backend/controllers/AuthController.php:34-43 | finds an account with that school id exactly when one exists |
| AuthController.CheckCredentials | backend/controllers/AuthController.php:45-49 | succeeds exactly when the account exists and the password verifies against its hash |
| AuthController.AccountOfUnique | backend/controllers/AuthController.php:34-43 | with unique school ids the lookup finds that very user |
| AuthController.StoredPasswordLogsIn | backend/controllers/AuthController.php:34-49 | a user whose hash was made from a password logs in with it |
| AuthController.ClaimsOf | backend/controllers/AuthController.php:55-61 | token claims are the user's id, school id, role, department and name |
| AuthController.Login | backend/controllers/AuthController.php:24-83 | empty fields give 400 and only they do; 401, with no log entry, exactly when the school id is unknown or the password wrong; otherwise one Login entry with the user's office (unless logging fails) and a token for the user's claims with the hash-free view |
| AuthController.LoginTokenAuthenticates | backend/controllers/AuthController.php:55-61 | the token issued at login authenticates as that user's id, role and department for one day |
| AuthController.GetProfile | backend/controllers/AuthController.php:88-118 | 401 for a bad token; for a valid one, 200 exactly when the caller's row exists (404 otherwise), with the caller's hash-free view |
| AuthController.ChangePassword | backend/controllers/AuthController.php:123-163 | 401 for a bad token; 400 for missing fields; 401 with no change unless the old password verifies; otherwise only the caller's hash changes, with no length check, and it verifies the new password |
| Router.Segments | backend/api.php:44-48 | the normalised path has at least one segment and no segment contains `/` |
| Router.SegmentsOfRequestPath | backend/api.php:44-48 | a request path under the script path normalises back to exactly its segments |
| Router.NumericHasDigit | backend/api.php:75 | a numeric string contains a digit |
| Router.DecimalIsNumeric | backend/api.php:75 | every decimal id is numeric |
| Router.Dispatch | backend/api.php:52-167 | unknown resource gives API-not-found; `disposal-reminders` and `public` win over an id; only a numeric id reaches `getRecord`; every POST under records or users creates; PUT and DELETE need a second segment; `activity-logs` accepts only GET |
| Router.Route | backend/api.php:14-167 | OPTIONS is answered before routing; the reset-password endpoint is never reached |
| Router.GetRecordByNumber | backend/api.php:75-76 | `GET /records/<n>` reaches `getRecord` for every decimal `n` |
| Router.ResetPasswordShadowed | backend/api.php:111-118 | `POST /users/<n>/reset-password` reaches `createUser`, while the intended router reaches `resetPassword` |
| Router.IntendedDispatch | backend/api.php:107-123 | the corrected dispatch sends `POST users/<id>/reset-password` to `resetPassword` and agrees with the code everywhere else |
| Router.IntendedRoute | backend/api.php:14-167 | the corrected router differs from the code only on that reset-password path |
| Strings.Split | backend/utils/JWT.php:37 | `explode`: one more part than separators, none holding the separator, and joining them gives the input back |
| Strings.SplitJoin | backend/api.php:48 | splitting joined separator-free parts gives the parts back |
| Strings.ReplaceAllAbsent | backend/middleware/AuthMiddleware.php:22 | `str_replace` leaves text without the pattern unchanged |
| Strings.AfterLastExtend | backend/controllers/FileUploadController.php:58 | the text after the last separator grows by any separator-free suffix |
| Strings.ExtensionOfAppended | backend/controllers/FileUploadController.php:58-59 | `pathinfo` of `prefix.ext` gives back `ext` |
| Strings.NatToStringValue | backend/api.php:75 | the decimal rendering of an id reads back to that id |
| Query.Filter | backend/controllers/RecordsController.php:32-36 | `WHERE`: keeps exactly the matching rows, with multiplicity, in order |
| Query.SortBy | backend/controllers/RecordsController.php:37 | `ORDER BY`: a sorted permutation of its input |
| Query.Take | backend/controllers/ActivityLogsController.php:44 | `LIMIT n`: the first `min(n, length)` rows |
| Query.TakeLeavesLater | backend/controllers/ActivityLogsController.php:44 | a row a sorted `LIMIT` cuts off comes after every kept row |
| Query.UpdateWhere | backend/controllers/UsersController.php:120-128 | `UPDATE ... WHERE`: changes exactly the matching rows |
| Query.FilterPairwise | backend/controllers/RecordsController.php:232-260 | deleting rows keeps every pairwise uniqueness invariant |

## Left out

- HMAC-SHA256, `json_encode` and `json_decode` are abstract fields of `Jwt.Codec`, so no property depends on their internals. A payload that is not valid JSON decodes to null, which `decode` reports as expired (`null->exp < time()`).
- `password_hash` and `password_verify` are the abstract `Schema.PasswordHasher`. The salt that makes hashes random is an input.
- Jwt.Encode: `time()` is read twice in the source; the model reads the clock once (`now`), so `iat` and `exp` come from the same second.
- The database is a set of in-memory tables:
  - No foreign keys or cascades. Deleting a department or user leaves rows that point at it, and the reads' joins drop them.
  - Case-insensitive collation of names, school ids and e-mails is not modelled. Uniqueness is exact string inequality. `ORDER BY name` in `DepartmentsController.ByName` and `DepartmentsController.ByDepartment` compares code points, so "Banana" sorts before "apple" where MySQL would put it after.
  - NOT NULL violations are not modelled.
  - Whether a failed log insert consumes an auto-increment id is not modelled: a failure leaves the counter unchanged.
- Columns the model does not keep: `updated_at`, `profile_picture_url`, and joined display names such as `department_name`, `created_by_name`, `uploaded_by_name` and `record_title`. The one exception is the profile view's department name.
- `calculated_disposal_date` is computed by the database from the retention period. The model takes it as an input of `CreateRecord` and `UpdateRecord`.
- The router passes raw segment strings; controllers take integer ids. MySQL's implicit cast of a segment such as `5abc` is not modelled.
- `parse_url`, HTTP headers, CORS, `.env` loading and `backend/config/database.php` are not part of this model. The request path is given as a string.
- The response bodies are not modelled: each reply carries the status and the entity, not the JSON text or the raw exception message.
- `strlen` counts bytes; the model counts characters, which coincide for ASCII passwords.
- PHP loose comparison and JSON values of an unexpected type in request bodies are not modelled. Each body field has one type: text fields are strings or absent; `record_id` and `department_id` are integers or absent. A string such as `"5"` or `""` in an id field cannot be represented.
- A blob written by `move_uploaded_file` before a failed insert is not modelled: the insert always succeeds once the move has.
- `basename` with trailing slashes is not modelled.

## Findings

| source | as written | input that shows it | evidently intended | confidence | as-written member | corrected member |
|---|---|---|---|---|---|---|
| backend/api.php:111-118 | the `POST` branch for `users` comes before the reset-password branch and matches every POST, so the reset-password branch is unreachable | `POST /backend/api.php/users/5/reset-password` reaches `createUser` | the reset-password path reaches `resetPassword` with id `5` | high, not executed | Router.ResetPasswordShadowed | Router.IntendedRoute |
| backend/controllers/FileUploadController.php:77-85 | the reply's `file_id` is `lastInsertId()`, read after `logActivity` has run its own INSERT into `activity_logs` on the same connection | a Staff member logs in (log entry 1) and uploads the first file (file row 1, log entry 2): the reply says `file_id` 2, which names no file | the id of the new `record_files` row | high, not executed | FileUploadController.UploadReplyNamesLogRow | FileUploadController.UploadFileIntended |
