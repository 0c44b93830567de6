/** Values shared by every layer of the records backend: optional values, HTTP
    statuses, PHP's notion of an "empty" request field and SQL's NULL-aware equality. */
module Common {

  datatype Option<+T> = None | Some(value: T) {
    function GetOr(default: T): T {
      match this
      case Some(v) => v
      case None => default
    }
  }

  /** A PHP string is a sequence of bytes; each byte is one `char` below 256 here. */
  type Byte = b: int | 0 <= b < 256
  type Bytes = seq<Byte>

  /** The HTTP statuses the endpoints answer with. */
  datatype Status = OK | Created | BadRequest | Unauthorized | Forbidden | NotFound | Conflict | InternalError {
    function Code(): int {
      match this
      case OK => 200
      case Created => 201
      case BadRequest => 400
      case Unauthorized => 401
      case Forbidden => 403
      case NotFound => 404
      case Conflict => 409
      case InternalError => 500
    }
  }

  /** The JSON body of a read endpoint: the rows on 200, or an error status. */
  datatype Reply<+T> = Ok(value: T) | Error(status: Status)

  /** PHP `empty($data->field)` for a string field: missing, "" or "0". */
  predicate Blank(field: Option<string>) {
    field == None || field.value == "" || field.value == "0"
  }

  /** PHP `empty($data->field)` for an integer field: missing or 0. */
  predicate BlankId(field: Option<int>) {
    field == None || field.value == 0
  }

  /** SQL `column = :param`: a NULL on either side matches nothing. */
  predicate SqlEq(column: Option<int>, param: Option<int>) {
    column.Some? && param.Some? && column.value == param.value
  }

  /** The three role names the application knows. */
  const ADMIN: string := "Admin"
  const CUSTODIAN: string := "Departmental Record Custodian"
  const STAFF: string := "Staff"
  const VALID_ROLES: seq<string> := [ADMIN, CUSTODIAN, STAFF]
}
