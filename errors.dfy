/**
 * The application error record shared by both services, its string rendering,
 * its mapping to HTTP statuses and gRPC codes, and its constructors.
 * Error codes are strings in the source, so any string may appear as a code;
 * the ten named ones are constants.
 */
module AppErrors {
  import Text

  const InvalidRequest: string := "INVALID_REQUEST"
  const ValidationFailed: string := "VALIDATION_FAILED"
  const NotFound: string := "NOT_FOUND"
  const AlreadyExists: string := "ALREADY_EXISTS"
  const Unauthorized: string := "UNAUTHORIZED"
  const Forbidden: string := "FORBIDDEN"
  const Internal: string := "INTERNAL_ERROR"
  const ServiceDown: string := "SERVICE_DOWN"
  const DatabaseError: string := "DATABASE_ERROR"
  const ExternalApi: string := "EXTERNAL_API_ERROR"

  /** The gRPC status codes, in their numbering order (OK is 0). */
  datatype GrpcCode =
    | OK | Canceled | Unknown | InvalidArgument | DeadlineExceeded | NotFoundCode
    | AlreadyExistsCode | PermissionDenied | ResourceExhausted | FailedPrecondition
    | Aborted | OutOfRange | Unimplemented | InternalCode | Unavailable | DataLoss
    | Unauthenticated

  /** A gRPC status: a code and a message. */
  datatype GrpcStatus = GrpcStatus(code: GrpcCode, message: string)

  const StatusBadRequest: int := 400
  const StatusUnauthorized: int := 401
  const StatusForbidden: int := 403
  const StatusNotFound: int := 404
  const StatusConflict: int := 409
  const StatusInternalServerError: int := 500
  const StatusServiceUnavailable: int := 503

  /**
   * AppError. `httpStatus` 0 and `grpcCode` OK are the zero values, meaning
   * "derive from the code".
   */
  datatype AppError = AppError(
    code: string,
    message: string,
    details: string,
    field: string,
    httpStatus: int,
    grpcCode: GrpcCode)

  /** A Go `error`: either an AppError or some other error with its own text. */
  datatype GoError = App(app: AppError) | Foreign(text: string)

  /** Error(): "CODE: message (details)", or "CODE: message" without details. */
  function ErrorString(e: AppError): (s: string)
    ensures e.details != "" ==> Text.Contains(s, " (" + e.details + ")")
    ensures e.details == "" ==> s == e.code + ": " + e.message
    ensures Text.IsPrefix(e.code + ": " + e.message, s)
  {
    var head := e.code + ": " + e.message;
    if e.details != "" then
      var tail := " (" + e.details + ")";
      Text.ContainsMiddle(head, tail, []);
      assert head + tail + [] == head + tail;
      assert (head + tail)[..|head|] == head;
      head + tail
    else
      assert head[..|head|] == head;
      head
  }

  /** The status a code maps to when no explicit HTTP status is set. */
  function CodeHttpStatus(code: string): (status: int)
    ensures status in {400, 401, 403, 404, 409, 500, 503}
  {
    if code == InvalidRequest || code == ValidationFailed then StatusBadRequest
    else if code == NotFound then StatusNotFound
    else if code == AlreadyExists then StatusConflict
    else if code == Unauthorized then StatusUnauthorized
    else if code == Forbidden then StatusForbidden
    else if code == Internal || code == DatabaseError then StatusInternalServerError
    else if code == ServiceDown || code == ExternalApi then StatusServiceUnavailable
    else StatusInternalServerError
  }

  /** ToHTTPStatus: a non-zero explicit status wins, otherwise the code decides. */
  function ToHttpStatus(e: AppError): (status: int)
    ensures e.httpStatus != 0 ==> status == e.httpStatus
    ensures e.httpStatus == 0 ==> status in {400, 401, 403, 404, 409, 500, 503}
  {
    if e.httpStatus != 0 then e.httpStatus else CodeHttpStatus(e.code)
  }

  /** The gRPC code a code maps to when no explicit gRPC code is set. */
  function CodeGrpcCode(code: string): (c: GrpcCode)
    ensures c in {InvalidArgument, NotFoundCode, AlreadyExistsCode, Unauthenticated, PermissionDenied, InternalCode, Unavailable}
  {
    if code == InvalidRequest || code == ValidationFailed then InvalidArgument
    else if code == NotFound then NotFoundCode
    else if code == AlreadyExists then AlreadyExistsCode
    else if code == Unauthorized then Unauthenticated
    else if code == Forbidden then PermissionDenied
    else if code == Internal || code == DatabaseError then InternalCode
    else if code == ServiceDown || code == ExternalApi then Unavailable
    else InternalCode
  }

  /** ToGRPCStatus: a non-OK explicit code wins, otherwise the code decides; the message is kept. */
  function ToGrpcStatus(e: AppError): (st: GrpcStatus)
    ensures st.message == e.message
    ensures e.grpcCode != OK ==> st.code == e.grpcCode
    ensures e.grpcCode == OK ==> st.code != OK
  {
    GrpcStatus(if e.grpcCode != OK then e.grpcCode else CodeGrpcCode(e.code), e.message)
  }

  /**
   * The HTTP table read backwards: without an explicit status, each status
   * comes from exactly these codes, and 500 from every code not listed.
   */
  lemma HttpStatusTable(e: AppError)
    requires e.httpStatus == 0
    ensures ToHttpStatus(e) == 400 <==> e.code == InvalidRequest || e.code == ValidationFailed
    ensures ToHttpStatus(e) == 401 <==> e.code == Unauthorized
    ensures ToHttpStatus(e) == 403 <==> e.code == Forbidden
    ensures ToHttpStatus(e) == 404 <==> e.code == NotFound
    ensures ToHttpStatus(e) == 409 <==> e.code == AlreadyExists
    ensures ToHttpStatus(e) == 503 <==> e.code == ServiceDown || e.code == ExternalApi
    ensures ToHttpStatus(e) == 500 <==>
      e.code !in {InvalidRequest, ValidationFailed, NotFound, AlreadyExists, Unauthorized, Forbidden, ServiceDown, ExternalApi}
  {
  }

  /**
   * The gRPC table read backwards: without an explicit code, each gRPC code
   * comes from exactly these codes, and Internal from every code not listed.
   */
  lemma GrpcCodeTable(e: AppError)
    requires e.grpcCode == OK
    ensures ToGrpcStatus(e).code == InvalidArgument <==> e.code == InvalidRequest || e.code == ValidationFailed
    ensures ToGrpcStatus(e).code == Unauthenticated <==> e.code == Unauthorized
    ensures ToGrpcStatus(e).code == PermissionDenied <==> e.code == Forbidden
    ensures ToGrpcStatus(e).code == NotFoundCode <==> e.code == NotFound
    ensures ToGrpcStatus(e).code == AlreadyExistsCode <==> e.code == AlreadyExists
    ensures ToGrpcStatus(e).code == Unavailable <==> e.code == ServiceDown || e.code == ExternalApi
    ensures ToGrpcStatus(e).code == InternalCode <==>
      e.code !in {InvalidRequest, ValidationFailed, NotFound, AlreadyExists, Unauthorized, Forbidden, ServiceDown, ExternalApi}
  {
  }

  /**
   * Without overrides, the two tables classify every code alike: each HTTP
   * status corresponds to exactly one gRPC code and back.
   */
  lemma HttpAndGrpcAgree(e: AppError)
    requires e.httpStatus == 0 && e.grpcCode == OK
    ensures ToHttpStatus(e) == 400 <==> ToGrpcStatus(e).code == InvalidArgument
    ensures ToHttpStatus(e) == 401 <==> ToGrpcStatus(e).code == Unauthenticated
    ensures ToHttpStatus(e) == 403 <==> ToGrpcStatus(e).code == PermissionDenied
    ensures ToHttpStatus(e) == 404 <==> ToGrpcStatus(e).code == NotFoundCode
    ensures ToHttpStatus(e) == 409 <==> ToGrpcStatus(e).code == AlreadyExistsCode
    ensures ToHttpStatus(e) == 500 <==> ToGrpcStatus(e).code == InternalCode
    ensures ToHttpStatus(e) == 503 <==> ToGrpcStatus(e).code == Unavailable
  {
  }

  /** A code outside the ten named ones is treated as an internal error by both tables. */
  lemma UnknownCodeIsInternal(e: AppError)
    requires e.httpStatus == 0 && e.grpcCode == OK
    requires e.code !in {InvalidRequest, ValidationFailed, NotFound, AlreadyExists, Unauthorized,
                         Forbidden, Internal, ServiceDown, DatabaseError, ExternalApi}
    ensures ToHttpStatus(e) == 500 && ToGrpcStatus(e).code == InternalCode
  {
  }

  function NewValidationError(field: string, message: string): (e: AppError)
    ensures e.code == ValidationFailed && e.message == message && e.field == field && e.details == ""
    ensures ToHttpStatus(e) == 400 && ToGrpcStatus(e).code == InvalidArgument
  {
    AppError(ValidationFailed, message, "", field, 0, OK)
  }

  function NewNotFoundError(resource: string, id: string): (e: AppError)
    ensures e.code == NotFound && e.message == resource + " not found" && e.details == "ID: " + id
    ensures ToHttpStatus(e) == 404 && ToGrpcStatus(e).code == NotFoundCode
  {
    AppError(NotFound, resource + " not found", "ID: " + id, "", 0, OK)
  }

  function NewAlreadyExistsError(resource: string, field: string, value: string): (e: AppError)
    ensures e.code == AlreadyExists && e.message == resource + " already exists"
    ensures e.details == field + ": " + value && e.field == field
    ensures ToHttpStatus(e) == 409 && ToGrpcStatus(e).code == AlreadyExistsCode
  {
    AppError(AlreadyExists, resource + " already exists", field + ": " + value, field, 0, OK)
  }

  /** With details present, Error() is the code, the message and the parenthesised details. */
  lemma ErrorStringWithDetails(e: AppError)
    requires e.details != ""
    ensures ErrorString(e) == e.code + ": " + e.message + (" (" + e.details + ")")
  {
  }

  /** A word that ends the "CODE: message" head of a detailed error occurs in its text. */
  lemma WordInErrorText(e: AppError, head: string, word: string)
    requires e.details != "" && e.code + ": " + e.message == head + word
    ensures Text.Contains(ErrorString(e), word)
  {
    ErrorStringWithDetails(e);
    Text.ContainsMiddle(head, word, " (" + e.details + ")");
  }

  /** The text of a not-found error names the resource and the identifier. */
  lemma NotFoundText(resource: string, id: string)
    ensures ErrorString(NewNotFoundError(resource, id)) == "NOT_FOUND: " + resource + " not found (ID: " + id + ")"
  {
    var e := NewNotFoundError(resource, id);
    ErrorStringWithDetails(e);
    assert NotFound + ": " == "NOT_FOUND: ";
    assert " not found" + " (" + "ID: " == " not found (ID: ";
    assert e.code + ": " + e.message + (" (" + e.details + ")") == "NOT_FOUND: " + resource + " not found (ID: " + id + ")";
  }

  /** The text of a not-found error says "not found". */
  lemma NotFoundMentioned(resource: string, id: string)
    ensures Text.Contains(ErrorString(NewNotFoundError(resource, id)), " not found")
  {
    WordInErrorText(NewNotFoundError(resource, id), NotFound + ": " + resource, " not found");
  }

  /** The text of an already-exists error names the resource, the field and the value. */
  lemma AlreadyExistsText(resource: string, field: string, value: string)
    ensures ErrorString(NewAlreadyExistsError(resource, field, value))
         == "ALREADY_EXISTS: " + resource + " already exists (" + field + ": " + value + ")"
  {
    var e := NewAlreadyExistsError(resource, field, value);
    ErrorStringWithDetails(e);
    assert AlreadyExists + ": " == "ALREADY_EXISTS: ";
    assert " already exists" + " (" == " already exists (";
    assert e.code + ": " + e.message + (" (" + e.details + ")")
        == "ALREADY_EXISTS: " + resource + " already exists (" + field + ": " + value + ")";
  }

  /** The text of an already-exists error says "already exists". */
  lemma AlreadyExistsMentioned(resource: string, field: string, value: string)
    ensures Text.Contains(ErrorString(NewAlreadyExistsError(resource, field, value)), " already exists")
  {
    WordInErrorText(NewAlreadyExistsError(resource, field, value), AlreadyExists + ": " + resource, " already exists");
  }

  function NewInvalidRequestError(message: string): (e: AppError)
    ensures e.code == InvalidRequest && e.message == message && e.details == ""
    ensures ToHttpStatus(e) == 400 && ToGrpcStatus(e).code == InvalidArgument
  {
    AppError(InvalidRequest, message, "", "", 0, OK)
  }

  function NewInternalError(message: string): (e: AppError)
    ensures e.code == Internal && e.message == message && e.details == ""
    ensures ToHttpStatus(e) == 500 && ToGrpcStatus(e).code == InternalCode
  {
    AppError(Internal, message, "", "", 0, OK)
  }

  /** `errText` is the text of the wrapped error, as `%v` prints it. */
  function NewDatabaseError(operation: string, errText: string): (e: AppError)
    ensures e.code == DatabaseError && e.message == "Database operation failed"
    ensures e.details == "Operation: " + operation + ", Error: " + errText
    ensures ToHttpStatus(e) == 500 && ToGrpcStatus(e).code == InternalCode
  {
    AppError(DatabaseError, "Database operation failed", "Operation: " + operation + ", Error: " + errText, "", 0, OK)
  }

  /** IsAppError: the error is an AppError, whose text is then its own Error(). */
  predicate IsAppError(err: GoError) {
    err.App?
  }

  /** The text `err.Error()` returns. */
  function GoErrorText(err: GoError): string {
    match err
    case App(e) => ErrorString(e)
    case Foreign(t) => t
  }

  /** AsAppError: an AppError is returned as is; anything else becomes an internal error carrying its text. */
  function AsAppError(err: GoError): (e: AppError)
    ensures IsAppError(err) ==> e == err.app
    ensures !IsAppError(err) ==> e.code == Internal && e.message == "Internal server error"
    ensures !IsAppError(err) ==> e.details == GoErrorText(err)
    ensures ToHttpStatus(e) == 500 || IsAppError(err)
  {
    match err
    case App(a) => a
    case Foreign(t) => AppError(Internal, "Internal server error", t, "", 0, OK)
  }

  /** Converting twice is the same as converting once. */
  lemma AsAppErrorIdempotent(err: GoError)
    ensures AsAppError(App(AsAppError(err))) == AsAppError(err)
  {
  }
}
