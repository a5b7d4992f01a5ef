/**
 * The REST exception handler: which of its handlers receives an exception,
 * and the error response each handler builds. Timestamps are not modelled.
 */
module ExceptionHandler {
  import opened Wrappers
  import opened Exceptions

  const NOT_FOUND: int := 404
  const CONFLICT: int := 409
  const BAD_REQUEST: int := 400
  const INTERNAL_SERVER_ERROR: int := 500

  /** One entry of the `errors` list: a field, its message and the rejected value. */
  datatype SubError<V> = SubError(field: string, message: Option<string>, rejectedValue: V)

  /** The JSON error body; `errors` is absent (null) except for validation errors. */
  datatype ErrorResponseDto<V> = ErrorResponseDto(
    status: int,
    error: string,
    message: Option<string>,
    path: string,
    errors: Option<seq<SubError<V>>>)

  /** A response entity: the HTTP status and the body. */
  datatype Response<V> = Response(status: int, body: ErrorResponseDto<V>)

  /** The five `@ExceptionHandler` methods. */
  datatype Handler =
    | StorageFileNotFoundHandler
    | StorageHandler
    | MethodArgumentNotValidHandler
    | ConstraintViolationHandler
    | AllExceptionsHandler

  /** The handler declared for exactly this class, if any. */
  function HandlerFor(c: ExceptionClass): (r: Option<Handler>)
    ensures c == ExceptionClass ==> r == Some(AllExceptionsHandler)
  {
    match c
    case StorageFileNotFoundExceptionClass => Some(StorageFileNotFoundHandler)
    case StorageExceptionClass => Some(StorageHandler)
    case MethodArgumentNotValidExceptionClass => Some(MethodArgumentNotValidHandler)
    case ConstraintViolationExceptionClass => Some(ConstraintViolationHandler)
    case ExceptionClass => Some(AllExceptionsHandler)
    case _ => None
  }

  /** The handler of the first class in `chain` that has one. */
  function Nearest(chain: seq<ExceptionClass>): (r: Option<Handler>)
    ensures r.Some? <==> exists i :: 0 <= i < |chain| && HandlerFor(chain[i]).Some?
    ensures r.Some? ==> exists i :: (0 <= i < |chain| && HandlerFor(chain[i]) == r
                                     && forall j :: 0 <= j < i ==> HandlerFor(chain[j]).None?)
  {
    if chain == [] then None
    else if HandlerFor(chain[0]).Some? then HandlerFor(chain[0])
    else
      var r := Nearest(chain[1..]);
      if r.Some? then
        var i :| 0 <= i < |chain[1..]| && HandlerFor(chain[1..][i]) == r
          && forall j :: 0 <= j < i ==> HandlerFor(chain[1..][j]).None?;
        assert HandlerFor(chain[i + 1]) == r;
        r
      else
        r
  }

  /**
   * The handler that receives `ex`: the one declared for the closest class
   * among the exception's class and its superclasses. `Exception` has a
   * handler, so there is always one.
   */
  function SelectHandler<V>(ex: JavaException<V>): (h: Handler)
    ensures exists i :: (0 <= i < |Ancestry(ClassOf(ex))| && HandlerFor(Ancestry(ClassOf(ex))[i]) == Some(h)
                         && forall j :: 0 <= j < i ==> HandlerFor(Ancestry(ClassOf(ex))[j]).None?)
  {
    var chain := Ancestry(ClassOf(ex));
    assert HandlerFor(chain[|chain| - 1]).Some?;
    Nearest(chain).value
  }

  /**
   * Each exception reaches the handler its kind calls for; in particular a
   * StorageFileNotFoundException, although a StorageException, goes to its
   * own handler and not to the StorageException one.
   */
  lemma SelectHandlerByKind<V>(ex: JavaException<V>)
    ensures SelectHandler(ex) == StorageFileNotFoundHandler <==> ex.StorageEx? && ex.kind == FileNotFound
    ensures SelectHandler(ex) == StorageHandler <==> IsStorageException(ex) && ex.kind != FileNotFound
    ensures SelectHandler(ex) == MethodArgumentNotValidHandler <==> ex.MethodArgumentNotValid?
    ensures SelectHandler(ex) == ConstraintViolationHandler <==> ex.ConstraintViolation?
    ensures SelectHandler(ex) == AllExceptionsHandler <==> ex.OtherEx?
  {
    var chain := Ancestry(ClassOf(ex));
    var h := SelectHandler(ex);
    var i :| 0 <= i < |chain| && HandlerFor(chain[i]) == Some(h)
      && forall j :: 0 <= j < i ==> HandlerFor(chain[j]).None?;
    assert HandlerFor(chain[0]).Some? ==> i == 0;
    if HandlerFor(chain[0]).None? {
      assert 0 < i;
      assert HandlerFor(chain[1]).Some? ==> i == 1;
    }
  }

  /** `getMessage()`; the validation exceptions' own messages are never shown and not modelled. */
  function ExceptionMessage<V>(ex: JavaException<V>): (r: Option<string>)
    ensures ex.StorageEx? ==> r == Some(ex.message)
    ensures ex.OtherEx? ==> r == ex.detail
  {
    match ex
    case StorageEx(_, message) => Some(message)
    case OtherEx(detail) => detail
    case _ => None
  }

  /** `buildErrorResponse`: the status both on the response and in the body, and the exception's message. */
  function BuildErrorResponse<V>(ex: JavaException<V>, status: int, error: string, path: string): (r: Response<V>)
    ensures r.status == status && r.body.status == r.status
    ensures r.body.error == error && r.body.path == path
    ensures r.body.message == ExceptionMessage(ex) && r.body.errors.None?
  {
    Response(status, ErrorResponseDto(status, error, ExceptionMessage(ex), path, None))
  }

  /** The sub-errors of `handleMethodArgumentNotValid`: one per field error, in order. */
  function FieldSubErrors<V>(fieldErrors: seq<FieldError<V>>): (r: seq<SubError<V>>)
    ensures |r| == |fieldErrors|
    ensures forall i :: 0 <= i < |r| ==>
      r[i] == SubError(fieldErrors[i].field, fieldErrors[i].defaultMessage, fieldErrors[i].rejectedValue)
  {
    if fieldErrors == [] then []
    else
      var e := fieldErrors[0];
      [SubError(e.field, e.defaultMessage, e.rejectedValue)] + FieldSubErrors(fieldErrors[1..])
  }

  /** The sub-errors of `handleConstraintViolation`: one per violation, in the order they are iterated. */
  function ViolationSubErrors<V>(violations: seq<Violation<V>>): (r: seq<SubError<V>>)
    ensures |r| == |violations|
    ensures forall i :: 0 <= i < |r| ==>
      r[i] == SubError(violations[i].propertyPath, Some(violations[i].message), violations[i].invalidValue)
  {
    if violations == [] then []
    else
      var v := violations[0];
      [SubError(v.propertyPath, Some(v.message), v.invalidValue)] + ViolationSubErrors(violations[1..])
  }

  /** The response a validation handler builds: 400, "Validation error", and the sub-errors. */
  function ValidationResponse<V>(message: string, path: string, errors: seq<SubError<V>>): (r: Response<V>)
    ensures r.status == BAD_REQUEST && r.body.status == r.status
    ensures r.body.error == "Validation error" && r.body.message == Some(message)
    ensures r.body.path == path && r.body.errors == Some(errors)
  {
    Response(BAD_REQUEST, ErrorResponseDto(BAD_REQUEST, "Validation error", Some(message), path, Some(errors)))
  }

  /** What the exception handler answers for `ex` raised while serving `path`. */
  function Handle<V>(ex: JavaException<V>, path: string): (r: Response<V>)
    ensures r.body.status == r.status && r.body.path == path
  {
    match SelectHandler(ex)
    case StorageFileNotFoundHandler =>
      BuildErrorResponse(ex, NOT_FOUND, "File not found", path)
    case StorageHandler =>
      var status := if ex.StorageEx? && ex.kind == DuplicateFile then CONFLICT else BAD_REQUEST;
      BuildErrorResponse(ex, status, "Storage error", path)
    case MethodArgumentNotValidHandler =>
      var errors := if ex.MethodArgumentNotValid? then FieldSubErrors(ex.fieldErrors) else [];
      ValidationResponse("Invalid request content", path, errors)
    case ConstraintViolationHandler =>
      var errors := if ex.ConstraintViolation? then ViolationSubErrors(ex.violations) else [];
      ValidationResponse("Invalid request parameters", path, errors)
    case AllExceptionsHandler =>
      BuildErrorResponse(ex, INTERNAL_SERVER_ERROR, "Internal server error", path)
  }

  /**
   * Storage failures: not found is 404 "File not found"; a duplicate is 409
   * and every other StorageException 400, both labelled "Storage error";
   * the body carries the exception's message and no sub-errors.
   */
  lemma HandleStorageException<V>(ex: JavaException<V>, path: string)
    requires IsStorageException(ex)
    ensures Handle(ex, path).status == NOT_FOUND <==> ex.kind == FileNotFound
    ensures Handle(ex, path).status == CONFLICT <==> ex.kind == DuplicateFile
    ensures Handle(ex, path).status == BAD_REQUEST <==> ex.kind == PlainStorage || ex.kind == InvalidFile
    ensures Handle(ex, path).body.error == (if ex.kind == FileNotFound then "File not found" else "Storage error")
    ensures Handle(ex, path).body.message == Some(ex.message) && Handle(ex, path).body.errors.None?
  {
    SelectHandlerByKind(ex);
  }

  /** Any exception outside the StorageException and validation families is a 500 "Internal server error". */
  lemma HandleOtherException<V>(ex: JavaException<V>, path: string)
    requires ex.OtherEx?
    ensures Handle(ex, path) == Response(INTERNAL_SERVER_ERROR,
      ErrorResponseDto(INTERNAL_SERVER_ERROR, "Internal server error", ex.detail, path, None))
  {
    SelectHandlerByKind(ex);
  }

  /** A field-validation failure is a 400 with one sub-error per field error, in order. */
  lemma HandleMethodArgumentNotValid<V>(ex: JavaException<V>, path: string)
    requires ex.MethodArgumentNotValid?
    ensures Handle(ex, path) == ValidationResponse("Invalid request content", path, FieldSubErrors(ex.fieldErrors))
  {
    SelectHandlerByKind(ex);
  }

  /** A parameter-constraint failure is a 400 with one sub-error per violation, in order. */
  lemma HandleConstraintViolation<V>(ex: JavaException<V>, path: string)
    requires ex.ConstraintViolation?
    ensures Handle(ex, path) == ValidationResponse("Invalid request parameters", path, ViolationSubErrors(ex.violations))
  {
    SelectHandlerByKind(ex);
  }

  /** The status alone tells the families apart: 500 exactly for the unexpected exceptions. */
  lemma InternalErrorOnlyForUnexpected<V>(ex: JavaException<V>, path: string)
    ensures Handle(ex, path).status == INTERNAL_SERVER_ERROR <==> ex.OtherEx?
    ensures Handle(ex, path).body.errors.Some? <==> ex.MethodArgumentNotValid? || ex.ConstraintViolation?
  {
    SelectHandlerByKind(ex);
  }
}
