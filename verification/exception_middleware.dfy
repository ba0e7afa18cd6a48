/**
  The global exception handler of the API (GlobalExceptionHandlerMiddleware.cs):
  the classification of an unhandled exception into an HTTP status code and an
  error, and the response it writes. Status codes are those of section 15 of
  RFC 9110 (400 Bad Request, 403 Forbidden, 404 Not Found, 408 Request Timeout,
  500 Internal Server Error, 502 Bad Gateway).

  The switch matches on the exception's class, so subclasses follow their base:
  `ArgumentNullException` and `ArgumentOutOfRangeException` are
  `ArgumentException`s and `ObjectDisposedException` is an
  `InvalidOperationException`.
 */
module ExceptionMiddleware {
  import opened Common
  import opened OperationResults

  const BadRequest: int := 400
  const Forbidden: int := 403
  const NotFound: int := 404
  const RequestTimeout: int := 408
  const InternalServerError: int := 500
  const BadGateway: int := 502

  predicate IsArgumentException(k: ExcKind) {
    k.ArgumentNull? || k.ArgumentOutOfRange? || k.Argument?
  }

  predicate IsInvalidOperationException(k: ExcKind) {
    k.ObjectDisposed? || k.InvalidOperation?
  }

  const InternalMessage: string := "An internal error occurred. Please try again later."

  /** `GetErrorResponse(exception)`: the first arm of the switch whose class the exception belongs to. */
  function GetErrorResponse(e: Exc, isDevelopment: bool): (out: (int, ErrorResult))
    ensures IsArgumentException(e.kind) ==> out == (BadRequest, ErrorResult("Invalid request parameters", "Bad Request"))
    ensures IsInvalidOperationException(e.kind) ==>
      out == (BadRequest, ErrorResult("The operation could not be completed", "Invalid Operation"))
    ensures e.kind.KeyNotFound? ==> out == (NotFound, ErrorResult("The requested resource was not found", "Not Found"))
    ensures e.kind.Timeout? ==> out == (RequestTimeout, ErrorResult("The request timed out", "Timeout"))
    ensures e.kind.HttpRequest? ==>
      out == (e.kind.statusCode.GetOr(BadGateway), ErrorResult("Error communicating with external service", "External Service Error"))
    ensures e.kind.UnauthorizedAccess? ==>
      out == (Forbidden, ErrorResult("You do not have permission to perform this action", "Forbidden"))
    ensures e.kind.NullReference? || e.kind.OtherKind? ==>
      out.0 == InternalServerError && out.1.title == "Internal Server Error"
      && out.1.message == (if isDevelopment then "An error occurred: " + e.message else InternalMessage)
  {
    match e.kind
    case ArgumentNull | ArgumentOutOfRange | Argument =>
      (BadRequest, ErrorResult("Invalid request parameters", "Bad Request"))
    case ObjectDisposed | InvalidOperation =>
      (BadRequest, ErrorResult("The operation could not be completed", "Invalid Operation"))
    case KeyNotFound => (NotFound, ErrorResult("The requested resource was not found", "Not Found"))
    case Timeout => (RequestTimeout, ErrorResult("The request timed out", "Timeout"))
    case HttpRequest(code) =>
      (code.GetOr(BadGateway), ErrorResult("Error communicating with external service", "External Service Error"))
    case UnauthorizedAccess => (Forbidden, ErrorResult("You do not have permission to perform this action", "Forbidden"))
    case NullReference | OtherKind(_) =>
      (InternalServerError,
       ErrorResult(if isDevelopment then "An error occurred: " + e.message else InternalMessage, "Internal Server Error"))
  }

  /** Outside Development the exception's own message never reaches the response: only its class matters. */
  lemma ProductionHidesMessage(e: Exc, otherMessage: string)
    ensures GetErrorResponse(e, false) == GetErrorResponse(e.(message := otherMessage), false)
  {
  }

  /** Every class but the HTTP and catch-all arms answers with a 4xx code; an HTTP error without a code is a 502. */
  lemma ClientErrorsStayClientErrors(e: Exc, isDevelopment: bool)
    ensures !e.kind.HttpRequest? && !e.kind.NullReference? && !e.kind.OtherKind? ==>
      400 <= GetErrorResponse(e, isDevelopment).0 < 500
    ensures e.kind.HttpRequest? && e.kind.statusCode.None? ==> GetErrorResponse(e, isDevelopment).0 == BadGateway
  {
  }

  /** The response `HandleExceptionAsync` writes: its status code and the serialised result. */
  datatype ErrorResponse = ErrorResponse(statusCode: int, body: OperationResult<()>)

  /**
    `HandleExceptionAsync(context, exception)`: the response status is the chosen
    code, and the body holds that code, the request path, exactly one error and
    exactly one exception.
   */
  function HandleException(e: Exc, path: string, isDevelopment: bool): (r: ErrorResponse)
    ensures r.statusCode == GetErrorResponse(e, isDevelopment).0
    ensures r.body.status == r.statusCode && r.body.instance == path
    ensures r.body.errors == [GetErrorResponse(e, isDevelopment).1]
    ensures r.body.exceptions == [ToExceptionResult(e)]
    ensures r.body.result.None?
  {
    var (code, err) := GetErrorResponse(e, isDevelopment);
    ErrorResponse(code, AddError(New<()>().(status := code, instance := path), err, Some(e)))
  }
}
