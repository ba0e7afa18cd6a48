/**
  The result accumulator of the gateway (IOC.EAssistant.Gateway.XCutting.Result):
  an optional value, the errors and exceptions collected on the way, and the HTTP
  status chosen when the result is turned into a controller reply. The mutating
  C# methods become functions from the old accumulator to the new one.
 */
module OperationResults {
  import opened Common

  /** `ErrorResult(message, title)`; the C# constructor's default title is "unknown". */
  datatype ErrorResult = ErrorResult(message: string, title: string)

  /** The exception classes the gateway distinguishes; `HttpRequest` carries its optional status code. */
  datatype ExcKind =
    | ArgumentNull | ArgumentOutOfRange | Argument
    | ObjectDisposed | InvalidOperation
    | KeyNotFound | Timeout | HttpRequest(statusCode: Option<int>) | UnauthorizedAccess
    | NullReference | OtherKind(name: string)

  /** A thrown .NET exception: its class, `Message` and `StackTrace` (which may be null). */
  datatype Exc = Exc(kind: ExcKind, message: string, stackTrace: Option<string>)

  /** `ExceptionResult(exception)`: the message and the stack trace, `""` when there is none. */
  datatype ExceptionResult = ExceptionResult(message: string, stackTrace: string)

  function ToExceptionResult(e: Exc): (x: ExceptionResult)
    ensures x.message == e.message
    ensures e.stackTrace.None? ==> x.stackTrace == ""
    ensures e.stackTrace.Some? ==> x.stackTrace == e.stackTrace.value
  {
    ExceptionResult(e.message, e.stackTrace.GetOr(""))
  }

  /** `OperationResult<T>`: `Result`, `Errors`, `Exceptions`, `Status` and `Instance`. */
  datatype OperationResult<T> = OperationResult(
    result: Option<T>, errors: seq<ErrorResult>, exceptions: seq<ExceptionResult>, status: int, instance: string)

  /** A freshly constructed result: nothing collected, no value, status 0, empty instance. */
  function New<T>(): (r: OperationResult<T>)
    ensures !HasErrors(r) && !HasExceptions(r) && r.result.None?
    ensures r.status == 0 && r.instance == ""
  {
    OperationResult(None, [], [], 0, "")
  }

  predicate HasErrors<T>(r: OperationResult<T>) {
    |r.errors| > 0
  }

  predicate HasExceptions<T>(r: OperationResult<T>) {
    |r.exceptions| > 0
  }

  /** `AddResult(value)`: sets the value; errors, exceptions, status and instance stay. */
  function AddResult<T>(r: OperationResult<T>, value: T): (r': OperationResult<T>)
    ensures r'.result == Some(value)
    ensures r'.errors == r.errors && r'.exceptions == r.exceptions
    ensures r'.status == r.status && r'.instance == r.instance
  {
    r.(result := Some(value))
  }

  /** `AddError(error, exception)`: one more error, and one more exception exactly when one is given. */
  function AddError<T>(r: OperationResult<T>, error: ErrorResult, exc: Option<Exc>): (r': OperationResult<T>)
    ensures r'.errors == r.errors + [error]
    ensures exc.None? ==> r'.exceptions == r.exceptions
    ensures exc.Some? ==> r'.exceptions == r.exceptions + [ToExceptionResult(exc.value)]
    ensures r'.result == r.result && r'.status == r.status && r'.instance == r.instance
  {
    r.(errors := r.errors + [error],
       exceptions := if exc.Some? then r.exceptions + [ToExceptionResult(exc.value)] else r.exceptions)
  }

  /** `AddResultWithError(value, error, code, exception)`: the value, then the error as `AddError` records it. */
  function AddResultWithError<T>(r: OperationResult<T>, value: T, error: ErrorResult, exc: Option<Exc>)
    : (r': OperationResult<T>)
    ensures r' == AddError(AddResult(r, value), error, exc)
  {
    r.(result := Some(value), errors := r.errors + [error],
       exceptions := if exc.Some? then r.exceptions + [ToExceptionResult(exc.value)] else r.exceptions)
  }

  /** `AddErrors(errors)`: every given error, in order, after the ones already there. */
  function AddErrors<T>(r: OperationResult<T>, es: seq<ErrorResult>): (r': OperationResult<T>)
    ensures r'.errors == r.errors + es
    ensures r'.exceptions == r.exceptions && r'.result == r.result
    ensures r'.status == r.status && r'.instance == r.instance
  {
    r.(errors := r.errors + es)
  }

  /** Adding the errors at once is adding them one by one without exceptions. */
  lemma {:induction false} AddErrorsIsRepeatedAddError<T>(r: OperationResult<T>, es: seq<ErrorResult>)
    ensures AddErrors(r, es) == AddEach(r, es)
    decreases |es|
  {
    if |es| > 0 {
      AddErrorsIsRepeatedAddError(AddError(r, es[0], None), es[1..]);
      assert r.errors + [es[0]] + es[1..] == r.errors + es;
    }
  }

  function AddEach<T>(r: OperationResult<T>, es: seq<ErrorResult>): OperationResult<T>
    decreases |es|
  {
    if |es| == 0 then r else AddEach(AddError(r, es[0], None), es[1..])
  }

  /** What a controller sends for a result: the status code and the serialised body. */
  datatype ActionBody<T> = ResultBody(value: OperationResult<T>) | GenericError(error: ErrorResult)

  const ServerErrorBody: ErrorResult := ErrorResult("Internal server error", "An exception occurred. Unhandled error.")

  /**
    `ToActionResult(controller)`: 500 with a generic error when an exception was
    recorded, else 400 with the result when an error was, else 200 with the
    result; the chosen code is stored in `Status`.
   */
  function ToActionResult<T>(r: OperationResult<T>): (out: (OperationResult<T>, ActionBody<T>))
    ensures out.0 == r.(status := out.0.status)
    ensures HasExceptions(r) <==> out.0.status == 500
    ensures out.0.status == 400 <==> !HasExceptions(r) && HasErrors(r)
    ensures out.0.status == 200 <==> !HasExceptions(r) && !HasErrors(r)
    ensures HasExceptions(r) ==> out.1 == GenericError(ServerErrorBody)
    ensures !HasExceptions(r) ==> out.1 == ResultBody(out.0)
  {
    if HasExceptions(r) then (r.(status := 500), GenericError(ServerErrorBody))
    else if HasErrors(r) then
      var b := r.(status := 400);
      (b, ResultBody(b))
    else
      var ok := r.(status := 200);
      (ok, ResultBody(ok))
  }

  /** The status chosen for a result depends only on whether errors and exceptions were recorded. */
  lemma StatusIgnoresValue<T>(r: OperationResult<T>, value: T)
    ensures ToActionResult(AddResult(r, value)).0.status == ToActionResult(r).0.status
  {
  }

  /** Recording an exception forces a 500; recording only an error on a clean result gives a 400. */
  lemma AddErrorStatus<T>(r: OperationResult<T>, error: ErrorResult, exc: Option<Exc>)
    ensures exc.Some? ==> ToActionResult(AddError(r, error, exc)).0.status == 500
    ensures exc.None? && !HasExceptions(r) ==> ToActionResult(AddError(r, error, exc)).0.status == 400
  {
  }
}
