/**
  `ServiceHealthCheck` (ServiceHealthCheck.cs): asks the model's proxy for its
  health. Only the exact status text "healthy" counts as healthy. Proxy
  exceptions are not caught. The check time stamp is not modelled.
 */
module ServiceHealthCheck {
  import opened Common
  import opened OperationResults

  const HealthyStatus: string := "healthy"

  /** What the proxy's `HealthCheckAsync` answers: a reply with a (nullable) `Status`, or an exception. */
  datatype HealthReply = HealthStatus(status: Option<string>) | HealthThrows(e: Exc)

  /** The gateway's own `HealthResponse`, whose `IsHealthy` is `ModelAvailable`. */
  datatype HealthResponse = HealthResponse(modelAvailable: bool)

  /** A service result, or the exception that left the service. */
  datatype Checked<T> = Checked(result: OperationResult<T>) | Thrown(e: Exc)

  /**
    `GetModelHealthAsync()`: `true` exactly when the status is "healthy", and
    never an error; an exception from the proxy passes through.
   */
  function GetModelHealth(reply: HealthReply): (c: Checked<bool>)
    ensures reply.HealthThrows? <==> c.Thrown?
    ensures reply.HealthThrows? ==> c.e == reply.e
    ensures c.Checked? ==> c.result.result.Some? && !HasErrors(c.result) && !HasExceptions(c.result)
    ensures c.Checked? ==> (c.result.result == Some(true) <==> reply.status == Some(HealthyStatus))
  {
    match reply
    case HealthThrows(e) => Thrown(e)
    case HealthStatus(status) => Checked(AddResult(New<bool>(), status == Some(HealthyStatus)))
  }

  /**
    `GetHealthAsync()`: the model-health errors, if any, are copied; otherwise
    the response's `ModelAvailable` is the model-health result.
   */
  function GetHealth(reply: HealthReply): (c: Checked<HealthResponse>)
    ensures reply.HealthThrows? <==> c.Thrown?
    ensures c.Checked? ==>
      !HasErrors(c.result) && !HasExceptions(c.result)
      && c.result.result == Some(HealthResponse(reply.status == Some(HealthyStatus)))
  {
    match GetModelHealth(reply)
    case Thrown(e) => Thrown(e)
    case Checked(model) =>
      if HasErrors(model) then Checked(AddErrors(New<HealthResponse>(), model.errors))
      else Checked(AddResult(New<HealthResponse>(), HealthResponse(model.result.GetOr(false))))
  }

  /** The overall health is the model health: available exactly when the model check said `true`. */
  lemma HealthIsModelHealth(reply: HealthReply)
    requires reply.HealthStatus?
    ensures GetHealth(reply).result.result.value.modelAvailable <==> GetModelHealth(reply).result.result == Some(true)
  {
  }
}
