/**
  `ServiceBase<TEntity>` (ServiceBase.cs): the error results shared by the
  entity services, and the `GetAsync`/`DeleteAsync` they inherit. The entity
  type only enters through its name, which the error texts spell out.
 */
module ServiceBase {
  import opened Common
  import opened Entities
  import opened OperationResults
  import opened Repository

  datatype EntityType = SessionType | ConversationType | QuestionType | AnswerType {
    /** `typeof(TEntity).Name`. */
    function Name(): string {
      match this
      case SessionType => "Session"
      case ConversationType => "Conversation"
      case QuestionType => "Question"
      case AnswerType => "Answer"
    }
  }

  /** `SearchingForIdErrorResult(id)`: the not-found error naming the type and the id. */
  function SearchingForIdErrorResult(t: EntityType, id: Guid): (e: ErrorResult)
    ensures e.message == "Entity of type " + t.Name() + " with ID " + id + " not found."
    ensures e.title == "search for " + t.Name()
  {
    ErrorResult("Entity of type " + t.Name() + " with ID " + id + " not found.", "search for " + t.Name())
  }

  /** `ActionErrorResult(action)`: the error of a failed action, titled by the action. */
  function ActionErrorResult(t: EntityType, action: string): (e: ErrorResult)
    ensures e.message == "An error occurred while " + action + " the " + t.Name() + "."
    ensures e.title == action
  {
    ErrorResult("An error occurred while " + action + " the " + t.Name() + ".", action)
  }

  /** `ActionSavingResult<T1, T2>()`: the parent was saved but its children were not. */
  function ActionSavingResult(parent: EntityType, child: EntityType): (e: ErrorResult)
    ensures e.message == parent.Name() + " but " + child.Name() + " failed to save."
    ensures e.title == "multiple entity saving"
  {
    ErrorResult(parent.Name() + " but " + child.Name() + " failed to save.", "multiple entity saving")
  }

  /** What the repository's `GetAsync(id)` finds in a table that holds no faults. */
  function LookupIn<T>(table: map<Guid, T>, id: Guid): (l: Lookup<T>)
    ensures id in table <==> l.Found?
    ensures l.Found? ==> l.entity == table[id]
    ensures !l.Fails?
  {
    if id in table then Found(table[id]) else Missing
  }

  /**
    `GetAsync(id)`: a found entity becomes the result with nothing recorded; a
    missing one gives exactly the not-found error; a failing lookup gives the
    "retrieving" error together with its exception. Only a found entity sets the result.
   */
  function Get<T>(t: EntityType, id: Guid, lookup: Lookup<T>): (r: OperationResult<T>)
    ensures lookup.Found? <==> r.result.Some?
    ensures lookup.Found? ==> r.result.value == lookup.entity && !HasErrors(r) && !HasExceptions(r)
    ensures lookup.Missing? ==> r.errors == [SearchingForIdErrorResult(t, id)] && r.exceptions == []
    ensures lookup.Fails? ==>
      r.errors == [ActionErrorResult(t, "retrieving")] && r.exceptions == [ToExceptionResult(lookup.e)]
  {
    match lookup
    case Found(e) => AddResult(New<T>(), e)
    case Missing => AddError(New<T>(), SearchingForIdErrorResult(t, id), None)
    case Fails(ex) => AddError(New<T>(), ActionErrorResult(t, "retrieving"), Some(ex))
  }

  /** Through `ToActionResult`, a found entity is a 200, a missing one a 400 and a failing lookup a 500. */
  lemma GetStatus<T>(t: EntityType, id: Guid, lookup: Lookup<T>)
    ensures var status := ToActionResult(Get(t, id, lookup)).0.status;
      (lookup.Found? <==> status == 200) && (lookup.Missing? <==> status == 400) && (lookup.Fails? <==> status == 500)
  {
  }

  /**
    `DeleteAsync(id)`: the result says whether any row was affected, with no
    error; a throwing delete gives `false`, the "deleting" error and the exception.
   */
  function Delete(t: EntityType, reply: Reply): (r: OperationResult<bool>)
    ensures reply.Count? ==> r.result == Some(reply.n > 0) && !HasErrors(r) && !HasExceptions(r)
    ensures reply.Throws? ==>
      r.result == Some(false) && r.errors == [ActionErrorResult(t, "deleting")]
      && r.exceptions == [ToExceptionResult(reply.e)]
  {
    match reply
    case Count(n) => AddResult(New<bool>(), n > 0)
    case Throws(e) => AddResultWithError(New<bool>(), false, ActionErrorResult(t, "deleting"), Some(e))
  }
}
