/**
  `ServiceAnswer` (ServiceAnswer.cs): idempotent saving of answers. An answer
  whose id is already stored is not inserted again; every repository exception
  is caught and reported.
 */
module ServiceAnswer {
  import opened Common
  import opened Entities
  import opened OperationResults
  import opened Repository
  import opened ServiceBase

  /** The "saving" error of this service. */
  function SavingError(): ErrorResult {
    ActionErrorResult(AnswerType, "saving")
  }

  /**
    `SaveAsync(answer)`: an already stored answer is reported saved without any
    write; otherwise one insert is made, whose positive count means saved, a
    count of zero or less means not saved (with no error), and an exception
    means not saved with the error and the exception.
   */
  function SaveAnswer(db: Db, a: Answer, reply: Reply): (s: Saved)
    ensures s.Saved?
    ensures a.id in db.answers ==> s.result == AddResult(New<bool>(), true) && s.db == db && s.log == []
    ensures a.id !in db.answers ==> s.log == [InsertAnswer(a)]
    ensures a.id !in db.answers && reply.Count? ==>
      s.result.result == Some(reply.n > 0) && !HasErrors(s.result) && !HasExceptions(s.result)
    ensures a.id !in db.answers && reply.Throws? ==>
      s.result.result == Some(false) && s.result.errors == [SavingError()] && s.result.exceptions == [ToExceptionResult(reply.e)]
    ensures Succeeded(s) <==> a.id in s.db.answers
    ensures s.db == db || (s.db == db.(answers := db.answers[a.id := a]) && a.id !in db.answers)
    ensures FromLevel(s.log, 3) && |s.log| <= 1
  {
    if a.id in db.answers then Saved(AddResult(New<bool>(), true), db, [])
    else
      match reply
      case Throws(e) => Saved(AddResultWithError(New<bool>(), false, SavingError(), Some(e)), db, [InsertAnswer(a)])
      case Count(n) =>
        if n > 0 then Saved(AddResult(New<bool>(), true), db.(answers := db.answers[a.id := a]), [InsertAnswer(a)])
        else Saved(AddResult(New<bool>(), false), db, [InsertAnswer(a)])
  }

  /** Saving an answer again after it was saved writes nothing and reports success, whatever the table would answer. */
  lemma SaveAnswerIdempotent(db: Db, a: Answer, first: Reply, again: Reply)
    requires Succeeded(SaveAnswer(db, a, first))
    ensures var s := SaveAnswer(db, a, first);
      var s' := SaveAnswer(s.db, a, again);
      Succeeded(s') && s'.log == [] && s'.db == s.db
  {
  }

  /** The answers not yet stored, in input order. */
  function NewAnswers(db: Db, xs: seq<Answer>): (r: seq<Answer>)
    ensures |r| <= |xs|
    ensures forall a :: a in r <==> a in xs && a.id !in db.answers
  {
    if |xs| == 0 then []
    else (if xs[0].id in db.answers then [] else [xs[0]]) + NewAnswers(db, xs[1..])
  }

  /** Filtering keeps the order of the input: the new answers of two lists are those of the first, then the second. */
  lemma {:induction false} NewAnswersAppend(db: Db, xs: seq<Answer>, ys: seq<Answer>)
    ensures NewAnswers(db, xs + ys) == NewAnswers(db, xs) + NewAnswers(db, ys)
    decreases |xs|
  {
    if |xs| == 0 {
      assert xs + ys == ys;
    } else {
      assert (xs + ys)[1..] == xs[1..] + ys;
      NewAnswersAppend(db, xs[1..], ys);
    }
  }

  /** Storing the new answers leaves every answer of the batch stored. */
  lemma NewAnswersStored(db: Db, xs: seq<Answer>)
    ensures forall k :: 0 <= k < |xs| ==> xs[k].id in PutAll(db.answers, NewAnswers(db, xs), AnswerId)
  {
    var unseen := NewAnswers(db, xs);
    forall k | 0 <= k < |xs| ensures xs[k].id in PutAll(db.answers, unseen, AnswerId) {
      if xs[k].id !in db.answers {
        assert xs[k] in unseen;
        var j :| 0 <= j < |unseen| && unseen[j] == xs[k];
        assert AnswerId(unseen[j]) in KeysOf(unseen, AnswerId);
      }
    }
  }

  /**
    `SaveMultipleAsync(answers)`: the answers not yet stored go, in input order,
    to one batch insert, made only when there is at least one; a count of zero
    means not saved (with no error) and an exception is reported with the error.
   */
  function SaveAnswers(db: Db, xs: seq<Answer>, reply: Reply): (s: Saved)
    ensures s.Saved?
    ensures var unseen := NewAnswers(db, xs);
      (|unseen| == 0 ==> s.result == AddResult(New<bool>(), true) && s.db == db && s.log == [])
      && (|unseen| > 0 ==> s.log == [InsertAnswers(unseen)])
      && (|unseen| > 0 && reply.Count? ==>
            s.result.result == Some(reply.n != 0) && !HasErrors(s.result) && !HasExceptions(s.result))
      && (|unseen| > 0 && reply.Throws? ==>
            s.result.result == Some(false) && s.result.errors == [SavingError()]
            && s.result.exceptions == [ToExceptionResult(reply.e)])
    ensures Succeeded(s) ==> forall k :: 0 <= k < |xs| ==> xs[k].id in s.db.answers
    ensures s.db.sessions == db.sessions && s.db.conversations == db.conversations && s.db.questions == db.questions
    ensures db.answers.Keys <= s.db.answers.Keys
    ensures FromLevel(s.log, 3) && |s.log| <= 1
  {
    var unseen := NewAnswers(db, xs);
    if |unseen| == 0 then Saved(AddResult(New<bool>(), true), db, [])
    else
      match reply
      case Throws(e) => Saved(AddResultWithError(New<bool>(), false, SavingError(), Some(e)), db, [InsertAnswers(unseen)])
      case Count(n) =>
        if n == 0 then Saved(AddResult(New<bool>(), false), db, [InsertAnswers(unseen)])
        else
          var stored := db.(answers := PutAll(db.answers, unseen, AnswerId));
          NewAnswersStored(db, xs);
          Saved(AddResult(New<bool>(), true), stored, [InsertAnswers(unseen)])
  }

  /** Re-saving a batch that was saved writes nothing and reports success. */
  lemma SaveAnswersIdempotent(db: Db, xs: seq<Answer>, first: Reply, again: Reply)
    requires Succeeded(SaveAnswers(db, xs, first))
    ensures var s := SaveAnswers(db, xs, first);
      var s' := SaveAnswers(s.db, xs, again);
      Succeeded(s') && s'.log == [] && s'.db == s.db
  {
    NoNewAnswers(SaveAnswers(db, xs, first).db, xs);
  }

  /** When every answer is stored already, none is new. */
  lemma {:induction false} NoNewAnswers(db: Db, xs: seq<Answer>)
    requires forall k :: 0 <= k < |xs| ==> xs[k].id in db.answers
    ensures NewAnswers(db, xs) == []
    decreases |xs|
  {
    if |xs| > 0 {
      NoNewAnswers(db, xs[1..]);
    }
  }
}
