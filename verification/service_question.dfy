/**
  `ServiceQuestion` (ServiceQuestion.cs): saving questions and then, through
  `ServiceAnswer`, their answers. A question the repository's `GetAsync` finds
  is not inserted again, but its answer is still saved. That lookup inner-joins
  the answers table, so a question stored without an answer row is not found
  and is inserted a second time (`SaveQuestionByKey` is the save the retry
  remarks of `SaveAsync` describe). Repository exceptions are caught.

  The answer step looks only at whether the answer service recorded errors:
  an answer insert that affects no row reports `false` without an error, and
  the question save still reports success.
 */
module ServiceQuestion {
  import opened Common
  import opened Entities
  import opened OperationResults
  import opened Repository
  import opened ServiceBase
  import SA = ServiceAnswer

  function SavingError(): ErrorResult {
    ActionErrorResult(QuestionType, "saving")
  }

  /** The error of a question saved without its answer. */
  function CascadeError(): ErrorResult {
    ActionSavingResult(QuestionType, AnswerType)
  }

  /** The answer part of `SaveAsync`: the answer, if any, saved after the question's writes `log`. */
  function AnswerStep(db: Db, q: Question, reply: Reply, log: seq<Write>): (s: Saved)
    ensures s.Saved?
    ensures q.answer.None? ==> s == Saved(AddResult(New<bool>(), true), db, log)
    ensures q.answer.Some? ==>
      var a := SA.SaveAnswer(db, q.answer.value, reply);
      s.log == log + a.log && s.db == a.db
      && (HasErrors(a.result) ==> s.result == AddResultWithError(New<bool>(), false, CascadeError(), None))
      && (!HasErrors(a.result) ==> s.result == AddResult(New<bool>(), true))
  {
    if q.answer.None? then Saved(AddResult(New<bool>(), true), db, log)
    else
      var a := SA.SaveAnswer(db, q.answer.value, reply);
      if HasErrors(a.result) then Saved(AddResultWithError(New<bool>(), false, CascadeError(), None), a.db, log + a.log)
      else Saved(AddResult(New<bool>(), true), a.db, log + a.log)
  }

  /**
    `SaveAsync(question)` once the existence lookup has answered `found`: a
    question not found is inserted first (the row stored carries the table's
    default index, `SingleInsertRow`); an insert affecting no row stops with
    `false` and no error before the answer is tried, and a throwing one is
    reported with the error and the exception. Then the answer, if there is
    one, is saved; answer errors become the single cascade error.
   */
  function SaveQuestionAfter(db: Db, q: Question, replies: Replies, found: bool): Saved {
    if !found then
      match replies.question
      case Throws(e) => Saved(AddResultWithError(New<bool>(), false, SavingError(), Some(e)), db, [InsertQuestion(q)])
      case Count(n) =>
        if n > 0 then AnswerStep(db.(questions := db.questions[q.id := SingleInsertRow(db, q)]), q, replies.answer, [InsertQuestion(q)])
        else Saved(AddResult(New<bool>(), false), db, [InsertQuestion(q)])
    else AnswerStep(db, q, replies.answer, [])
  }

  /**
    `SaveAsync(question)` as written: the question counts as stored only when
    `GetAsync`, with its join on the answers table, finds it.
   */
  function SaveQuestion(db: Db, q: Question, replies: Replies): (s: Saved)
    ensures s.Saved?
    ensures QuestionVisible(db, q.id) ==> s == AnswerStep(db, q, replies.answer, [])
    ensures !QuestionVisible(db, q.id) && replies.question.Throws? ==>
      s.log == [InsertQuestion(q)] && s.db == db && s.result.result == Some(false)
      && s.result.errors == [SavingError()] && s.result.exceptions == [ToExceptionResult(replies.question.e)]
    ensures !QuestionVisible(db, q.id) && replies.question.Count? && replies.question.n <= 0 ==>
      QuietlyFailed(s) && s.log == [InsertQuestion(q)] && s.db == db
    ensures !QuestionVisible(db, q.id) && replies.question.Count? && replies.question.n > 0 ==>
      s == AnswerStep(db.(questions := db.questions[q.id := SingleInsertRow(db, q)]), q, replies.answer, [InsertQuestion(q)])
  {
    SaveQuestionAfter(db, q, replies, QuestionVisible(db, q.id))
  }

  /**
    The save the remarks of `SaveAsync` describe: a question whose row is
    stored counts as existing whether or not its answer row is, so a retry
    skips the question insert and tries the answer again.
   */
  function SaveQuestionByKey(db: Db, q: Question, replies: Replies): (s: Saved)
    ensures s.Saved?
    ensures q.id in db.questions ==> s == AnswerStep(db, q, replies.answer, [])
    ensures q.id !in db.questions ==> s == SaveQuestion(db, q, replies)
  {
    SaveQuestionAfter(db, q, replies, q.id in db.questions)
  }

  /** The two saves differ only on a question whose row is stored without an answer row. */
  lemma SaveQuestionByKeyAgrees(db: Db, q: Question, replies: Replies)
    ensures QuestionVisible(db, q.id) || q.id !in db.questions ==> SaveQuestionByKey(db, q, replies) == SaveQuestion(db, q, replies)
    ensures q.id in db.questions && !QuestionVisible(db, q.id) ==>
      SaveQuestion(db, q, replies).log[0] == InsertQuestion(q) && FromLevel(SaveQuestionByKey(db, q, replies).log, 3)
  {
  }

  /**
    The single and the batch insert store different rows for the same
    question: `SaveAsync` leaves the index to the table's default, while
    `SaveMultipleAsync` writes every column.
   */
  lemma SingleInsertDropsIndex(db: Db, q: Question, replies: Replies)
    requires !QuestionVisible(db, q.id)
    requires replies.question.Count? && replies.question.n > 0
    ensures SaveQuestion(db, q, replies).db.questions[q.id] == q.(index := db.questionIndexDefault)
    ensures SaveQuestions(db, [q], replies).db.questions[q.id] == q
    ensures q.index != db.questionIndexDefault ==>
      SaveQuestion(db, q, replies).db.questions[q.id] != SaveQuestions(db, [q], replies).db.questions[q.id]
  {
    assert NewQuestions(db, [q]) == [q];
    assert PutAll(db.questions, [q], QuestionId)[q.id] == q;
  }

  /** A question the lookup does not find is inserted before its answer: when both are written, in that order and nothing else. */
  lemma QuestionBeforeAnswer(db: Db, q: Question, replies: Replies)
    requires !QuestionVisible(db, q.id) && q.answer.Some? && q.answer.value.id !in db.answers
    requires replies.question.Count? && replies.question.n > 0
    ensures SaveQuestion(db, q, replies).log == [InsertQuestion(q), InsertAnswer(q.answer.value)]
  {
  }

  /**
    An answer insert that affects no row is not noticed: once the question step
    got through (the lookup found the question, or its insert counted a row),
    the question save succeeds.
   */
  lemma SilentAnswerFailure(db: Db, q: Question, replies: Replies)
    requires q.answer.Some? && q.answer.value.id !in db.answers
    requires !QuestionVisible(db, q.id) ==> replies.question.Count? && replies.question.n > 0
    requires replies.answer == Count(0)
    ensures QuietlyFailed(SA.SaveAnswer(db, q.answer.value, replies.answer))
    ensures Succeeded(SaveQuestion(db, q, replies))
  {
  }

  /** A question whose row is stored but has no answer row is inserted again, as the lookup does not find it. */
  lemma UnansweredQuestionReinserted(db: Db, q: Question, replies: Replies)
    requires q.id in db.questions && !QuestionVisible(db, q.id)
    ensures var s := SaveQuestion(db, q, replies);
      |s.log| > 0 && s.log[0] == InsertQuestion(q)
    ensures replies.question.Throws? ==>
      var s := SaveQuestion(db, q, replies);
      s.log == [InsertQuestion(q)] && s.result.result == Some(false) && s.result.errors == [SavingError()]
  {
  }

  /**
    The retry the remarks of `SaveAsync` are about, as written: a first save
    whose question insert went through but whose answer insert stored nothing
    (it threw, reported as the cascade error, or affected no row, not reported
    at all) leaves the question stored without an answer row; saving it again
    inserts the question a second time, and with the database's duplicate-key
    error the retry fails before the answer is tried.
   */
  lemma RetryAfterAnswerFailure(db: Db, q: Question, first: Replies, again: Replies)
    requires q.id !in db.questions && q.answer.Some? && q.answer.value.id !in db.answers
    requires forall aid :: aid in db.answers ==> db.answers[aid].idQuestion != q.id
    requires first.question.Count? && first.question.n > 0
    requires first.answer.Throws? || first.answer.n <= 0
    requires again.question.Throws?
    ensures var s := SaveQuestion(db, q, first);
      q.id in s.db.questions && !QuestionVisible(s.db, q.id)
      && (first.answer.Throws? ==> s.result.errors == [CascadeError()])
      && (first.answer.Count? ==> Succeeded(s))
      && var s' := SaveQuestion(s.db, q, again);
      s'.log == [InsertQuestion(q)] && s'.result.result == Some(false) && s'.result.errors == [SavingError()]
  {
    var s := SaveQuestion(db, q, first);
    assert s.db == db.(questions := db.questions[q.id := SingleInsertRow(db, q)]);
  }

  /**
    The same retry with the existence test by key: the question is not inserted
    again, the answer is, and afterwards the question reads back through the
    lookup's join.
   */
  lemma ByKeyRetrySavesAnswer(db: Db, q: Question, first: Replies, again: Replies)
    requires q.id !in db.questions && q.answer.Some? && q.answer.value.id !in db.answers
    requires q.answer.value.idQuestion == q.id
    requires first.question.Count? && first.question.n > 0
    requires first.answer.Throws? || first.answer.n <= 0
    requires again.answer.Count? && again.answer.n > 0
    ensures var s := SaveQuestionByKey(db, q, first);
      q.id in s.db.questions
      && var s' := SaveQuestionByKey(s.db, q, again);
      Succeeded(s') && s'.log == [InsertAnswer(q.answer.value)] && QuestionVisible(s'.db, q.id)
  {
    var s := SaveQuestionByKey(db, q, first);
    var s' := SaveQuestionByKey(s.db, q, again);
    var a := q.answer.value;
    assert s'.db.answers[a.id] == a;
    assert a.id in s'.db.answers && s'.db.answers[a.id].idQuestion == q.id;
  }

  /** The answer step comes after the question writes `log`, at the answer depth. */
  lemma AnswerStepTopDown(db: Db, q: Question, reply: Reply, log: seq<Write>)
    requires TopDown(log) && UpToLevel(log, 3) && FromLevel(log, 2)
    ensures var s := AnswerStep(db, q, reply, log);
      TopDown(s.log) && FromLevel(s.log, 2)
  {
    if q.answer.Some? {
      var a := SA.SaveAnswer(db, q.answer.value, reply);
      TopDownAppend(log, a.log, 3);
      FromLevelAppend(log, a.log, 2);
    }
  }

  /** The single save writes parents first: the question (if new) before its answer, and nothing above questions. */
  lemma SaveQuestionTopDown(db: Db, q: Question, replies: Replies)
    ensures var s := SaveQuestion(db, q, replies);
      TopDown(s.log) && FromLevel(s.log, 2)
  {
    if QuestionVisible(db, q.id) {
      AnswerStepTopDown(db, q, replies.answer, []);
    } else if replies.question.Count? && replies.question.n > 0 {
      OneWrite(InsertQuestion(q));
      AnswerStepTopDown(db.(questions := db.questions[q.id := SingleInsertRow(db, q)]), q, replies.answer, [InsertQuestion(q)]);
    }
  }

  /** The questions the lookup does not find, in input order. */
  function NewQuestions(db: Db, qs: seq<Question>): (r: seq<Question>)
    ensures |r| <= |qs|
    ensures forall q :: q in r <==> q in qs && !QuestionVisible(db, q.id)
  {
    if |qs| == 0 then []
    else (if QuestionVisible(db, qs[0].id) then [] else [qs[0]]) + NewQuestions(db, qs[1..])
  }

  /** The questions the lookup finds, in input order. */
  function StoredQuestions(db: Db, qs: seq<Question>): (r: seq<Question>)
    ensures |r| <= |qs|
    ensures forall q :: q in r <==> q in qs && QuestionVisible(db, q.id)
  {
    if |qs| == 0 then []
    else (if QuestionVisible(db, qs[0].id) then [qs[0]] else []) + StoredQuestions(db, qs[1..])
  }

  /** The two parts split the input: every question lands in exactly one of them, and none is lost or added. */
  lemma {:induction false} PartitionCounts(db: Db, qs: seq<Question>)
    ensures multiset(NewQuestions(db, qs)) + multiset(StoredQuestions(db, qs)) == multiset(qs)
    decreases |qs|
  {
    if |qs| > 0 {
      PartitionCounts(db, qs[1..]);
      PartitionStep(db, qs);
    }
  }

  /** The first element lands in exactly one of the two parts. */
  lemma PartitionStep(db: Db, qs: seq<Question>)
    requires |qs| > 0
    ensures multiset(NewQuestions(db, qs)) + multiset(StoredQuestions(db, qs))
         == multiset{qs[0]} + multiset(NewQuestions(db, qs[1..])) + multiset(StoredQuestions(db, qs[1..]))
    ensures multiset(qs) == multiset{qs[0]} + multiset(qs[1..])
  {
    assert qs == [qs[0]] + qs[1..];
    if QuestionVisible(db, qs[0].id) {
      assert NewQuestions(db, qs) == NewQuestions(db, qs[1..]);
      assert StoredQuestions(db, qs) == [qs[0]] + StoredQuestions(db, qs[1..]);
    } else {
      assert NewQuestions(db, qs) == [qs[0]] + NewQuestions(db, qs[1..]);
      assert StoredQuestions(db, qs) == StoredQuestions(db, qs[1..]);
    }
  }

  /** The answers of the questions that have one, in question order. */
  function AnswersOf(qs: seq<Question>): (r: seq<Answer>)
    ensures |r| <= |qs|
  {
    if |qs| == 0 then []
    else (if qs[0].answer.Some? then [qs[0].answer.value] else []) + AnswersOf(qs[1..])
  }

  /** The collected answers are exactly the answers present on the questions, nulls skipped. */
  lemma {:induction false} AnswersOfMembers(qs: seq<Question>)
    ensures forall a :: a in AnswersOf(qs) <==> exists k :: 0 <= k < |qs| && qs[k].answer == Some(a)
    decreases |qs|
  {
    if |qs| > 0 {
      AnswersOfMembers(qs[1..]);
      assert forall k :: 1 <= k < |qs| ==> qs[k] == qs[1..][k - 1];
      forall a | a in AnswersOf(qs) ensures exists k :: 0 <= k < |qs| && qs[k].answer == Some(a) {
        if a !in AnswersOf(qs[1..]) {
          assert qs[0].answer == Some(a);
        } else {
          var k :| 0 <= k < |qs[1..]| && qs[1..][k].answer == Some(a);
          assert qs[k + 1].answer == Some(a);
        }
      }
    }
  }

  /** The answers the batch save hands on: those of the new questions, then those of the stored ones. */
  function CollectedAnswers(db: Db, qs: seq<Question>): seq<Answer> {
    AnswersOf(NewQuestions(db, qs)) + AnswersOf(StoredQuestions(db, qs))
  }

  /** The batch insert of the new questions, made only when there is one. */
  function QuestionWrites(db: Db, qs: seq<Question>): seq<Write> {
    if |NewQuestions(db, qs)| > 0 then [InsertQuestions(NewQuestions(db, qs))] else []
  }

  /** The database once the new questions went in (with a non-zero count). */
  function AfterQuestions(db: Db, qs: seq<Question>): Db {
    db.(questions := PutAll(db.questions, NewQuestions(db, qs), QuestionId))
  }

  /** The answer part of the batch save: one answer batch, made only when some answer was collected. */
  function AnswersStep(db: Db, answers: seq<Answer>, reply: Reply, log: seq<Write>): (s: Saved)
    ensures s.Saved?
    ensures |answers| == 0 ==> s == Saved(AddResult(New<bool>(), true), db, log)
    ensures |answers| > 0 ==>
      var a := SA.SaveAnswers(db, answers, reply);
      s.log == log + a.log && s.db == a.db
      && (HasErrors(a.result) ==> s.result == AddResultWithError(New<bool>(), false, CascadeError(), None))
      && (!HasErrors(a.result) ==> s.result == AddResult(New<bool>(), true))
  {
    if |answers| == 0 then Saved(AddResult(New<bool>(), true), db, log)
    else
      var a := SA.SaveAnswers(db, answers, reply);
      if HasErrors(a.result) then Saved(AddResultWithError(New<bool>(), false, CascadeError(), None), a.db, log + a.log)
      else Saved(AddResult(New<bool>(), true), a.db, log + a.log)
  }

  /**
    `SaveMultipleAsync(questions)`: the questions are split into new and stored
    ones; the new ones go to one batch insert, made only when there is one,
    whose zero count stops with `false` and whose exception is reported. Then
    the answers of the new questions and then of the stored ones go to one
    answer batch, made only when there is an answer.
   */
  function SaveQuestions(db: Db, qs: seq<Question>, replies: Replies): (s: Saved)
    ensures s.Saved?
    ensures var unseen := NewQuestions(db, qs);
      (|unseen| > 0 && replies.question.Throws? ==>
         s.log == [InsertQuestions(unseen)] && s.db == db && s.result.result == Some(false)
         && s.result.errors == [SavingError()] && s.result.exceptions == [ToExceptionResult(replies.question.e)])
      && (|unseen| > 0 && replies.question == Count(0) ==>
         QuietlyFailed(s) && s.log == [InsertQuestions(unseen)] && s.db == db)
    ensures |NewQuestions(db, qs)| == 0 ==>
      s == AnswersStep(db, CollectedAnswers(db, qs), replies.answer, [])
    ensures |NewQuestions(db, qs)| > 0 && replies.question.Count? && replies.question.n != 0 ==>
      s == AnswersStep(AfterQuestions(db, qs), CollectedAnswers(db, qs), replies.answer, QuestionWrites(db, qs))
  {
    var unseen := NewQuestions(db, qs);
    var answers := CollectedAnswers(db, qs);
    if |unseen| > 0 then
      match replies.question
      case Throws(e) => Saved(AddResultWithError(New<bool>(), false, SavingError(), Some(e)), db, [InsertQuestions(unseen)])
      case Count(n) =>
        if n == 0 then Saved(AddResult(New<bool>(), false), db, [InsertQuestions(unseen)])
        else AnswersStep(AfterQuestions(db, qs), answers, replies.answer, [InsertQuestions(unseen)])
    else AnswersStep(db, answers, replies.answer, [])
  }

  /** The answer batch comes after the parent writes `log`, at the answer depth. */
  lemma AnswersStepTopDown(db: Db, answers: seq<Answer>, reply: Reply, log: seq<Write>)
    requires TopDown(log) && UpToLevel(log, 3) && FromLevel(log, 2)
    ensures var s := AnswersStep(db, answers, reply, log);
      TopDown(s.log) && FromLevel(s.log, 2)
  {
    if |answers| > 0 {
      var a := SA.SaveAnswers(db, answers, reply);
      TopDownAppend(log, a.log, 3);
      FromLevelAppend(log, a.log, 2);
    }
  }

  /** One question batch followed by the answer batch is top-down. */
  lemma QuestionsThenAnswersTopDown(db: Db, answers: seq<Answer>, reply: Reply, unseen: seq<Question>)
    ensures var s := AnswersStep(db, answers, reply, [InsertQuestions(unseen)]);
      TopDown(s.log) && FromLevel(s.log, 2)
  {
    OneWrite(InsertQuestions(unseen));
    AnswersStepTopDown(db, answers, reply, [InsertQuestions(unseen)]);
  }

  /** The batch save writes parents first: the question batch (if any) before the answer batch, and nothing above questions. */
  lemma SaveQuestionsTopDown(db: Db, qs: seq<Question>, replies: Replies)
    ensures var s := SaveQuestions(db, qs, replies);
      TopDown(s.log) && FromLevel(s.log, 2)
  {
    var unseen := NewQuestions(db, qs);
    if |unseen| == 0 {
      AnswersStepTopDown(db, CollectedAnswers(db, qs), replies.answer, []);
    } else if replies.question.Count? && replies.question.n != 0 {
      assert QuestionWrites(db, qs) == [InsertQuestions(unseen)];
      QuestionsThenAnswersTopDown(AfterQuestions(db, qs), CollectedAnswers(db, qs), replies.answer, unseen);
    } else {
      StoppedBatchTopDown(db, qs, replies);
    }
  }

  /** A batch stopped by its question insert wrote that insert alone. */
  lemma StoppedBatchTopDown(db: Db, qs: seq<Question>, replies: Replies)
    requires |NewQuestions(db, qs)| > 0 && (replies.question.Throws? || replies.question == Count(0))
    ensures var s := SaveQuestions(db, qs, replies);
      TopDown(s.log) && FromLevel(s.log, 2)
  {
  }

  /** An empty batch succeeds without any write. */
  lemma SaveNoQuestions(db: Db, replies: Replies)
    ensures var s := SaveQuestions(db, [], replies);
      Succeeded(s) && s.log == [] && s.db == db
  {
  }

  /** The collected answers keep the input's order within each part: splitting the input splits each part. */
  lemma {:induction false} AnswersOfAppend(xs: seq<Question>, ys: seq<Question>)
    ensures AnswersOf(xs + ys) == AnswersOf(xs) + AnswersOf(ys)
    decreases |xs|
  {
    if |xs| == 0 {
      assert xs + ys == ys;
    } else {
      var head := if xs[0].answer.Some? then [xs[0].answer.value] else [];
      assert (xs + ys)[0] == xs[0] && (xs + ys)[1..] == xs[1..] + ys;
      assert AnswersOf(xs + ys) == head + AnswersOf(xs[1..] + ys);
      AnswersOfAppend(xs[1..], ys);
      assert AnswersOf(xs) == head + AnswersOf(xs[1..]);
    }
  }

  /**
    Saving a question again after it was saved writes nothing and reports
    success when its answer is stored under its id and belongs to it, so that
    the lookup's join finds the question. (The answer condition matters: a
    quietly failed answer insert still lets the first save succeed, and a
    question without an answer is inserted again, `UnansweredQuestionReinserted`.)
   */
  lemma SaveQuestionIdempotent(db: Db, q: Question, first: Replies, again: Replies)
    requires Succeeded(SaveQuestion(db, q, first))
    requires q.answer.Some?
    requires var after := SaveQuestion(db, q, first).db;
      q.answer.value.id in after.answers && after.answers[q.answer.value.id].idQuestion == q.id
    ensures var s := SaveQuestion(db, q, first);
      var s' := SaveQuestion(s.db, q, again);
      Succeeded(s') && s'.log == [] && s'.db == s.db
  {
    var s := SaveQuestion(db, q, first);
    assert q.id in s.db.questions;
    assert QuestionVisible(s.db, q.id);
  }

  /**
    With the existence test by key, saving a question again after it was saved,
    with its answer (if any) stored too, writes nothing and reports success.
   */
  lemma SaveQuestionByKeyIdempotent(db: Db, q: Question, first: Replies, again: Replies)
    requires Succeeded(SaveQuestionByKey(db, q, first))
    requires q.answer.Some? ==> q.answer.value.id in SaveQuestionByKey(db, q, first).db.answers
    ensures var s := SaveQuestionByKey(db, q, first);
      var s' := SaveQuestionByKey(s.db, q, again);
      Succeeded(s') && s'.log == [] && s'.db == s.db
  {
  }

  /** When the lookup finds every question, none is new and all are stored ones. */
  lemma {:induction false} NoNewQuestions(db: Db, qs: seq<Question>)
    requires forall k :: 0 <= k < |qs| ==> QuestionVisible(db, qs[k].id)
    ensures NewQuestions(db, qs) == [] && StoredQuestions(db, qs) == qs
    decreases |qs|
  {
    if |qs| > 0 {
      NoNewQuestions(db, qs[1..]);
      assert qs == [qs[0]] + qs[1..];
    }
  }

  /** A successful batch save leaves every question of the batch stored. */
  lemma QuestionsStoredAfterSuccess(db: Db, qs: seq<Question>, replies: Replies)
    requires Succeeded(SaveQuestions(db, qs, replies))
    ensures forall k :: 0 <= k < |qs| ==> qs[k].id in SaveQuestions(db, qs, replies).db.questions
  {
    var unseen := NewQuestions(db, qs);
    var questions := SaveQuestions(db, qs, replies).db.questions;
    assert db.questions.Keys + KeysOf(unseen, QuestionId) <= questions.Keys;
    forall k | 0 <= k < |qs| ensures qs[k].id in questions {
      if !QuestionVisible(db, qs[k].id) {
        assert qs[k] in unseen;
        var j :| 0 <= j < |unseen| && unseen[j] == qs[k];
        assert QuestionId(unseen[j]) in KeysOf(unseen, QuestionId);
      }
    }
  }

  /**
    Re-saving a batch after it was saved writes nothing and reports success
    when every question has an answer stored under its id that belongs to it,
    so that the lookup's join finds every question.
   */
  lemma SaveQuestionsIdempotent(db: Db, qs: seq<Question>, first: Replies, again: Replies)
    requires Succeeded(SaveQuestions(db, qs, first))
    requires forall k :: 0 <= k < |qs| ==> qs[k].answer.Some?
    requires forall k :: 0 <= k < |qs| ==>
      qs[k].answer.value.id in SaveQuestions(db, qs, first).db.answers
      && SaveQuestions(db, qs, first).db.answers[qs[k].answer.value.id].idQuestion == qs[k].id
    ensures var s := SaveQuestions(db, qs, first);
      var s' := SaveQuestions(s.db, qs, again);
      Succeeded(s') && s'.log == [] && s'.db == s.db
  {
    var stored := SaveQuestions(db, qs, first).db;
    QuestionsStoredAfterSuccess(db, qs, first);
    forall k | 0 <= k < |qs| ensures QuestionVisible(stored, qs[k].id) {
      assert stored.answers[qs[k].answer.value.id].idQuestion == qs[k].id;
    }
    NoNewQuestions(stored, qs);
    var answers := AnswersOf(qs);
    assert CollectedAnswers(stored, qs) == answers;
    AnswersOfMembers(qs);
    forall j | 0 <= j < |answers| ensures answers[j].id in stored.answers {
      assert answers[j] in answers;
    }
    SA.NoNewAnswers(stored, answers);
  }

  /** A batch holding a question whose row is stored without an answer row inserts that question again. */
  lemma BatchReinsertsUnanswered(db: Db, qs: seq<Question>, replies: Replies, k: nat)
    requires k < |qs| && qs[k].id in db.questions && !QuestionVisible(db, qs[k].id)
    ensures qs[k] in NewQuestions(db, qs)
    ensures var s := SaveQuestions(db, qs, replies);
      |s.log| > 0 && s.log[0] == InsertQuestions(NewQuestions(db, qs))
  {
    assert qs[k] in qs;
    assert |NewQuestions(db, qs)| > 0;
    StoppedOrContinued(db, qs, replies);
  }

  /** A batch with a new question starts with their batch insert, whatever the insert answers. */
  lemma StoppedOrContinued(db: Db, qs: seq<Question>, replies: Replies)
    requires |NewQuestions(db, qs)| > 0
    ensures var s := SaveQuestions(db, qs, replies);
      |s.log| > 0 && s.log[0] == InsertQuestions(NewQuestions(db, qs))
  {
    if replies.question.Count? && replies.question.n != 0 {
      assert QuestionWrites(db, qs) == [InsertQuestions(NewQuestions(db, qs))];
    }
  }
}
