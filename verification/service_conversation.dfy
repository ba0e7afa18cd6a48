/**
  `ServiceConversation` (ServiceConversation.cs): saving conversations and
  then, through `ServiceQuestion`, their questions. A conversation the
  repository's `GetAsync` finds is not inserted again. That lookup inner-joins
  questions and answers, so a conversation stored without an answered question
  is not found and is inserted a second time (`SaveConversationByKey` is the
  save the remarks of `SaveAsync` describe). This service has no exception
  handler: an exception from its own insert leaves it as a `Raised` outcome.

  The single save reports failed questions with the Question/Answer cascade
  error (the same text `ServiceQuestion` uses); the batch save uses the
  Conversation/Question one.
 */
module ServiceConversation {
  import opened Common
  import opened Entities
  import opened OperationResults
  import opened Repository
  import opened ServiceBase
  import SQ = ServiceQuestion

  /** The questions part of a save: one question batch after the conversation writes `log`, made only when there is a question. */
  function QuestionsStep(db: Db, qs: seq<Question>, replies: Replies, log: seq<Write>, error: ErrorResult): (s: Saved)
    ensures s.Saved?
    ensures |qs| == 0 ==> s == Saved(AddResult(New<bool>(), true), db, log)
    ensures |qs| > 0 ==>
      var q := SQ.SaveQuestions(db, qs, replies);
      s.log == log + q.log && s.db == q.db
      && (HasErrors(q.result) ==> s.result == AddResultWithError(New<bool>(), false, error, None))
      && (!HasErrors(q.result) ==> s.result == AddResult(New<bool>(), true))
  {
    if |qs| == 0 then Saved(AddResult(New<bool>(), true), db, log)
    else
      var q := SQ.SaveQuestions(db, qs, replies);
      if HasErrors(q.result) then Saved(AddResultWithError(New<bool>(), false, error, None), q.db, log + q.log)
      else Saved(AddResult(New<bool>(), true), q.db, log + q.log)
  }

  /** The questions step comes after the parent writes `log`, at question depth or deeper. */
  lemma QuestionsStepTopDown(db: Db, qs: seq<Question>, replies: Replies, log: seq<Write>, error: ErrorResult)
    requires TopDown(log) && UpToLevel(log, 2) && FromLevel(log, 1)
    ensures var s := QuestionsStep(db, qs, replies, log, error);
      TopDown(s.log) && FromLevel(s.log, 1)
  {
    if |qs| > 0 {
      var q := SQ.SaveQuestions(db, qs, replies);
      SQ.SaveQuestionsTopDown(db, qs, replies);
      TopDownAppend(log, q.log, 2);
      FromLevelAppend(log, q.log, 1);
    }
  }

  /**
    `SaveAsync(conversation)` once the existence lookup has answered `found`: a
    conversation not found is inserted first; an insert affecting no row stops
    with `false` and no error before any question is saved, and a throwing one
    propagates. Then the questions, when there are any, go to one question
    batch whose errors become the single cascade error.
   */
  function SaveConversationAfter(db: Db, c: Conversation, replies: Replies, found: bool): Saved {
    if !found then
      match replies.conversation
      case Throws(e) => Raised(e, db, [InsertConversation(c)])
      case Count(n) =>
        if n > 0 then
          QuestionsStep(db.(conversations := db.conversations[c.id := c]), c.questions, replies,
                        [InsertConversation(c)], ActionSavingResult(QuestionType, AnswerType))
        else Saved(AddResult(New<bool>(), false), db, [InsertConversation(c)])
    else QuestionsStep(db, c.questions, replies, [], ActionSavingResult(QuestionType, AnswerType))
  }

  /**
    `SaveAsync(conversation)` as written: the conversation counts as stored only
    when `GetAsync`, with its joins on questions and answers, finds it.
   */
  function SaveConversation(db: Db, c: Conversation, replies: Replies): (s: Saved)
    ensures ConversationVisible(db, c.id) ==>
      s == QuestionsStep(db, c.questions, replies, [], ActionSavingResult(QuestionType, AnswerType))
    ensures !ConversationVisible(db, c.id) && replies.conversation.Throws? ==>
      s == Raised(replies.conversation.e, db, [InsertConversation(c)])
    ensures !ConversationVisible(db, c.id) && replies.conversation.Count? && replies.conversation.n <= 0 ==>
      QuietlyFailed(s) && s.log == [InsertConversation(c)] && s.db == db
    ensures !ConversationVisible(db, c.id) && replies.conversation.Count? && replies.conversation.n > 0 ==>
      s == QuestionsStep(db.(conversations := db.conversations[c.id := c]), c.questions, replies,
                         [InsertConversation(c)], ActionSavingResult(QuestionType, AnswerType))
  {
    SaveConversationAfter(db, c, replies, ConversationVisible(db, c.id))
  }

  /**
    The save the remarks of `SaveAsync` describe: a conversation whose row is
    stored counts as existing, whether or not any of its questions has an
    answer row, and only its questions are saved.
   */
  function SaveConversationByKey(db: Db, c: Conversation, replies: Replies): (s: Saved)
    ensures c.id in db.conversations ==>
      s == QuestionsStep(db, c.questions, replies, [], ActionSavingResult(QuestionType, AnswerType))
    ensures c.id !in db.conversations ==> s == SaveConversation(db, c, replies)
  {
    SaveConversationAfter(db, c, replies, c.id in db.conversations)
  }

  /** A conversation the lookup finds is never inserted again: every write of its save is a question or an answer write. */
  lemma StoredConversationNotReinserted(db: Db, c: Conversation, replies: Replies)
    requires ConversationVisible(db, c.id)
    ensures var s := SaveConversation(db, c, replies);
      s.Saved? && FromLevel(s.log, 2)
  {
    if |c.questions| > 0 {
      SQ.SaveQuestionsTopDown(db, c.questions, replies);
    }
  }

  /**
    A conversation whose row is stored without an answered question is
    inserted again, as the lookup does not find it; the database's duplicate-key
    error then propagates out of the save.
   */
  lemma UnansweredConversationReinserted(db: Db, c: Conversation, replies: Replies)
    requires c.id in db.conversations && !ConversationVisible(db, c.id)
    ensures var s := SaveConversation(db, c, replies);
      |s.log| > 0 && s.log[0] == InsertConversation(c)
    ensures replies.conversation.Throws? ==>
      SaveConversation(db, c, replies) == Raised(replies.conversation.e, db, [InsertConversation(c)])
  {
  }

  /** With the existence test by key, a stored conversation is never inserted again, answered questions or not. */
  lemma ByKeyStoredConversationNotReinserted(db: Db, c: Conversation, replies: Replies)
    requires c.id in db.conversations
    ensures var s := SaveConversationByKey(db, c, replies);
      s.Saved? && FromLevel(s.log, 2)
    ensures SaveConversationByKey(db, c, replies) == SaveConversation(db, c, replies) || !ConversationVisible(db, c.id)
  {
    if |c.questions| > 0 {
      SQ.SaveQuestionsTopDown(db, c.questions, replies);
    }
  }

  /** The single save writes parents first, from the conversation down. */
  lemma SaveConversationTopDown(db: Db, c: Conversation, replies: Replies)
    ensures var s := SaveConversation(db, c, replies);
      TopDown(s.log) && FromLevel(s.log, 1)
  {
    var error := ActionSavingResult(QuestionType, AnswerType);
    if ConversationVisible(db, c.id) {
      QuestionsStepTopDown(db, c.questions, replies, [], error);
    } else if replies.conversation.Count? && replies.conversation.n > 0 {
      QuestionsStepTopDown(db.(conversations := db.conversations[c.id := c]), c.questions, replies, [InsertConversation(c)], error);
    }
  }

  /** The conversations the lookup does not find, in input order. */
  function NewConversations(db: Db, cs: seq<Conversation>): (r: seq<Conversation>)
    ensures |r| <= |cs|
    ensures forall c :: c in r <==> c in cs && !ConversationVisible(db, c.id)
  {
    if |cs| == 0 then []
    else (if ConversationVisible(db, cs[0].id) then [] else [cs[0]]) + NewConversations(db, cs[1..])
  }

  /** The conversations the lookup finds, in input order. */
  function StoredConversations(db: Db, cs: seq<Conversation>): (r: seq<Conversation>)
    ensures |r| <= |cs|
    ensures forall c :: c in r <==> c in cs && ConversationVisible(db, c.id)
  {
    if |cs| == 0 then []
    else (if ConversationVisible(db, cs[0].id) then [cs[0]] else []) + StoredConversations(db, cs[1..])
  }

  /** The two parts split the input: none is lost or added. */
  lemma {:induction false} PartitionCounts(db: Db, cs: seq<Conversation>)
    ensures multiset(NewConversations(db, cs)) + multiset(StoredConversations(db, cs)) == multiset(cs)
    decreases |cs|
  {
    if |cs| > 0 {
      PartitionCounts(db, cs[1..]);
      PartitionStep(db, cs);
    }
  }

  /** The first element lands in exactly one of the two parts. */
  lemma PartitionStep(db: Db, cs: seq<Conversation>)
    requires |cs| > 0
    ensures multiset(NewConversations(db, cs)) + multiset(StoredConversations(db, cs))
         == multiset{cs[0]} + multiset(NewConversations(db, cs[1..])) + multiset(StoredConversations(db, cs[1..]))
    ensures multiset(cs) == multiset{cs[0]} + multiset(cs[1..])
  {
    assert cs == [cs[0]] + cs[1..];
    if ConversationVisible(db, cs[0].id) {
      assert NewConversations(db, cs) == NewConversations(db, cs[1..]);
      assert StoredConversations(db, cs) == [cs[0]] + StoredConversations(db, cs[1..]);
    } else {
      assert NewConversations(db, cs) == [cs[0]] + NewConversations(db, cs[1..]);
      assert StoredConversations(db, cs) == StoredConversations(db, cs[1..]);
    }
  }

  /** The questions of the conversations, concatenated in conversation order. */
  function QuestionsOf(cs: seq<Conversation>): (r: seq<Question>)
    ensures |cs| == 0 ==> r == []
  {
    if |cs| == 0 then [] else cs[0].questions + QuestionsOf(cs[1..])
  }

  /** Flattening distributes over concatenation, so the order of the conversations is the order of their questions. */
  lemma {:induction false} QuestionsOfAppend(xs: seq<Conversation>, ys: seq<Conversation>)
    ensures QuestionsOf(xs + ys) == QuestionsOf(xs) + QuestionsOf(ys)
    decreases |xs|
  {
    if |xs| == 0 {
      assert xs + ys == ys;
    } else {
      assert (xs + ys)[1..] == xs[1..] + ys;
      QuestionsOfAppend(xs[1..], ys);
    }
  }

  /** The questions the batch save hands on: those of the new conversations, then those of the stored ones. */
  function CollectedQuestions(db: Db, cs: seq<Conversation>): seq<Question> {
    QuestionsOf(NewConversations(db, cs)) + QuestionsOf(StoredConversations(db, cs))
  }

  /** The database once the new conversations went in (with a non-zero count). */
  function AfterConversations(db: Db, cs: seq<Conversation>): Db {
    db.(conversations := PutAll(db.conversations, NewConversations(db, cs), ConversationId))
  }

  /**
    `SaveMultipleAsync(conversations)`: the new conversations go to one batch
    insert, made only when there is one; a count of zero stops with `false`
    and an exception propagates. Then the questions of the new conversations
    and then of the stored ones go to one question batch, made only when there
    is a question.
   */
  function SaveConversations(db: Db, cs: seq<Conversation>, replies: Replies): (s: Saved)
    ensures var unseen := NewConversations(db, cs);
      (|unseen| > 0 && replies.conversation.Throws? ==>
         s == Raised(replies.conversation.e, db, [InsertConversations(unseen)]))
      && (|unseen| > 0 && replies.conversation == Count(0) ==>
         QuietlyFailed(s) && s.log == [InsertConversations(unseen)] && s.db == db)
    ensures |NewConversations(db, cs)| == 0 ==>
      s == QuestionsStep(db, CollectedQuestions(db, cs), replies, [], ActionSavingResult(ConversationType, QuestionType))
    ensures |NewConversations(db, cs)| > 0 && replies.conversation.Count? && replies.conversation.n != 0 ==>
      s == QuestionsStep(AfterConversations(db, cs), CollectedQuestions(db, cs), replies,
                         [InsertConversations(NewConversations(db, cs))], ActionSavingResult(ConversationType, QuestionType))
  {
    var unseen := NewConversations(db, cs);
    var questions := CollectedQuestions(db, cs);
    var error := ActionSavingResult(ConversationType, QuestionType);
    if |unseen| > 0 then
      match replies.conversation
      case Throws(e) => Raised(e, db, [InsertConversations(unseen)])
      case Count(n) =>
        if n == 0 then Saved(AddResult(New<bool>(), false), db, [InsertConversations(unseen)])
        else QuestionsStep(AfterConversations(db, cs), questions, replies, [InsertConversations(unseen)], error)
    else QuestionsStep(db, questions, replies, [], error)
  }

  /** One conversation batch followed by the questions step is top-down. */
  lemma ConversationsThenQuestionsTopDown(db: Db, qs: seq<Question>, replies: Replies, unseen: seq<Conversation>, error: ErrorResult)
    ensures var s := QuestionsStep(db, qs, replies, [InsertConversations(unseen)], error);
      TopDown(s.log) && FromLevel(s.log, 1)
  {
    OneWrite(InsertConversations(unseen));
    QuestionsStepTopDown(db, qs, replies, [InsertConversations(unseen)], error);
  }

  /** The batch save writes parents first, from the conversations down. */
  lemma SaveConversationsTopDown(db: Db, cs: seq<Conversation>, replies: Replies)
    ensures var s := SaveConversations(db, cs, replies);
      TopDown(s.log) && FromLevel(s.log, 1)
  {
    var error := ActionSavingResult(ConversationType, QuestionType);
    var unseen := NewConversations(db, cs);
    if |unseen| == 0 {
      QuestionsStepTopDown(db, CollectedQuestions(db, cs), replies, [], error);
    } else if replies.conversation.Count? && replies.conversation.n != 0 {
      ConversationsThenQuestionsTopDown(AfterConversations(db, cs), CollectedQuestions(db, cs), replies, unseen, error);
    }
  }

  /** When the lookup finds every conversation and none has a question, the batch succeeds without any write. */
  lemma NothingToSave(db: Db, cs: seq<Conversation>, replies: Replies)
    requires forall k :: 0 <= k < |cs| ==> ConversationVisible(db, cs[k].id) && |cs[k].questions| == 0
    ensures var s := SaveConversations(db, cs, replies);
      Succeeded(s) && s.log == [] && s.db == db
  {
    NoNewConversations(db, cs);
    NoQuestions(cs);
  }

  /** When the lookup finds every conversation, none is new and all are stored ones. */
  lemma {:induction false} NoNewConversations(db: Db, cs: seq<Conversation>)
    requires forall k :: 0 <= k < |cs| ==> ConversationVisible(db, cs[k].id)
    ensures NewConversations(db, cs) == [] && StoredConversations(db, cs) == cs
    decreases |cs|
  {
    if |cs| > 0 {
      NoNewConversations(db, cs[1..]);
      assert cs == [cs[0]] + cs[1..];
    }
  }

  /** Conversations without questions contribute no question. */
  lemma {:induction false} NoQuestions(cs: seq<Conversation>)
    requires forall k :: 0 <= k < |cs| ==> |cs[k].questions| == 0
    ensures QuestionsOf(cs) == []
    decreases |cs|
  {
    if |cs| > 0 {
      NoQuestions(cs[1..]);
    }
  }

  /**
    A batch holding a conversation whose row is stored without an answered
    question inserts it again, and the database's duplicate-key error
    propagates: the idempotent re-save the remarks of `SaveMultipleAsync`
    promise does not happen for it.
   */
  lemma BatchReinsertsUnanswered(db: Db, cs: seq<Conversation>, replies: Replies, k: nat)
    requires k < |cs| && cs[k].id in db.conversations && !ConversationVisible(db, cs[k].id)
    ensures cs[k] in NewConversations(db, cs)
    ensures var s := SaveConversations(db, cs, replies);
      |s.log| > 0 && s.log[0] == InsertConversations(NewConversations(db, cs))
    ensures replies.conversation.Throws? ==> SaveConversations(db, cs, replies).Raised?
  {
    assert cs[k] in cs;
  }
}
