/**
  `ServiceSession` (ServiceSession.cs): saving sessions and then, through
  `ServiceConversation`, their conversations. Unlike the services below it,
  this one inserts without looking the session up first. Its exception
  handler also catches what the conversation service lets through.
 */
module ServiceSession {
  import opened Common
  import opened Entities
  import opened OperationResults
  import opened Repository
  import opened ServiceBase
  import SC = ServiceConversation

  function SavingError(): ErrorResult {
    ActionErrorResult(SessionType, "saving")
  }

  /** The error of a session saved without its conversations. */
  function CascadeError(): ErrorResult {
    ActionSavingResult(SessionType, ConversationType)
  }

  /**
    The conversations part of a save: one conversation batch after the session
    writes `log`, made only when there is a conversation. An exception it lets
    through is caught here and reported with the exception.
   */
  function ConversationsStep(db: Db, cs: seq<Conversation>, replies: Replies, log: seq<Write>): (s: Saved)
    ensures s.Saved?
    ensures |cs| == 0 ==> s == Saved(AddResult(New<bool>(), true), db, log)
    ensures |cs| > 0 ==>
      var c := SC.SaveConversations(db, cs, replies);
      s.log == log + c.log && s.db == c.db
      && (c.Raised? ==> s.result == AddResultWithError(New<bool>(), false, SavingError(), Some(c.e)))
      && (c.Saved? && HasErrors(c.result) ==> s.result == AddResultWithError(New<bool>(), false, CascadeError(), None))
      && (c.Saved? && !HasErrors(c.result) ==> s.result == AddResult(New<bool>(), true))
  {
    if |cs| == 0 then Saved(AddResult(New<bool>(), true), db, log)
    else
      match SC.SaveConversations(db, cs, replies)
      case Raised(e, cdb, clog) => Saved(AddResultWithError(New<bool>(), false, SavingError(), Some(e)), cdb, log + clog)
      case Saved(r, cdb, clog) =>
        if HasErrors(r) then Saved(AddResultWithError(New<bool>(), false, CascadeError(), None), cdb, log + clog)
        else Saved(AddResult(New<bool>(), true), cdb, log + clog)
  }

  /** The conversations step comes after the session writes `log`. */
  lemma ConversationsStepTopDown(db: Db, cs: seq<Conversation>, replies: Replies, log: seq<Write>)
    requires TopDown(log) && UpToLevel(log, 1)
    ensures TopDown(ConversationsStep(db, cs, replies, log).log)
  {
    if |cs| > 0 {
      var c := SC.SaveConversations(db, cs, replies);
      SC.SaveConversationsTopDown(db, cs, replies);
      TopDownAppend(log, c.log, 1);
    }
  }

  /**
    `SaveAsync(session)`: the session is always inserted, stored or not; an
    insert affecting no row stops with `false` and no error before any
    conversation is saved, and a throwing one is reported with the error and
    the exception. Then the conversations, when there are any, go to one
    conversation batch.
   */
  function SaveSession(db: Db, session: Session, replies: Replies): (s: Saved)
    ensures s.Saved? && |s.log| > 0 && s.log[0] == InsertSession(session)
    ensures replies.session.Throws? ==>
      s.log == [InsertSession(session)] && s.db == db && s.result.result == Some(false)
      && s.result.errors == [SavingError()] && s.result.exceptions == [ToExceptionResult(replies.session.e)]
    ensures replies.session.Count? && replies.session.n <= 0 ==>
      QuietlyFailed(s) && s.log == [InsertSession(session)] && s.db == db
    ensures replies.session.Count? && replies.session.n > 0 ==>
      s == ConversationsStep(db.(sessions := db.sessions[session.id := session]), session.conversations, replies, [InsertSession(session)])
  {
    match replies.session
    case Throws(e) => Saved(AddResultWithError(New<bool>(), false, SavingError(), Some(e)), db, [InsertSession(session)])
    case Count(n) =>
      if n > 0 then
        ConversationsStep(db.(sessions := db.sessions[session.id := session]), session.conversations, replies, [InsertSession(session)])
      else Saved(AddResult(New<bool>(), false), db, [InsertSession(session)])
  }

  /** The single save writes parents first, from the session down. */
  lemma SaveSessionTopDown(db: Db, session: Session, replies: Replies)
    ensures TopDown(SaveSession(db, session, replies).log)
  {
    if replies.session.Count? && replies.session.n > 0 {
      ConversationsStepTopDown(db.(sessions := db.sessions[session.id := session]), session.conversations, replies, [InsertSession(session)]);
    }
  }

  /** A conversation insert that throws under a session save is caught: `false`, the session's saving error and the exception. */
  lemma ConversationExceptionCaught(db: Db, session: Session, replies: Replies)
    requires replies.session.Count? && replies.session.n > 0
    requires |session.conversations| > 0
    requires var stored := db.(sessions := db.sessions[session.id := session]);
      SC.SaveConversations(stored, session.conversations, replies).Raised?
    ensures var s := SaveSession(db, session, replies);
      s.Saved? && s.result.result == Some(false) && s.result.errors == [SavingError()] && |s.result.exceptions| == 1
  {
  }

  /** The conversations of the sessions, concatenated in session order. */
  function ConversationsOf(ss: seq<Session>): (r: seq<Conversation>)
    ensures |ss| == 0 ==> r == []
  {
    if |ss| == 0 then [] else ss[0].conversations + ConversationsOf(ss[1..])
  }

  /** Flattening distributes over concatenation: the conversations keep the sessions' order. */
  lemma {:induction false} ConversationsOfAppend(xs: seq<Session>, ys: seq<Session>)
    ensures ConversationsOf(xs + ys) == ConversationsOf(xs) + ConversationsOf(ys)
    decreases |xs|
  {
    if |xs| == 0 {
      assert xs + ys == ys;
    } else {
      assert (xs + ys)[1..] == xs[1..] + ys;
      ConversationsOfAppend(xs[1..], ys);
    }
  }

  /** A conversation is handed on exactly when some session of the batch holds it. */
  lemma {:induction false} ConversationsOfMembers(ss: seq<Session>, c: Conversation)
    ensures c in ConversationsOf(ss) <==> exists k :: 0 <= k < |ss| && c in ss[k].conversations
    decreases |ss|
  {
    if |ss| > 0 {
      ConversationsOfMembers(ss[1..], c);
      if c in ConversationsOf(ss[1..]) {
        var k :| 0 <= k < |ss[1..]| && c in ss[1..][k].conversations;
        assert c in ss[k + 1].conversations;
      }
      if exists k :: 0 <= k < |ss| && c in ss[k].conversations {
        var k :| 0 <= k < |ss| && c in ss[k].conversations;
        if k > 0 {
          assert c in ss[1..][k - 1].conversations;
        }
      }
    }
  }

  /**
    `SaveMultipleAsync(sessions)`: one batch insert of all the sessions, made
    even when there are none; a count of zero stops with `false` and an
    exception is reported. Then the conversations of all sessions, in order,
    go to one conversation batch, made only when there is a conversation.
   */
  function SaveSessions(db: Db, ss: seq<Session>, replies: Replies): (s: Saved)
    ensures s.Saved? && |s.log| > 0 && s.log[0] == InsertSessions(ss)
    ensures replies.session.Throws? ==>
      s.log == [InsertSessions(ss)] && s.db == db && s.result.result == Some(false)
      && s.result.errors == [SavingError()] && s.result.exceptions == [ToExceptionResult(replies.session.e)]
    ensures replies.session == Count(0) ==>
      QuietlyFailed(s) && s.log == [InsertSessions(ss)] && s.db == db
    ensures replies.session.Count? && replies.session.n != 0 ==>
      s == ConversationsStep(db.(sessions := PutAll(db.sessions, ss, SessionId)), ConversationsOf(ss), replies, [InsertSessions(ss)])
  {
    match replies.session
    case Throws(e) => Saved(AddResultWithError(New<bool>(), false, SavingError(), Some(e)), db, [InsertSessions(ss)])
    case Count(n) =>
      if n == 0 then Saved(AddResult(New<bool>(), false), db, [InsertSessions(ss)])
      else ConversationsStep(db.(sessions := PutAll(db.sessions, ss, SessionId)), ConversationsOf(ss), replies, [InsertSessions(ss)])
  }

  /** An empty batch still makes the insert call, and its zero count makes the save fail quietly. */
  lemma EmptyBatchStillInserts(db: Db, replies: Replies)
    requires replies.session == Count(0)
    ensures var s := SaveSessions(db, [], replies);
      s.log == [InsertSessions([])] && QuietlyFailed(s)
  {
  }

  /** The batch save writes parents first, from the sessions down. */
  lemma SaveSessionsTopDown(db: Db, ss: seq<Session>, replies: Replies)
    ensures TopDown(SaveSessions(db, ss, replies).log)
  {
    if replies.session.Count? && replies.session.n != 0 {
      ConversationsStepTopDown(db.(sessions := PutAll(db.sessions, ss, SessionId)), ConversationsOf(ss), replies, [InsertSessions(ss)]);
    }
  }
}
