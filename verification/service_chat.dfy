/**
  `ServiceChat.ChatAsync` (ServiceChat.cs): one chat turn of the gateway.
  Validate the request, check the model's health, prepare the conversation
  (continue a stored one, or start one), ask the model, record the turn as a
  new question with its answer, and persist it by one of three routes.

  Everything the service asks of the outside is an input: the health reply,
  the conversation and session lookups, the model proxy (a function from the
  request to its reply), the database with the insert replies, and the fresh
  `Guid`s that `Guid.NewGuid()` would produce. The calls made are recorded.

  Two behaviours of the source are kept as written. The request's first
  message object is renumbered in place when a stored conversation is
  continued, so the model receives the renumbered message too. And a stored
  question without an answer makes the history mapping throw a
  `NullReferenceException`, which leaves the service.
 */
module ServiceChat {
  import opened Common
  import opened Entities
  import opened OperationResults
  import opened Repository
  import opened ServiceBase
  import VC = ValidatorChat
  import CM = ChatMapper
  import HC = ServiceHealthCheck
  import SC = ServiceConversation
  import SS = ServiceSession
  import CR = ConversationReader

  /**
    The values `Guid.NewGuid()` gives at its calls: for the session id of the
    context, the conversation, the question, the answer, and the id the session
    mapper gives a new session.
   */
  datatype FreshIds = FreshIds(session: Guid, conversation: Guid, question: Guid, answer: Guid, newSession: Guid)

  /** What the proxy's `ChatAsync` answers: a (nullable) model response, or an exception. */
  datatype ProxyReply = Responded(response: Option<ChatResponse>) | ProxyThrows(e: Exc)

  /** A call the service makes to another component. */
  datatype Call =
    | HealthCheck
    | GetConversation(conversationId: Guid)
    | ModelCall(request: ProxyRequest)
    | GetSession(sessionId: Guid)
    | SaveConversationCall(conversation: Conversation)
    | SaveSessionCall(session: Session)

  /** The service's result with the calls made and the database after them, or an exception that left it. */
  datatype Outcome =
    | Replied(result: OperationResult<ChatResponseDto>, calls: seq<Call>, db: Db)
    | Propagated(e: Exc, calls: seq<Call>, db: Db)

  const NotAvailable: ErrorResult := ErrorResult("EAssistant API is not available", "Model")

  /** The exception of reading `Answer.Content` through a null `Answer`. */
  const NullAnswer: Exc := Exc(NullReference, "Object reference not set to an instance of an object.", None)

  /**
    What `PrepareConversationContextAsync` yields: the conversation to extend,
    the message list whose last element becomes the new question, whether the
    conversation is a stored one, and the request's messages as they stand
    afterwards (the first one possibly renumbered).
   */
  datatype Context = Context(conversation: Conversation, messages: seq<ChatMessage>, existing: bool, requestMessages: seq<ChatMessage>)

  datatype Prepared = Ready(context: Context) | PrepareThrows(e: Exc)

  /** The conversation lookup found the conversation (the base `GetAsync` turns a failing lookup into no result). */
  predicate FoundConversation(request: ChatRequestDto, lookup: Lookup<Conversation>) {
    request.conversationId.Some? && Get(ConversationType, request.conversationId.value, lookup).result.Some?
  }

  /**
    `PrepareConversationContextAsync(request)` on a validated request. A found
    conversation is continued: its questions become history messages, followed
    by the request's first message renumbered to come after them. A given but
    unknown conversation id leaves the fresh conversation entity with the empty
    id. With only a session id, the conversation gets a fresh id in that session.
   */
  function Prepare(request: ChatRequestDto, lookup: Lookup<Conversation>, ids: FreshIds): (p: Prepared)
    requires VC.ValidRequest(request)
    ensures var msgs := request.messages.value;
      (FoundConversation(request, lookup) && AllAnsweredLookup(lookup) ==>
         p.Ready? && p.context.existing && p.context.conversation == lookup.entity
         && p.context.messages == CM.MapQuestionsToMessages(lookup.entity.questions) + [msgs[0].(index := |lookup.entity.questions| + 1)]
         && p.context.requestMessages == [msgs[0].(index := |lookup.entity.questions| + 1)] + msgs[1..])
      && (FoundConversation(request, lookup) && !AllAnsweredLookup(lookup) ==> p == PrepareThrows(NullAnswer))
      && (!FoundConversation(request, lookup) ==>
         p.Ready? && !p.context.existing && p.context.messages == msgs && p.context.requestMessages == msgs
         && p.context.conversation.questions == []
         && p.context.conversation.idSession == request.sessionId.GetOr(ids.session)
         && (request.conversationId.Some? ==> p.context.conversation.id == EmptyGuid)
         && (request.conversationId.None? ==> p.context.conversation.id == ids.conversation))
  {
    var msgs := request.messages.value;
    var sessionId := request.sessionId.GetOr(ids.session);
    var conversation := CM.CreateConversationEntity(sessionId);
    if request.conversationId.Some? then
      var found := Get(ConversationType, request.conversationId.value, lookup);
      if found.result.Some? then
        var stored := found.result.value;
        if CM.AllAnswered(stored.questions) then
          var history := CM.MapQuestionsToMessages(stored.questions);
          var newMessage := CM.UpdateMessageIndex(msgs[0], |history|);
          Ready(Context(stored, history + [newMessage], true, [newMessage] + msgs[1..]))
        else PrepareThrows(NullAnswer)
      else Ready(Context(conversation, msgs, false, msgs))
    else
      Ready(Context(conversation.(id := ids.conversation, idSession := request.sessionId.value), msgs, false, msgs))
  }

  /** The found conversation's questions all have answers. */
  predicate AllAnsweredLookup(lookup: Lookup<Conversation>) {
    lookup.Found? && CM.AllAnswered(lookup.entity.questions)
  }

  /** The route `PersistConversation` takes. */
  datatype Route = ContinueConversation | IntoStoredSession | NewSession

  /**
    The route: a stored conversation is saved as a conversation; a new one is
    too when its session is found without errors; otherwise a new session
    holding it is saved.
   */
  function RouteOf(existing: bool, idSession: Guid, sessionLookup: Lookup<Session>): (r: Route)
    ensures existing <==> r == ContinueConversation
    ensures r == IntoStoredSession <==> !existing && sessionLookup.Found?
    ensures r == NewSession <==> !existing && !sessionLookup.Found?
  {
    if existing then ContinueConversation
    else
      var session := Get(SessionType, idSession, sessionLookup);
      if session.result.Some? && !HasErrors(session) then IntoStoredSession else NewSession
  }

  /**
    `PersistConversation(conversation, isExistingConversation)`: the calls it
    makes and the save outcome. A new session is built by the session mapper as
    written, so its id is the fresh `newSession`, not the conversation's `IdSession`.
   */
  function Persist(db: Db, conversation: Conversation, existing: bool, sessionLookup: Lookup<Session>, replies: Replies,
                   newSession: Guid)
    : (r: (seq<Call>, Saved))
    ensures var route := RouteOf(existing, conversation.idSession, sessionLookup);
      (route == ContinueConversation ==>
         r == ([SaveConversationCall(conversation)], SC.SaveConversation(db, conversation, replies)))
      && (route == IntoStoredSession ==>
         r == ([GetSession(conversation.idSession), SaveConversationCall(conversation)], SC.SaveConversation(db, conversation, replies)))
      && (route == NewSession ==>
         r == ([GetSession(conversation.idSession), SaveSessionCall(Session(newSession, [conversation]))],
               SS.SaveSession(db, Session(newSession, [conversation]), replies)))
  {
    match RouteOf(existing, conversation.idSession, sessionLookup)
    case ContinueConversation => ([SaveConversationCall(conversation)], SC.SaveConversation(db, conversation, replies))
    case IntoStoredSession =>
      ([GetSession(conversation.idSession), SaveConversationCall(conversation)], SC.SaveConversation(db, conversation, replies))
    case NewSession =>
      var session := CM.CreateSessionEntityAsWritten(conversation, newSession);
      ([GetSession(conversation.idSession), SaveSessionCall(session)], SS.SaveSession(db, session, replies))
  }

  /** `PersistConversation` with the corrected session mapper: a new session takes the conversation's `IdSession`. */
  function PersistCorrected(db: Db, conversation: Conversation, existing: bool, sessionLookup: Lookup<Session>, replies: Replies)
    : (r: (seq<Call>, Saved))
    ensures RouteOf(existing, conversation.idSession, sessionLookup) == NewSession ==>
      |r.0| == 2 && r.0[1].SaveSessionCall? && r.0[1].session.id == conversation.idSession
      && r.0[1].session.conversations == [conversation]
  {
    match RouteOf(existing, conversation.idSession, sessionLookup)
    case ContinueConversation => ([SaveConversationCall(conversation)], SC.SaveConversation(db, conversation, replies))
    case IntoStoredSession =>
      ([GetSession(conversation.idSession), SaveConversationCall(conversation)], SC.SaveConversation(db, conversation, replies))
    case NewSession =>
      var session := CM.CreateSessionEntity(conversation);
      ([GetSession(conversation.idSession), SaveSessionCall(session)], SS.SaveSession(db, session, replies))
  }

  /**
    As written, a new session is saved under an id its conversation does not
    point to whenever the fresh id differs from the conversation's `IdSession`.
   */
  lemma PersistAsWrittenOrphans(db: Db, conversation: Conversation, sessionLookup: Lookup<Session>, replies: Replies,
                                newSession: Guid)
    requires !sessionLookup.Found? && newSession != conversation.idSession
    ensures var (calls, _) := Persist(db, conversation, false, sessionLookup, replies, newSession);
      |calls| == 2 && calls[1].SaveSessionCall?
      && calls[1].session.conversations == [conversation] && calls[1].session.id != conversation.idSession
  {
  }

  /**
    The corrected route differs from the written one only in the id of a new
    session: it is the written route run with the conversation's own `IdSession`
    as the fresh id.
   */
  lemma PersistCorrectedDiffersOnlyInSessionId(db: Db, conversation: Conversation, existing: bool,
                                               sessionLookup: Lookup<Session>, replies: Replies, newSession: Guid)
    ensures PersistCorrected(db, conversation, existing, sessionLookup, replies)
         == Persist(db, conversation, existing, sessionLookup, replies, conversation.idSession)
    ensures RouteOf(existing, conversation.idSession, sessionLookup) != NewSession ==>
      PersistCorrected(db, conversation, existing, sessionLookup, replies)
      == Persist(db, conversation, existing, sessionLookup, replies, newSession)
  {
  }

  /** The calls made up to and including the conversation lookup. */
  function PrepareCalls(request: ChatRequestDto): seq<Call> {
    [HealthCheck] + (if request.conversationId.Some? then [GetConversation(request.conversationId.value)] else [])
  }

  /** The conversation as persisted: the prepared one with the new question appended. */
  function Extended(context: Context, modelResult: ChatResponse, ids: FreshIds): (c: Conversation)
    requires |context.messages| > 0 && CM.HasChoice(modelResult)
    ensures c.id == context.conversation.id && c.idSession == context.conversation.idSession
    ensures |c.questions| == |context.conversation.questions| + 1
    ensures c.questions[..|c.questions| - 1] == context.conversation.questions
    ensures c.questions[|c.questions| - 1]
      == CM.CreateQuestionEntity(context.messages[|context.messages| - 1], modelResult, context.conversation.id, ids.question, ids.answer)
  {
    var question := CM.CreateQuestionEntity(context.messages[|context.messages| - 1], modelResult, context.conversation.id, ids.question, ids.answer);
    var c := context.conversation.(questions := context.conversation.questions + [question]);
    assert c.questions[..|c.questions| - 1] == context.conversation.questions;
    c
  }

  /** The steps after the model answered with a usable response: build the question, persist, reply. */
  function Record(context: Context, modelResult: ChatResponse, calls: seq<Call>, db: Db,
                  sessionLookup: Lookup<Session>, replies: Replies, ids: FreshIds): (o: Outcome)
    requires |context.messages| > 0 && CM.HasChoice(modelResult)
    ensures var conversation := Extended(context, modelResult, ids);
      var (persistCalls, saved) := Persist(db, conversation, context.existing, sessionLookup, replies, ids.newSession);
      o.calls == calls + persistCalls && o.db == saved.db
      && (saved.Raised? ==> o.Propagated? && o.e == saved.e)
      && (saved.Saved? && HasErrors(saved.result) ==>
            o.Replied? && o.result.result.None? && o.result.errors == saved.result.errors && !HasExceptions(o.result))
      && (saved.Saved? && !HasErrors(saved.result) ==>
            o.Replied? && !HasErrors(o.result) && !HasExceptions(o.result)
            && o.result.result == Some(CM.MapToResponseDto(modelResult, conversation.idSession, conversation.id)))
  {
    var conversation := Extended(context, modelResult, ids);
    var (persistCalls, saved) := Persist(db, conversation, context.existing, sessionLookup, replies, ids.newSession);
    match saved
    case Raised(e, sdb, _) => Propagated(e, calls + persistCalls, sdb)
    case Saved(r, sdb, _) =>
      if HasErrors(r) then Replied(AddErrors(New<ChatResponseDto>(), r.errors), calls + persistCalls, sdb)
      else Replied(AddResult(New<ChatResponseDto>(), CM.MapToResponseDto(modelResult, conversation.idSession, conversation.id)),
                   calls + persistCalls, sdb)
  }

  /**
    `ChatAsync(request)`. Validation errors are returned before any call; an
    unhealthy model gives the single not-available error before the model is
    asked; the model gets the request's own messages; response errors and
    persistence errors are copied and leave the result unset.
   */
  function Chat(request: ChatRequestDto, health: HC.HealthReply, lookup: Lookup<Conversation>,
                proxy: ProxyRequest -> ProxyReply, sessionLookup: Lookup<Session>,
                db: Db, replies: Replies, ids: FreshIds): (o: Outcome)
    ensures !VC.ValidRequest(request) ==>
      o == Replied(AddErrors(New<ChatResponseDto>(), VC.ValidateRequest(request)), [], db)
    ensures VC.ValidRequest(request) && health.HealthThrows? ==> o == Propagated(health.e, [HealthCheck], db)
    ensures VC.ValidRequest(request) && health.HealthStatus? && health.status != Some(HC.HealthyStatus) ==>
      o == Replied(AddError(New<ChatResponseDto>(), NotAvailable, None), [HealthCheck], db)
    ensures o.Replied? && o.result.result.Some? ==> !HasErrors(o.result)
    ensures o.Replied? ==> !HasExceptions(o.result)
  {
    var errors := VC.ValidateRequest(request);
    if |errors| > 0 then Replied(AddErrors(New<ChatResponseDto>(), errors), [], db)
    else
      match HC.GetModelHealth(health)
      case Thrown(e) => Propagated(e, [HealthCheck], db)
      case Checked(healthy) =>
        if healthy.result != Some(true) then Replied(AddError(New<ChatResponseDto>(), NotAvailable, None), [HealthCheck], db)
        else AfterHealth(request, lookup, proxy, sessionLookup, db, replies, ids)
  }

  /** `ChatAsync` from the model call on: ask the model with the request's messages, check its reply, record the turn. */
  function AskModel(context: Context, calls: seq<Call>, proxy: ProxyRequest -> ProxyReply, sessionLookup: Lookup<Session>,
                    db: Db, replies: Replies, ids: FreshIds): (o: Outcome)
    requires |context.messages| > 0
    ensures var model := CM.MapToProxyRequest(context.requestMessages);
      var calls' := calls + [ModelCall(model)];
      (proxy(model).ProxyThrows? ==> o == Propagated(proxy(model).e, calls', db))
      && (proxy(model).Responded? && |VC.ValidateModelResponse(proxy(model).response)| > 0 ==>
            o == Replied(AddErrors(New<ChatResponseDto>(), VC.ValidateModelResponse(proxy(model).response)), calls', db))
      && (proxy(model).Responded? && |VC.ValidateModelResponse(proxy(model).response)| == 0 ==>
            CM.HasChoice(proxy(model).response.value)
            && o == Record(context, proxy(model).response.value, calls', db, sessionLookup, replies, ids))
  {
    var model := CM.MapToProxyRequest(context.requestMessages);
    var calls' := calls + [ModelCall(model)];
    match proxy(model)
    case ProxyThrows(e) => Propagated(e, calls', db)
    case Responded(response) =>
      var errors := VC.ValidateModelResponse(response);
      if |errors| > 0 then Replied(AddErrors(New<ChatResponseDto>(), errors), calls', db)
      else Record(context, response.value, calls', db, sessionLookup, replies, ids)
  }

  /** `ChatAsync` from the context preparation on, for a valid request and a healthy model. */
  function AfterHealth(request: ChatRequestDto, lookup: Lookup<Conversation>,
                       proxy: ProxyRequest -> ProxyReply, sessionLookup: Lookup<Session>,
                       db: Db, replies: Replies, ids: FreshIds): (o: Outcome)
    requires VC.ValidRequest(request)
    ensures Prepare(request, lookup, ids).PrepareThrows? ==>
      o == Propagated(Prepare(request, lookup, ids).e, PrepareCalls(request), db)
    ensures Prepare(request, lookup, ids).Ready? ==>
      o == AskModel(Prepare(request, lookup, ids).context, PrepareCalls(request), proxy, sessionLookup, db, replies, ids)
  {
    match Prepare(request, lookup, ids)
    case PrepareThrows(e) => Propagated(e, PrepareCalls(request), db)
    case Ready(context) => AskModel(context, PrepareCalls(request), proxy, sessionLookup, db, replies, ids)
  }

  /**
    The model is asked with the request's own messages, never with the stored
    history: as many messages as the request holds, equal to them except that
    the first one is renumbered when a stored conversation is continued.
   */
  lemma ModelSeesRequestMessages(request: ChatRequestDto, lookup: Lookup<Conversation>, ids: FreshIds)
    requires VC.ValidRequest(request) && Prepare(request, lookup, ids).Ready?
    ensures var sent := Prepare(request, lookup, ids).context.requestMessages;
      var msgs := request.messages.value;
      |sent| == |msgs|
      && (forall k :: 1 <= k < |msgs| ==> sent[k] == msgs[k])
      && sent[0] == msgs[0].(index := sent[0].index)
      && (!FoundConversation(request, lookup) ==> sent == msgs)
  {
    var msgs := request.messages.value;
    if FoundConversation(request, lookup) {
      var sent := Prepare(request, lookup, ids).context.requestMessages;
      assert sent == [sent[0]] + msgs[1..];
    }
  }

  /**
    The new question is built from the last message of the prepared list: the
    request's last message in a new conversation, and the request's first
    message, renumbered after the history, when a stored one is continued.
   */
  lemma NewQuestionSource(request: ChatRequestDto, lookup: Lookup<Conversation>, ids: FreshIds)
    requires VC.ValidRequest(request) && Prepare(request, lookup, ids).Ready?
    ensures var context := Prepare(request, lookup, ids).context;
      var msgs := request.messages.value;
      |context.messages| > 0
      && (context.existing ==>
            context.messages[|context.messages| - 1] == msgs[0].(index := |context.conversation.questions| + 1))
      && (!context.existing ==> context.messages[|context.messages| - 1] == msgs[|msgs| - 1])
  {
  }

  /**
    A successful reply names the persisted conversation: its session and its
    id. With only a session id, those are the given session and a fresh id; with
    a conversation id that is not found, the id stays `Guid.Empty`.
   */
  lemma ReplyNamesConversation(request: ChatRequestDto, health: HC.HealthReply, lookup: Lookup<Conversation>,
                               proxy: ProxyRequest -> ProxyReply, sessionLookup: Lookup<Session>,
                               db: Db, replies: Replies, ids: FreshIds)
    requires var o := Chat(request, health, lookup, proxy, sessionLookup, db, replies, ids);
      o.Replied? && o.result.result.Some?
    ensures VC.ValidRequest(request) && Prepare(request, lookup, ids).Ready?
    ensures var dto := Chat(request, health, lookup, proxy, sessionLookup, db, replies, ids).result.result.value;
      var conversation := Prepare(request, lookup, ids).context.conversation;
      dto.idSession == conversation.idSession && dto.idConversation == conversation.id
      && (request.conversationId.None? ==> dto.idSession == request.sessionId.value && dto.idConversation == ids.conversation)
      && (request.conversationId.Some? && !FoundConversation(request, lookup) ==> dto.idConversation == EmptyGuid)
  {
    var p := ReplyReachesRecord(request, health, lookup, proxy, sessionLookup, db, replies, ids);
    var model := CM.MapToProxyRequest(p.context.requestMessages);
    var modelResult := proxy(model).response.value;
    var conversation := Extended(p.context, modelResult, ids);
    assert Chat(request, health, lookup, proxy, sessionLookup, db, replies, ids).result.result
      == Some(CM.MapToResponseDto(modelResult, conversation.idSession, conversation.id));
  }

  /** A reply with a value went through validation, preparation and a usable model answer to the recording step. */
  lemma ReplyReachesRecord(request: ChatRequestDto, health: HC.HealthReply, lookup: Lookup<Conversation>,
                           proxy: ProxyRequest -> ProxyReply, sessionLookup: Lookup<Session>,
                           db: Db, replies: Replies, ids: FreshIds) returns (p: Prepared)
    requires var o := Chat(request, health, lookup, proxy, sessionLookup, db, replies, ids);
      o.Replied? && o.result.result.Some?
    ensures VC.ValidRequest(request) && p == Prepare(request, lookup, ids) && p.Ready?
    ensures var model := CM.MapToProxyRequest(p.context.requestMessages);
      proxy(model).Responded? && |VC.ValidateModelResponse(proxy(model).response)| == 0
      && CM.HasChoice(proxy(model).response.value)
      && Chat(request, health, lookup, proxy, sessionLookup, db, replies, ids)
         == Record(p.context, proxy(model).response.value, PrepareCalls(request) + [ModelCall(model)], db, sessionLookup, replies, ids)
  {
    var o := Chat(request, health, lookup, proxy, sessionLookup, db, replies, ids);
    assert VC.ValidRequest(request);
    p := Prepare(request, lookup, ids);
    assert p.Ready?;
    assert o == AskModel(p.context, PrepareCalls(request), proxy, sessionLookup, db, replies, ids);
  }

  /**
    Only recorded errors stop the reply: a save that reports `false` without an
    error (an insert that affected no row) still gives a successful reply.
   */
  lemma QuietSaveStillReplies(context: Context, modelResult: ChatResponse, calls: seq<Call>, db: Db,
                              sessionLookup: Lookup<Session>, replies: Replies, ids: FreshIds)
    requires |context.messages| > 0 && CM.HasChoice(modelResult)
    requires !context.existing && !sessionLookup.Found? && replies.session == Count(0)
    ensures var o := Record(context, modelResult, calls, db, sessionLookup, replies, ids);
      o.Replied? && o.result.result.Some? && !HasErrors(o.result)
  {
    var conversation := Extended(context, modelResult, ids);
    assert QuietlyFailed(SS.SaveSession(db, Session(ids.newSession, [conversation]), replies));
  }

  /**
    A conversation found through the conversation reader has every question
    answered, so continuing it never takes the `NullReferenceException` path.
   */
  lemma ReadConversationContinues(request: ChatRequestDto, rows: seq<CR.ConversationRow>, ids: FreshIds)
    requires VC.ValidRequest(request) && request.conversationId.Some? && |rows| > 0
    ensures var lookup := Found(CR.ConversationFromRows(rows).value);
      Prepare(request, lookup, ids).Ready? && Prepare(request, lookup, ids).context.existing
  {
    var lookup := Found(CR.ConversationFromRows(rows).value);
    assert AllAnsweredLookup(lookup);
  }
}
