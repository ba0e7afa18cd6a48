/**
  The static mappings of `ChatMapper` (ChatMapper.cs) between chat messages,
  model replies and the database entities. Every `Guid.NewGuid()` becomes a
  parameter holding the id it produced.
 */
module ChatMapper {
  import opened Common
  import opened Entities

  /** `MapToProxyRequest(messages)`: the messages unchanged, with the default model settings. */
  function MapToProxyRequest(messages: seq<ChatMessage>): (r: ProxyRequest)
    ensures r.messages == messages
    ensures r.modelConfiguration == DefaultModelConfiguration
  {
    ProxyRequest(messages, DefaultModelConfiguration)
  }

  /** `MapToResponseDto(modelResponse, sessionId, conversationId)`. */
  function MapToResponseDto(modelResponse: ChatResponse, sessionId: Guid, conversationId: Guid): (r: ChatResponseDto)
    ensures r.choices == modelResponse.choices && r.usage == modelResponse.usage
    ensures r.idSession == sessionId && r.idConversation == conversationId
  {
    ChatResponseDto(modelResponse.choices, modelResponse.usage, sessionId, conversationId)
  }

  /** Every question carries its answer, as `q.Answer.Content` needs. */
  predicate AllAnswered(questions: seq<Question>) {
    forall k :: 0 <= k < |questions| ==> questions[k].answer.Some?
  }

  /** The message a stored question becomes. */
  function QuestionMessage(q: Question): ChatMessage
    requires q.answer.Some?
  {
    ChatMessage(q.index, q.content, Some(q.answer.value.content), q.metadata)
  }

  /**
    `MapQuestionsToMessages(questions)`: one message per question, in the same
    order, with its index, its text, its answer's text and its metadata.
   */
  function MapQuestionsToMessages(questions: seq<Question>): (r: seq<ChatMessage>)
    requires AllAnswered(questions)
    ensures |r| == |questions|
    ensures forall k :: 0 <= k < |questions| ==>
      r[k].index == questions[k].index && r[k].question == questions[k].content
      && r[k].answer == Some(questions[k].answer.value.content) && r[k].metadata == questions[k].metadata
  {
    if |questions| == 0 then []
    else [QuestionMessage(questions[0])] + MapQuestionsToMessages(questions[1..])
  }

  /** Mapping a concatenation maps each part. */
  lemma {:induction false} MapQuestionsAppend(xs: seq<Question>, ys: seq<Question>)
    requires AllAnswered(xs) && AllAnswered(ys)
    ensures AllAnswered(xs + ys)
    ensures MapQuestionsToMessages(xs + ys) == MapQuestionsToMessages(xs) + MapQuestionsToMessages(ys)
    decreases |xs|
  {
    if |xs| == 0 {
      assert xs + ys == ys;
    } else {
      assert (xs + ys)[1..] == xs[1..] + ys;
      MapQuestionsAppend(xs[1..], ys);
    }
  }

  /** `UpdateMessageIndex(message, currentCount)`: the message placed right after `currentCount` others. */
  function UpdateMessageIndex(message: ChatMessage, currentCount: int): (r: ChatMessage)
    ensures r.index == currentCount + 1
    ensures r.question == message.question && r.answer == message.answer && r.metadata == message.metadata
  {
    message.(index := currentCount + 1)
  }

  /** `CreateConversationEntity(sessionId)`: an empty conversation of that session whose `Id` is never assigned. */
  function CreateConversationEntity(sessionId: Guid): (c: Conversation)
    ensures c.id == EmptyGuid && c.idSession == sessionId
    ensures c.questions == [] && c.title.None?
  {
    Conversation(EmptyGuid, sessionId, [], None)
  }

  /**
    `CreateSessionEntity(conversation)` as written: a session with a freshly
    generated id holding just that conversation. The id does not come from the
    conversation, whose `IdSession` may name another session.
   */
  function CreateSessionEntityAsWritten(conversation: Conversation, freshId: Guid): (s: Session)
    ensures s.id == freshId && s.conversations == [conversation]
  {
    Session(freshId, [conversation])
  }

  /** As written, the saved session is not the one its conversation points to whenever the fresh id differs. */
  lemma AsWrittenSessionOrphansConversation(conversation: Conversation, freshId: Guid)
    requires freshId != conversation.idSession
    ensures var s := CreateSessionEntityAsWritten(conversation, freshId);
      s.conversations[0].idSession != s.id
  {
  }

  /** The session to create for a conversation: the one its `IdSession` names, holding just that conversation. */
  function CreateSessionEntity(conversation: Conversation): (s: Session)
    ensures s.conversations == [conversation]
    ensures forall k :: 0 <= k < |s.conversations| ==> s.conversations[k].idSession == s.id
  {
    Session(conversation.idSession, [conversation])
  }

  /** The two versions build the same session except for its id. */
  lemma CreateSessionEntityDiffersOnlyInId(conversation: Conversation, freshId: Guid)
    ensures CreateSessionEntity(conversation) == CreateSessionEntityAsWritten(conversation, freshId).(id := conversation.idSession)
  {
  }

  /** A model reply the question builder can read: its first choice exists. */
  predicate HasChoice(r: ChatResponse) {
    r.choices.Some? && |r.choices.value| > 0
  }

  /**
    `CreateQuestionEntity(message, modelResult, conversationId)`: the question
    takes index, text and metadata from the message and the prompt token count;
    its answer takes the first choice's text, the completion token count and the
    reply's metadata, and points back to the question.
   */
  function CreateQuestionEntity(
    message: ChatMessage, modelResult: ChatResponse, conversationId: Guid, questionId: Guid, answerId: Guid)
    : (q: Question)
    requires HasChoice(modelResult)
    ensures q.id == questionId && q.idConversation == conversationId
    ensures q.index == message.index && q.content == message.question && q.metadata == message.metadata
    ensures q.tokenCount == modelResult.usage.promptTokens
    ensures q.answer.Some? && q.answer.value.id == answerId && q.answer.value.idQuestion == q.id
    ensures q.answer.value.content == modelResult.choices.value[0].message.content
    ensures q.answer.value.tokenCount == modelResult.usage.completionTokens
    ensures q.answer.value.metadata == modelResult.metadata
  {
    var answer := Answer(answerId, questionId, modelResult.choices.value[0].message.content,
                         modelResult.usage.completionTokens, modelResult.metadata);
    Question(questionId, conversationId, message.question, modelResult.usage.promptTokens,
             message.metadata, Some(answer), message.index)
  }

  /** Reading a created question back as history gives the message it came from, answered by the model. */
  lemma CreatedQuestionReadsBack(
    message: ChatMessage, modelResult: ChatResponse, conversationId: Guid, questionId: Guid, answerId: Guid)
    requires HasChoice(modelResult)
    ensures var q := CreateQuestionEntity(message, modelResult, conversationId, questionId, answerId);
      AllAnswered([q])
      && MapQuestionsToMessages([q]) == [message.(answer := Some(modelResult.choices.value[0].message.content))]
  {
    var q := CreateQuestionEntity(message, modelResult, conversationId, questionId, answerId);
    assert MapQuestionsToMessages([q]) == [QuestionMessage(q)] + MapQuestionsToMessages([]);
  }
}
