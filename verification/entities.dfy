/**
  The gateway's entities (IOC.EAssistant.Gateway.Library.Entities and the proxy
  contracts), with the fields the services read and write. A `Guid` is its
  canonical text; a JSON object is a map from keys to their serialised values.
  Creation timestamps are not modelled.
 */
module Entities {
  import opened Common

  type Guid = string

  /** `Guid.Empty`, the value of an `Id` nobody assigned. */
  const EmptyGuid: Guid := "00000000-0000-0000-0000-000000000000"

  /** A `JsonObject`. */
  type Metadata = map<string, string>

  /** An answer as the services use it: `Id`, `IdQuestion`, `Content`, `TokenCount`, `Metadata`. */
  datatype Answer = Answer(id: Guid, idQuestion: Guid, content: string, tokenCount: int, metadata: Option<Metadata>)

  /** A question with its (nullable) answer and its position `Index` in the conversation. */
  datatype Question = Question(
    id: Guid, idConversation: Guid, content: string, tokenCount: int,
    metadata: Option<Metadata>, answer: Option<Answer>, index: int)

  /**
    A conversation of a session with its questions. A null `Questions` list is
    not represented: the readers and the entity initialisers always give a list,
    so a null one never reaches the services.
   */
  datatype Conversation = Conversation(id: Guid, idSession: Guid, questions: seq<Question>, title: Option<string>)

  /** A session with its conversations (a null list is again not represented). */
  datatype Session = Session(id: Guid, conversations: seq<Conversation>)

  /** A message of a chat request: its `Index`, the question, an optional answer and metadata. */
  datatype ChatMessage = ChatMessage(index: int, question: string, answer: Option<string>, metadata: Option<Metadata>)

  /** The message of a model choice. */
  datatype ChoiceMessage = ChoiceMessage(content: string)

  datatype Choice = Choice(index: int, message: ChoiceMessage, finishReason: string)

  datatype Usage = Usage(promptTokens: int, completionTokens: int, totalTokens: int)

  /** The model's reply; `Choices` may come back null. */
  datatype ChatResponse = ChatResponse(choices: Option<seq<Choice>>, usage: Usage, metadata: Option<Metadata>)

  /** `ChatRequestDto`: optional session and conversation ids and the (nullable) messages. */
  datatype ChatRequestDto = ChatRequestDto(sessionId: Option<Guid>, conversationId: Option<Guid>, messages: Option<seq<ChatMessage>>)

  /** `ChatResponseDto`: the model's choices and usage with the ids the client keeps. */
  datatype ChatResponseDto = ChatResponseDto(choices: Option<seq<Choice>>, usage: Usage, idSession: Guid, idConversation: Guid)

  /** The model settings sent with every proxy request; the C# `float`s are written as reals. */
  datatype ModelConfiguration = ModelConfiguration(
    maxTokens: int, temperature: real, topP: real, presencePenalty: real, frequencyPenalty: real)

  const DefaultModelConfiguration: ModelConfiguration := ModelConfiguration(128, 0.7, 1.0, 0.0, 0.0)

  /** The request the proxy sends to the model service. */
  datatype ProxyRequest = ProxyRequest(messages: seq<ChatMessage>, modelConfiguration: ModelConfiguration)
}
