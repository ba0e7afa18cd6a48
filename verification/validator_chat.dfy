/**
  `ValidatorChat` (ValidatorChat.cs): the checks on a chat request before any
  call is made, and on the model's reply before it is used. Each check that
  fails contributes one error; an empty list means valid.
 */
module ValidatorChat {
  import opened Common
  import opened Entities
  import opened OperationResults

  const MissingContext: ErrorResult := ErrorResult("Either ConversationId or SessionId must be provided", "Invalid Request")
  const NoMessages: ErrorResult := ErrorResult("Messages cannot be null or empty", "Invalid Request")
  const BlankQuestion: ErrorResult := ErrorResult("All messages must have non-empty content", "Invalid Request")
  const NullResponse: ErrorResult := ErrorResult("Model response is null", "Invalid Response")
  const NoChoices: ErrorResult := ErrorResult("Model response contains no choices", "Invalid Response")

  /** Neither an existing conversation nor a session is named. */
  predicate NoContext(request: ChatRequestDto) {
    request.conversationId.None? && request.sessionId.None?
  }

  /** `Messages` is null or empty. */
  predicate NoMessageGiven(request: ChatRequestDto) {
    request.messages.None? || |request.messages.value| == 0
  }

  /** Some message's question is null, empty or white space (in the .NET sense). */
  predicate SomeBlankQuestion(messages: seq<ChatMessage>) {
    exists k :: 0 <= k < |messages| && IsNullOrWhiteSpace(Some(messages[k].question))
  }

  /** A request the chat service may act on. */
  predicate ValidRequest(request: ChatRequestDto) {
    !NoContext(request) && !NoMessageGiven(request) && !SomeBlankQuestion(request.messages.value)
  }

  /**
    `ValidateRequest(request)`: the missing-context error first when neither id
    is given, then at most one message error: the null-or-empty one, or else the
    blank-question one.
   */
  function ValidateRequest(request: ChatRequestDto): (r: seq<ErrorResult>)
    ensures |r| <= 2
    ensures NoContext(request) <==> |r| > 0 && r[0] == MissingContext
    ensures NoMessageGiven(request) <==> |r| > 0 && r[|r| - 1] == NoMessages
    ensures (!NoMessageGiven(request) && SomeBlankQuestion(request.messages.value)) <==>
      |r| > 0 && r[|r| - 1] == BlankQuestion
    ensures |r| == 0 <==> ValidRequest(request)
  {
    var context := if NoContext(request) then [MissingContext] else [];
    var content :=
      if NoMessageGiven(request) then [NoMessages]
      else if SomeBlankQuestion(request.messages.value) then [BlankQuestion]
      else [];
    context + content
  }

  /** The errors a request gets are determined by which of the three conditions hold: both directions, every case. */
  lemma ValidateRequestCounts(request: ChatRequestDto)
    ensures |ValidateRequest(request)| ==
      (if NoContext(request) then 1 else 0)
      + (if NoMessageGiven(request) || SomeBlankQuestion(request.messages.value) then 1 else 0)
  {
  }

  /**
    `ValidateModelResponse(modelResponse)`: a null reply gets only the
    null-response error; a reply with null or empty choices gets the no-choices
    error; any other reply passes.
   */
  function ValidateModelResponse(modelResponse: Option<ChatResponse>): (r: seq<ErrorResult>)
    ensures modelResponse.None? ==> r == [NullResponse]
    ensures modelResponse.Some? && (modelResponse.value.choices.None? || |modelResponse.value.choices.value| == 0) ==>
      r == [NoChoices]
    ensures |r| == 0 <==> modelResponse.Some? && modelResponse.value.choices.Some? && |modelResponse.value.choices.value| > 0
    ensures |r| <= 1
  {
    match modelResponse
    case None => [NullResponse]
    case Some(res) =>
      if res.choices.None? || |res.choices.value| == 0 then [NoChoices] else []
  }
}
