/**
  The `/chat` handler of the Flask service (python/app.py): request validation,
  extraction of the prior exchanges, the call into the agent, token accounting
  and the shape of the JSON reply. Any exception inside the handler becomes a
  500 with a fixed message.

  The request body is abstracted to the fields the handler reads. The tokenizer
  is the parameter `encode`; the model name and the measured processing time are
  inputs. `ChatAsWritten` is the handler as the source has it, where the agent
  method it calls does not exist; `Chat` is the handler with that call supplied
  as the parameter `queryWithHistory`.
 */
module ChatEndpoint {
  import opened Common
  import opened Formatters

  /** A JSON string field of a message: absent, explicitly `null`, or a string. */
  datatype Field = Missing | Null | Text(s: string) {
    /** The string value, with `""` standing in for an absent field. */
    function OrEmpty(): string {
      if Text? then s else ""
    }
  }

  /** One element of `messages`. */
  datatype WireMessage = WireMessage(question: Field, answer: Field)

  /** The `modelConfig` field: absent (read as `{}`), explicitly `null`, or an object. */
  datatype ModelConfig = NoConfig | NullConfig | Config(temperature: Option<real>)

  /**
    What `request` offers the handler: not JSON at all; a JSON body that does not
    parse or is not an object; or an object with the two fields the handler reads
    (`None` messages = absent or `null`).
   */
  datatype Body = NotJson | Unusable | Object(messages: Option<seq<WireMessage>>, modelConfig: ModelConfig)

  /** The reply: an `{"error": ...}` object with its status, or the 200 success body. */
  datatype Reply = Failure(status: int, error: string) | Success(body: ChatBody)

  datatype ReplyMessage = ReplyMessage(role: string, content: string)
  datatype Choice = Choice(index: int, message: ReplyMessage, finishReason: string)
  datatype Usage = Usage(promptTokens: nat, completionTokens: nat, totalTokens: nat)
  datatype ReplyMetadata = ReplyMetadata(modelVersion: string, processingTime: int)
  datatype ChatBody = ChatBody(choices: seq<Choice>, usage: Usage, metadata: ReplyMetadata)

  const MaxMessages: int := 50
  const MaxContentLength: int := 100000

  const NotJsonError: string := "Content-Type must be application/json"
  const MessagesRequiredError: string := "messages field required"
  const TooManyMessagesError: string := "Maximum 50 messages allowed in conversation history"
  const TooLongError: string := "Total content length exceeds 100000 characters"
  const NoQuestionError: string := "Last message must contain a question"
  const InternalError: string := "An internal server error occurred. Please try again later."

  /** A message with a field whose `len` raises: an explicit `null` question or answer. */
  predicate HasNull(m: WireMessage) {
    m.question.Null? || m.answer.Null?
  }

  function Chars(f: Field): nat {
    if f.Text? then |f.s| else 0
  }

  /** The sum of question and answer lengths, or `None` when some field is `null` and the sum raises. */
  function TotalContent(ms: seq<WireMessage>): (r: Option<nat>)
    ensures r.None? <==> exists i :: 0 <= i < |ms| && HasNull(ms[i])
  {
    if |ms| == 0 then Some(0)
    else if HasNull(ms[0]) then None
    else
      match TotalContent(ms[1..])
      case None =>
        var j :| 0 <= j < |ms| - 1 && HasNull(ms[1..][j]);
        assert HasNull(ms[j + 1]);
        None
      case Some(t) =>
        assert forall i :: 1 <= i < |ms| ==> ms[i] == ms[1..][i - 1];
        Some(Chars(ms[0].question) + Chars(ms[0].answer) + t)
  }

  /** Without `null` fields the sum is the number of characters of all questions and answers. */
  lemma {:induction false} TotalContentCounts(ms: seq<WireMessage>)
    requires forall i :: 0 <= i < |ms| ==> !HasNull(ms[i])
    ensures TotalContent(ms) == Some(CharsOf(ms))
  {
    if |ms| > 0 {
      TotalContentCounts(ms[1..]);
    }
  }

  function CharsOf(ms: seq<WireMessage>): nat {
    if |ms| == 0 then 0 else Chars(ms[0].question) + Chars(ms[0].answer) + CharsOf(ms[1..])
  }

  /** Python truthiness of `msg.get(key, "")`. */
  predicate Truthy(f: Field) {
    f.Text? && f.s != ""
  }

  /** The pair a message contributes to the history: its question and answer when both are non-empty. */
  function Kept(m: WireMessage): seq<Exchange> {
    if Truthy(m.question) && Truthy(m.answer) then [(m.question.s, m.answer.s)] else []
  }

  /** The prior exchanges: every message whose question and answer are both non-empty, in order. */
  function ExtractHistory(ms: seq<WireMessage>): (r: seq<Exchange>)
    ensures |r| <= |ms|
    ensures (forall i :: 0 <= i < |ms| ==> Truthy(ms[i].question) && Truthy(ms[i].answer)) ==>
      |r| == |ms| && forall i :: 0 <= i < |ms| ==> r[i] == (ms[i].question.s, ms[i].answer.s)
    ensures forall e :: e in r ==> e.0 != "" && e.1 != ""
  {
    if |ms| == 0 then []
    else
      Kept(ms[0]) + ExtractHistory(ms[1..])
  }

  /** A pair is kept exactly when some message carries it with both parts non-empty. */
  lemma {:induction false} ExtractHistoryMembers(ms: seq<WireMessage>, e: Exchange)
    ensures e in ExtractHistory(ms) <==>
      exists i :: 0 <= i < |ms| && Truthy(ms[i].question) && Truthy(ms[i].answer)
                  && e == (ms[i].question.s, ms[i].answer.s)
  {
    if |ms| > 0 {
      ExtractHistoryMembers(ms[1..], e);
      var m := ms[0];
      if e in ExtractHistory(ms[1..]) {
        var j :| 0 <= j < |ms| - 1 && Truthy(ms[1..][j].question) && Truthy(ms[1..][j].answer)
                 && e == (ms[1..][j].question.s, ms[1..][j].answer.s);
        assert ms[j + 1] == ms[1..][j];
      }
      if exists i :: 0 <= i < |ms| && Truthy(ms[i].question) && Truthy(ms[i].answer)
                     && e == (ms[i].question.s, ms[i].answer.s) {
        var i :| 0 <= i < |ms| && Truthy(ms[i].question) && Truthy(ms[i].answer)
                 && e == (ms[i].question.s, ms[i].answer.s);
        if i > 0 {
          assert ms[1..][i - 1] == ms[i];
        }
      }
    }
  }

  /**
    One more message adds its pair at the end exactly when both parts are
    non-empty: with the empty case, this fixes the history as the qualifying
    pairs in message order.
   */
  lemma {:induction false} ExtractHistorySnoc(ms: seq<WireMessage>, m: WireMessage)
    ensures ExtractHistory(ms + [m]) == ExtractHistory(ms) + Kept(m)
    decreases |ms|
  {
    var t := ms + [m];
    if |ms| == 0 {
      assert t == [m] && t[1..] == [];
      assert ExtractHistory(t) == Kept(m) + ExtractHistory([]);
    } else {
      assert t[0] == ms[0] && t[1..] == ms[1..] + [m];
      ExtractHistorySnoc(ms[1..], m);
      calc {
        ExtractHistory(t);
        Kept(ms[0]) + ExtractHistory(ms[1..] + [m]);
        Kept(ms[0]) + (ExtractHistory(ms[1..]) + Kept(m));
        (Kept(ms[0]) + ExtractHistory(ms[1..])) + Kept(m);
      }
    }
  }

  /** The 400 answers of the validation chain, in the order the handler checks them. */
  datatype Invalid = NotJsonBody | MessagesRequired | TooManyMessages | ContentTooLong | NoQuestion {
    function Text(): string {
      match this
      case NotJsonBody => NotJsonError
      case MessagesRequired => MessagesRequiredError
      case TooManyMessages => TooManyMessagesError
      case ContentTooLong => TooLongError
      case NoQuestion => NoQuestionError
    }
  }

  /** What the checks let through: the stripped current question, the prior exchanges and the temperature. */
  datatype Checked = Rejected(why: Invalid) | Crashed | Accepted(question: string, history: seq<Exchange>, temperature: Option<real>)

  /** The messages of a body that got past the first two checks. */
  predicate SomeMessages(body: Body) {
    body.Object? && body.messages.Some? && |body.messages.value| > 0
  }

  /**
    The handler up to the agent call: the validation chain in source order. A
    request that passes carries the stripped last question and the prior exchanges.
   */
  function Validate(body: Body): (r: Checked)
    ensures r.Accepted? ==>
      SomeMessages(body) && |body.messages.value| <= MaxMessages
      && TotalContent(body.messages.value).Some? && TotalContent(body.messages.value).value <= MaxContentLength
      && var ms := body.messages.value;
         ms[|ms| - 1].question.Text? && r.question == PyStrip(ms[|ms| - 1].question.s) && r.question != ""
         && r.history == ExtractHistory(ms[..|ms| - 1])
  {
    match body
    case NotJson => Rejected(NotJsonBody)
    case Unusable => Crashed
    case Object(messages, config) =>
      if messages.None? || |messages.value| == 0 then Rejected(MessagesRequired)
      else
        var ms := messages.value;
        if |ms| > MaxMessages then Rejected(TooManyMessages)
        else
          match TotalContent(ms)
          case None => Crashed
          case Some(total) =>
            if total > MaxContentLength then Rejected(ContentTooLong)
            else
              var current := PyStrip(ms[|ms| - 1].question.OrEmpty());
              if current == "" then Rejected(NoQuestion)
              else
                match config
                case NullConfig => Crashed
                case NoConfig => Accepted(current, ExtractHistory(ms[..|ms| - 1]), None)
                case Config(t) => Accepted(current, ExtractHistory(ms[..|ms| - 1]), t)
  }

  /**
    Which check answers which request: each 400 exactly on the requests that reach
    its check and fail it, and a 500 on bodies that are unusable or make a check raise.
   */
  lemma ValidationChain(body: Body)
    ensures Validate(body) == Rejected(NotJsonBody) <==> body.NotJson?
    ensures Validate(body) == Rejected(MessagesRequired) <==> body.Object? && !SomeMessages(body)
    ensures Validate(body) == Rejected(TooManyMessages) <==> SomeMessages(body) && |body.messages.value| > MaxMessages
    ensures Validate(body) == Rejected(ContentTooLong) <==>
      SomeMessages(body) && |body.messages.value| <= MaxMessages
      && TotalContent(body.messages.value).Some? && TotalContent(body.messages.value).value > MaxContentLength
    ensures Validate(body) == Rejected(NoQuestion) <==>
      SomeMessages(body) && |body.messages.value| <= MaxMessages
      && TotalContent(body.messages.value).Some? && TotalContent(body.messages.value).value <= MaxContentLength
      && var ms := body.messages.value; PyStrip(ms[|ms| - 1].question.OrEmpty()) == ""
    ensures Validate(body).Crashed? <==>
      body.Unusable?
      || (SomeMessages(body) && |body.messages.value| <= MaxMessages && TotalContent(body.messages.value).None?)
      || (SomeMessages(body) && |body.messages.value| <= MaxMessages
          && TotalContent(body.messages.value).Some? && TotalContent(body.messages.value).value <= MaxContentLength
          && (var ms := body.messages.value; PyStrip(ms[|ms| - 1].question.OrEmpty()) != "")
          && body.modelConfig.NullConfig?)
  {
    match body
    case NotJson =>
      assert Validate(body) == Rejected(NotJsonBody);
    case Unusable =>
      assert Validate(body) == Crashed;
    case Object(messages, config) =>
      if messages.None? || |messages.value| == 0 {
        assert Validate(body) == Rejected(MessagesRequired);
      } else if |messages.value| > MaxMessages {
        assert Validate(body) == Rejected(TooManyMessages);
      } else {
        var ms := messages.value;
        match TotalContent(ms)
        case None =>
          assert Validate(body) == Crashed;
        case Some(total) =>
          var current := PyStrip(ms[|ms| - 1].question.OrEmpty());
          if total > MaxContentLength {
            assert Validate(body) == Rejected(ContentTooLong);
          } else if current == "" {
            assert Validate(body) == Rejected(NoQuestion);
          } else {
            assert Validate(body) == if config.NullConfig? then Crashed
              else Accepted(current, ExtractHistory(ms[..|ms| - 1]), if config.Config? then config.temperature else None);
          }
      }
  }

  /**
    The converse of what `Validate` promises: messages that pass every check,
    with a usable `modelConfig`, are accepted with the stripped last question,
    the filtered earlier exchanges and the configured temperature.
   */
  lemma PassingChecksAccepted(body: Body)
    requires SomeMessages(body) && |body.messages.value| <= MaxMessages
    requires TotalContent(body.messages.value).Some? && TotalContent(body.messages.value).value <= MaxContentLength
    requires var ms := body.messages.value; PyStrip(ms[|ms| - 1].question.OrEmpty()) != ""
    requires !body.modelConfig.NullConfig?
    ensures var ms := body.messages.value;
      Validate(body) == Accepted(PyStrip(ms[|ms| - 1].question.OrEmpty()), ExtractHistory(ms[..|ms| - 1]),
                                 if body.modelConfig.Config? then body.modelConfig.temperature else None)
  {
    ValidationChain(body);
  }

  /** The text whose tokens are the prompt: every prior question and answer, then the current question. */
  function PromptText(history: seq<Exchange>, question: string): (r: string)
    ensures |history| == 0 ==> r == question
  {
    Concat(PairTexts(history)) + question
  }

  function PairTexts(history: seq<Exchange>): (r: seq<string>)
    ensures |r| == |history|
    ensures forall k :: 0 <= k < |history| ==> r[k] == history[k].0 + history[k].1
  {
    if |history| == 0 then [] else [history[0].0 + history[0].1] + PairTexts(history[1..])
  }

  /** The character count of the prompt text is that of every prior exchange plus the question. */
  lemma {:induction false} PromptTextLength(history: seq<Exchange>, question: string)
    ensures |PromptText(history, question)| == ExchangeChars(history) + |question|
  {
    if |history| > 0 {
      PromptTextLength(history[1..], question);
    }
  }

  function ExchangeChars(history: seq<Exchange>): nat {
    if |history| == 0 then 0 else |history[0].0| + |history[0].1| + ExchangeChars(history[1..])
  }

  /** The success body for `answer`: one assistant choice, and the token usage of prompt and answer. */
  function SuccessBody(c: Checked, answer: string, encode: string -> seq<int>, modelVersion: string, elapsedMs: int)
    : (b: ChatBody)
    requires c.Accepted?
    ensures |b.choices| == 1
    ensures b.choices[0] == Choice(0, ReplyMessage("assistant", answer), "stop")
    ensures b.usage.promptTokens == |encode(PromptText(c.history, c.question))|
    ensures b.usage.completionTokens == |encode(answer)|
    ensures b.usage.totalTokens == b.usage.promptTokens + b.usage.completionTokens
    ensures b.metadata == ReplyMetadata(modelVersion, elapsedMs)
  {
    var prompt := |encode(PromptText(c.history, c.question))|;
    var completion := |encode(answer)|;
    ChatBody([Choice(0, ReplyMessage("assistant", answer), "stop")],
             Usage(prompt, completion, prompt + completion),
             ReplyMetadata(modelVersion, elapsedMs))
  }

  /** Turn a validation outcome that is not `Accepted` into the reply the handler sends. */
  function Refusal(c: Checked): (r: Reply)
    requires !c.Accepted?
    ensures c.Rejected? ==> r == Failure(400, c.why.Text())
    ensures c.Crashed? ==> r == Failure(500, InternalError)
  {
    if c.Rejected? then Failure(400, c.why.Text()) else Failure(500, InternalError)
  }

  /**
    The handler with the agent call supplied: `queryWithHistory(question, history,
    temperature)` returns the answer, or `None` when it raises.
   */
  function Chat(body: Body, queryWithHistory: (string, seq<Exchange>, Option<real>) -> Option<string>,
                encode: string -> seq<int>, modelVersion: string, elapsedMs: int): (r: Reply)
    ensures var c := Validate(body);
      (!c.Accepted? ==> r == Refusal(c))
      && (c.Accepted? && queryWithHistory(c.question, c.history, c.temperature).None? ==> r == Failure(500, InternalError))
      && (c.Accepted? && queryWithHistory(c.question, c.history, c.temperature).Some? ==>
            r == Success(SuccessBody(c, queryWithHistory(c.question, c.history, c.temperature).value, encode, modelVersion, elapsedMs)))
  {
    var c := Validate(body);
    if !c.Accepted? then Refusal(c)
    else
      match queryWithHistory(c.question, c.history, c.temperature)
      case None => Failure(500, InternalError)
      case Some(answer) => Success(SuccessBody(c, answer, encode, modelVersion, elapsedMs))
  }

  /**
    The handler as written: the agent object has no `query_with_history`, so the
    attribute lookup raises once validation has passed, and the handler answers 500.
   */
  function ChatAsWritten(body: Body): (r: Reply)
    ensures Validate(body).Accepted? ==> r == Failure(500, InternalError)
    ensures !Validate(body).Accepted? ==> r == Refusal(Validate(body))
  {
    var c := Validate(body);
    if !c.Accepted? then Refusal(c) else Failure(500, InternalError)
  }

  /** Every reply is a 400 or a 500, or a success with exactly one choice; a 500 carries the fixed text only. */
  lemma ChatReplies(body: Body, queryWithHistory: (string, seq<Exchange>, Option<real>) -> Option<string>,
                    encode: string -> seq<int>, modelVersion: string, elapsedMs: int)
    ensures var r := Chat(body, queryWithHistory, encode, modelVersion, elapsedMs);
      (r.Failure? ==> r.status == 400 || (r.status == 500 && r.error == InternalError))
      && (r.Success? ==> |r.body.choices| == 1 && r.body.choices[0].message.role == "assistant")
  {
  }

  /** The corrected handler differs from the written one only on requests that pass validation. */
  lemma AsWrittenAgreesOnRefusals(body: Body, queryWithHistory: (string, seq<Exchange>, Option<real>) -> Option<string>,
                                  encode: string -> seq<int>, modelVersion: string, elapsedMs: int)
    requires !Validate(body).Accepted?
    ensures ChatAsWritten(body) == Chat(body, queryWithHistory, encode, modelVersion, elapsedMs)
  {
  }

  /** The smallest valid request, one message with a question: as written it is answered with 500. */
  lemma AsWrittenRejectsValidRequest()
    ensures var body := Object(Some([WireMessage(Text("Hola"), Missing)]), NoConfig);
      Validate(body) == Accepted("Hola", [], None)
      && ChatAsWritten(body) == Failure(500, InternalError)
  {
    var ms := [WireMessage(Text("Hola"), Missing)];
    assert TotalContent(ms) == Some(4) by {
      assert ms[1..] == [];
    }
    assert PyStrip("Hola") == "Hola" by {
      assert !PyIsSpace('H') && !PyIsSpace('a');
    }
    assert ExtractHistory(ms[..0]) == [] by {
      assert ms[..0] == [];
    }
    var body := Object(Some(ms), NoConfig);
    assert ms[|ms| - 1].question.OrEmpty() == "Hola";
    PassingChecksAccepted(body);
    assert Validate(body) == Accepted(PyStrip("Hola"), ExtractHistory(ms[..0]), None);
  }

  /** With a working agent the same request is answered with that agent's answer. */
  lemma CorrectedAnswersValidRequest(answer: string, encode: string -> seq<int>, modelVersion: string, elapsedMs: int)
    ensures var body := Object(Some([WireMessage(Text("Hola"), Missing)]), NoConfig);
      var r := Chat(body, (q, h, t) => Some(answer), encode, modelVersion, elapsedMs);
      r.Success? && r.body.choices[0].message.content == answer
      && r.body.usage.promptTokens == |encode("Hola")|
  {
    AsWrittenRejectsValidRequest();
  }
}
