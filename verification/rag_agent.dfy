/**
  The conversational part of `RAGAgent` (python/rag_agent.py): the message list
  handed to the agent for one question, the persistence that follows the answer,
  the in-memory history, the history tool, and the direct vector-store searches.

  The agent itself (language model plus tools) is the parameter `generate`, from
  the message list to the content of the last message it returns; `None` stands
  for an invocation that raised. The vector store is not modelled: a search is
  represented by the query the store receives.
 */
module RagAgent {
  import opened Common
  import CS = ConversationStore
  import opened Formatters

  /** The three LangChain message kinds the agent is given. */
  datatype Message = SystemMessage(content: string) | HumanMessage(content: string) | AIMessage(content: string)

  /** The state of an agent: the database, the in-memory `conversation_history`, and `k_results`. */
  datatype Agent = Agent(store: CS.Store, memory: seq<Exchange>, kResults: int)

  /** The stored turns `query` puts in front of the agent. */
  const HistoryTurns: int := 5

  /** The stored turns `get_history(user_id)` reads. */
  const DisplayLimit: int := 100

  /** The system line naming the user and telling the model to answer the latest question. */
  function SystemLine(userId: string): string {
    "Context: User ID = " + userId + SystemInstruction
  }

  const SystemInstruction: string :=
    ". Respon SEMPRE a la \U{00DA}LTIMA pregunta de l'usuari. L'historial \U{00E9}s nom\U{00E9}s context per entendre millor la pregunta actual."

  /** Each stored turn as a human message followed by an AI message, in the given order. */
  function TurnMessages(rows: seq<CS.HistoryRow>): (r: seq<Message>)
    ensures |r| == 2 * |rows|
    ensures forall k :: 0 <= k < |rows| ==>
      r[2 * k] == HumanMessage(rows[k].question) && r[2 * k + 1] == AIMessage(rows[k].answer)
  {
    if |rows| == 0 then []
    else [HumanMessage(rows[0].question), AIMessage(rows[0].answer)] + TurnMessages(rows[1..])
  }

  /**
    `first`, then the newest-first `history` replayed oldest first as human/AI
    pairs, then `last`. Stored row `k` (0 = newest) becomes the pair `k` pairs
    before `last`.
   */
  function Framed(first: Message, history: seq<CS.HistoryRow>, last: Message): (r: seq<Message>)
    ensures |r| == 2 + 2 * |history|
    ensures r[0] == first && r[|r| - 1] == last
    ensures forall k :: 0 <= k < |history| ==>
      r[2 * (|history| - k) - 1] == HumanMessage(history[k].question)
      && r[2 * (|history| - k)] == AIMessage(history[k].answer)
  {
    var n := |history|;
    var rev := Reverse(history);
    var turns := TurnMessages(rev);
    var r := [first] + turns + [last];
    assert forall k :: 0 <= k < n ==>
      r[2 * (n - k) - 1] == HumanMessage(history[k].question) && r[2 * (n - k)] == AIMessage(history[k].answer) by {
      forall k | 0 <= k < n
        ensures r[2 * (n - k) - 1] == HumanMessage(history[k].question) && r[2 * (n - k)] == AIMessage(history[k].answer)
      {
        var j := n - 1 - k;
        assert rev[j] == history[k];
        assert 2 * (n - k) - 1 == 2 * j + 1;
        assert r[2 * j + 1] == turns[2 * j] && r[2 * j + 2] == turns[2 * j + 1];
      }
    }
    r
  }

  /** The messages of `query`: the system line naming the user, the replayed history, the current question. */
  function BuildMessages(userId: string, history: seq<CS.HistoryRow>, question: string): (r: seq<Message>)
    ensures |r| == 2 + 2 * |history|
    ensures r[0] == SystemMessage(SystemLine(userId))
    ensures r[|r| - 1] == HumanMessage(question)
    ensures forall k :: 0 <= k < |history| ==>
      r[2 * (|history| - k) - 1] == HumanMessage(history[k].question)
      && r[2 * (|history| - k)] == AIMessage(history[k].answer)
  {
    Framed(SystemMessage(SystemLine(userId)), history, HumanMessage(question))
  }

  /** Whether the store's read (`get_user_history`) and write (`save_conversation`) raise, as a SQLite error would. */
  datatype StoreFaults = StoreFaults(readFails: bool, writeFails: bool)

  /** The call of `query` that raised. */
  datatype Step = ReadingHistory | Invoking | Saving

  /**
    The outcome of `query`: the answer and the agent after it, or the step whose
    exception left `query`. A raised exception carries no agent: the caller's
    agent, store and in-memory history stay as they were.
   */
  datatype QueryOutcome = Answered(text: string, after: Agent) | Raised(step: Step)

  /**
    `query(question, user_id)`: the last five stored turns of that user become the
    context; after a successful call exactly one turn is stored and the exchange is
    appended to the in-memory history. Nothing catches an exception: a failing
    history read stops before the agent is invoked, a raising agent stops before
    anything is stored, and a failing save stops before the in-memory history
    grows (the insert is not committed).
   */
  function Query(a: Agent, question: string, userId: string, generate: seq<Message> -> Option<string>, now: string,
                 faults: StoreFaults)
    : (r: QueryOutcome)
    ensures faults.readFails ==> r == Raised(ReadingHistory)
    ensures !faults.readFails ==>
      var msgs := BuildMessages(userId, CS.GetUserHistory(a.store, userId, HistoryTurns), question);
      match generate(msgs)
      case None => r == Raised(Invoking)
      case Some(text) =>
        (faults.writeFails ==> r == Raised(Saving))
        && (!faults.writeFails ==>
              r == Answered(text, a.(store := CS.SaveConversation(a.store, userId, question, text, now),
                                     memory := a.memory + [(question, text)])))
  {
    if faults.readFails then Raised(ReadingHistory)
    else
      var msgs := BuildMessages(userId, CS.GetUserHistory(a.store, userId, HistoryTurns), question);
      match generate(msgs)
      case None => Raised(Invoking)
      case Some(text) =>
        if faults.writeFails then Raised(Saving)
        else Answered(text, Agent(CS.SaveConversation(a.store, userId, question, text, now), a.memory + [(question, text)], a.kResults))
  }

  /** The context of `query` holds the user's five newest stored turns, or all of them when there are fewer. */
  lemma QueryContextBounded(a: Agent, question: string, userId: string)
    ensures var rows := CS.OfUser(a.store, userId);
      var msgs := BuildMessages(userId, CS.GetUserHistory(a.store, userId, HistoryTurns), question);
      |msgs| == 2 + 2 * (if |rows| < 5 then |rows| else 5)
  {
  }

  /**
    A successful query is what the user's stored history shows first afterwards,
    followed by what it showed before; the in-memory history ends with it.
   */
  lemma QueryThenHistory(a: Agent, question: string, userId: string, generate: seq<Message> -> Option<string>, now: string,
                         faults: StoreFaults)
    requires userId != ""
    requires Query(a, question, userId, generate, now, faults).Answered?
    ensures var r := Query(a, question, userId, generate, now, faults);
      var before := GetHistory(a, Some(userId));
      var after := GetHistory(r.after, Some(userId));
      |after| == (if |before| < DisplayLimit then |before| + 1 else DisplayLimit)
      && after[0] == (question, r.text)
      && (forall k :: 1 <= k < |after| ==> after[k] == before[k - 1])
      && GetHistory(r.after, None) == a.memory + [(question, r.text)]
  {
    var r := Query(a, question, userId, generate, now, faults);
    StoredHistoryAfterSave(a, r.after, CS.Turn(userId, question, r.text, now));
  }

  /** Once one more turn of a user is stored, that user's history shows it first and then what it showed before. */
  lemma StoredHistoryAfterSave(a: Agent, a': Agent, turn: CS.Turn)
    requires turn.userId != "" && a'.store == a.store + [turn]
    ensures var before := GetHistory(a, Some(turn.userId));
      var after := GetHistory(a', Some(turn.userId));
      |after| == (if |before| < DisplayLimit then |before| + 1 else DisplayLimit)
      && after[0] == (turn.question, turn.answer)
      && (forall k :: 1 <= k < |after| ==> after[k] == before[k - 1])
  {
    CS.GetUserHistorySnoc(a.store, turn, DisplayLimit);
    var h := CS.GetUserHistory(a.store, turn.userId, DisplayLimit);
    var h' := CS.GetUserHistory(a'.store, turn.userId, DisplayLimit);
    var before := GetHistory(a, Some(turn.userId));
    var after := GetHistory(a', Some(turn.userId));
    assert before == Pairs(h) && after == Pairs(h');
    forall k | 1 <= k < |after| ensures after[k] == before[k - 1] {
      assert h'[k] == h'[1..][k - 1] == h[k - 1];
    }
  }

  /** `clear_history()`: empties the in-memory history; the database keeps every row. */
  function ClearHistory(a: Agent): (r: Agent)
    ensures r.memory == [] && r.store == a.store && r.kResults == a.kResults
  {
    a.(memory := [])
  }

  /** (question, answer) pairs of stored rows, dropping the timestamps. */
  function Pairs(rows: seq<CS.HistoryRow>): (r: seq<Exchange>)
    ensures |r| == |rows|
    ensures forall k :: 0 <= k < |rows| ==> r[k] == (rows[k].question, rows[k].answer)
  {
    if |rows| == 0 then [] else [(rows[0].question, rows[0].answer)] + Pairs(rows[1..])
  }

  /**
    `get_history(user_id)`: for a truthy user id, the pairs of that user's newest
    hundred stored rows, newest first; otherwise a copy of the in-memory history.
   */
  function GetHistory(a: Agent, userId: Option<string>): (r: seq<Exchange>)
    ensures (userId.None? || userId.value == "") ==> r == a.memory
    ensures userId.Some? && userId.value != "" ==>
      var rows := CS.OfUser(a.store, userId.value);
      |r| == (if |rows| < DisplayLimit then |rows| else DisplayLimit)
      && forall k :: 0 <= k < |r| ==> r[k] == (rows[|rows| - 1 - k].question, rows[|rows| - 1 - k].answer)
  {
    if userId.Some? && userId.value != "" then Pairs(CS.GetUserHistory(a.store, userId.value, DisplayLimit))
    else a.memory
  }

  /** After `clear_history`, `get_history()` with no user is empty, while a user's stored history is untouched. */
  lemma ClearThenGetHistory(a: Agent, userId: Option<string>)
    ensures GetHistory(ClearHistory(a), None) == []
    ensures userId.Some? && userId.value != "" ==> GetHistory(ClearHistory(a), userId) == GetHistory(a, userId)
  {
  }

  /** One record of `get_user_conversation_history`. */
  datatype ConversationRecord = ConversationRecord(question: string, answer: string, timestamp: string)

  /** `get_user_conversation_history(user_id, limit)`: the stored rows as records, newest first. */
  function GetUserConversationHistory(a: Agent, userId: string, limit: int): (r: seq<ConversationRecord>)
    ensures |r| == CS.LimitCount(limit, |CS.OfUser(a.store, userId)|)
    ensures forall k :: 0 <= k < |r| ==>
      var t := CS.OfUser(a.store, userId)[|CS.OfUser(a.store, userId)| - 1 - k];
      r[k] == ConversationRecord(t.question, t.answer, t.timestamp)
  {
    Records(CS.GetUserHistory(a.store, userId, limit))
  }

  function Records(rows: seq<CS.HistoryRow>): (r: seq<ConversationRecord>)
    ensures |r| == |rows|
    ensures forall k :: 0 <= k < |rows| ==>
      r[k] == ConversationRecord(rows[k].question, rows[k].answer, rows[k].timestamp)
  {
    if |rows| == 0 then [] else [ConversationRecord(rows[0].question, rows[0].answer, rows[0].timestamp)] + Records(rows[1..])
  }

  /** The `get_user_history` tool: the stored rows rendered by the history formatter. */
  function HistoryTool(store: CS.Store, userId: string, limit: int): string {
    FormatDbHistoryForDisplay(CS.GetUserHistory(store, userId, limit), userId)
  }

  /** The tool reports "no history" exactly when the user has no stored row or the limit is 0. */
  lemma HistoryToolEmpty(store: CS.Store, userId: string, limit: int)
    ensures HistoryTool(store, userId, limit) == "No conversation history found for user " + userId
        <==> |CS.OfUser(store, userId)| == 0 || limit == 0
  {
    var h := CS.GetUserHistory(store, userId, limit);
    if |h| > 0 {
      var r := HistoryTool(store, userId, limit);
      var none := "No conversation history found for user " + userId;
      assert r[0] == 'P';
      assert none[0] == 'N';
    }
  }

  /** The query a vector-store search sends: text, number of results, and an optional metadata filter. */
  datatype StoreQuery = StoreQuery(query: string, k: int, filter: Option<map<string, string>>)

  /**
    `search_documents(query, k, filter_dict)`: `k or self.k_results` picks the
    agent's default for a missing or zero `k`, and a missing or empty filter is not
    passed at all.
   */
  function SearchDocuments(a: Agent, query: string, k: Option<int>, filter: Option<map<string, string>>): (q: StoreQuery)
    ensures q.query == query
    ensures k.Some? && k.value != 0 ==> q.k == k.value
    ensures k.None? || k.value == 0 ==> q.k == a.kResults
    ensures q.filter.Some? <==> filter.Some? && |filter.value| > 0
    ensures q.filter.Some? ==> q.filter == filter
  {
    var n := if k.Some? && k.value != 0 then k.value else a.kResults;
    if filter.Some? && |filter.value| > 0 then StoreQuery(query, n, filter) else StoreQuery(query, n, None)
  }

  /** `search_by_metadata(key, value, k)`: an empty query filtered on that one key. */
  function SearchByMetadata(key: string, value: string, k: int): (q: StoreQuery)
    ensures q.query == "" && q.k == k
    ensures q.filter.Some? && q.filter.value.Keys == {key} && q.filter.value[key] == value
  {
    StoreQuery("", k, Some(map[key := value]))
  }

  /** A metadata search is the direct search of the empty text with a one-entry filter, whenever k is non-zero. */
  lemma MetadataSearchIsFilteredSearch(a: Agent, key: string, value: string, k: int)
    requires k != 0
    ensures SearchByMetadata(key, value, k) == SearchDocuments(a, "", Some(k), Some(map[key := value]))
  {
    assert |map[key := value]| == 1;
  }
}
