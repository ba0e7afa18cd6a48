/**
  The database behind the gateway's services, as the services see it through
  `IDatabaseEAssistantBase<T>`: one finite map from id to entity per table,
  each entity stored under its own id. A session or an answer is found by
  `GetAsync` when its id is a key; a question or a conversation only when the
  lookup's inner joins find rows below it (`QuestionVisible`,
  `ConversationVisible`). The model does not enforce primary keys: what an
  insert call answers (the affected row count, or the exception it throws,
  such as a duplicate-key error) is not decided by the model but is an input,
  one per table, since every save cascade makes at most one insert call per
  table, and a counted insert of a key already present overwrites it. Every
  insert call made is recorded in a write log. The single-question insert
  names no `index` column, so the row it stores carries the table's default
  for that column; the table definition is not part of this model, so that
  default is a field of the database state.
 */
module Repository {
  import opened Common
  import opened Entities
  import opened OperationResults

  datatype Db = Db(
    sessions: map<Guid, Session>,
    conversations: map<Guid, Conversation>,
    questions: map<Guid, Question>,
    answers: map<Guid, Answer>,
    questionIndexDefault: int)

  /** What one insert call answers: the affected row count, or the exception it throws. */
  datatype Reply = Count(n: int) | Throws(e: Exc)

  /** The replies of the session, conversation, question and answer tables to the cascade's insert calls. */
  datatype Replies = Replies(session: Reply, conversation: Reply, question: Reply, answer: Reply)

  /** One insert call: `SaveAsync` of one entity or `SaveMultipleAsync` of a batch. */
  datatype Write =
    | InsertSession(s: Session) | InsertSessions(ss: seq<Session>)
    | InsertConversation(c: Conversation) | InsertConversations(cs: seq<Conversation>)
    | InsertQuestion(q: Question) | InsertQuestions(qs: seq<Question>)
    | InsertAnswer(a: Answer) | InsertAnswers(xs: seq<Answer>)

  /** What a repository `GetAsync(id)` answers: the entity, nothing, or an exception. */
  datatype Lookup<T> = Found(entity: T) | Missing | Fails(e: Exc)

  /**
    The outcome of a save service: its result with the database and the insert
    calls made, or an exception it let through together with what was written
    before it.
   */
  datatype Saved = Saved(result: OperationResult<bool>, db: Db, log: seq<Write>) | Raised(e: Exc, db: Db, log: seq<Write>)

  /** The save reported `true`. */
  predicate Succeeded(s: Saved) {
    s.Saved? && s.result.result == Some(true)
  }

  /** The save reported `false` and recorded nothing. */
  predicate QuietlyFailed(s: Saved) {
    s.Saved? && s.result.result == Some(false) && !HasErrors(s.result) && !HasExceptions(s.result)
  }

  /** The keys of the elements of `xs`. */
  function KeysOf<T>(xs: seq<T>, key: T -> Guid): (r: set<Guid>)
    ensures forall k :: 0 <= k < |xs| ==> key(xs[k]) in r
    ensures forall id :: id in r ==> exists k :: 0 <= k < |xs| && key(xs[k]) == id
  {
    if |xs| == 0 then {}
    else
      var rest := KeysOf(xs[1..], key);
      assert forall id :: id in rest ==> exists k :: 0 <= k < |xs| && key(xs[k]) == id by {
        forall id | id in rest ensures exists k :: 0 <= k < |xs| && key(xs[k]) == id {
          var j :| 0 <= j < |xs[1..]| && key(xs[1..][j]) == id;
          assert key(xs[j + 1]) == id;
        }
      }
      {key(xs[0])} + rest
  }

  /** The map after storing every element of `xs` under its key (a later element wins over an earlier one). */
  function PutAll<T>(m: map<Guid, T>, xs: seq<T>, key: T -> Guid): (r: map<Guid, T>)
    ensures r.Keys == m.Keys + KeysOf(xs, key)
    ensures forall id :: id in m && id !in KeysOf(xs, key) ==> r[id] == m[id]
    decreases |xs|
  {
    if |xs| == 0 then m else PutAll(m[key(xs[0]) := xs[0]], xs[1..], key)
  }

  /**
    Whether `GetAsync(id)` of the question repository finds the question: its
    query inner-joins the answers table, so a question row without an answer
    row reads as null.
   */
  predicate QuestionVisible(db: Db, id: Guid) {
    id in db.questions && exists aid :: aid in db.answers && db.answers[aid].idQuestion == id
  }

  /**
    Whether `GetAsync(id)` of the conversation repository finds the
    conversation: its query inner-joins questions and then answers, so it needs
    a question row of the conversation that itself has an answer row.
   */
  predicate ConversationVisible(db: Db, id: Guid) {
    id in db.conversations
    && exists qid :: qid in db.questions && db.questions[qid].idConversation == id && QuestionVisible(db, qid)
  }

  function AnswerId(a: Answer): Guid { a.id }
  function QuestionId(q: Question): Guid { q.id }

  /**
    The row `SaveAsync(question)` stores: every field of the question except
    its index, which the insert's column list leaves to the table's default.
   */
  function SingleInsertRow(db: Db, q: Question): (r: Question)
    ensures r.index == db.questionIndexDefault
    ensures r.(index := q.index) == q
  {
    q.(index := db.questionIndexDefault)
  }
  function ConversationId(c: Conversation): Guid { c.id }
  function SessionId(s: Session): Guid { s.id }
  /** The depth of a write's table in the cascade: session 0, conversation 1, question 2, answer 3. */
  function Level(w: Write): nat {
    match w
    case InsertSession(_) => 0
    case InsertSessions(_) => 0
    case InsertConversation(_) => 1
    case InsertConversations(_) => 1
    case InsertQuestion(_) => 2
    case InsertQuestions(_) => 2
    case InsertAnswer(_) => 3
    case InsertAnswers(_) => 3
  }

  /** Every write is at depth `l` or deeper. */
  predicate FromLevel(log: seq<Write>, l: nat) {
    forall k :: 0 <= k < |log| ==> Level(log[k]) >= l
  }

  /** Every write is at depth `l` or shallower. */
  predicate UpToLevel(log: seq<Write>, l: nat) {
    forall k :: 0 <= k < |log| ==> Level(log[k]) <= l
  }

  /** Parents first: no write follows a write to a deeper table. */
  predicate TopDown(log: seq<Write>) {
    forall i :: 0 < i < |log| ==> Level(log[i - 1]) <= Level(log[i])
  }

  /** A single write is top-down and sits at its own depth. */
  lemma OneWrite(w: Write)
    ensures TopDown([w]) && FromLevel([w], Level(w)) && UpToLevel([w], Level(w))
  {
  }

  /** Writes of a parent level followed by top-down writes of its children are top-down. */
  lemma TopDownAppend(xs: seq<Write>, ys: seq<Write>, l: nat)
    requires TopDown(xs) && UpToLevel(xs, l) && TopDown(ys) && FromLevel(ys, l)
    ensures TopDown(xs + ys)
  {
    forall i | 0 < i < |xs + ys| ensures Level((xs + ys)[i - 1]) <= Level((xs + ys)[i]) {
      if i == |xs| {
        assert (xs + ys)[i - 1] == xs[i - 1] && (xs + ys)[i] == ys[0];
      }
    }
  }

  /** `TopDownAppend` in the form a composition needs: whenever the parent writes are top-down and shallow enough. */
  lemma TopDownAppendIf(xs: seq<Write>, ys: seq<Write>, l: nat)
    requires TopDown(ys) && FromLevel(ys, l)
    ensures TopDown(xs) && UpToLevel(xs, l) ==> TopDown(xs + ys)
  {
    if TopDown(xs) && UpToLevel(xs, l) {
      TopDownAppend(xs, ys, l);
    }
  }

  /** Two logs at depth `l` or deeper make one. */
  lemma FromLevelAppend(xs: seq<Write>, ys: seq<Write>, l: nat)
    requires FromLevel(xs, l) && FromLevel(ys, l)
    ensures FromLevel(xs + ys, l)
  {
  }
}
