/**
  The session reader of `DatabaseEAssistantSession.GetAsync`
  (DatabaseEAssistantSession.cs): the SQL inner join yields one row per
  answered question of the session, ordered by conversation creation time and
  question index; the row mapper builds fresh objects per row, so each row
  carries one conversation holding one question with its answer. The grouping
  keeps the first session group, groups its conversations by id in order of
  first appearance, takes each conversation from its first row, and gives it
  the questions of all its rows, each id once, stably ordered by `Index`.
  The SQL itself is not modelled: the rows are the input.
 */
module SessionReader {
  import opened Common
  import opened Entities
  import CR = ConversationReader

  /** One joined row, as the row mapper receives it. */
  datatype SessionRow = SessionRow(session: Session, conversation: Conversation, question: Question, answer: Answer)

  /** The conversation part of a row, as the conversation reader sees its rows. */
  function AsConversationRow(row: SessionRow): (r: CR.ConversationRow)
    ensures r.conversation == row.conversation && r.question == row.question && r.answer == row.answer
  {
    CR.ConversationRow(row.conversation, row.question, row.answer)
  }

  // ---- Ordering by index ----

  /** Question indexes never decrease from left to right. */
  predicate IndexOrdered(s: seq<Question>) {
    forall i, j :: 0 <= i < j < |s| ==> s[i].index <= s[j].index
  }

  /** The questions of `s` with index `v`, in their order in `s`. */
  function WithIndex(s: seq<Question>, v: int): seq<Question>
    decreases |s|
  {
    if |s| == 0 then []
    else WithIndex(s[..|s| - 1], v) + (if s[|s| - 1].index == v then [s[|s| - 1]] else [])
  }

  /** Insert `x` after every question whose index is at most `x`'s: the step of a stable ascending sort. */
  function InsertByIndex(sorted: seq<Question>, x: Question): seq<Question>
    decreases |sorted|
  {
    if |sorted| == 0 then [x]
    else if sorted[|sorted| - 1].index <= x.index then sorted + [x]
    else InsertByIndex(sorted[..|sorted| - 1], x) + [sorted[|sorted| - 1]]
  }

  /** `OrderBy(q => q.Index)`: stable, ascending. */
  function SortByIndex(s: seq<Question>): seq<Question>
    decreases |s|
  {
    if |s| == 0 then [] else InsertByIndex(SortByIndex(s[..|s| - 1]), s[|s| - 1])
  }

  /** Insertion adds exactly `x`. */
  lemma {:induction false} InsertByIndexPerm(sorted: seq<Question>, x: Question)
    ensures multiset(InsertByIndex(sorted, x)) == multiset(sorted) + multiset{x}
    decreases |sorted|
  {
    if |sorted| > 0 && sorted[|sorted| - 1].index > x.index {
      var init := sorted[..|sorted| - 1];
      assert sorted == init + [sorted[|sorted| - 1]];
      InsertByIndexPerm(init, x);
    }
  }

  /** Insertion into an ordered sequence keeps it ordered. */
  lemma {:induction false} InsertByIndexOrdered(sorted: seq<Question>, x: Question)
    requires IndexOrdered(sorted)
    ensures IndexOrdered(InsertByIndex(sorted, x))
    decreases |sorted|
  {
    if |sorted| > 0 && sorted[|sorted| - 1].index > x.index {
      var init := sorted[..|sorted| - 1];
      var last := sorted[|sorted| - 1];
      InsertByIndexOrdered(init, x);
      InsertByIndexPerm(init, x);
      var ins := InsertByIndex(init, x);
      var r := ins + [last];
      forall i | 0 <= i < |ins| ensures ins[i].index <= last.index {
        assert ins[i] in multiset(ins);
        if ins[i] != x {
          assert ins[i] in multiset(init);
          var a :| 0 <= a < |init| && init[a] == ins[i];
          assert sorted[a] == init[a];
        }
      }
      assert forall i, j :: 0 <= i < j < |r| ==> r[i].index <= r[j].index by {
        forall i, j | 0 <= i < j < |r| ensures r[i].index <= r[j].index {
          if j < |ins| {
            assert r[i] == ins[i] && r[j] == ins[j];
          }
        }
      }
    }
  }

  /** Insertion is stable: among equal indexes, `x` lands after the questions already there. */
  lemma {:induction false} InsertByIndexStable(sorted: seq<Question>, x: Question, v: int)
    ensures WithIndex(InsertByIndex(sorted, x), v) == WithIndex(sorted, v) + (if x.index == v then [x] else [])
    decreases |sorted|
  {
    if |sorted| == 0 {
      assert [x][..0] == [];
    } else if sorted[|sorted| - 1].index <= x.index {
      var r := sorted + [x];
      assert r[..|r| - 1] == sorted;
    } else {
      var init := sorted[..|sorted| - 1];
      var last := sorted[|sorted| - 1];
      InsertByIndexStable(init, x, v);
      var r := InsertByIndex(init, x) + [last];
      assert r[..|r| - 1] == InsertByIndex(init, x);
    }
  }

  /** The ids of `s + [x]`. */
  lemma IdsSnoc(s: seq<Question>, x: Question)
    ensures CR.Ids(s + [x]) == CR.Ids(s) + {x.id}
  {
    var r := s + [x];
    forall id | id in CR.Ids(r) ensures id in CR.Ids(s) + {x.id} {
      var k :| 0 <= k < |r| && r[k].id == id;
      if k < |s| {
        assert r[k] == s[k];
      }
    }
    forall id | id in CR.Ids(s) ensures id in CR.Ids(r) {
      var k :| 0 <= k < |s| && s[k].id == id;
      assert r[k] == s[k];
    }
    assert r[|s|] == x;
  }

  /** The last question of distinct questions shares its id with none before it. */
  lemma LastIdFresh(s: seq<Question>)
    requires |s| > 0 && CR.DistinctIds(s)
    ensures s[|s| - 1].id !in CR.Ids(s[..|s| - 1])
    ensures CR.DistinctIds(s[..|s| - 1])
  {
    var init := s[..|s| - 1];
    forall k | 0 <= k < |init| ensures init[k].id != s[|s| - 1].id {
      assert init[k] == s[k];
    }
    assert CR.DistinctIds(init) by {
      forall i, j | 0 <= i < j < |init| ensures init[i].id != init[j].id {
        assert init[i] == s[i] && init[j] == s[j];
      }
    }
  }

  /** Appending a question of a new id to distinct questions keeps the ids distinct. */
  lemma SnocDistinct(s: seq<Question>, x: Question)
    requires CR.DistinctIds(s) && x.id !in CR.Ids(s)
    ensures CR.DistinctIds(s + [x]) && CR.Ids(s + [x]) == CR.Ids(s) + {x.id}
  {
    var r := s + [x];
    IdsSnoc(s, x);
    forall i, j | 0 <= i < j < |r| ensures r[i].id != r[j].id {
      assert r[i] == s[i];
      if j < |s| {
        assert r[j] == s[j];
      }
    }
  }

  /** Inserting a question of a new id into distinct questions keeps the ids distinct and adds that id. */
  lemma {:induction false} InsertByIndexDistinct(sorted: seq<Question>, x: Question)
    requires CR.DistinctIds(sorted) && x.id !in CR.Ids(sorted)
    ensures CR.DistinctIds(InsertByIndex(sorted, x))
    ensures CR.Ids(InsertByIndex(sorted, x)) == CR.Ids(sorted) + {x.id}
    decreases |sorted|, 1
  {
    if |sorted| == 0 {
      SnocDistinct([], x);
      assert [] + [x] == [x];
    } else if sorted[|sorted| - 1].index <= x.index {
      SnocDistinct(sorted, x);
    } else {
      InsertBeforeLastDistinct(sorted, x);
    }
  }

  /** The case where `x` goes before the last question: insert into the rest, then put the last one back. */
  lemma {:induction false} InsertBeforeLastDistinct(sorted: seq<Question>, x: Question)
    requires CR.DistinctIds(sorted) && x.id !in CR.Ids(sorted)
    requires |sorted| > 0 && sorted[|sorted| - 1].index > x.index
    ensures CR.DistinctIds(InsertByIndex(sorted, x))
    ensures CR.Ids(InsertByIndex(sorted, x)) == CR.Ids(sorted) + {x.id}
    decreases |sorted|, 0
  {
    var init := sorted[..|sorted| - 1];
    var last := sorted[|sorted| - 1];
    assert sorted == init + [last];
    IdsSnoc(init, last);
    LastIdFresh(sorted);
    InsertByIndexDistinct(init, x);
    SnocDistinct(InsertByIndex(init, x), last);
  }

  /**
    The sort is a stable ascending sort: a permutation of its input, ordered by
    index, and keeping the input order among questions of equal index.
   */
  lemma {:induction false} SortByIndexCorrect(s: seq<Question>)
    ensures multiset(SortByIndex(s)) == multiset(s)
    ensures IndexOrdered(SortByIndex(s))
    ensures forall v :: WithIndex(SortByIndex(s), v) == WithIndex(s, v)
    decreases |s|
  {
    if |s| > 0 {
      var init := s[..|s| - 1];
      assert s == init + [s[|s| - 1]];
      SortByIndexCorrect(init);
      InsertByIndexPerm(SortByIndex(init), s[|s| - 1]);
      InsertByIndexOrdered(SortByIndex(init), s[|s| - 1]);
      forall v ensures WithIndex(SortByIndex(s), v) == WithIndex(s, v) {
        InsertByIndexStable(SortByIndex(init), s[|s| - 1], v);
      }
    }
  }

  /** Sorting distinct questions keeps them distinct, with the same ids. */
  lemma {:induction false} SortByIndexDistinct(s: seq<Question>)
    requires CR.DistinctIds(s)
    ensures CR.DistinctIds(SortByIndex(s)) && CR.Ids(SortByIndex(s)) == CR.Ids(s)
    decreases |s|
  {
    if |s| > 0 {
      var init := s[..|s| - 1];
      assert s == init + [s[|s| - 1]];
      LastIdFresh(s);
      SortByIndexDistinct(init);
      InsertByIndexDistinct(SortByIndex(init), s[|s| - 1]);
      IdsSnoc(init, s[|s| - 1]);
    }
  }

  /** Sorting answered questions gives answered questions. */
  lemma SortByIndexAnswered(s: seq<Question>)
    requires forall k :: 0 <= k < |s| ==> s[k].answer.Some?
    ensures forall k :: 0 <= k < |SortByIndex(s)| ==> SortByIndex(s)[k].answer.Some?
  {
    var r := SortByIndex(s);
    SortByIndexCorrect(s);
    forall k | 0 <= k < |r| ensures r[k].answer.Some? {
      assert r[k] in multiset(s);
      var a :| 0 <= a < |s| && s[a] == r[k];
    }
  }

  /** Questions already in index order, as the SQL `ORDER BY` delivers them, are left as they are. */
  lemma {:induction false} SortByIndexOrderedUnchanged(s: seq<Question>)
    requires IndexOrdered(s)
    ensures SortByIndex(s) == s
    decreases |s|
  {
    if |s| > 0 {
      var init := s[..|s| - 1];
      assert IndexOrdered(init);
      SortByIndexOrderedUnchanged(init);
      if |init| > 0 {
        assert init[|init| - 1] == s[|s| - 2];
      }
      assert s == init + [s[|s| - 1]];
    }
  }

  // ---- Grouping ----

  /** The rows of session `id`, in row order (`GroupBy(s => s.Id)`, one group). */
  function SessionGroup(rows: seq<SessionRow>, id: Guid): (r: seq<SessionRow>)
    ensures forall k :: 0 <= k < |r| ==> r[k].session.id == id
    ensures forall k :: 0 <= k < |rows| && rows[k].session.id == id ==> rows[k] in r
    decreases |rows|
  {
    if |rows| == 0 then []
    else
      var rest := SessionGroup(rows[1..], id);
      assert forall k :: 1 <= k < |rows| ==> rows[k] == rows[1..][k - 1];
      (if rows[0].session.id == id then [rows[0]] else []) + rest
  }

  /** The conversation ids the rows mention. */
  function ConversationIdSet(rows: seq<SessionRow>): set<Guid> {
    set k | 0 <= k < |rows| :: rows[k].conversation.id
  }

  /** The conversation ids of `rows` not in `seen`, each once, in order of first appearance. */
  function ConversationIds(rows: seq<SessionRow>, seen: set<Guid>): (r: seq<Guid>)
    ensures forall i, j :: 0 <= i < j < |r| ==> r[i] != r[j]
    ensures forall id :: id in r <==> id in ConversationIdSet(rows) && id !in seen
    decreases |rows|
  {
    if |rows| == 0 then []
    else
      assert ConversationIdSet(rows) == {rows[0].conversation.id} + ConversationIdSet(rows[1..]) by {
        forall id | id in ConversationIdSet(rows) ensures id in {rows[0].conversation.id} + ConversationIdSet(rows[1..]) {
          var k :| 0 <= k < |rows| && rows[k].conversation.id == id;
          if k > 0 {
            assert rows[1..][k - 1] == rows[k];
          }
        }
        forall id | id in ConversationIdSet(rows[1..]) ensures id in ConversationIdSet(rows) {
          var k :| 0 <= k < |rows[1..]| && rows[1..][k].conversation.id == id;
          assert rows[k + 1] == rows[1..][k];
        }
      }
      var id := rows[0].conversation.id;
      if id in seen then ConversationIds(rows[1..], seen)
      else
        var rest := ConversationIds(rows[1..], seen + {id});
        assert forall k :: 0 <= k < |rest| ==> ([id] + rest)[k + 1] == rest[k];
        [id] + rest
  }

  /** The conversation ids of rows are those of the first row and of the rest. */
  lemma ConversationIdSetCons(rows: seq<SessionRow>)
    requires |rows| > 0
    ensures ConversationIdSet(rows) == {rows[0].conversation.id} + ConversationIdSet(rows[1..])
  {
    forall id | id in ConversationIdSet(rows) ensures id in {rows[0].conversation.id} + ConversationIdSet(rows[1..]) {
      var k :| 0 <= k < |rows| && rows[k].conversation.id == id;
      if k > 0 {
        assert rows[1..][k - 1] == rows[k];
      }
    }
    forall id | id in ConversationIdSet(rows[1..]) ensures id in ConversationIdSet(rows) {
      var k :| 0 <= k < |rows[1..]| && rows[1..][k].conversation.id == id;
      assert rows[k + 1] == rows[1..][k];
    }
  }

  /**
    One more row adds its conversation id at the end exactly when neither
    `seen` nor an earlier row has it: `GroupBy` lists the conversations in
    order of first appearance.
   */
  lemma {:induction false} ConversationIdsSnoc(rows: seq<SessionRow>, w: SessionRow, seen: set<Guid>)
    ensures ConversationIds(rows + [w], seen)
         == ConversationIds(rows, seen)
            + (if w.conversation.id in seen || w.conversation.id in ConversationIdSet(rows) then [] else [w.conversation.id])
    decreases |rows|
  {
    if |rows| == 0 {
      assert rows + [w] == [w];
      assert ConversationIdSet(rows) == {};
    } else {
      var id := rows[0].conversation.id;
      assert (rows + [w])[0] == rows[0] && (rows + [w])[1..] == rows[1..] + [w];
      ConversationIdSetCons(rows);
      if id in seen {
        ConversationIdsSnoc(rows[1..], w, seen);
      } else {
        ConversationIdsSnoc(rows[1..], w, seen + {id});
        var tail := if w.conversation.id in seen + {id} || w.conversation.id in ConversationIdSet(rows[1..]) then [] else [w.conversation.id];
        assert ([id] + ConversationIds(rows[1..], seen + {id})) + tail == [id] + (ConversationIds(rows[1..], seen + {id}) + tail);
      }
    }
  }

  /** The rows of conversation `id`, in row order, as conversation-reader rows. */
  function RowsOf(rows: seq<SessionRow>, id: Guid): (r: seq<CR.ConversationRow>)
    ensures forall k :: 0 <= k < |r| ==> r[k].conversation.id == id
    ensures forall k :: 0 <= k < |rows| && rows[k].conversation.id == id ==> AsConversationRow(rows[k]) in r
    decreases |rows|
  {
    if |rows| == 0 then []
    else
      var rest := RowsOf(rows[1..], id);
      assert forall k :: 1 <= k < |rows| ==> rows[k] == rows[1..][k - 1];
      (if rows[0].conversation.id == id then [AsConversationRow(rows[0])] else []) + rest
  }

  /** The rows of a conversation id the rows mention are not empty. */
  lemma RowsOfPresent(rows: seq<SessionRow>, id: Guid)
    requires id in ConversationIdSet(rows)
    ensures |RowsOf(rows, id)| > 0
  {
    var k :| 0 <= k < |rows| && rows[k].conversation.id == id;
    assert AsConversationRow(rows[k]) in RowsOf(rows, id);
  }

  /**
    One conversation of the session: the conversation read from its rows
    (its first row's fields, the questions of all its rows each id once),
    with the questions ordered by index.
   */
  function ReadConversation(rows: seq<SessionRow>, id: Guid): (c: Conversation)
    requires id in ConversationIdSet(rows)
    ensures var first := RowsOf(rows, id)[0].conversation;
      c.id == id && c.idSession == first.idSession && c.title == first.title
  {
    RowsOfPresent(rows, id);
    var read := CR.ConversationFromRows(RowsOf(rows, id)).value;
    read.(questions := SortByIndex(read.questions))
  }

  /**
    A conversation read holds answered questions, each id once, in index
    order; the question of every row of the conversation is among them, and
    each of them is the answered question of the first row of the conversation
    carrying its id, so nothing else gets in and a repeated question keeps the
    first row's answer.
   */
  lemma ReadConversationQuestions(rows: seq<SessionRow>, id: Guid)
    requires id in ConversationIdSet(rows)
    ensures var qs := ReadConversation(rows, id).questions;
      IndexOrdered(qs) && CR.DistinctIds(qs)
      && (forall k :: 0 <= k < |qs| ==> qs[k].answer.Some?)
      && (forall k :: 0 <= k < |rows| && rows[k].conversation.id == id ==> rows[k].question.id in CR.Ids(qs))
      && forall q :: q in qs ==>
           exists k: nat :: FirstRowFor(rows, id, k) && q == CR.Attached(rows[k].question, rows[k].answer)
  {
    RowsOfPresent(rows, id);
    var read := CR.ConversationFromRows(RowsOf(rows, id)).value;
    SortByIndexCorrect(read.questions);
    ReadFromFirstRows(rows, id);
    forall q | q in ReadConversation(rows, id).questions ensures q in read.questions {
      assert q in multiset(SortByIndex(read.questions));
    }
    SortByIndexDistinct(read.questions);
    SortByIndexAnswered(read.questions);
    forall k | 0 <= k < |rows| && rows[k].conversation.id == id
      ensures rows[k].question.id in CR.Ids(ReadConversation(rows, id).questions)
    {
      RowQuestionRead(rows, id, k);
    }
  }

  /** The question of one row of the conversation is among the questions read. */
  lemma RowQuestionRead(rows: seq<SessionRow>, id: Guid, k: nat)
    requires k < |rows| && rows[k].conversation.id == id
    ensures id in ConversationIdSet(rows)
    ensures rows[k].question.id in CR.Ids(ReadConversation(rows, id).questions)
  {
    assert id in ConversationIdSet(rows);
    var group := RowsOf(rows, id);
    RowsOfPresent(rows, id);
    var read := CR.ConversationFromRows(group).value;
    SortByIndexDistinct(read.questions);
    var j :| 0 <= j < |group| && group[j] == AsConversationRow(rows[k]);
    CR.ReadKeepsEveryQuestion(group, j);
  }

  /** Row `k` is the first row of conversation `id` carrying its question id. */
  predicate FirstRowFor(rows: seq<SessionRow>, id: Guid, k: nat) {
    k < |rows| && rows[k].conversation.id == id
    && forall i :: 0 <= i < k && rows[i].conversation.id == id ==> rows[i].question.id != rows[k].question.id
  }

  /** One more row joins the rows of conversation `id`, at the end, exactly when it belongs to it. */
  lemma {:induction false} RowsOfSnoc(rows: seq<SessionRow>, w: SessionRow, id: Guid)
    ensures RowsOf(rows + [w], id) == RowsOf(rows, id) + (if w.conversation.id == id then [AsConversationRow(w)] else [])
    decreases |rows|
  {
    var t := rows + [w];
    if |rows| == 0 {
      assert t == [w] && t[1..] == [];
    } else {
      assert t[0] == rows[0] && t[1..] == rows[1..] + [w];
      RowsOfSnoc(rows[1..], w, id);
      var head := if rows[0].conversation.id == id then [AsConversationRow(rows[0])] else [];
      var tail := if w.conversation.id == id then [AsConversationRow(w)] else [];
      calc {
        RowsOf(t, id);
        head + RowsOf(rows[1..] + [w], id);
        head + (RowsOf(rows[1..], id) + tail);
        (head + RowsOf(rows[1..], id)) + tail;
      }
    }
  }

  /** A conversation the rows do not mention has no rows. */
  lemma {:induction false} RowsOfAbsent(rows: seq<SessionRow>, id: Guid)
    requires id !in ConversationIdSet(rows)
    ensures RowsOf(rows, id) == []
    decreases |rows|
  {
    if |rows| > 0 {
      assert rows[0].conversation.id in ConversationIdSet(rows);
      assert ConversationIdSet(rows[1..]) <= ConversationIdSet(rows) by {
        forall c | c in ConversationIdSet(rows[1..]) ensures c in ConversationIdSet(rows) {
          var k :| 0 <= k < |rows[1..]| && rows[1..][k].conversation.id == c;
          assert rows[k + 1] == rows[1..][k];
        }
      }
      RowsOfAbsent(rows[1..], id);
    }
  }

  /**
    Before sorting, each question read for conversation `id` is the answered
    question of the first row of that conversation carrying its id.
   */
  ghost predicate ReadFromFirst(rows: seq<SessionRow>, id: Guid) {
    |RowsOf(rows, id)| > 0
    && forall q :: q in CR.ConversationFromRows(RowsOf(rows, id)).value.questions ==>
         exists k: nat :: FirstRowFor(rows, id, k) && q == CR.Attached(rows[k].question, rows[k].answer)
  }

  /** The questions read for a conversation the rows mention come from its first rows. */
  lemma {:induction false} ReadFromFirstRows(rows: seq<SessionRow>, id: Guid)
    requires id in ConversationIdSet(rows)
    ensures ReadFromFirst(rows, id)
    decreases |rows|
  {
    var init := rows[..|rows| - 1];
    var w := rows[|rows| - 1];
    assert rows == init + [w];
    if id in ConversationIdSet(init) {
      ReadFromFirstRows(init, id);
      ReadFromFirstKnown(init, w, id);
    } else {
      var k :| 0 <= k < |rows| && rows[k].conversation.id == id;
      assert k == |init|;
      ReadFromFirstNew(init, w, id);
    }
  }

  /** A row added to a conversation already mentioned keeps the questions read coming from first rows. */
  lemma ReadFromFirstKnown(init: seq<SessionRow>, w: SessionRow, id: Guid)
    requires id in ConversationIdSet(init) && ReadFromFirst(init, id)
    ensures ReadFromFirst(init + [w], id)
  {
    var rows := init + [w];
    RowsOfSnoc(init, w, id);
    var group := RowsOf(init, id);
    var before := CR.ConversationFromRows(group).value.questions;
    if w.conversation.id == id {
      CR.ConversationFromRowsSnoc(group, AsConversationRow(w));
    } else {
      assert RowsOf(rows, id) == group + [] == group;
    }
    forall q | q in CR.ConversationFromRows(RowsOf(rows, id)).value.questions
      ensures exists k: nat :: FirstRowFor(rows, id, k) && q == CR.Attached(rows[k].question, rows[k].answer)
    {
      if q in before {
        var k: nat :| FirstRowFor(init, id, k) && q == CR.Attached(init[k].question, init[k].answer);
        FirstRowForPrefix(init, w, id, k);
      } else {
        NewRowFirst(init, w, id);
      }
    }
  }

  /** The first row of a conversation no earlier row mentions gives its only question read. */
  lemma ReadFromFirstNew(init: seq<SessionRow>, w: SessionRow, id: Guid)
    requires id !in ConversationIdSet(init) && w.conversation.id == id
    ensures ReadFromFirst(init + [w], id)
  {
    var rows := init + [w];
    RowsOfSnoc(init, w, id);
    RowsOfAbsent(init, id);
    assert RowsOf(rows, id) == [AsConversationRow(w)];
    CR.OneRowRead([AsConversationRow(w)]);
    OnlyRowFirst(init, w, id);
  }

  /** A first row stays first when a row is added after it. */
  lemma FirstRowForPrefix(rows: seq<SessionRow>, w: SessionRow, id: Guid, k: nat)
    requires FirstRowFor(rows, id, k)
    ensures FirstRowFor(rows + [w], id, k) && (rows + [w])[k] == rows[k]
  {
    var t := rows + [w];
    assert forall i :: 0 <= i <= k ==> t[i] == rows[i];
  }

  /** A new row of a mentioned conversation whose question id was not read yet is the first row for that id. */
  lemma NewRowFirst(rows: seq<SessionRow>, w: SessionRow, id: Guid)
    requires id in ConversationIdSet(rows) && w.conversation.id == id
    requires |RowsOf(rows, id)| > 0
    requires w.question.id !in CR.Ids(CR.ConversationFromRows(RowsOf(rows, id)).value.questions)
    ensures FirstRowFor(rows + [w], id, |rows|) && (rows + [w])[|rows|] == w
  {
    var t := rows + [w];
    var group := RowsOf(rows, id);
    forall i | 0 <= i < |rows| && t[i].conversation.id == id ensures t[i].question.id != w.question.id {
      assert t[i] == rows[i];
      var j :| 0 <= j < |group| && group[j] == AsConversationRow(rows[i]);
      CR.ReadKeepsEveryQuestion(group, j);
    }
  }

  /** The row of a conversation no earlier row mentions is the first row for its question id. */
  lemma OnlyRowFirst(rows: seq<SessionRow>, w: SessionRow, id: Guid)
    requires id !in ConversationIdSet(rows) && w.conversation.id == id
    ensures FirstRowFor(rows + [w], id, |rows|) && (rows + [w])[|rows|] == w
  {
    var t := rows + [w];
    forall i | 0 <= i < |rows| ensures t[i].conversation.id != id {
      assert t[i] == rows[i];
      assert rows[i].conversation.id in ConversationIdSet(rows);
    }
  }

  /** The conversations of `ids`, in order. */
  function ReadConversations(rows: seq<SessionRow>, ids: seq<Guid>): (cs: seq<Conversation>)
    requires forall k :: 0 <= k < |ids| ==> ids[k] in ConversationIdSet(rows)
    ensures |cs| == |ids| && forall k :: 0 <= k < |cs| ==> cs[k] == ReadConversation(rows, ids[k])
  {
    seq(|ids|, k requires 0 <= k < |ids| => ReadConversation(rows, ids[k]))
  }

  /**
    `GetAsync(id)`'s grouping: no rows give no session; otherwise the session
    of the first row, holding the conversations of its group in order of first
    appearance.
   */
  function SessionFromRows(rows: seq<SessionRow>): (r: Option<Session>)
    ensures |rows| == 0 <==> r.None?
    ensures r.Some? ==> r.value.id == rows[0].session.id
  {
    if |rows| == 0 then None
    else
      var group := SessionGroup(rows, rows[0].session.id);
      var ids := ConversationIds(group, {});
      Some(rows[0].session.(conversations := ReadConversations(group, ids)))
  }

  /** The read session holds each of its conversations once. */
  lemma ReadSessionConversationsDistinct(rows: seq<SessionRow>)
    requires |rows| > 0
    ensures var cs := SessionFromRows(rows).value.conversations;
      forall i, j :: 0 <= i < j < |cs| ==> cs[i].id != cs[j].id
  {
  }

  /**
    Nothing of the session's rows is lost but duplicates: every row of the
    session has its conversation in the result, and the question of the row
    is among that conversation's questions.
   */
  lemma ReadSessionKeepsEveryRow(rows: seq<SessionRow>, k: nat)
    requires k < |rows| && rows[k].session.id == rows[0].session.id
    ensures exists c :: (c in SessionFromRows(rows).value.conversations
      && c.id == rows[k].conversation.id && rows[k].question.id in CR.Ids(c.questions))
  {
    var group := SessionGroup(rows, rows[0].session.id);
    var ids := ConversationIds(group, {});
    var g :| 0 <= g < |group| && group[g] == rows[k];
    assert rows[k].conversation.id in ConversationIdSet(group);
    var i :| 0 <= i < |ids| && ids[i] == rows[k].conversation.id;
    assert SessionFromRows(rows).value.conversations[i] == ReadConversation(group, ids[i]);
    ReadConversationQuestions(group, ids[i]);
  }

  /** Every conversation read holds answered questions, each id once, in index order. */
  lemma ReadSessionQuestionsOrdered(rows: seq<SessionRow>, i: nat)
    requires |rows| > 0 && i < |SessionFromRows(rows).value.conversations|
    ensures var qs := SessionFromRows(rows).value.conversations[i].questions;
      IndexOrdered(qs) && CR.DistinctIds(qs) && forall k :: 0 <= k < |qs| ==> qs[k].answer.Some?
  {
    var group := SessionGroup(rows, rows[0].session.id);
    var ids := ConversationIds(group, {});
    ReadConversationQuestions(group, ids[i]);
  }

  /** Grouping rows that all belong to one session keeps them all, in order. */
  lemma {:induction false} SessionGroupOfOneSession(rows: seq<SessionRow>, id: Guid)
    requires forall k :: 0 <= k < |rows| ==> rows[k].session.id == id
    ensures SessionGroup(rows, id) == rows
    decreases |rows|
  {
    if |rows| > 0 {
      SessionGroupOfOneSession(rows[1..], id);
      assert rows == [rows[0]] + rows[1..];
    }
  }

  /** Rows of sessions other than the first row's are ignored: reading only the first session's rows gives the same session. */
  lemma OtherSessionsIgnored(rows: seq<SessionRow>)
    requires |rows| > 0
    ensures var group := SessionGroup(rows, rows[0].session.id);
      |group| > 0 && SessionFromRows(group) == SessionFromRows(rows)
  {
    var id := rows[0].session.id;
    var group := SessionGroup(rows, id);
    assert rows[0] in group;
    SessionGroupOfOneSession(group, id);
  }
}
