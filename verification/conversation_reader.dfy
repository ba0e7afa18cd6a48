/**
  The conversation reader of `DatabaseEAssistantConversation.GetAsync`
  (DatabaseEAssistantConversation.cs): the SQL inner join yields one row per
  answered question of the conversation, ordered by question index; the row
  mapper builds fresh objects per row and hangs the question (with its answer)
  on the row's conversation; the grouping then keeps the first group, taking
  the conversation of its first row and the questions of all its rows, each
  question id once. The SQL itself is not modelled: the rows are the input.
 */
module ConversationReader {
  import opened Common
  import opened Entities

  /** One joined row, as the row mapper receives it: a conversation, a question and an answer. */
  datatype ConversationRow = ConversationRow(conversation: Conversation, question: Question, answer: Answer)

  /** The question of a row with the row's answer attached. */
  function Attached(question: Question, answer: Answer): (q: Question)
    ensures q.answer == Some(answer)
    ensures q.id == question.id && q.index == question.index && q.content == question.content
  {
    question.(answer := Some(answer))
  }

  /**
    The row mapper `Map`: the question gets the answer and becomes the only
    question of the row's (freshly built) conversation.
   */
  function Map(row: ConversationRow): (c: Conversation)
    ensures c.id == row.conversation.id && c.idSession == row.conversation.idSession && c.title == row.conversation.title
    ensures |c.questions| == 1 && c.questions[0].answer == Some(row.answer) && c.questions[0].id == row.question.id
  {
    row.conversation.(questions := [Attached(row.question, row.answer)])
  }

  /** The question ids of `qs`. */
  function Ids(qs: seq<Question>): (r: set<Guid>)
    ensures forall k :: 0 <= k < |qs| ==> qs[k].id in r
    ensures forall id :: id in r ==> exists k :: 0 <= k < |qs| && qs[k].id == id
  {
    if |qs| == 0 then {}
    else
      var rest := Ids(qs[1..]);
      assert forall id :: id in rest ==> exists k :: 0 <= k < |qs| && qs[k].id == id by {
        forall id | id in rest ensures exists k :: 0 <= k < |qs| && qs[k].id == id {
          var j :| 0 <= j < |qs[1..]| && qs[1..][j].id == id;
          assert qs[j + 1].id == id;
        }
      }
      {qs[0].id} + rest
  }

  /** No two questions share an id. */
  predicate DistinctIds(qs: seq<Question>) {
    forall i, j :: 0 <= i < j < |qs| ==> qs[i].id != qs[j].id
  }

  /** `DistinctBy(q => q.Id)` after the ids in `seen`: the first question of each id not yet seen, in order. */
  function DistinctFrom(qs: seq<Question>, seen: set<Guid>): seq<Question>
    decreases |qs|
  {
    if |qs| == 0 then []
    else if qs[0].id in seen then DistinctFrom(qs[1..], seen)
    else [qs[0]] + DistinctFrom(qs[1..], seen + {qs[0].id})
  }

  /** The questions kept come from the input, each with an id not seen. */
  lemma {:induction false} DistinctFromMembers(qs: seq<Question>, seen: set<Guid>)
    ensures forall k :: 0 <= k < |DistinctFrom(qs, seen)| ==>
      DistinctFrom(qs, seen)[k] in qs && DistinctFrom(qs, seen)[k].id !in seen
    decreases |qs|
  {
    if |qs| > 0 {
      var r := DistinctFrom(qs, seen);
      if qs[0].id in seen {
        DistinctFromMembers(qs[1..], seen);
        assert forall x :: x in qs[1..] ==> x in qs;
      } else {
        var rest := DistinctFrom(qs[1..], seen + {qs[0].id});
        DistinctFromMembers(qs[1..], seen + {qs[0].id});
        assert r == [qs[0]] + rest;
        forall k | 0 <= k < |r| ensures r[k] in qs && r[k].id !in seen {
          if k > 0 {
            assert r[k] == rest[k - 1] && rest[k - 1] in qs[1..];
          }
        }
      }
    }
  }

  /** The ids kept are exactly the input's ids not seen. */
  lemma {:induction false} DistinctFromIds(qs: seq<Question>, seen: set<Guid>)
    ensures Ids(DistinctFrom(qs, seen)) == Ids(qs) - seen
    decreases |qs|
  {
    if |qs| > 0 {
      assert Ids(qs) == {qs[0].id} + Ids(qs[1..]);
      if qs[0].id in seen {
        DistinctFromIds(qs[1..], seen);
      } else {
        var rest := DistinctFrom(qs[1..], seen + {qs[0].id});
        DistinctFromIds(qs[1..], seen + {qs[0].id});
        var r := [qs[0]] + rest;
        assert r[1..] == rest;
        assert Ids(r) == {qs[0].id} + Ids(rest);
      }
    }
  }

  /** No two questions kept share an id. */
  lemma {:induction false} DistinctFromDistinct(qs: seq<Question>, seen: set<Guid>)
    ensures DistinctIds(DistinctFrom(qs, seen))
    decreases |qs|
  {
    if |qs| > 0 {
      if qs[0].id in seen {
        DistinctFromDistinct(qs[1..], seen);
      } else {
        var rest := DistinctFrom(qs[1..], seen + {qs[0].id});
        DistinctFromDistinct(qs[1..], seen + {qs[0].id});
        DistinctFromMembers(qs[1..], seen + {qs[0].id});
        var r := [qs[0]] + rest;
        assert DistinctFrom(qs, seen) == r;
        forall i, j | 0 <= i < j < |r| ensures r[i].id != r[j].id {
          assert r[j] == rest[j - 1] && rest[j - 1].id !in seen + {qs[0].id};
          if i > 0 {
            assert r[i] == rest[i - 1];
          }
        }
      }
    }
  }

  /** `DistinctBy(q => q.Id)`: each id once, at its first occurrence, order kept. */
  function DistinctById(qs: seq<Question>): (r: seq<Question>)
    ensures DistinctIds(r)
    ensures forall k :: 0 <= k < |r| ==> r[k] in qs
    ensures Ids(r) == Ids(qs)
  {
    DistinctFromMembers(qs, {});
    DistinctFromIds(qs, {});
    DistinctFromDistinct(qs, {});
    DistinctFrom(qs, {})
  }

  /**
    One more question is kept, at the end, exactly when its id is neither seen
    nor taken by an earlier question: with the empty case, this fixes the result
    as the first question of each unseen id, in input order.
   */
  lemma {:induction false} DistinctFromSnoc(qs: seq<Question>, q: Question, seen: set<Guid>)
    ensures DistinctFrom(qs + [q], seen) == DistinctFrom(qs, seen) + (if q.id in seen + Ids(qs) then [] else [q])
    decreases |qs|
  {
    if |qs| == 0 {
      assert qs + [q] == [q] && [q][1..] == [];
      assert seen + Ids(qs) == seen;
    } else if qs[0].id in seen {
      DistinctFromSnoc(qs[1..], q, seen);
      SkipSeenSnoc(qs, q, seen);
    } else {
      DistinctFromSnoc(qs[1..], q, seen + {qs[0].id});
      KeepNewSnoc(qs, q, seen);
    }
  }

  /** Appending after a non-empty sequence keeps its head and appends to its tail. */
  lemma ConsSnoc<T>(s: seq<T>, x: T)
    requires |s| > 0
    ensures (s + [x])[0] == s[0] && (s + [x])[1..] == s[1..] + [x]
  {
  }

  /** The step of `DistinctFromSnoc` past a first question whose id is already seen. */
  lemma SkipSeenSnoc(qs: seq<Question>, q: Question, seen: set<Guid>)
    requires |qs| > 0 && qs[0].id in seen
    requires DistinctFrom(qs[1..] + [q], seen)
          == DistinctFrom(qs[1..], seen) + (if q.id in seen + Ids(qs[1..]) then [] else [q])
    ensures DistinctFrom(qs + [q], seen) == DistinctFrom(qs, seen) + (if q.id in seen + Ids(qs) then [] else [q])
  {
    ConsSnoc(qs, q);
    assert seen + Ids(qs) == seen + Ids(qs[1..]);
  }

  /** The step of `DistinctFromSnoc` past a first question whose id is new: it is kept in front. */
  lemma KeepNewSnoc(qs: seq<Question>, q: Question, seen: set<Guid>)
    requires |qs| > 0 && qs[0].id !in seen
    requires DistinctFrom(qs[1..] + [q], seen + {qs[0].id})
          == DistinctFrom(qs[1..], seen + {qs[0].id}) + (if q.id in seen + {qs[0].id} + Ids(qs[1..]) then [] else [q])
    ensures DistinctFrom(qs + [q], seen) == DistinctFrom(qs, seen) + (if q.id in seen + Ids(qs) then [] else [q])
  {
    var t := qs + [q];
    var seen' := seen + {qs[0].id};
    ConsSnoc(qs, q);
    assert seen' + Ids(qs[1..]) == seen + Ids(qs);
    var tail := if q.id in seen + Ids(qs) then [] else [q];
    calc {
      DistinctFrom(t, seen);
      [qs[0]] + DistinctFrom(qs[1..] + [q], seen');
      [qs[0]] + (DistinctFrom(qs[1..], seen') + tail);
      ([qs[0]] + DistinctFrom(qs[1..], seen')) + tail;
    }
  }

  /** `DistinctBy` keeps one more question, at the end, exactly when no earlier question has its id. */
  lemma DistinctByIdSnoc(qs: seq<Question>, q: Question)
    ensures DistinctById(qs + [q]) == DistinctById(qs) + (if q.id in Ids(qs) then [] else [q])
  {
    DistinctFromSnoc(qs, q, {});
    assert {} + Ids(qs) == Ids(qs);
  }

  /** Questions whose ids already differ pass through unchanged. */
  lemma {:induction false} DistinctFromUnchanged(qs: seq<Question>, seen: set<Guid>)
    requires DistinctIds(qs) && Ids(qs) !! seen
    ensures DistinctFrom(qs, seen) == qs
    decreases |qs|
  {
    if |qs| > 0 {
      var tail := qs[1..];
      DistinctTail(qs);
      assert Ids(qs) == {qs[0].id} + Ids(tail);
      DistinctFromUnchanged(tail, seen + {qs[0].id});
      assert qs == [qs[0]] + tail;
    }
  }

  /** The tail of distinct questions is distinct and does not have the head's id. */
  lemma DistinctTail(qs: seq<Question>)
    requires |qs| > 0 && DistinctIds(qs)
    ensures DistinctIds(qs[1..]) && qs[0].id !in Ids(qs[1..])
  {
    var tail := qs[1..];
    forall i, j | 0 <= i < j < |tail| ensures tail[i].id != tail[j].id {
      assert tail[i] == qs[i + 1] && tail[j] == qs[j + 1];
    }
    forall j | 0 <= j < |tail| ensures tail[j].id != qs[0].id {
      assert tail[j] == qs[j + 1];
    }
  }

  /** Deduplication is idempotent; in particular already distinct questions are left alone. */
  lemma DistinctByIdempotent(qs: seq<Question>)
    ensures DistinctIds(qs) ==> DistinctById(qs) == qs
    ensures DistinctById(DistinctById(qs)) == DistinctById(qs)
  {
    if DistinctIds(qs) {
      DistinctFromUnchanged(qs, {});
    }
    DistinctFromUnchanged(DistinctById(qs), {});
  }

  /** The questions (answers attached) of the rows of conversation `id`, in row order. */
  function GroupQuestions(rows: seq<ConversationRow>, id: Guid): (r: seq<Question>)
    ensures |r| <= |rows|
    ensures forall k :: 0 <= k < |r| ==> r[k].answer.Some?
  {
    if |rows| == 0 then []
    else
      (if rows[0].conversation.id == id then Map(rows[0]).questions else []) + GroupQuestions(rows[1..], id)
  }

  /** A row of conversation `id` has its question in the group, answered by the row's answer. */
  lemma {:induction false} GroupQuestionsHasRow(rows: seq<ConversationRow>, id: Guid, k: nat)
    requires k < |rows| && rows[k].conversation.id == id
    ensures Attached(rows[k].question, rows[k].answer) in GroupQuestions(rows, id)
    decreases |rows|
  {
    if k > 0 {
      GroupQuestionsHasRow(rows[1..], id, k - 1);
    }
  }

  /**
    One more row adds its question, answered, at the end of the group exactly
    when it belongs to the conversation: with the empty case, the group is the
    questions of that conversation's rows, in row order.
   */
  lemma {:induction false} GroupQuestionsSnoc(rows: seq<ConversationRow>, w: ConversationRow, id: Guid)
    ensures GroupQuestions(rows + [w], id)
         == GroupQuestions(rows, id) + (if w.conversation.id == id then [Attached(w.question, w.answer)] else [])
    decreases |rows|
  {
    var t := rows + [w];
    if |rows| == 0 {
      assert t == [w] && t[1..] == [];
    } else {
      assert t[0] == rows[0] && t[1..] == rows[1..] + [w];
      GroupQuestionsSnoc(rows[1..], w, id);
      var head := if rows[0].conversation.id == id then Map(rows[0]).questions else [];
      var tail := if w.conversation.id == id then [Attached(w.question, w.answer)] else [];
      calc {
        GroupQuestions(t, id);
        head + GroupQuestions(rows[1..] + [w], id);
        head + (GroupQuestions(rows[1..], id) + tail);
        (head + GroupQuestions(rows[1..], id)) + tail;
      }
    }
  }

  /** Every question of the group is the answered question of a row of that conversation: nothing else gets in. */
  lemma {:induction false} GroupQuestionsOnlyOwnRows(rows: seq<ConversationRow>, id: Guid, q: Question)
    requires q in GroupQuestions(rows, id)
    ensures exists k :: 0 <= k < |rows| && rows[k].conversation.id == id && q == Attached(rows[k].question, rows[k].answer)
    decreases |rows|
  {
    if rows[0].conversation.id == id && q == Attached(rows[0].question, rows[0].answer) {
      assert rows[0].conversation.id == id;
    } else {
      assert q in GroupQuestions(rows[1..], id);
      GroupQuestionsOnlyOwnRows(rows[1..], id, q);
      var k :| 0 <= k < |rows[1..]| && rows[1..][k].conversation.id == id
               && q == Attached(rows[1..][k].question, rows[1..][k].answer);
      assert rows[k + 1] == rows[1..][k];
    }
  }

  /**
    The grouping of `GetAsync`: no rows give no conversation; otherwise the
    first group's first row gives the conversation's own fields, and its
    questions are those of all the group's rows, deduplicated by id.
   */
  function ConversationFromRows(rows: seq<ConversationRow>): (r: Option<Conversation>)
    ensures |rows| == 0 <==> r.None?
    ensures r.Some? ==>
      var first := rows[0].conversation;
      r.value.id == first.id && r.value.idSession == first.idSession && r.value.title == first.title
      && DistinctIds(r.value.questions)
      && (forall k :: 0 <= k < |r.value.questions| ==> r.value.questions[k].answer.Some?)
      && Ids(r.value.questions) == Ids(GroupQuestions(rows, first.id))
  {
    if |rows| == 0 then None
    else
      var first := Map(rows[0]);
      var questions := DistinctById(GroupQuestions(rows, first.id));
      assert forall k :: 0 <= k < |questions| ==> questions[k].answer.Some? by {
        forall k | 0 <= k < |questions| ensures questions[k].answer.Some? {
          var g := GroupQuestions(rows, first.id);
          assert questions[k] in g;
          var j :| 0 <= j < |g| && g[j] == questions[k];
        }
      }
      Some(first.(questions := questions))
  }

  /** Every row of the read conversation contributes its question id: nothing is dropped but duplicates. */
  lemma ReadKeepsEveryQuestion(rows: seq<ConversationRow>, k: nat)
    requires k < |rows| && rows[k].conversation.id == rows[0].conversation.id
    ensures rows[k].question.id in Ids(ConversationFromRows(rows).value.questions)
  {
    GroupQuestionsHasRow(rows, rows[0].conversation.id, k);
    var g := GroupQuestions(rows, rows[0].conversation.id);
    var q := Attached(rows[k].question, rows[k].answer);
    var j :| 0 <= j < |g| && g[j] == q;
    assert q.id in Ids(g);
  }

  /**
    One more row changes only the questions read: a row of the conversation
    whose question id is new adds that question, answered, at the end; any
    other row (another conversation's, or a repeated question id) changes
    nothing, so the first row's answer stays.
   */
  lemma ConversationFromRowsSnoc(rows: seq<ConversationRow>, w: ConversationRow)
    requires |rows| > 0
    ensures var c := ConversationFromRows(rows).value;
      ConversationFromRows(rows + [w])
      == Some(c.(questions := c.questions
           + (if w.conversation.id == rows[0].conversation.id && w.question.id !in Ids(c.questions)
              then [Attached(w.question, w.answer)] else [])))
  {
    var id := rows[0].conversation.id;
    var t := rows + [w];
    assert t[0] == rows[0];
    var g := GroupQuestions(rows, id);
    GroupQuestionsSnoc(rows, w, id);
    if w.conversation.id == id {
      DistinctByIdSnoc(g, Attached(w.question, w.answer));
    } else {
      assert GroupQuestions(t, id) == g + [] == g;
      var c := ConversationFromRows(rows).value;
      assert c.questions + [] == c.questions;
    }
  }

  /** Row `k` is the first row of conversation `id` carrying its question id. */
  predicate FirstRowFor(rows: seq<ConversationRow>, id: Guid, k: nat) {
    k < |rows| && rows[k].conversation.id == id
    && forall i :: 0 <= i < k && rows[i].conversation.id == id ==> rows[i].question.id != rows[k].question.id
  }

  /**
    Each question read is the answered question of the first row of the
    conversation carrying its id: nothing from another conversation, and of
    repeated question ids the first row's answer is the one kept.
   */
  lemma {:induction false} ReadQuestionsFromFirstRows(rows: seq<ConversationRow>)
    requires |rows| > 0
    ensures forall q :: q in ConversationFromRows(rows).value.questions ==>
      exists k: nat :: FirstRowFor(rows, rows[0].conversation.id, k) && q == Attached(rows[k].question, rows[k].answer)
    decreases |rows|
  {
    var id := rows[0].conversation.id;
    var init := rows[..|rows| - 1];
    var w := rows[|rows| - 1];
    if |init| == 0 {
      OneRowRead(rows);
    } else {
      assert rows == init + [w] && init[0] == rows[0];
      ReadQuestionsFromFirstRows(init);
      ConversationFromRowsSnoc(init, w);
      var before := ConversationFromRows(init).value.questions;
      forall q | q in ConversationFromRows(rows).value.questions
        ensures exists k: nat :: FirstRowFor(rows, id, k) && q == Attached(rows[k].question, rows[k].answer)
      {
        if q in before {
          var k: nat :| FirstRowFor(init, id, k) && q == Attached(init[k].question, init[k].answer);
          FirstRowForPrefix(init, w, id, k);
        } else {
          LastRowFirst(init, w);
        }
      }
    }
  }

  /** A single row is read as its conversation holding its answered question. */
  lemma OneRowRead(rows: seq<ConversationRow>)
    requires |rows| == 1
    ensures ConversationFromRows(rows).value.questions == [Attached(rows[0].question, rows[0].answer)]
    ensures FirstRowFor(rows, rows[0].conversation.id, 0)
  {
    var w := rows[0];
    assert rows == [] + [w];
    GroupQuestionsSnoc([], w, w.conversation.id);
    DistinctByIdSnoc([], Attached(w.question, w.answer));
  }

  /** A first row stays first when a row is added after it. */
  lemma FirstRowForPrefix(rows: seq<ConversationRow>, w: ConversationRow, id: Guid, k: nat)
    requires FirstRowFor(rows, id, k)
    ensures FirstRowFor(rows + [w], id, k) && (rows + [w])[k] == rows[k]
  {
    var t := rows + [w];
    assert forall i :: 0 <= i <= k ==> t[i] == rows[i];
  }

  /** A new row of the conversation whose question id was not read yet is the first row for that id. */
  lemma LastRowFirst(rows: seq<ConversationRow>, w: ConversationRow)
    requires |rows| > 0 && w.conversation.id == rows[0].conversation.id
    requires w.question.id !in Ids(ConversationFromRows(rows).value.questions)
    ensures FirstRowFor(rows + [w], rows[0].conversation.id, |rows|) && (rows + [w])[|rows|] == w
  {
    var t := rows + [w];
    var id := rows[0].conversation.id;
    forall i | 0 <= i < |rows| && t[i].conversation.id == id ensures t[i].question.id != w.question.id {
      assert t[i] == rows[i];
      ReadKeepsEveryQuestion(rows, i);
    }
  }
}
