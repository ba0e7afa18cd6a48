/**
  The conversation store of the RAG service (`DatabaseManager` in python/utils.py),
  abstracted from SQLite to an append-only sequence of rows in insertion order.
  The `timestamp` column defaults to the time of the insert; the model takes it as
  an input and reads "ORDER BY timestamp DESC" as "newest insert first".
 */
module ConversationStore {

  /** One row of the `conversations` table. */
  datatype Turn = Turn(userId: string, question: string, answer: string, timestamp: string)

  /** One tuple returned by `get_user_history`: (question, answer, timestamp). */
  datatype HistoryRow = HistoryRow(question: string, answer: string, timestamp: string)

  /** The whole table, oldest insert first. */
  type Store = seq<Turn>

  function ToHistoryRow(t: Turn): HistoryRow {
    HistoryRow(t.question, t.answer, t.timestamp)
  }

  /** The rows of one user, oldest first (the `WHERE user_id = ?` of every query). */
  function OfUser(s: Store, userId: string): (r: seq<Turn>)
    ensures |r| <= |s|
    ensures forall k :: 0 <= k < |r| ==> r[k].userId == userId
  {
    if |s| == 0 then []
    else (if s[0].userId == userId then [s[0]] else []) + OfUser(s[1..], userId)
  }

  /** The filter keeps exactly the rows of that user. */
  lemma {:induction false} OfUserMembers(s: Store, userId: string, t: Turn)
    ensures t in OfUser(s, userId) <==> t in s && t.userId == userId
  {
    if |s| > 0 {
      OfUserMembers(s[1..], userId, t);
      assert t in s <==> t == s[0] || t in s[1..];
    }
  }

  /** Filtering distributes over appending one row at the end. */
  lemma {:induction false} OfUserSnoc(s: Store, t: Turn, userId: string)
    ensures OfUser(s + [t], userId) == OfUser(s, userId) + (if t.userId == userId then [t] else [])
  {
    if |s| == 0 {
      assert s + [t] == [t];
    } else {
      assert (s + [t])[1..] == s[1..] + [t];
      OfUserSnoc(s[1..], t, userId);
    }
  }

  /** `save_conversation`: one INSERT, appended after every existing row. */
  function SaveConversation(s: Store, userId: string, question: string, answer: string, now: string): (r: Store)
    ensures |r| == |s| + 1
    ensures r[..|s|] == s
    ensures r[|s|] == Turn(userId, question, answer, now)
  {
    s + [Turn(userId, question, answer, now)]
  }

  /** The number of rows `LIMIT limit` keeps; SQLite reads a negative limit as "no limit". */
  function LimitCount(limit: int, available: nat): (n: nat)
    ensures n <= available
    ensures limit < 0 ==> n == available
    ensures limit >= 0 ==> n == if limit < available then limit else available
  {
    if limit < 0 || limit >= available then available else limit
  }

  /** The rows of one user as `ORDER BY timestamp DESC` yields them: newest insert first. */
  function NewestFirst(s: Store, userId: string): seq<HistoryRow>
    decreases |s|
  {
    if |s| == 0 then []
    else
      var last := s[|s| - 1];
      (if last.userId == userId then [ToHistoryRow(last)] else []) + NewestFirst(s[..|s| - 1], userId)
  }

  /** The descending scan is the user's rows in reverse insertion order. */
  lemma {:induction false} NewestFirstReversesOfUser(s: Store, userId: string)
    ensures |NewestFirst(s, userId)| == |OfUser(s, userId)|
    ensures forall k :: 0 <= k < |OfUser(s, userId)| ==>
      NewestFirst(s, userId)[k] == ToHistoryRow(OfUser(s, userId)[|OfUser(s, userId)| - 1 - k])
  {
    if |s| > 0 {
      var init := s[..|s| - 1];
      var last := s[|s| - 1];
      assert s == init + [last];
      NewestFirstReversesOfUser(init, userId);
      OfUserSnoc(init, last, userId);
      var older := OfUser(init, userId);
      if last.userId == userId {
        var rows := older + [last];
        assert OfUser(s, userId) == rows;
        assert NewestFirst(s, userId) == [ToHistoryRow(last)] + NewestFirst(init, userId);
        forall k | 0 <= k < |rows|
          ensures NewestFirst(s, userId)[k] == ToHistoryRow(rows[|rows| - 1 - k])
        {
          if k > 0 {
            assert NewestFirst(s, userId)[k] == NewestFirst(init, userId)[k - 1];
            assert rows[|rows| - 1 - k] == older[|older| - 1 - (k - 1)];
          }
        }
      } else {
        assert OfUser(s, userId) == older;
        assert NewestFirst(s, userId) == NewestFirst(init, userId);
      }
    }
  }

  /** A row stored last for the user is the first one the descending scan yields. */
  lemma NewestFirstSnoc(s: Store, t: Turn)
    ensures NewestFirst(s + [t], t.userId) == [ToHistoryRow(t)] + NewestFirst(s, t.userId)
  {
    assert (s + [t])[..|s|] == s;
  }

  /** `get_user_history(user_id, limit)`: that user's rows, newest first, at most `limit` of them. */
  function GetUserHistory(s: Store, userId: string, limit: int): (r: seq<HistoryRow>)
    ensures |r| == LimitCount(limit, |OfUser(s, userId)|)
    ensures forall k :: 0 <= k < |r| ==>
      r[k] == ToHistoryRow(OfUser(s, userId)[|OfUser(s, userId)| - 1 - k])
  {
    NewestFirstReversesOfUser(s, userId);
    var rows := NewestFirst(s, userId);
    rows[..LimitCount(limit, |rows|)]
  }

  /** After one more turn of a user, the user's history is that turn followed by the history before, cut to the limit. */
  lemma GetUserHistorySnoc(s: Store, t: Turn, limit: int)
    requires limit > 0
    ensures var h := GetUserHistory(s, t.userId, limit);
      var h' := GetUserHistory(s + [t], t.userId, limit);
      |h'| == (if |h| < limit then |h| + 1 else limit)
      && h'[0] == ToHistoryRow(t) && h'[1..] == h[..|h'| - 1]
  {
    NewestFirstSnoc(s, t);
    var nf := NewestFirst(s, t.userId);
    var nf' := NewestFirst(s + [t], t.userId);
    var h := GetUserHistory(s, t.userId, limit);
    var h' := GetUserHistory(s + [t], t.userId, limit);
    assert h == nf[..LimitCount(limit, |nf|)];
    assert h' == nf'[..LimitCount(limit, |nf'|)];
    assert h'[1..] == nf[..|h'| - 1];
  }

  /** Reading a user's history right after saving a turn for them returns that turn first. */
  lemma SaveThenReadNewestFirst(s: Store, userId: string, q: string, a: string, now: string, limit: int)
    requires limit != 0
    ensures var h := GetUserHistory(SaveConversation(s, userId, q, a, now), userId, limit);
      |h| > 0 && h[0] == HistoryRow(q, a, now)
  {
    OfUserSnoc(s, Turn(userId, q, a, now), userId);
  }

  /** Saving a turn for one user leaves every other user's history unchanged. */
  lemma SaveLeavesOtherUsers(s: Store, userId: string, other: string, q: string, a: string, now: string, limit: int)
    requires other != userId
    ensures GetUserHistory(SaveConversation(s, userId, q, a, now), other, limit) == GetUserHistory(s, other, limit)
  {
    OfUserSnoc(s, Turn(userId, q, a, now), other);
  }

  /** `delete_user_history`: `DELETE ... WHERE user_id = ?`. */
  function DeleteUserHistory(s: Store, userId: string): (r: Store)
    ensures |r| <= |s|
    ensures forall t :: t in r <==> t in s && t.userId != userId
  {
    if |s| == 0 then []
    else (if s[0].userId != userId then [s[0]] else []) + DeleteUserHistory(s[1..], userId)
  }

  /** After the delete that user has no rows, and every other user keeps exactly their rows, in order. */
  lemma {:induction false} DeleteKeepsOthers(s: Store, userId: string, other: string)
    ensures OfUser(DeleteUserHistory(s, userId), userId) == []
    ensures other != userId ==> OfUser(DeleteUserHistory(s, userId), other) == OfUser(s, other)
  {
    if |s| > 0 {
      DeleteKeepsOthers(s[1..], userId, other);
      var head := if s[0].userId != userId then [s[0]] else [];
      var rest := DeleteUserHistory(s[1..], userId);
      OfUserAppend(head, rest, userId);
      OfUserAppend(head, rest, other);
      assert head == [] || head[1..] == [];
    }
  }

  lemma {:induction false} OfUserAppend(a: Store, b: Store, userId: string)
    ensures OfUser(a + b, userId) == OfUser(a, userId) + OfUser(b, userId)
  {
    if |a| == 0 {
      assert a + b == b;
    } else {
      assert (a + b)[1..] == a[1..] + b;
      OfUserAppend(a[1..], b, userId);
    }
  }

  /** `get_all_users`: `SELECT DISTINCT user_id`, each id once, in first-insert order. */
  function GetAllUsers(s: Store): (r: seq<string>)
    ensures forall i, j :: 0 <= i < j < |r| ==> r[i] != r[j]
    ensures forall u :: u in r <==> exists t :: t in s && t.userId == u
  {
    DistinctUsers(s, [])
  }

  function DistinctUsers(s: Store, seen: seq<string>): (r: seq<string>)
    requires forall i, j :: 0 <= i < j < |seen| ==> seen[i] != seen[j]
    ensures forall i, j :: 0 <= i < j < |r| ==> r[i] != r[j]
    ensures forall u :: u in r <==> u in seen || exists t :: t in s && t.userId == u
    decreases |s|
  {
    if |s| == 0 then seen
    else
      var r := DistinctUsers(s[1..], if s[0].userId in seen then seen else seen + [s[0].userId]);
      assert forall t :: t in s <==> t == s[0] || t in s[1..];
      r
  }
}
