/**
  The text formatters of the RAG service (python/utils.py): the in-memory history
  renderer, the stored-history renderer used by the history tool, and the
  document-context renderer used by the retrieval tool.
 */
module Formatters {
  import opened Common
  import ConversationStore

  /** A (user message, assistant message) pair of the in-memory history. */
  type Exchange = (string, string)

  /**
    Where Python's `xs[start:]` begins for a list of length `n`: a negative start
    counts from the end, and both kinds are clamped into `0..n`.
   */
  function PySliceStart(start: int, n: nat): (i: nat)
    ensures i <= n
    ensures start >= 0 ==> i == if start < n then start else n
    ensures start < 0 ==> i == if n + start > 0 then n + start else 0
  {
    if start >= 0 then (if start < n then start else n)
    else if n + start > 0 then n + start else 0
  }

  function RenderExchange(e: Exchange): string {
    "User: " + e.0 + "\nAssistant: " + e.1
  }

  function RenderExchanges(es: seq<Exchange>): (r: seq<string>)
    ensures |r| == |es|
    ensures forall k :: 0 <= k < |es| ==> r[k] == RenderExchange(es[k])
  {
    if |es| == 0 then [] else [RenderExchange(es[0])] + RenderExchanges(es[1..])
  }

  /**
    `format_conversation_history(history, max_exchanges)`. With a positive
    `maxExchanges` only the last `maxExchanges` pairs are rendered; because the
    source slices `history[-max_exchanges:]`, a limit of 0 renders the whole list
    and a negative limit drops that many pairs from the front instead.
   */
  function FormatConversationHistory(history: seq<Exchange>, maxExchanges: int): (r: string)
    ensures |history| == 0 ==> r == "No previous conversation."
    ensures |history| > 0 && maxExchanges > 0 ==>
      var kept := if maxExchanges < |history| then maxExchanges else |history|;
      r == Join(RenderExchanges(history[|history| - kept..]), "\n\n")
    ensures |history| > 0 && maxExchanges == 0 ==> r == Join(RenderExchanges(history), "\n\n")
    ensures |history| > 0 && maxExchanges < 0 ==>
      var dropped := if -maxExchanges < |history| then -maxExchanges else |history|;
      r == Join(RenderExchanges(history[dropped..]), "\n\n")
  {
    if |history| == 0 then "No previous conversation."
    else Join(RenderExchanges(history[PySliceStart(-maxExchanges, |history|)..]), "\n\n")
  }

  /** One numbered entry of the stored-history display. */
  function DisplayEntry(i: nat, row: ConversationStore.HistoryRow): string {
    NatToString(i) + ". [" + row.timestamp + "]\n"
    + "   Q: " + row.question + "\n"
    + "   A: " + row.answer + "\n\n"
  }

  /** Entries for `rows` (already chronological), numbered from `first`. */
  function NumberedEntries(rows: seq<ConversationStore.HistoryRow>, first: nat): (r: seq<string>)
    ensures |r| == |rows|
    ensures forall k :: 0 <= k < |rows| ==> r[k] == DisplayEntry(first + k, rows[k])
  {
    if |rows| == 0 then [] else [DisplayEntry(first, rows[0])] + NumberedEntries(rows[1..], first + 1)
  }

  function Reverse<T>(xs: seq<T>): (r: seq<T>)
    ensures |r| == |xs|
    ensures forall k :: 0 <= k < |xs| ==> r[k] == xs[|xs| - 1 - k]
  {
    if |xs| == 0 then [] else Reverse(xs[1..]) + [xs[0]]
  }

  /**
    The entries of `format_db_history_for_display`: the newest-first input is
    reversed, so entry number `i` shows the `i`-th oldest row.
   */
  function DisplayEntries(history: seq<ConversationStore.HistoryRow>): (r: seq<string>)
    ensures |r| == |history|
    ensures forall k :: 0 <= k < |history| ==> r[k] == DisplayEntry(k + 1, history[|history| - 1 - k])
  {
    NumberedEntries(Reverse(history), 1)
  }

  /** `format_db_history_for_display(history, user_id)`. */
  function FormatDbHistoryForDisplay(history: seq<ConversationStore.HistoryRow>, userId: string): (r: string)
    ensures |history| == 0 ==> r == "No conversation history found for user " + userId
    ensures |history| > 0 ==>
      r == "Previous conversations for user " + userId + ":\n\n" + Concat(DisplayEntries(history))
  {
    if |history| == 0 then "No conversation history found for user " + userId
    else "Previous conversations for user " + userId + ":\n\n" + Concat(DisplayEntries(history))
  }

  /**
    A row newer than all the displayed ones is shown last, under the next number;
    the entries already shown keep their numbers.
   */
  lemma DisplayNewestLast(history: seq<ConversationStore.HistoryRow>, newer: ConversationStore.HistoryRow, userId: string)
    ensures FormatDbHistoryForDisplay([newer] + history, userId)
         == "Previous conversations for user " + userId + ":\n\n"
            + Concat(DisplayEntries(history)) + DisplayEntry(|history| + 1, newer)
  {
    DisplayEntriesCons(history, newer);
    ConcatSnoc(DisplayEntries(history), DisplayEntry(|history| + 1, newer));
  }

  /** The entries of a history with a newer head row: the old entries, then the new row under the next number. */
  lemma DisplayEntriesCons(history: seq<ConversationStore.HistoryRow>, newer: ConversationStore.HistoryRow)
    ensures DisplayEntries([newer] + history) == DisplayEntries(history) + [DisplayEntry(|history| + 1, newer)]
  {
    var h := [newer] + history;
    var l := DisplayEntries(h);
    var r := DisplayEntries(history) + [DisplayEntry(|history| + 1, newer)];
    forall k | 0 <= k < |l| ensures l[k] == r[k] {
      if k < |history| {
        assert h[|h| - 1 - k] == history[|history| - 1 - k];
      } else {
        assert h[|h| - 1 - k] == newer;
      }
    }
  }

  /** A retrieved document: its text and, when the object has one, its metadata mapping. */
  datatype Document = Document(content: string, metadata: Option<map<string, string>>)

  /** Python truthiness of `metadata.get(key)` for string values: present and non-empty. */
  predicate Truthy(md: map<string, string>, key: string) {
    key in md && md[key] != ""
  }

  const TitleLabel: string := "T\U{00C3}\U{00AD}tol: "
  const TypeLabel: string := "Tipus: "
  const DateLabel: string := "Data: "

  /** The `source_info` list: labelled title, type and date, in that order, each only if truthy. */
  function SourceInfo(md: map<string, string>): (r: seq<string>)
    ensures |r| == (if Truthy(md, "title") then 1 else 0) + (if Truthy(md, "type") then 1 else 0)
                   + (if Truthy(md, "date") then 1 else 0)
    ensures Truthy(md, "title") ==> r[0] == TitleLabel + md["title"]
    ensures Truthy(md, "type") ==> r[if Truthy(md, "title") then 1 else 0] == TypeLabel + md["type"]
    ensures Truthy(md, "date") ==> r[|r| - 1] == DateLabel + md["date"]
  {
    (if Truthy(md, "title") then [TitleLabel + md["title"]] else [])
    + (if Truthy(md, "type") then [TypeLabel + md["type"]] else [])
    + (if Truthy(md, "date") then [DateLabel + md["date"]] else [])
  }

  /** The source header line: the truthy fields joined by " | ", or "Font IOC" when there are none. */
  function SourceHeader(md: map<string, string>): (r: string)
    ensures !Truthy(md, "title") && !Truthy(md, "type") && !Truthy(md, "date") ==> r == "Font IOC"
    ensures Truthy(md, "title") && Truthy(md, "type") && Truthy(md, "date") ==>
      r == TitleLabel + md["title"] + " | " + TypeLabel + md["type"] + " | " + DateLabel + md["date"]
  {
    var info := SourceInfo(md);
    if |info| > 0 then
      assert |info| == 3 ==>
        var rest := info[1..];
        rest[1..] == [info[2]] && Join(rest, " | ") == info[1] + " | " + info[2];
      Join(info, " | ")
    else "Font IOC"
  }

  function Heading(i: nat): string {
    "=== Document " + NatToString(i) + " ===\n"
  }

  /** One document's block under heading number `n`: its source header first when metadata is included and present. */
  function Block(d: Document, includeMetadata: bool, n: nat): string {
    if includeMetadata && d.metadata.Some?
    then Heading(n) + SourceHeader(d.metadata.value) + "\n" + "\n" + d.content + "\n"
    else Heading(n) + d.content + "\n"
  }

  /** The blocks of `format_document_context`, numbered from `first`. */
  function Blocks(docs: seq<Document>, includeMetadata: bool, first: nat): (r: seq<string>)
    ensures |r| == |docs|
    ensures forall k :: 0 <= k < |docs| ==> r[k] == Block(docs[k], includeMetadata, first + k)
  {
    if |docs| == 0 then []
    else
      var rest := Blocks(docs[1..], includeMetadata, first + 1);
      assert forall k :: 0 < k < |docs| ==> rest[k - 1] == Block(docs[k], includeMetadata, first + k);
      [Block(docs[0], includeMetadata, first)] + rest
  }

  /** `format_document_context(retrieved_docs, include_metadata)`: blocks numbered 1..n joined by "\n". */
  function FormatDocumentContext(docs: seq<Document>, includeMetadata: bool): (r: string)
    ensures |docs| == 0 ==> r == ""
    ensures |docs| == 1 && !includeMetadata ==> r == "=== Document 1 ===\n" + docs[0].content + "\n"
  {
    Join(Blocks(docs, includeMetadata, 1), "\n")
  }

  /**
    Order preservation: formatting one more document appends its block, numbered
    `|docs| + 1`, after the blocks of the earlier documents.
   */
  lemma FormatAppendsInOrder(docs: seq<Document>, d: Document, includeMetadata: bool)
    requires |docs| > 0
    ensures FormatDocumentContext(docs + [d], includeMetadata)
         == FormatDocumentContext(docs, includeMetadata) + "\n" + Blocks([d], includeMetadata, |docs| + 1)[0]
  {
    var all := Blocks(docs + [d], includeMetadata, 1);
    var init := Blocks(docs, includeMetadata, 1);
    var last := Blocks([d], includeMetadata, |docs| + 1)[0];
    assert all == init + [last];
    JoinSnoc(init, last, "\n");
  }
}
