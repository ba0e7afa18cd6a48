/**
  The reranking retrieval step defined in `_create_retrieval_tool` (python/rag_agent.py):
  over-fetch `2k` candidates from the vector store, score each one with the
  reranker, drop the candidates whose scoring raises, sort by score descending
  (stably, as Python's `sorted(..., reverse=True)`) and keep the first `k`.

  The scorer and the vector search are parameters. A score is an `int`, standing
  for the totally ordered relevance value; `None` from the scorer stands for a
  call that raised. In the source this closure is immediately replaced by a plain
  retriever tool, so the agent never calls it.
 */
module Rerank {
  import opened Common
  import opened Formatters

  /** A candidate together with the relevance score the reranker gave it. */
  datatype Scored = Scored(score: int, doc: Document)

  /** What the reranker is asked to score: the query, a separator, and at most 512 characters of the document. */
  function RerankInput(query: string, doc: Document): (t: string)
    ensures |doc.content| <= 512 ==> t == query + " [SEP] " + doc.content
    ensures |t| == |query| + 7 + (if |doc.content| < 512 then |doc.content| else 512)
  {
    query + " [SEP] " + doc.content[..if |doc.content| < 512 then |doc.content| else 512]
  }

  /** The functional reference for the scoring loop: the successfully scored candidates, in candidate order. */
  function ScoredPrefix(query: string, docs: seq<Document>, score: string -> Option<int>): seq<Scored>
    decreases |docs|
  {
    if |docs| == 0 then []
    else
      var init := ScoredPrefix(query, docs[..|docs| - 1], score);
      match score(RerankInput(query, docs[|docs| - 1]))
      case None => init
      case Some(v) => init + [Scored(v, docs[|docs| - 1])]
  }

  /** The scoring loop: every candidate is tried; one whose scorer call fails is skipped. */
  method ScoreCandidates(query: string, docs: seq<Document>, score: string -> Option<int>) returns (scored: seq<Scored>)
    ensures scored == ScoredPrefix(query, docs, score)
    ensures |scored| <= |docs|
    ensures forall j :: 0 <= j < |scored| ==> scored[j].doc in docs
    ensures forall j :: 0 <= j < |scored| ==> score(RerankInput(query, scored[j].doc)) == Some(scored[j].score)
  {
    scored := [];
    var i := 0;
    while i < |docs|
      invariant 0 <= i <= |docs|
      invariant scored == ScoredPrefix(query, docs[..i], score)
      invariant |scored| <= i
      invariant forall j :: 0 <= j < |scored| ==> scored[j].doc in docs[..i]
      invariant forall j :: 0 <= j < |scored| ==> score(RerankInput(query, scored[j].doc)) == Some(scored[j].score)
    {
      assert docs[..i + 1][..i] == docs[..i];
      var r := score(RerankInput(query, docs[i]));
      if r.Some? {
        scored := scored + [Scored(r.value, docs[i])];
      }
      i := i + 1;
    }
    assert docs[..i] == docs;
  }

  /** No candidate is ever lost except by failing to score: each one scored `Some(v)` appears with `v`. */
  lemma {:induction false} ScoredPrefixKeepsScored(query: string, docs: seq<Document>, score: string -> Option<int>, i: nat)
    requires i < |docs| && score(RerankInput(query, docs[i])).Some?
    ensures Scored(score(RerankInput(query, docs[i])).value, docs[i]) in ScoredPrefix(query, docs, score)
    decreases |docs|
  {
    if i < |docs| - 1 {
      var init := docs[..|docs| - 1];
      assert init[i] == docs[i];
      ScoredPrefixKeepsScored(query, init, score, i);
    }
  }

  /** Scores never increase from left to right. */
  predicate NonIncreasing(s: seq<Scored>) {
    forall i, j :: 0 <= i < j < |s| ==> s[i].score >= s[j].score
  }

  /** The elements of `s` with score `v`, in their order in `s`. */
  function WithScore(s: seq<Scored>, v: int): (r: seq<Scored>)
    decreases |s|
  {
    if |s| == 0 then []
    else WithScore(s[..|s| - 1], v) + (if s[|s| - 1].score == v then [s[|s| - 1]] else [])
  }

  /** Insert `x` after every element whose score is at least `x`'s: the step of a stable descending sort. */
  function InsertDesc(sorted: seq<Scored>, x: Scored): seq<Scored>
    decreases |sorted|
  {
    if |sorted| == 0 then [x]
    else if sorted[|sorted| - 1].score >= x.score then sorted + [x]
    else InsertDesc(sorted[..|sorted| - 1], x) + [sorted[|sorted| - 1]]
  }

  /** Python's `sorted(scored, key=score, reverse=True)`: stable, descending. */
  function SortDesc(s: seq<Scored>): seq<Scored>
    decreases |s|
  {
    if |s| == 0 then [] else InsertDesc(SortDesc(s[..|s| - 1]), s[|s| - 1])
  }

  /** Insertion adds exactly `x`: the result is a permutation of `sorted + [x]`. */
  lemma {:induction false} InsertDescPerm(sorted: seq<Scored>, x: Scored)
    ensures multiset(InsertDesc(sorted, x)) == multiset(sorted) + multiset{x}
    decreases |sorted|
  {
    if |sorted| > 0 && sorted[|sorted| - 1].score < x.score {
      var init := sorted[..|sorted| - 1];
      assert sorted == init + [sorted[|sorted| - 1]];
      InsertDescPerm(init, x);
    }
  }

  /** Insertion into a non-increasing sequence keeps it non-increasing. */
  lemma {:induction false} InsertDescSorted(sorted: seq<Scored>, x: Scored)
    requires NonIncreasing(sorted)
    ensures NonIncreasing(InsertDesc(sorted, x))
    decreases |sorted|
  {
    if |sorted| > 0 && sorted[|sorted| - 1].score < x.score {
      var init := sorted[..|sorted| - 1];
      var last := sorted[|sorted| - 1];
      InsertDescSorted(init, x);
      InsertDescPerm(init, x);
      var ins := InsertDesc(init, x);
      var r := ins + [last];
      forall i | 0 <= i < |ins| ensures ins[i].score >= last.score {
        assert ins[i] in multiset(ins);
        if ins[i] != x {
          assert ins[i] in multiset(init);
          var a :| 0 <= a < |init| && init[a] == ins[i];
          assert sorted[a] == init[a];
        }
      }
      assert forall i, j :: 0 <= i < j < |r| ==> r[i].score >= r[j].score by {
        forall i, j | 0 <= i < j < |r| ensures r[i].score >= r[j].score {
          if j < |ins| {
            assert r[i] == ins[i] && r[j] == ins[j];
          }
        }
      }
    }
  }

  /** Insertion is stable: among equal scores, `x` lands after the elements already there. */
  lemma {:induction false} InsertDescStable(sorted: seq<Scored>, x: Scored, v: int)
    ensures WithScore(InsertDesc(sorted, x), v) == WithScore(sorted, v) + (if x.score == v then [x] else [])
    decreases |sorted|
  {
    if |sorted| == 0 {
      assert [x][..0] == [];
    } else if sorted[|sorted| - 1].score >= x.score {
      var r := sorted + [x];
      assert r[..|r| - 1] == sorted;
    } else {
      var init := sorted[..|sorted| - 1];
      var last := sorted[|sorted| - 1];
      InsertDescStable(init, x, v);
      var r := InsertDesc(init, x) + [last];
      assert r[..|r| - 1] == InsertDesc(init, x);
    }
  }

  lemma {:induction false} SortDescCorrect(s: seq<Scored>)
    ensures multiset(SortDesc(s)) == multiset(s)
    ensures NonIncreasing(SortDesc(s))
    ensures forall v :: WithScore(SortDesc(s), v) == WithScore(s, v)
    decreases |s|
  {
    if |s| > 0 {
      var init := s[..|s| - 1];
      assert s == init + [s[|s| - 1]];
      SortDescCorrect(init);
      InsertDescPerm(SortDesc(init), s[|s| - 1]);
      InsertDescSorted(SortDesc(init), s[|s| - 1]);
      forall v ensures WithScore(SortDesc(s), v) == WithScore(s, v) {
        InsertDescStable(SortDesc(init), s[|s| - 1], v);
      }
    }
  }

  /** The candidates `vector_store.similarity_search(query, k=k * 2)` returned, with the `k` it was asked for. */
  datatype SearchCall = SearchCall(query: string, k: nat)

  /** The outcome of one call of the retrieval tool: the formatted context and the chosen documents. */
  datatype Retrieved = Retrieved(search: SearchCall, serialized: string, reranked: seq<Document>)

  function Docs(s: seq<Scored>): (r: seq<Document>)
    ensures |r| == |s|
    ensures forall j :: 0 <= j < |s| ==> r[j] == s[j].doc
  {
    if |s| == 0 then [] else [s[0].doc] + Docs(s[1..])
  }

  /**
    `retrieve_context(query)` for a tool built with `k_results == k`. The search is
    asked for `2 * k` candidates; `candidates` is its reply.
   */
  method RetrieveContext(query: string, k: nat, candidates: seq<Document>, score: string -> Option<int>)
    returns (out: Retrieved)
    ensures out.search == SearchCall(query, 2 * k)
    ensures |out.reranked| <= k
    ensures forall j :: 0 <= j < |out.reranked| ==> out.reranked[j] in candidates
    ensures out.serialized == FormatDocumentContext(out.reranked, true)
    ensures var ranked := SortDesc(ScoredPrefix(query, candidates, score));
      out.reranked == Docs(ranked[..if k < |ranked| then k else |ranked|])
  {
    var scored := ScoreCandidates(query, candidates, score);
    SortDescCorrect(scored);
    var ranked := SortDesc(scored);
    var n := if k < |ranked| then k else |ranked|;
    var reranked := Docs(ranked[..n]);
    forall j | 0 <= j < n ensures reranked[j] in candidates {
      assert ranked[j] in multiset(scored);
      var a :| 0 <= a < |scored| && scored[a] == ranked[j];
    }
    out := Retrieved(SearchCall(query, 2 * k), FormatDocumentContext(reranked, true), reranked);
  }

  /** The kept documents are ordered by non-increasing score, and equal scores keep candidate order. */
  lemma RerankOrder(query: string, k: nat, candidates: seq<Document>, score: string -> Option<int>)
    ensures var scored := ScoredPrefix(query, candidates, score);
      var ranked := SortDesc(scored);
      NonIncreasing(ranked) && multiset(ranked) == multiset(scored)
      && forall v :: WithScore(ranked, v) == WithScore(scored, v)
  {
    SortDescCorrect(ScoredPrefix(query, candidates, score));
  }
}
