/** eval.py: annotating search results with human relevance judgements and
    scoring them by the sum of the judgements. Reading the query and judgement
    files and running the queries are I/O and not modelled; `AnnotateResults`
    takes the dict `run_queries` returns. */
module Eval {
  import opened Base
  import opened Dicts

  /** One judgement (or one annotated result). */
  datatype EvalEntry = EvalEntry(queryId: int, resultDocId: string, evalValue: int)

  /** `entry` judges result `docId` of query `queryId`. */
  predicate Judges(entry: EvalEntry, queryId: int, docId: string)
  {
    entry.queryId == queryId && entry.resultDocId == docId
  }

  /** `annotate_single_result`: the first judgement of this result, or a
      judgement of 0 (not relevant) when there is none. */
  function AnnotateSingleResult(queryId: int, docId: string, refs: seq<EvalEntry>): (r: EvalEntry)
    ensures Judges(r, queryId, docId)
    decreases |refs|
  {
    if refs == [] then EvalEntry(queryId, docId, 0)
    else if Judges(refs[0], queryId, docId) then refs[0]
    else AnnotateSingleResult(queryId, docId, refs[1..])
  }

  /** When the first judgement of a result sits at `k`, that judgement is the
      annotation. */
  lemma {:induction false} AnnotateFindsFirstJudgement(queryId: int, docId: string, refs: seq<EvalEntry>, k: int)
    requires 0 <= k < |refs| && Judges(refs[k], queryId, docId)
    requires forall j :: 0 <= j < k ==> !Judges(refs[j], queryId, docId)
    ensures AnnotateSingleResult(queryId, docId, refs) == refs[k]
    decreases |refs|
  {
    if k > 0 {
      assert !Judges(refs[0], queryId, docId);
      assert refs[1..][k - 1] == refs[k];
      forall j | 0 <= j < k - 1 ensures !Judges(refs[1..][j], queryId, docId) {
        assert refs[1..][j] == refs[j + 1];
      }
      AnnotateFindsFirstJudgement(queryId, docId, refs[1..], k - 1);
    }
  }

  /** A result nobody judged is annotated as not relevant. */
  lemma {:induction false} AnnotateUnjudged(queryId: int, docId: string, refs: seq<EvalEntry>)
    requires forall j :: 0 <= j < |refs| ==> !Judges(refs[j], queryId, docId)
    ensures AnnotateSingleResult(queryId, docId, refs) == EvalEntry(queryId, docId, 0)
    decreases |refs|
  {
    if refs != [] {
      assert !Judges(refs[0], queryId, docId);
      forall j | 0 <= j < |refs| - 1 ensures !Judges(refs[1..][j], queryId, docId) {
        assert refs[1..][j] == refs[j + 1];
      }
      AnnotateUnjudged(queryId, docId, refs[1..]);
    }
  }

  /** The inner loop of `annotate_results`: one annotation per result of one query. */
  function AnnotateQuery(queryId: int, docIds: seq<string>, refs: seq<EvalEntry>): (r: seq<EvalEntry>)
    ensures |r| == |docIds|
    ensures forall i :: 0 <= i < |r| ==> Judges(r[i], queryId, docIds[i])
  {
    seq(|docIds|, i requires 0 <= i < |docIds| => AnnotateSingleResult(queryId, docIds[i], refs))
  }

  /** How many result ids `items` holds in all. */
  function ResultCount(items: seq<(int, seq<string>)>): nat
  {
    if items == [] then 0 else ResultCount(items[..|items| - 1]) + |items[|items| - 1].1|
  }

  /** The outer loop of `annotate_results`, over the dict's items in order. */
  function AnnotateItems(items: seq<(int, seq<string>)>, refs: seq<EvalEntry>): (r: seq<EvalEntry>)
    ensures |r| == ResultCount(items)
    decreases |items|
  {
    if items == [] then []
    else
      var last := items[|items| - 1];
      AnnotateItems(items[..|items| - 1], refs) + AnnotateQuery(last.0, last.1, refs)
  }

  /** `annotate_results`. */
  function AnnotateResults(results: Dict<int, seq<string>>, refs: seq<EvalEntry>): (r: seq<EvalEntry>)
    requires results.Valid()
    ensures |r| == ResultCount(results.Items())
  {
    AnnotateItems(results.Items(), refs)
  }

  lemma {:induction false} ResultCountPrefix(items: seq<(int, seq<string>)>, k: int)
    requires 0 <= k < |items|
    ensures ResultCount(items[..k]) + |items[k].1| <= ResultCount(items)
    decreases |items|
  {
    var front := items[..|items| - 1];
    if k == |items| - 1 {
      assert items[..k] == front;
    } else {
      assert front[..k] == items[..k];
      assert front[k] == items[k];
      ResultCountPrefix(front, k);
    }
  }

  /** The annotations come query by query, in the dict's order, and within a
      query in result order: result `i` of item `k` sits after all results of
      the items before it. */
  lemma {:induction false} AnnotateItemsOrder(items: seq<(int, seq<string>)>, refs: seq<EvalEntry>, k: int, i: int)
    requires 0 <= k < |items| && 0 <= i < |items[k].1|
    ensures ResultCount(items[..k]) + i < |AnnotateItems(items, refs)|
    ensures AnnotateItems(items, refs)[ResultCount(items[..k]) + i] ==
              AnnotateSingleResult(items[k].0, items[k].1[i], refs)
    decreases |items|
  {
    ResultCountPrefix(items, k);
    var front := items[..|items| - 1];
    var last := items[|items| - 1];
    var r := AnnotateItems(items, refs);
    assert r == AnnotateItems(front, refs) + AnnotateQuery(last.0, last.1, refs);
    if k == |items| - 1 {
      assert items[..k] == front;
    } else {
      assert front[..k] == items[..k];
      assert front[k] == items[k];
      AnnotateItemsOrder(front, refs, k, i);
    }
  }

  /** `[e.eval_value for e in annotated_results]`. */
  function EvalValues(entries: seq<EvalEntry>): (r: seq<int>)
    ensures |r| == |entries|
  {
    seq(|entries|, i requires 0 <= i < |entries| => entries[i].evalValue)
  }

  /**
   * `score_by_sum_of_eval_values`: 0 for no entries, an entry's own value for one;
   * with `ScoreAppend` this fixes the score of every list.
   */
  function ScoreBySum(entries: seq<EvalEntry>): (r: int)
    ensures entries == [] ==> r == 0
    ensures |entries| == 1 ==> r == entries[0].evalValue
  {
    assert |entries| == 1 ==> EvalValues(entries) == [entries[0].evalValue] by {
      if |entries| == 1 {
        assert EvalValues(entries)[0] == entries[0].evalValue;
      }
    }
    assert |entries| == 1 ==> IntSum([entries[0].evalValue]) == entries[0].evalValue by {
      if |entries| == 1 {
        assert [entries[0].evalValue][..0] == [];
      }
    }
    IntSum(EvalValues(entries))
  }

  /** The score adds up over concatenated result lists. */
  lemma ScoreAppend(a: seq<EvalEntry>, b: seq<EvalEntry>)
    ensures ScoreBySum(a + b) == ScoreBySum(a) + ScoreBySum(b)
  {
    assert EvalValues(a + b) == EvalValues(a) + EvalValues(b);
    IntSumAppend(EvalValues(a), EvalValues(b));
  }

  /** The score of all annotations is the sum of the scores of each query's. */
  lemma {:induction false} ScoreOfAnnotatedItems(items: seq<(int, seq<string>)>, refs: seq<EvalEntry>)
    ensures items != [] ==>
              ScoreBySum(AnnotateItems(items, refs)) ==
                ScoreBySum(AnnotateItems(items[..|items| - 1], refs)) +
                ScoreBySum(AnnotateQuery(items[|items| - 1].0, items[|items| - 1].1, refs))
  {
    if items != [] {
      var last := items[|items| - 1];
      ScoreAppend(AnnotateItems(items[..|items| - 1], refs), AnnotateQuery(last.0, last.1, refs));
    }
  }

  lemma {:induction false} IntSumOfZeros(xs: seq<int>)
    requires forall i :: 0 <= i < |xs| ==> xs[i] == 0
    ensures IntSum(xs) == 0
    decreases |xs|
  {
    if xs != [] {
      IntSumOfZeros(xs[..|xs| - 1]);
    }
  }

  /** A query with no judgements scores 0, whatever it returned. */
  lemma UnjudgedQueryScoresZero(queryId: int, docIds: seq<string>, refs: seq<EvalEntry>)
    requires forall j :: 0 <= j < |refs| ==> refs[j].queryId != queryId
    ensures ScoreBySum(AnnotateQuery(queryId, docIds, refs)) == 0
  {
    var r := AnnotateQuery(queryId, docIds, refs);
    forall i | 0 <= i < |r| ensures EvalValues(r)[i] == 0 {
      AnnotateUnjudged(queryId, docIds[i], refs);
    }
    IntSumOfZeros(EvalValues(r));
  }
}
