/** Term statistics of index.py: `term_frequency` and the per-document term
    frequencies that both inverted indexes compute in `add_document`, from
    `Counter(doc.tokens)` in that counter's key order.

    `inverse_document_frequency` is `math.log(number_of_documents /
    term_document_count)`; floating-point logarithms are outside the model, so
    the indexes take the idf as a function parameter of this type, called with
    the same two arguments in the same order. */
module Frequencies {
  import opened Base
  import opened Dicts
  import opened Counters

  /** `inverse_document_frequency(term_document_count, number_of_documents)`. */
  type Idf = (int, int) -> real

  /** `term_frequency`: the share of the document's tokens that are this term. */
  function TermFrequency(termCount: int, documentLength: int): (r: real)
    requires documentLength > 0
    ensures termCount >= 0 ==> 0.0 <= r
    ensures termCount <= documentLength ==> r <= 1.0
    ensures termCount > 0 ==> r > 0.0
  {
    termCount as real / documentLength as real
  }

  /** `(term, term_frequency(count, len(doc.tokens)))` for each `(term, count)`
      of `Counter(doc.tokens).items()`: one entry per distinct token, in order of
      first occurrence. */
  function TermFrequencies(tokens: seq<string>): (r: seq<(string, real)>)
    ensures |r| == |Distinct(tokens)|
    ensures forall i :: 0 <= i < |r| ==> r[i].0 == Distinct(tokens)[i]
  {
    var counts := Tally(Empty(), tokens);
    TallyKeys(tokens);
    seq(|counts.keys|, i requires 0 <= i < |counts.keys| =>
      (counts.keys[i], TermFrequency(counts.m[counts.keys[i]], |tokens|)))
  }

  /** Each entry is the term's share of the tokens, so it lies in (0, 1]. */
  lemma TermFrequencyIsShare(tokens: seq<string>, i: int)
    requires 0 <= i < |TermFrequencies(tokens)|
    ensures |tokens| > 0
    ensures TermFrequencies(tokens)[i].1 == TermFrequency(Count(tokens, TermFrequencies(tokens)[i].0), |tokens|)
    ensures 0.0 < TermFrequencies(tokens)[i].1 <= 1.0
  {
    var counts := Tally(Empty(), tokens);
    TallyKeys(tokens);
    TallyCounts(Empty(), tokens);
    var t := counts.keys[i];
    var c := counts.m[t];
    assert counts.GetOr(t, 0) == c;
    assert t in tokens;
    CountBounds(tokens, t);
    assert 0 < c <= |tokens|;
    assert TermFrequencies(tokens)[i] == (t, TermFrequency(c, |tokens|));
  }

  lemma CountBounds<T>(s: seq<T>, x: T)
    ensures Count(s, x) <= |s|
    ensures x in s ==> Count(s, x) > 0
  {
    assert |multiset(s)| == |s|;
    if x in s {
      assert x in multiset(s);
    }
  }

  /** Sum of reals, from the end. */
  function RealSum(xs: seq<real>): real
  {
    if xs == [] then 0.0 else RealSum(xs[..|xs| - 1]) + xs[|xs| - 1]
  }

  /** The frequencies alone, in order. */
  function Shares(tfs: seq<(string, real)>): (r: seq<real>)
    ensures |r| == |tfs|
    ensures forall i :: 0 <= i < |r| ==> r[i] == tfs[i].1
  {
    seq(|tfs|, i requires 0 <= i < |tfs| => tfs[i].1)
  }

  /** The share of a sum is the sum of the shares. */
  lemma ShareOfSum(a: int, b: int, n: int)
    requires n > 0
    ensures TermFrequency(a + b, n) == TermFrequency(a, n) + TermFrequency(b, n)
  {
    var whole := n as real;
    assert (a + b) as real / whole == a as real / whole + b as real / whole by {
      assert (a + b) as real == a as real + b as real;
    }
  }

  /** Summing the shares of some counts gives the share of their sum. */
  lemma {:induction false} SumOfShares(counts: seq<int>, shares: seq<real>, n: int)
    requires n > 0 && |shares| == |counts|
    requires forall i :: 0 <= i < |shares| ==> shares[i] == TermFrequency(counts[i], n)
    ensures RealSum(shares) == TermFrequency(IntSum(counts), n)
    decreases |counts|
  {
    if counts == [] {
      assert TermFrequency(0, n) == 0.0;
    } else {
      var k := |counts| - 1;
      SumOfShares(counts[..k], shares[..k], n);
      ShareOfSum(IntSum(counts[..k]), counts[k], n);
    }
  }

  /** The term frequencies of a document with tokens add up to one. */
  lemma TermFrequenciesSumToOne(tokens: seq<string>)
    requires tokens != []
    ensures RealSum(Shares(TermFrequencies(tokens))) == 1.0
  {
    var n := |tokens|;
    var counts := Tally(Empty(), tokens);
    TallyKeys(tokens);
    TallyCounts(Empty(), tokens);
    TallyTotal(Empty(), tokens);
    assert Total(Empty<string, nat>()) == 0;
    var values := counts.Values();
    var ints := seq(|values|, i requires 0 <= i < |values| => values[i] as int);
    assert ints == values;
    var shares := Shares(TermFrequencies(tokens));
    forall i | 0 <= i < |shares| ensures shares[i] == TermFrequency(ints[i], n) {
      assert shares[i] == TermFrequency(counts.m[counts.keys[i]], n);
    }
    SumOfShares(ints, shares, n);
    assert IntSum(ints) == n;
    WholeShare(n);
  }

  lemma WholeShare(n: int)
    requires n > 0
    ensures TermFrequency(n, n) == 1.0
  {
    assert TermFrequency(n, n) * n as real == n as real;
  }

  /** The frequency paired with `t`, if any (the last one). */
  function FindTf(tfs: seq<(string, real)>, t: string): (r: Option<real>)
    ensures r.Some? <==> t in Firsts(tfs)
  {
    if tfs == [] then None
    else if tfs[|tfs| - 1].0 == t then Some(tfs[|tfs| - 1].1)
    else
      assert Firsts(tfs) == Firsts(tfs[..|tfs| - 1]) + [tfs[|tfs| - 1].0];
      FindTf(tfs[..|tfs| - 1], t)
  }

  lemma {:induction false} FindTfAt(tfs: seq<(string, real)>, i: int)
    requires NoDuplicates(Firsts(tfs))
    requires 0 <= i < |tfs|
    ensures FindTf(tfs, tfs[i].0) == Some(tfs[i].1)
    decreases |tfs|
  {
    var n := |tfs| - 1;
    if i < n {
      assert Firsts(tfs)[i] != Firsts(tfs)[n];
      assert Firsts(tfs[..n]) == Firsts(tfs)[..n];
      FindTfAt(tfs[..n], i);
    }
  }

  /** A document's term frequencies name each of its terms once, with its share. */
  lemma FindTermFrequency(tokens: seq<string>, t: string)
    ensures NoDuplicates(Firsts(TermFrequencies(tokens)))
    ensures t in Firsts(TermFrequencies(tokens)) <==> t in tokens
    ensures t in tokens ==> |tokens| > 0
    ensures t in tokens ==> FindTf(TermFrequencies(tokens), t) == Some(TermFrequency(Count(tokens, t), |tokens|))
  {
    var tfs := TermFrequencies(tokens);
    assert Firsts(tfs) == Distinct(tokens);
    if t in tokens {
      var i :| 0 <= i < |tfs| && tfs[i].0 == t;
      FindTfAt(tfs, i);
      TermFrequencyIsShare(tokens, i);
    }
  }
}
