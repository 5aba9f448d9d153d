/** `collections.Counter` as the model uses it, and the counting functions of
    counters.py: the three `count_characters` variants, `count_words`,
    `count_total_words` and `get_texts_from_data`.

    A counter is a `Dict` from element to count. `counters.tokenize` is the
    same four passes as `NaiveTokenizer.tokenize`, so the model uses the one
    definition `Tokenizer.Tokenize` for both. */
module Counters {
  import opened Base
  import opened Dicts
  import opened Sorting
  import opened Tokenizer

  type Counter<T> = Dict<T, nat>

  /** `c.update(xs)` for an iterable `xs`: each element adds one to its count;
      a new element becomes the last key. */
  function Tally<T(==,!new)>(c: Counter<T>, xs: seq<T>): (r: Counter<T>)
    requires c.Valid()
    ensures r.Valid()
    decreases |xs|
  {
    if xs == [] then c
    else
      var p := Tally(c, xs[..|xs| - 1]);
      p.Put(xs[|xs| - 1], p.GetOr(xs[|xs| - 1], 0) + 1)
  }

  /** After `update(xs)` the count of `k` has grown by its occurrences in
      `xs`, and `k` is a key exactly when it was one or occurs in `xs`. */
  lemma {:induction false} TallyCountOf<T(!new)>(c: Counter<T>, xs: seq<T>, k: T)
    requires c.Valid()
    ensures Tally(c, xs).GetOr(k, 0) == c.GetOr(k, 0) + Count(xs, k)
    ensures k in Tally(c, xs).m <==> k in c.m || k in xs
    decreases |xs|
  {
    if xs != [] {
      var front, x := xs[..|xs| - 1], xs[|xs| - 1];
      assert Tally(c, xs).GetOr(k, 0) == Tally(c, front).GetOr(k, 0) + (if k == x then 1 else 0) &&
             (k in Tally(c, xs).m <==> k in Tally(c, front).m || k == x) by {
        var p := Tally(c, front);
        assert Tally(c, xs) == p.Put(x, p.GetOr(x, 0) + 1);
        PutIncrementAt(p, x, k);
      }
      assert Count(xs, k) == Count(front, k) + (if k == x then 1 else 0) &&
             (k in xs <==> k in front || k == x) by {
        assert xs == front + [x];
      }
      TallyCountOf(c, front, k);
    }
  }

  /** `c[x] += 1` as seen from the count of `k`. */
  lemma PutIncrementAt<T>(p: Counter<T>, x: T, k: T)
    requires p.Valid()
    ensures p.Put(x, p.GetOr(x, 0) + 1).GetOr(k, 0) == p.GetOr(k, 0) + (if k == x then 1 else 0)
    ensures k in p.Put(x, p.GetOr(x, 0) + 1).m <==> k in p.m || k == x
  {
  }

  /** `TallyCountOf` for every element at once. */
  lemma TallyCounts<T(!new)>(c: Counter<T>, xs: seq<T>)
    requires c.Valid()
    ensures forall k :: Tally(c, xs).GetOr(k, 0) == c.GetOr(k, 0) + Count(xs, k)
    ensures forall k :: k in Tally(c, xs).m <==> k in c.m || k in xs
  {
    forall k ensures Tally(c, xs).GetOr(k, 0) == c.GetOr(k, 0) + Count(xs, k) && (k in Tally(c, xs).m <==> k in c.m || k in xs) {
      TallyCountOf(c, xs, k);
    }
  }

  /** Starting from an empty counter, the keys are the distinct elements in
      order of first occurrence. */
  lemma {:induction false} TallyKeys<T(!new)>(xs: seq<T>)
    ensures Tally(Empty(), xs).keys == Distinct(xs)
    decreases |xs|
  {
    if xs != [] {
      var n := |xs|;
      var x := xs[n - 1];
      var front := xs[..n - 1];
      var p := Tally(Empty(), front);
      assert p.keys == Distinct(front) by {
        TallyKeys(front);
      }
      assert Tally(Empty(), xs).keys == if x in p.keys then p.keys else p.keys + [x] by {
        assert Tally(Empty(), xs) == p.Put(x, p.GetOr(x, 0) + 1);
        IncrementKeys(p, x);
      }
    }
  }

  /** `c[x] += 1` as seen from the key order. */
  lemma IncrementKeys<T>(p: Counter<T>, x: T)
    requires p.Valid()
    ensures p.Put(x, p.GetOr(x, 0) + 1).keys == if x in p.keys then p.keys else p.keys + [x]
  {
    KeysCoverMap(p);
  }

  /** The sum of the counts. */
  function Total<T>(c: Counter<T>): int
    requires forall i :: 0 <= i < |c.keys| ==> c.keys[i] in c.m
  {
    IntSum(c.Values())
  }

  lemma PutExistingTotal<T>(p: Counter<T>, x: T, v: nat)
    requires p.Valid() && x in p.m
    ensures Total(p.Put(x, v)) == Total(p) - p.m[x] + v
  {
    KeysCoverMap(p);
    var idx :| 0 <= idx < |p.keys| && p.keys[idx] == x;
    assert p.Put(x, v).Values() == p.Values()[idx := v];
    IntSumUpdate(p.Values(), idx, v);
  }

  lemma PutNewTotal<T>(p: Counter<T>, x: T, v: nat)
    requires p.Valid() && x !in p.m
    ensures Total(p.Put(x, v)) == Total(p) + v
  {
    assert p.Put(x, v).Values() == p.Values() + [v];
    IntSumAppend(p.Values(), [v]);
    assert IntSum([v]) == IntSum([]) + v;
  }

  /** Tallying `xs` adds `|xs|` to the sum of the counts. */
  lemma {:induction false} TallyTotal<T(!new)>(c: Counter<T>, xs: seq<T>)
    requires c.Valid()
    ensures Total(Tally(c, xs)) == Total(c) + |xs|
    decreases |xs|
  {
    if xs != [] {
      var front, x := xs[..|xs| - 1], xs[|xs| - 1];
      assert Total(Tally(c, xs)) == Total(Tally(c, front)) + 1 by {
        var p := Tally(c, front);
        assert Tally(c, xs) == p.Put(x, p.GetOr(x, 0) + 1);
        PutIncrementTotal(p, x);
      }
      TallyTotal(c, front);
    }
  }

  /** Adding one to the count of `x` adds one to the sum of the counts. */
  lemma PutIncrementTotal<T>(p: Counter<T>, x: T)
    requires p.Valid()
    ensures Total(p.Put(x, p.GetOr(x, 0) + 1)) == Total(p) + 1
  {
    if x in p.m {
      PutExistingTotal(p, x, p.GetOr(x, 0) + 1);
    } else {
      PutNewTotal(p, x, p.GetOr(x, 0) + 1);
    }
  }

  /** `c.update(d)` for a mapping `d`, over the keys `ks` of `d` in order. */
  function MergeKeys<T(==,!new)>(c: Counter<T>, ks: seq<T>, m: map<T, nat>): (r: Counter<T>)
    requires c.Valid()
    requires NoDuplicates(ks)
    requires forall i :: 0 <= i < |ks| ==> ks[i] in m
    ensures r.Valid()
    ensures forall k :: r.GetOr(k, 0) == c.GetOr(k, 0) + (if k in ks then m[k] else 0)
    ensures forall k :: k in r.m <==> k in c.m || k in ks
    decreases |ks|
  {
    if ks == [] then c
    else
      var n := |ks|;
      var k := ks[n - 1];
      assert ks == ks[..n - 1] + [k];
      var p := MergeKeys(c, ks[..n - 1], m);
      p.Put(k, p.GetOr(k, 0) + m[k])
  }

  /** `c.update(d)` for a counter `d`: counts add up key by key. */
  function Merge<T(==,!new)>(c: Counter<T>, d: Counter<T>): (r: Counter<T>)
    requires c.Valid() && d.Valid()
    ensures r.Valid()
    ensures forall k :: r.GetOr(k, 0) == c.GetOr(k, 0) + d.GetOr(k, 0)
    ensures forall k :: k in r.m <==> k in c.m || k in d.m
  {
    KeysCoverMap(d);
    MergeKeys(c, d.keys, d.m)
  }

  /** `c.most_common(n)`: the items by non-increasing count, ties in key order,
      cut to the first `n`. CPython answers with `heapq.nlargest(n, ...)`, which
      is documented to equal `sorted(..., reverse=True)[:n]` and returns no
      items at all for `n <= 0`. */
  function MostCommon<T(==,!new)>(c: Counter<T>, n: int): (r: seq<(T, nat)>)
    requires c.Valid()
    ensures |r| == if n <= 0 then 0 else if n < |c.keys| then n else |c.keys|
    ensures forall i :: 0 <= i < |r| ==> r[i].0 in c.m && r[i].1 == c.m[r[i].0]
    ensures forall i, j :: 0 <= i < j < |r| ==> r[i].1 >= r[j].1
    ensures forall i, j :: 0 <= i < j < |r| ==> r[i].0 != r[j].0
  {
    var items := c.Items();
    var sorted := Sort(items, ByCount, true);
    SortKeepsElements(items, ByCount, true);
    assert NoDuplicates(items) by {
      forall i, j | 0 <= i < j < |items| ensures items[i] != items[j] {
        assert items[i].0 == c.keys[i] && items[j].0 == c.keys[j];
      }
    }
    SortNoDuplicates(items, ByCount, true);
    var r := Prefix(sorted, Kept(n));
    forall i | 0 <= i < |r| ensures r[i].0 in c.m && r[i].1 == c.m[r[i].0] && r[i] in items {
      assert r[i] == sorted[i];
      assert sorted[i] in items;
    }
    forall i, j | 0 <= i < j < |r| ensures r[i].1 >= r[j].1 && r[i].0 != r[j].0 {
      assert r[i] == sorted[i] && r[j] == sorted[j];
      assert Precedes(ByCount(sorted[i]), ByCount(sorted[j]), true);
      var a :| 0 <= a < |items| && items[a] == r[i];
      var b :| 0 <= b < |items| && items[b] == r[j];
      assert a != b;
    }
    r
  }

  /** How many items `heapq.nlargest(n, ...)` may return at most: none for a
      negative `n`. */
  function Kept(n: int): nat
  {
    if n < 0 then 0 else n
  }

  function ByCount<T>(p: (T, nat)): real
  {
    p.1 as real
  }

  /** Whatever `most_common(n)` leaves out has a count no larger than anything it keeps. */
  lemma MostCommonIsTop<T(!new)>(c: Counter<T>, n: int, i: int, k: T)
    requires c.Valid()
    requires 0 <= i < |MostCommon(c, n)|
    requires k in c.m
    requires forall j :: 0 <= j < |MostCommon(c, n)| ==> MostCommon(c, n)[j].0 != k
    ensures c.m[k] <= MostCommon(c, n)[i].1
  {
    var items := c.Items();
    var sorted := Sort(items, ByCount, true);
    var r := MostCommon(c, n);
    KeysCoverMap(c);
    var idx :| 0 <= idx < |c.keys| && c.keys[idx] == k;
    var y := items[idx];
    SortKeepsElements(items, ByCount, true);
    assert y in sorted;
    assert y !in r;
    assert r[i] in r;
    PrefixOfSorted(sorted, ByCount, true, Kept(n), r[i], y);
  }

  /** `most_common(n)` with `n` at least the number of keys keeps every key. */
  lemma MostCommonAll<T(!new)>(c: Counter<T>, n: int, k: T)
    requires c.Valid() && n >= |c.keys| && k in c.m
    ensures exists i :: 0 <= i < |MostCommon(c, n)| && MostCommon(c, n)[i] == (k, c.m[k])
  {
    var items := c.Items();
    var sorted := Sort(items, ByCount, true);
    KeysCoverMap(c);
    var idx :| 0 <= idx < |c.keys| && c.keys[idx] == k;
    SortKeepsElements(items, ByCount, true);
    assert items[idx] in sorted;
    var j :| 0 <= j < |sorted| && sorted[j] == items[idx];
    assert MostCommon(c, n) == sorted;
    assert MostCommon(c, n)[j] == (k, c.m[k]);
  }

  // ---------------------------------------------------------------------------
  // count_characters
  // ---------------------------------------------------------------------------

  /** `CounterBasedTextCounter.count_characters`: `Counter().update(text)`. */
  function CountCharacters(text: string): (r: Counter<char>)
    ensures r.Valid()
    ensures r.keys == Distinct(text)
    ensures forall c :: r.GetOr(c, 0) == Count(text, c)
    ensures forall c :: c in r.m <==> c in text
  {
    TallyCounts(Empty(), text);
    TallyKeys(text);
    Tally(Empty(), text)
  }

  /** The character counts add up to the length of the text. */
  lemma CharacterCountsSumToLength(text: string)
    ensures Total(CountCharacters(text)) == |text|
  {
    TallyTotal(Empty<char, nat>(), text);
    assert Empty<char, nat>().Values() == [];
  }

  /** One more character of the text, as the loops below take it. */
  lemma TallyPrefixStep<T(!new)>(xs: seq<T>, i: int)
    requires 0 <= i < |xs|
    ensures Tally(Empty(), xs[..i + 1]) ==
              Tally(Empty(), xs[..i]).Put(xs[i], Tally(Empty(), xs[..i]).GetOr(xs[i], 0) + 1)
  {
    var ys := xs[..i + 1];
    var p := Tally(Empty(), ys[..i]);
    assert Tally(Empty(), ys) == p.Put(ys[i], p.GetOr(ys[i], 0) + 1);
    assert ys[..i] == xs[..i] && ys[i] == xs[i];
  }

  /** `DictBasedTextCounter.count_characters`: test membership, then add one or insert one. */
  method DictCountCharacters(text: string) returns (counts: Counter<char>)
    ensures counts == CountCharacters(text)
  {
    counts := Empty();
    var i := 0;
    while i < |text|
      invariant 0 <= i <= |text|
      invariant counts == Tally(Empty(), text[..i])
    {
      var c := text[i];
      TallyPrefixStep(text, i);
      if c in counts.m {
        counts := counts.Put(c, counts.m[c] + 1);
      } else {
        counts := counts.Put(c, 1);
      }
      i := i + 1;
    }
    assert text[..i] == text;
  }

  /** `DefaultDictBasedTextCounter.count_characters`: a missing key reads as 0. */
  method DefaultDictCountCharacters(text: string) returns (counts: Counter<char>)
    ensures counts == CountCharacters(text)
  {
    counts := Empty();
    var i := 0;
    while i < |text|
      invariant 0 <= i <= |text|
      invariant counts == Tally(Empty(), text[..i])
    {
      TallyPrefixStep(text, i);
      counts := counts.Put(text[i], counts.GetOr(text[i], 0) + 1);
      i := i + 1;
    }
    assert text[..i] == text;
  }

  // ---------------------------------------------------------------------------
  // Words
  // ---------------------------------------------------------------------------

  /** `CounterBasedTextCounter.count_words`. */
  function CountWords(text: string): (r: Counter<string>)
    ensures r.Valid()
    ensures r.keys == Distinct(Tokenize(text))
    ensures forall t :: r.GetOr(t, 0) == Count(Tokenize(text), t)
    ensures forall t :: t in r.m <==> t in Tokenize(text)
  {
    TallyCounts(Empty(), Tokenize(text));
    TallyKeys(Tokenize(text));
    Tally(Empty(), Tokenize(text))
  }

  /** The word counts add up to the number of tokens. */
  lemma WordCountsSumToTokens(text: string)
    ensures Total(CountWords(text)) == |Tokenize(text)|
  {
    TallyTotal(Empty<string, nat>(), Tokenize(text));
    assert Empty<string, nat>().Values() == [];
  }

  /** The tokens of all texts, one text after another. */
  function AllTokens(texts: seq<string>): seq<string>
  {
    if texts == [] then [] else AllTokens(texts[..|texts| - 1]) + Tokenize(texts[|texts| - 1])
  }

  /** `count_total_words`: the word counts of every text, added up. */
  function CountTotalWords(texts: seq<string>): (r: Counter<string>)
    ensures r.Valid()
  {
    if texts == [] then Empty()
    else Merge(CountTotalWords(texts[..|texts| - 1]), CountWords(texts[|texts| - 1]))
  }

  /** The total counts every word as often as it occurs across all texts, and
      has a key for exactly the words that occur. */
  lemma {:induction false} TotalWordsCounts(texts: seq<string>, t: string)
    ensures CountTotalWords(texts).GetOr(t, 0) == Count(AllTokens(texts), t)
    ensures t in CountTotalWords(texts).m <==> t in AllTokens(texts)
    decreases |texts|
  {
    if texts != [] {
      var front, last := texts[..|texts| - 1], texts[|texts| - 1];
      assert AllTokens(texts) == AllTokens(front) + Tokenize(last);
      assert Count(AllTokens(texts), t) == Count(AllTokens(front), t) + Count(Tokenize(last), t);
      TotalWordsCounts(front, t);
    }
  }

  /** Adding a text adds its word counts to the total, word by word. */
  lemma TotalWordsIsPointwiseSum(texts: seq<string>, text: string, t: string)
    ensures CountTotalWords(texts + [text]).GetOr(t, 0)
            == CountTotalWords(texts).GetOr(t, 0) + CountWords(text).GetOr(t, 0)
  {
    assert (texts + [text])[..|texts|] == texts;
  }

  // ---------------------------------------------------------------------------
  // get_texts_from_data
  // ---------------------------------------------------------------------------

  /** A record of the wiki data set, reduced to the one field read here. */
  datatype WikiRecord = WikiRecord(initText: string)

  /** The comprehension `[d['init_text'] for d in data if d['init_text']]`
      written beside the loop in counters.py. */
  function NonEmptyTexts(data: seq<WikiRecord>): (r: seq<string>)
    ensures forall i :: 0 <= i < |r| ==> r[i] != []
    ensures |r| <= |data|
  {
    if data == [] then []
    else
      var rest := NonEmptyTexts(data[..|data| - 1]);
      var t := data[|data| - 1].initText;
      if t != [] then rest + [t] else rest
  }

  lemma {:induction false} NonEmptyTextsKeepsEveryText(data: seq<WikiRecord>, i: int)
    requires 0 <= i < |data| && data[i].initText != []
    ensures data[i].initText in NonEmptyTexts(data)
    decreases |data|
  {
    var n := |data|;
    if i < n - 1 {
      assert data[..n - 1][i] == data[i];
      NonEmptyTextsKeepsEveryText(data[..n - 1], i);
    }
  }

  lemma {:induction false} NonEmptyTextsComeFromData(data: seq<WikiRecord>, t: string)
    requires t in NonEmptyTexts(data)
    ensures exists i :: 0 <= i < |data| && data[i].initText == t
    decreases |data|
  {
    var n := |data|;
    if t != data[n - 1].initText {
      NonEmptyTextsComeFromData(data[..n - 1], t);
      var i :| 0 <= i < n - 1 && data[..n - 1][i].initText == t;
      assert data[i].initText == t;
    }
  }

  /** `get_texts_from_data`: the loop keeps exactly the records with a non-empty text, in order. */
  method GetTextsFromData(data: seq<WikiRecord>) returns (output: seq<string>)
    ensures output == NonEmptyTexts(data)
  {
    output := [];
    var i := 0;
    while i < |data|
      invariant 0 <= i <= |data|
      invariant output == NonEmptyTexts(data[..i])
    {
      assert data[..i + 1][..i] == data[..i];
      if data[i].initText != [] {
        output := output + [data[i].initText];
      }
      i := i + 1;
    }
    assert data[..i] == data;
  }
}
