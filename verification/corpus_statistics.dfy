/** The corpus statistics of hw3.py: document frequencies, stopwords, the best
    terms of a document, a set-valued inverted index and two-word search.

    `compute_document_counts` feeds `set(tokenize(text))` to a counter; the
    iteration order of that set decides only the key order of the result,
    which nothing here depends on. The model feeds the distinct tokens in
    order of first occurrence. */
module CorpusStatistics {
  import opened Base
  import opened Dicts
  import opened Sorting
  import opened Tokenizer
  import opened Counters
  import opened Postings

  /** The positions of the texts whose tokens include `t`. */
  ghost function DocsWith(texts: seq<string>, t: string): set<int>
  {
    set i | 0 <= i < |texts| && t in Tokenize(texts[i])
  }

  lemma DocsWithAppend(texts: seq<string>, text: string, t: string)
    ensures DocsWith(texts + [text], t)
            == DocsWith(texts, t) + (if t in Tokenize(text) then {|texts|} else {})
  {
    var all := texts + [text];
    forall i | 0 <= i < |texts| ensures all[i] == texts[i] {
    }
  }

  /** A word occurs somewhere in the corpus exactly when some text contains it. */
  lemma {:induction false} AllTokensHasDocs(texts: seq<string>, t: string)
    ensures t in AllTokens(texts) <==> DocsWith(texts, t) != {}
    decreases |texts|
  {
    if texts != [] {
      var n := |texts|;
      AllTokensHasDocs(texts[..n - 1], t);
      assert texts == texts[..n - 1] + [texts[n - 1]];
      DocsWithAppend(texts[..n - 1], texts[n - 1], t);
    }
  }

  lemma CountOfDistinct<T(!new)>(s: seq<T>, t: T)
    ensures Count(Distinct(s), t) == if t in s then 1 else 0
  {
    DistinctMultiset(Distinct(s), t);
    if t in s {
      assert t in multiset(Distinct(s));
    } else {
      assert t !in multiset(Distinct(s));
    }
  }

  /** `compute_document_counts`: for every word, the number of texts containing it
      (`DocumentCountIsDocs`). */
  function DocumentCounts(texts: seq<string>): (r: Counter<string>)
    ensures r.Valid()
    decreases |texts|
  {
    if texts == [] then Empty()
    else
      var n := |texts|;
      Tally(DocumentCounts(texts[..n - 1]), Distinct(Tokenize(texts[n - 1])))
  }

  /** The document count of a word is the number of texts whose tokens include it. */
  lemma {:induction false} DocumentCountIsDocs(texts: seq<string>, t: string)
    ensures DocumentCounts(texts).GetOr(t, 0) == |DocsWith(texts, t)|
    ensures |DocsWith(texts, t)| <= |texts|
    decreases |texts|
  {
    if texts == [] {
      assert DocsWith(texts, t) == {};
    } else {
      var front, last := texts[..|texts| - 1], texts[|texts| - 1];
      DocumentCountsStep(texts, t);
      assert texts == front + [last];
      DocsWithCardinalityStep(front, last, t);
      DocumentCountIsDocs(front, t);
    }
  }

  /** The last text adds one to the document count of each of its words. */
  lemma DocumentCountsStep(texts: seq<string>, t: string)
    requires texts != []
    ensures DocumentCounts(texts).GetOr(t, 0) ==
              DocumentCounts(texts[..|texts| - 1]).GetOr(t, 0) + if t in Tokenize(texts[|texts| - 1]) then 1 else 0
  {
    var tokens := Tokenize(texts[|texts| - 1]);
    TallyCountOf(DocumentCounts(texts[..|texts| - 1]), Distinct(tokens), t);
    CountOfDistinct(tokens, t);
  }

  lemma DocsWithCardinalityStep(texts: seq<string>, text: string, t: string)
    ensures |DocsWith(texts + [text], t)| == |DocsWith(texts, t)| + if t in Tokenize(text) then 1 else 0
  {
    DocsWithAppend(texts, text, t);
    assert |texts| !in DocsWith(texts, t);
  }

  // ---------------------------------------------------------------------------
  // Stopwords and best terms
  // ---------------------------------------------------------------------------

  /** The words of a `most_common` list, in order. */
  function Words(top: seq<(string, nat)>): (r: seq<string>)
    ensures |r| == |top|
    ensures forall i :: 0 <= i < |top| ==> r[i] == top[i].0
  {
    seq(|top|, i requires 0 <= i < |top| => top[i].0)
  }

  /** The loop of `compute_stopwords` over a `most_common` list: keep the words
      that occur in at least nine documents. */
  function FrequentInDocuments(top: seq<(string, nat)>, docCounts: Counter<string>): (r: set<string>)
    ensures |r| <= |top|
    ensures forall w :: w in r <==> w in Words(top) && docCounts.GetOr(w, 0) >= 9
  {
    if top == [] then {}
    else
      var n := |top|;
      var p := FrequentInDocuments(top[..n - 1], docCounts);
      var w := top[n - 1].0;
      assert Words(top) == Words(top[..n - 1]) + [w];
      if docCounts.GetOr(w, 0) >= 9 then p + {w} else p
  }

  /** `compute_stopwords`: among the 20 most frequent words, those in at least nine documents. */
  function ComputeStopwords(texts: seq<string>): (r: set<string>)
    ensures |r| <= 20
    ensures forall w :: w in r ==> w in Words(MostCommon(CountTotalWords(texts), 20))
  {
    FrequentInDocuments(MostCommon(CountTotalWords(texts), 20), DocumentCounts(texts))
  }

  /** Every stopword occurs in at least nine texts. */
  lemma StopwordsInNineTexts(texts: seq<string>, w: string)
    requires w in ComputeStopwords(texts)
    ensures |DocsWith(texts, w)| >= 9
  {
    DocumentCountIsDocs(texts, w);
  }

  /** A stopword occurs at least as often in the corpus as any word outside the top twenty. */
  lemma StopwordsAreTopWords(texts: seq<string>, w: string, v: string)
    requires w in ComputeStopwords(texts)
    requires v in AllTokens(texts)
    requires v !in Words(MostCommon(CountTotalWords(texts), 20))
    ensures Count(AllTokens(texts), v) <= Count(AllTokens(texts), w)
  {
    var total := CountTotalWords(texts);
    var top := MostCommon(total, 20);
    var i :| 0 <= i < |top| && Words(top)[i] == w;
    assert v in total.m by {
      TotalWordsCounts(texts, v);
    }
    LeftOutIsNoMore(total, 20, top, i, v);
    TotalWordsCounts(texts, v);
    TotalWordsCounts(texts, w);
  }

  /** With at most twenty distinct words, every word found in nine or more texts is a stopword. */
  lemma SmallVocabularyStopwords(texts: seq<string>, w: string)
    requires |CountTotalWords(texts).keys| <= 20
    requires |DocsWith(texts, w)| >= 9
    ensures w in ComputeStopwords(texts)
  {
    var total := CountTotalWords(texts);
    var top := MostCommon(total, 20);
    AllTokensHasDocs(texts, w);
    TotalWordsCounts(texts, w);
    DocumentCountIsDocs(texts, w);
    MostCommonAll(total, 20, w);
    var i :| 0 <= i < |top| && top[i] == (w, total.m[w]);
    assert Words(top)[i] == w;
  }

  /** A counter without the keys in `ws`: `del c[w]` for every `w in ws`, where a
      counter ignores a missing key. The order of the deletions does not matter. */
  function WithoutKeys(c: Counter<string>, ws: set<string>): (r: Counter<string>)
    requires c.Valid()
    ensures r.Valid()
    ensures forall k :: k in r.m <==> k in c.m && k !in ws
    ensures forall k :: k in r.m ==> r.m[k] == c.m[k]
    decreases |c.keys|
  {
    if c.keys == [] then c
    else
      var n := |c.keys|;
      var k := c.keys[n - 1];
      var p := WithoutKeys(DropLast(c), ws);
      if k in ws then p
      else
        KeysCoverMap(p);
        p.Put(k, c.m[k])
  }

  /** `get_best_terms_for_doc`: the ten most frequent non-stopwords of one text,
      or all of them when there are fewer than ten. */
  function BestTermsForDoc(text: string, stopwords: set<string>): (r: seq<(string, nat)>)
    ensures |r| <= 10
    ensures forall i :: 0 <= i < |r| ==>
              r[i].0 !in stopwords && r[i].0 in Tokenize(text) && r[i].1 == Count(Tokenize(text), r[i].0)
    ensures forall i, j :: 0 <= i < j < |r| ==> r[i].1 >= r[j].1 && r[i].0 != r[j].0
  {
    var counts := WithoutKeys(CountWords(text), stopwords);
    var r := MostCommon(counts, 10);
    forall i | 0 <= i < |r|
      ensures r[i].0 !in stopwords && r[i].0 in Tokenize(text) && r[i].1 == Count(Tokenize(text), r[i].0)
    {
      assert CountWords(text).GetOr(r[i].0, 0) == CountWords(text).m[r[i].0];
    }
    r
  }

  /** Fewer than ten best terms means every non-stopword of the text is among them. */
  lemma BestTermsListAllWhenFew(text: string, stopwords: set<string>, t: string)
    requires |BestTermsForDoc(text, stopwords)| < 10
    requires t in Tokenize(text) && t !in stopwords
    ensures t in Words(BestTermsForDoc(text, stopwords))
  {
    var counts := WithoutKeys(CountWords(text), stopwords);
    var r := BestTermsForDoc(text, stopwords);
    assert r == MostCommon(counts, 10);
    MostCommonAll(counts, 10, t);
    var i :| 0 <= i < |r| && r[i] == (t, counts.m[t]);
    assert Words(r)[i] == t;
  }

  /** A non-stopword of the text left out of its best terms is no more frequent than any kept. */
  lemma BestTermsAreTop(text: string, stopwords: set<string>, i: int, v: string)
    requires 0 <= i < |BestTermsForDoc(text, stopwords)|
    requires v in Tokenize(text) && v !in stopwords
    requires v !in Words(BestTermsForDoc(text, stopwords))
    ensures Count(Tokenize(text), v) <= BestTermsForDoc(text, stopwords)[i].1
  {
    var words := CountWords(text);
    var counts := WithoutKeys(words, stopwords);
    var r := BestTermsForDoc(text, stopwords);
    assert r == MostCommon(counts, 10);
    assert v in counts.m && counts.m[v] == Count(Tokenize(text), v) by {
      assert words.GetOr(v, 0) == words.m[v];
    }
    LeftOutIsNoMore(counts, 10, r, i, v);
  }

  /** `MostCommonIsTop` for a word missing from the list's words. */
  lemma LeftOutIsNoMore(counts: Counter<string>, n: int, r: seq<(string, nat)>, i: int, v: string)
    requires counts.Valid() && r == MostCommon(counts, n)
    requires 0 <= i < |r| && v in counts.m && v !in Words(r)
    ensures counts.m[v] <= r[i].1
    ensures r[i].0 in counts.m && r[i].1 == counts.m[r[i].0]
  {
    forall j | 0 <= j < |r| ensures r[j].0 != v {
      assert Words(r)[j] == r[j].0;
    }
    MostCommonIsTop(counts, n, i, v);
  }

  /** `get_best_terms`: one best-terms list per text, in order. */
  function BestTerms(texts: seq<string>, stopwords: set<string>): (r: seq<seq<(string, nat)>>)
    ensures |r| == |texts|
    ensures forall i :: 0 <= i < |r| ==> r[i] == BestTermsForDoc(texts[i], stopwords)
  {
    seq(|texts|, i requires 0 <= i < |texts| => BestTermsForDoc(texts[i], stopwords))
  }

  // ---------------------------------------------------------------------------
  // Inverted index and two-word search
  // ---------------------------------------------------------------------------

  /** What `create_inverted_index` has built after the texts `texts`. */
  ghost predicate Indexes(index: SetIndex, texts: seq<string>)
  {
    && index.Valid()
    && index.keys == Distinct(AllTokens(texts))
    && (forall w :: w in index.m <==> w in AllTokens(texts))
    && (forall w :: w in index.m ==> index.m[w] == DocsWith(texts, w))
  }

  lemma IndexValueStep(prior: SetIndex, index: SetIndex, texts: seq<string>, text: string, w: string)
    requires Indexes(prior, texts)
    requires AddedPositions(index, prior, |texts|, AllTokens(texts), Tokenize(text))
    requires w in index.m
    ensures index.m[w] == DocsWith(texts + [text], w)
  {
    DocsWithAppend(texts, text, w);
    if w !in prior.m {
      AllTokensHasDocs(texts, w);
    }
  }

  lemma IndexStep(prior: SetIndex, index: SetIndex, texts: seq<string>, text: string)
    requires Indexes(prior, texts)
    requires AddedPositions(index, prior, |texts|, AllTokens(texts), Tokenize(text))
    ensures Indexes(index, texts + [text])
  {
    assert (texts + [text])[..|texts|] == texts;
    assert AllTokens(texts + [text]) == AllTokens(texts) + Tokenize(text);
    forall w | w in index.m ensures index.m[w] == DocsWith(texts + [text], w) {
      IndexValueStep(prior, index, texts, text, w);
    }
  }

  lemma IndexesFindsDocs(index: SetIndex, texts: seq<string>)
    requires Indexes(index, texts)
    ensures forall w :: w in index.m <==> DocsWith(texts, w) != {}
  {
    forall w ensures w in index.m <==> DocsWith(texts, w) != {} {
      AllTokensHasDocs(texts, w);
    }
  }

  lemma IndexStepAt(prior: SetIndex, index: SetIndex, texts: seq<string>, i: int)
    requires 0 <= i < |texts|
    requires Indexes(prior, texts[..i])
    requires AddedPositions(index, prior, i, AllTokens(texts[..i]), Tokenize(texts[i]))
    ensures Indexes(index, texts[..i + 1])
  {
    assert texts[..i + 1] == texts[..i] + [texts[i]];
    IndexStep(prior, index, texts[..i], texts[i]);
  }

  /** One pass of the outer loop of `create_inverted_index`. */
  method IndexText(index: SetIndex, texts: seq<string>, i: int) returns (r: SetIndex)
    requires 0 <= i < |texts|
    requires Indexes(index, texts[..i])
    ensures Indexes(r, texts[..i + 1])
  {
    r := AddText(index, i, Tokenize(texts[i]), AllTokens(texts[..i]));
    IndexStepAt(index, r, texts, i);
  }

  /** `create_inverted_index`: every word maps to the positions of the texts that contain it. */
  method CreateInvertedIndex(texts: seq<string>) returns (index: SetIndex)
    ensures index.Valid()
    ensures index.keys == Distinct(AllTokens(texts))
    ensures forall w :: w in index.m ==> index.m[w] == DocsWith(texts, w)
    ensures forall w :: w in index.m <==> DocsWith(texts, w) != {}
  {
    index := Empty();
    var i := 0;
    assert texts[..0] == [];
    while i < |texts|
      invariant 0 <= i <= |texts|
      invariant Indexes(index, texts[..i])
    {
      index := IndexText(index, texts, i);
      i := i + 1;
    }
    assert texts[..i] == texts;
    IndexesFindsDocs(index, texts);
  }

  /** `search_2_words`: the texts indexed under both words; `None` where Python raises KeyError. */
  function Search2Words(w1: string, w2: string, index: SetIndex): (r: Option<set<int>>)
    ensures r.Some? <==> w1 in index.m && w2 in index.m
    ensures r.Some? ==> r.value <= index.m[w1] && r.value <= index.m[w2]
  {
    if w1 in index.m && w2 in index.m then Some(index.m[w1] * index.m[w2]) else None
  }

  /** On an index built from `texts`, two-word search finds exactly the texts containing both words. */
  lemma Search2WordsFindsBoth(texts: seq<string>, index: SetIndex, w1: string, w2: string, i: int)
    requires forall w :: w in index.m ==> index.m[w] == DocsWith(texts, w)
    requires Search2Words(w1, w2, index).Some?
    ensures i in Search2Words(w1, w2, index).value <==>
              0 <= i < |texts| && w1 in Tokenize(texts[i]) && w2 in Tokenize(texts[i])
  {
    assert index.m[w1] == DocsWith(texts, w1);
    assert index.m[w2] == DocsWith(texts, w2);
  }

  /** The size of an index entry is the word's document count. */
  lemma IndexSizeIsDocumentCount(texts: seq<string>, index: SetIndex, w: string)
    requires forall v :: v in index.m ==> index.m[v] == DocsWith(texts, v)
    requires w in index.m
    ensures |index.m[w]| == DocumentCounts(texts).GetOr(w, 0)
  {
    DocumentCountIsDocs(texts, w);
  }
}
