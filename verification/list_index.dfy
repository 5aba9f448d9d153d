/** `ListBasedInvertedIndexWithFrequencies` of index.py: for every term, the
    list of `(doc_id, tf)` postings in the order the documents were added, the
    number of documents each term occurs in, and the number of documents.

    The file name only names where `read` and `write` go; it is carried along
    unchanged. */
module ListIndex {
  import opened Base
  import opened Dicts
  import opened Sorting
  import opened Frequencies
  import opened Documents
  import opened SearchApi

  /** `(doc_id, tf)`. */
  type Posting = (string, real)

  datatype Index = Index(
    filename: string,
    numberOfDocuments: int,
    postings: Dict<string, seq<Posting>>,
    docCounts: Dict<string, int>)

  /** `__init__`. */
  function Create(filename: string): (r: Index)
    ensures Inv(r) && DistinctPostings(r)
    ensures r.numberOfDocuments == 0
    ensures forall t :: t !in r.postings.m
  {
    Index(filename, 0, Empty(), Empty())
  }

  /** What `add_document` keeps: both dicts list the same terms in the same
      order, and a term's document count is the length of its posting list. */
  ghost predicate Inv(ix: Index)
  {
    && ix.postings.Valid()
    && ix.docCounts.Valid()
    && ix.postings.keys == ix.docCounts.keys
    && (forall t :: t in ix.postings.m ==> t in ix.docCounts.m && ix.docCounts.m[t] == |ix.postings.m[t]|)
  }

  /** No posting list names a document twice, which holds as long as no
      document id is added twice. */
  ghost predicate DistinctPostings(ix: Index)
  {
    forall t :: t in ix.postings.m ==> NoDuplicates(Firsts(ix.postings.m[t]))
  }

  /** One pass of the loop of `add_document`. */
  function AddPosting(ix: Index, docId: string, term: string, tf: real): (r: Index)
    requires ix.postings.Valid() && ix.docCounts.Valid()
    ensures r.postings.Valid() && r.docCounts.Valid()
    ensures r.numberOfDocuments == ix.numberOfDocuments && r.filename == ix.filename
    ensures ix.postings.keys == ix.docCounts.keys ==> r.postings.keys == r.docCounts.keys
  {
    KeysCoverMap(ix.postings);
    KeysCoverMap(ix.docCounts);
    ix.(docCounts := ix.docCounts.Put(term, ix.docCounts.GetOr(term, 0) + 1),
        postings := ix.postings.Put(term, ix.postings.GetOr(term, []) + [(docId, tf)]))
  }

  /** The loop of `add_document` over `(term, tf)` pairs, in order. */
  function AddPostings(ix: Index, docId: string, tfs: seq<(string, real)>): (r: Index)
    requires ix.postings.Valid() && ix.docCounts.Valid()
    ensures r.postings.Valid() && r.docCounts.Valid()
    ensures r.numberOfDocuments == ix.numberOfDocuments && r.filename == ix.filename
    ensures ix.postings.keys == ix.docCounts.keys ==> r.postings.keys == r.docCounts.keys
    decreases |tfs|
  {
    if tfs == [] then ix
    else
      var last := tfs[|tfs| - 1];
      AddPosting(AddPostings(ix, docId, tfs[..|tfs| - 1]), docId, last.0, last.1)
  }

  /** `add_document`. */
  function AddDocument(ix: Index, doc: TransformedDocument): (r: Index)
    requires ix.postings.Valid() && ix.docCounts.Valid()
    ensures r.postings.Valid() && r.docCounts.Valid()
    ensures r.numberOfDocuments == ix.numberOfDocuments + 1
    ensures r.filename == ix.filename
    ensures ix.postings.keys == ix.docCounts.keys ==> r.postings.keys == r.docCounts.keys
  {
    AddPostings(ix.(numberOfDocuments := ix.numberOfDocuments + 1), doc.docId, TermFrequencies(doc.tokens))
  }

  function AppendTf(ps: seq<Posting>, docId: string, tf: Option<real>): seq<Posting>
  {
    if tf.Some? then ps + [(docId, tf.value)] else ps
  }

  /** The loop over pairs with distinct terms appends one posting to each of
      those terms, counts each of them once more, and leaves all else alone. */
  lemma {:induction false} AddPostingsEffect(ix: Index, docId: string, tfs: seq<(string, real)>, t: string)
    requires ix.postings.Valid() && ix.docCounts.Valid()
    requires NoDuplicates(Firsts(tfs))
    ensures AddPostings(ix, docId, tfs).postings.GetOr(t, []) ==
              AppendTf(ix.postings.GetOr(t, []), docId, FindTf(tfs, t))
    ensures AddPostings(ix, docId, tfs).docCounts.GetOr(t, 0) ==
              ix.docCounts.GetOr(t, 0) + (if t in Firsts(tfs) then 1 else 0)
    ensures t in AddPostings(ix, docId, tfs).postings.m <==> t in ix.postings.m || t in Firsts(tfs)
    ensures t in AddPostings(ix, docId, tfs).docCounts.m <==> t in ix.docCounts.m || t in Firsts(tfs)
    decreases |tfs|
  {
    if tfs != [] {
      var front := tfs[..|tfs| - 1];
      var last := tfs[|tfs| - 1];
      assert Firsts(tfs) == Firsts(front) + [last.0];
      assert NoDuplicates(Firsts(front));
      AddPostingsEffect(ix, docId, front, t);
      if last.0 == t {
        assert t !in Firsts(front);
      }
    }
  }

  /** `add_document` appends `(doc_id, tf)` to the postings of every term of
      the document, counts the document once for each of those terms, and
      changes nothing for other terms. */
  lemma AddDocumentEffect(ix: Index, doc: TransformedDocument, t: string)
    requires ix.postings.Valid() && ix.docCounts.Valid()
    ensures AddDocument(ix, doc).postings.GetOr(t, []) ==
              ix.postings.GetOr(t, []) +
              (if t in doc.tokens then [(doc.docId, TermFrequency(Count(doc.tokens, t), |doc.tokens|))] else [])
    ensures AddDocument(ix, doc).docCounts.GetOr(t, 0) ==
              ix.docCounts.GetOr(t, 0) + (if t in doc.tokens then 1 else 0)
    ensures t in AddDocument(ix, doc).postings.m <==> t in ix.postings.m || t in doc.tokens
    ensures t in AddDocument(ix, doc).docCounts.m <==> t in ix.docCounts.m || t in doc.tokens
  {
    AddDocumentPostings(ix, doc, t);
    AddDocumentCounts(ix, doc, t);
  }

  lemma AddDocumentPostings(ix: Index, doc: TransformedDocument, t: string)
    requires ix.postings.Valid() && ix.docCounts.Valid()
    ensures AddDocument(ix, doc).postings.GetOr(t, []) ==
              ix.postings.GetOr(t, []) +
              (if t in doc.tokens then [(doc.docId, TermFrequency(Count(doc.tokens, t), |doc.tokens|))] else [])
  {
    var start := ix.(numberOfDocuments := ix.numberOfDocuments + 1);
    var tfs := TermFrequencies(doc.tokens);
    var r := AddPostings(start, doc.docId, tfs);
    assert AddDocument(ix, doc) == r;
    FindTermFrequency(doc.tokens, t);
    AddPostingsEffect(start, doc.docId, tfs, t);
    if t in doc.tokens {
      assert t in Firsts(tfs);
    } else {
      assert t !in Firsts(tfs);
    }
  }

  lemma AddDocumentCounts(ix: Index, doc: TransformedDocument, t: string)
    requires ix.postings.Valid() && ix.docCounts.Valid()
    ensures AddDocument(ix, doc).docCounts.GetOr(t, 0) ==
              ix.docCounts.GetOr(t, 0) + (if t in doc.tokens then 1 else 0)
    ensures t in AddDocument(ix, doc).postings.m <==> t in ix.postings.m || t in doc.tokens
    ensures t in AddDocument(ix, doc).docCounts.m <==> t in ix.docCounts.m || t in doc.tokens
  {
    var start := ix.(numberOfDocuments := ix.numberOfDocuments + 1);
    var tfs := TermFrequencies(doc.tokens);
    var r := AddPostings(start, doc.docId, tfs);
    assert AddDocument(ix, doc) == r;
    FindTermFrequency(doc.tokens, t);
    AddPostingsEffect(start, doc.docId, tfs, t);
    if t in doc.tokens {
      assert t in Firsts(tfs);
    } else {
      assert t !in Firsts(tfs);
    }
  }

  lemma AddDocumentKeepsCount(ix: Index, doc: TransformedDocument, t: string)
    requires Inv(ix)
    requires t in AddDocument(ix, doc).postings.m
    ensures t in AddDocument(ix, doc).docCounts.m
    ensures AddDocument(ix, doc).docCounts.m[t] == |AddDocument(ix, doc).postings.m[t]|
  {
    assert |ix.postings.GetOr(t, [])| == ix.docCounts.GetOr(t, 0) by {
      KeysCoverMap(ix.postings);
      KeysCoverMap(ix.docCounts);
      assert t in ix.postings.m <==> t in ix.docCounts.m;
    }
    AddDocumentEffect(ix, doc, t);
  }

  /** `add_document` keeps the two dicts in step. */
  lemma AddDocumentKeepsInv(ix: Index, doc: TransformedDocument)
    requires Inv(ix)
    ensures Inv(AddDocument(ix, doc))
  {
    var r := AddDocument(ix, doc);
    forall t | t in r.postings.m ensures t in r.docCounts.m && r.docCounts.m[t] == |r.postings.m[t]| {
      AddDocumentKeepsCount(ix, doc, t);
    }
  }

  /** Adding a document whose id no posting names yet keeps every posting list
      free of repeated ids. */
  lemma AddDocumentKeepsDistinctPostings(ix: Index, doc: TransformedDocument)
    requires ix.postings.Valid() && ix.docCounts.Valid()
    requires DistinctPostings(ix)
    requires forall t :: t in ix.postings.m ==> doc.docId !in Firsts(ix.postings.m[t])
    ensures DistinctPostings(AddDocument(ix, doc))
  {
    var r := AddDocument(ix, doc);
    forall t | t in r.postings.m ensures NoDuplicates(Firsts(r.postings.m[t])) {
      assert r.postings.m[t] == r.postings.GetOr(t, []);
      assert doc.docId !in Firsts(ix.postings.GetOr(t, [])) && NoDuplicates(Firsts(ix.postings.GetOr(t, [])));
      AddDocumentKeepsDistinctAt(ix, doc, t);
    }
  }

  lemma AddDocumentKeepsDistinctAt(ix: Index, doc: TransformedDocument, t: string)
    requires ix.postings.Valid() && ix.docCounts.Valid()
    requires NoDuplicates(Firsts(ix.postings.GetOr(t, [])))
    requires doc.docId !in Firsts(ix.postings.GetOr(t, []))
    ensures NoDuplicates(Firsts(AddDocument(ix, doc).postings.GetOr(t, [])))
  {
    var before := ix.postings.GetOr(t, []);
    var after := AddDocument(ix, doc).postings.GetOr(t, []);
    AddDocumentPostings(ix, doc, t);
    if t in doc.tokens {
      var p := (doc.docId, TermFrequency(Count(doc.tokens, t), |doc.tokens|));
      assert Firsts(after) == Firsts(before) + [doc.docId] by {
        assert after == before + [p];
      }
      NoDuplicatesAppend(Firsts(before), doc.docId);
    }
  }

  lemma NoDuplicatesAppend<T>(s: seq<T>, x: T)
    requires NoDuplicates(s) && x !in s
    ensures NoDuplicates(s + [x])
  {
  }

  // ---------------------------------------------------------------------------
  // search
  // ---------------------------------------------------------------------------

  /** `match_counts[doc_id]` and `match_scores[doc_id]` for one document. The
      two dicts of `search` always gain a key together, so one dict of pairs
      stands for both. */
  datatype Match = Match(count: int, score: real)

  type Matches = Dict<string, Match>

  const NoMatch := Match(0, 0.0)

  /** One posting seen: one more match and `tf * idf` more score. */
  function Bump(acc: Matches, id: string, score: real): (r: Matches)
    requires acc.Valid()
    ensures r.Valid()
  {
    var prior := acc.GetOr(id, NoMatch);
    acc.Put(id, Match(prior.count + 1, prior.score + score))
  }

  /** The inner loop of `search`, over the postings of one term. */
  function AddMatches(acc: Matches, ps: seq<Posting>, idf: real): (r: Matches)
    requires acc.Valid()
    ensures r.Valid()
    decreases |ps|
  {
    if ps == [] then acc
    else
      var last := ps[|ps| - 1];
      Bump(AddMatches(acc, ps[..|ps| - 1], idf), last.0, last.1 * idf)
  }

  /** `inverse_document_frequency(self.doc_counts[term], self.number_of_documents)`. */
  function TermIdf(ix: Index, t: string, idf: Idf): real
  {
    idf(ix.docCounts.GetOr(t, 0), ix.numberOfDocuments)
  }

  /** The outer loop of `search`; `None` where it returns early on an unknown term. */
  function Accumulate(ix: Index, terms: seq<string>, idf: Idf): (r: Option<Matches>)
    ensures r.Some? ==> r.value.Valid()
    decreases |terms|
  {
    if terms == [] then Some(Empty())
    else
      var last := terms[|terms| - 1];
      match Accumulate(ix, terms[..|terms| - 1], idf)
      case None => None
      case Some(acc) =>
        if last in ix.postings.m then Some(AddMatches(acc, ix.postings.m[last], TermIdf(ix, last, idf)))
        else None
  }

  /** The keys whose match count is `n`, in order: the filtering dict comprehension. */
  function FullMatches(acc: Matches, keys: seq<string>, n: int): (r: seq<string>)
    ensures forall x :: x in r <==> x in keys && acc.GetOr(x, NoMatch).count == n
    ensures NoDuplicates(keys) ==> NoDuplicates(r)
    decreases |keys|
  {
    if keys == [] then []
    else
      var front := keys[..|keys| - 1];
      var last := keys[|keys| - 1];
      assert keys == front + [last];
      var r := FullMatches(acc, front, n);
      if acc.GetOr(last, NoMatch).count == n then r + [last] else r
  }

  /** `match_scores.get`, the sort key. */
  function ScoreIn(acc: Matches): string -> real
  {
    id => if id in acc.m then acc.m[id].score else 0.0
  }

  /** The documents `search` ranks: those every query term matched, in order
      of first match. */
  function Candidates(ix: Index, terms: seq<string>, idf: Idf): (r: seq<string>)
  {
    match Accumulate(ix, terms, idf)
    case None => []
    case Some(acc) => FullMatches(acc, acc.keys, |terms|)
  }

  /** `search` as written: the candidates sorted by score in ASCENDING order
      (`sorted` without `reverse=True`), then the first `num_results`. */
  function Search(ix: Index, q: Query, idf: Idf): (r: SearchResults)
    ensures q.terms == [] ==> r.resultDocIds == []
    ensures (exists i :: 0 <= i < |q.terms| && q.terms[i] !in ix.postings.m) ==> r.resultDocIds == []
    ensures q.numResults >= 0 ==>
              |r.resultDocIds| == if q.numResults < |Candidates(ix, q.terms, idf)| then q.numResults else |Candidates(ix, q.terms, idf)|
    ensures NoDuplicates(r.resultDocIds)
    ensures forall x :: x in r.resultDocIds ==> x in Candidates(ix, q.terms, idf)
  {
    match Accumulate(ix, q.terms, idf)
    case None =>
      AccumulateDefined(ix, q.terms, idf);
      SearchResults([])
    case Some(acc) =>
      AccumulateDefined(ix, q.terms, idf);
      var c := FullMatches(acc, acc.keys, |q.terms|);
      SortNoDuplicates(c, ScoreIn(acc), false);
      SortKeepsElements(c, ScoreIn(acc), false);
      PrefixNoDuplicates(Sort(c, ScoreIn(acc), false), q.numResults);
      SearchResults(Prefix(Sort(c, ScoreIn(acc), false), q.numResults))
  }

  /** `search` with the order the ranking intends: best score first. */
  function RankedSearch(ix: Index, q: Query, idf: Idf): (r: SearchResults)
    ensures q.terms == [] ==> r.resultDocIds == []
    ensures (exists i :: 0 <= i < |q.terms| && q.terms[i] !in ix.postings.m) ==> r.resultDocIds == []
    ensures q.numResults >= 0 ==>
              |r.resultDocIds| == if q.numResults < |Candidates(ix, q.terms, idf)| then q.numResults else |Candidates(ix, q.terms, idf)|
    ensures NoDuplicates(r.resultDocIds)
    ensures forall x :: x in r.resultDocIds ==> x in Candidates(ix, q.terms, idf)
  {
    match Accumulate(ix, q.terms, idf)
    case None =>
      AccumulateDefined(ix, q.terms, idf);
      SearchResults([])
    case Some(acc) =>
      AccumulateDefined(ix, q.terms, idf);
      var c := FullMatches(acc, acc.keys, |q.terms|);
      SortNoDuplicates(c, ScoreIn(acc), true);
      SortKeepsElements(c, ScoreIn(acc), true);
      PrefixNoDuplicates(Sort(c, ScoreIn(acc), true), q.numResults);
      SearchResults(Prefix(Sort(c, ScoreIn(acc), true), q.numResults))
  }

  /** `search` returns early exactly when some query term has no postings. */
  lemma {:induction false} AccumulateDefined(ix: Index, terms: seq<string>, idf: Idf)
    ensures Accumulate(ix, terms, idf).Some? <==> forall i :: 0 <= i < |terms| ==> terms[i] in ix.postings.m
    decreases |terms|
  {
    if terms != [] {
      var front := terms[..|terms| - 1];
      AccumulateDefined(ix, front, idf);
      assert forall i :: 0 <= i < |front| ==> front[i] == terms[i];
    }
  }

  // ---------------------------------------------------------------------------
  // What search computes, stated from the postings alone
  // ---------------------------------------------------------------------------

  /** How many postings of `ps` name `id`. */
  function PostingCount(ps: seq<Posting>, id: string): nat
  {
    if ps == [] then 0
    else PostingCount(ps[..|ps| - 1], id) + (if ps[|ps| - 1].0 == id then 1 else 0)
  }

  /** The `tf * idf` contributions of the postings of `ps` that name `id`. */
  function PostingScore(ps: seq<Posting>, id: string, idf: real): real
  {
    if ps == [] then 0.0
    else PostingScore(ps[..|ps| - 1], id, idf) + (if ps[|ps| - 1].0 == id then ps[|ps| - 1].1 * idf else 0.0)
  }

  /** How many (term, posting) pairs of the query name `id`. */
  function MatchCount(ix: Index, terms: seq<string>, id: string): nat
  {
    if terms == [] then 0
    else
      var t := terms[|terms| - 1];
      MatchCount(ix, terms[..|terms| - 1], id) + PostingCount(ix.postings.GetOr(t, []), id)
  }

  /** The tf-idf score of `id`: for every query term, the term's frequency in
      the document times the term's idf, added up. */
  function MatchScore(ix: Index, terms: seq<string>, id: string, idf: Idf): real
  {
    if terms == [] then 0.0
    else
      var t := terms[|terms| - 1];
      MatchScore(ix, terms[..|terms| - 1], id, idf) + PostingScore(ix.postings.GetOr(t, []), id, TermIdf(ix, t, idf))
  }

  /** The inner loop adds, for `id`, one match and `tf * idf` per posting naming it. */
  lemma {:induction false} AddMatchesEntry(acc: Matches, ps: seq<Posting>, idf: real, id: string)
    requires acc.Valid()
    ensures AddMatches(acc, ps, idf).GetOr(id, NoMatch) ==
              Match(acc.GetOr(id, NoMatch).count + PostingCount(ps, id),
                    acc.GetOr(id, NoMatch).score + PostingScore(ps, id, idf))
    ensures id in AddMatches(acc, ps, idf).m <==> id in acc.m || PostingCount(ps, id) > 0
    decreases |ps|
  {
    if ps != [] {
      AddMatchesEntry(acc, ps[..|ps| - 1], idf, id);
    }
  }

  /** After the outer loop, every document's entry is its match count and its
      score, and the documents with an entry are those matched at least once. */
  lemma {:induction false} AccumulateEntry(ix: Index, terms: seq<string>, idf: Idf, id: string)
    requires Accumulate(ix, terms, idf).Some?
    ensures Accumulate(ix, terms, idf).value.GetOr(id, NoMatch) ==
              Match(MatchCount(ix, terms, id), MatchScore(ix, terms, id, idf))
    ensures id in Accumulate(ix, terms, idf).value.m <==> MatchCount(ix, terms, id) > 0
    decreases |terms|
  {
    if terms != [] {
      var front := terms[..|terms| - 1];
      var t := terms[|terms| - 1];
      AccumulateEntry(ix, front, idf, id);
      var acc := Accumulate(ix, front, idf).value;
      AddMatchesEntry(acc, ix.postings.m[t], TermIdf(ix, t, idf), id);
    }
  }

  /** In a posting list without repeated ids, a document is named at most once. */
  lemma {:induction false} DistinctPostingCount(ps: seq<Posting>, id: string)
    requires NoDuplicates(Firsts(ps))
    ensures PostingCount(ps, id) == if id in Firsts(ps) then 1 else 0
    decreases |ps|
  {
    if ps != [] {
      var front := ps[..|ps| - 1];
      assert Firsts(front) == Firsts(ps)[..|ps| - 1];
      assert Firsts(ps) == Firsts(front) + [ps[|ps| - 1].0];
      DistinctPostingCount(front, id);
    }
  }

  /** Without repeated postings, the match count reaches the number of query
      terms exactly when every term's postings name the document. */
  lemma {:induction false} MatchCountOfAll(ix: Index, terms: seq<string>, id: string)
    requires DistinctPostings(ix)
    ensures MatchCount(ix, terms, id) <= |terms|
    ensures MatchCount(ix, terms, id) == |terms| <==>
              forall i :: 0 <= i < |terms| ==> id in Firsts(ix.postings.GetOr(terms[i], []))
    decreases |terms|
  {
    if terms != [] {
      var front := terms[..|terms| - 1];
      var t := terms[|terms| - 1];
      MatchCountOfAll(ix, front, id);
      DistinctPostingCount(ix.postings.GetOr(t, []), id);
      assert forall i :: 0 <= i < |front| ==> front[i] == terms[i];
    }
  }

  /** Without repeated postings, the candidates of `search` are exactly the
      documents that every query term occurs in (and there are none for an
      empty query). */
  lemma CandidatesHaveAllTerms(ix: Index, terms: seq<string>, idf: Idf, id: string)
    requires DistinctPostings(ix)
    ensures id in Candidates(ix, terms, idf) <==>
              terms != [] &&
              forall i :: 0 <= i < |terms| ==> terms[i] in ix.postings.m && id in Firsts(ix.postings.m[terms[i]])
  {
    AccumulateDefined(ix, terms, idf);
    var r := Accumulate(ix, terms, idf);
    if r.Some? {
      var acc := r.value;
      AccumulateEntry(ix, terms, idf, id);
      MatchCountOfAll(ix, terms, id);
      KeysCoverMap(acc);
      assert forall i :: 0 <= i < |terms| ==> ix.postings.GetOr(terms[i], []) == ix.postings.m[terms[i]];
    }
  }

  /** The sort key of `search` is the tf-idf score. */
  lemma ScoreInIsMatchScore(ix: Index, terms: seq<string>, idf: Idf, id: string)
    requires Accumulate(ix, terms, idf).Some?
    ensures ScoreIn(Accumulate(ix, terms, idf).value)(id) == MatchScore(ix, terms, id, idf)
  {
    AccumulateEntry(ix, terms, idf, id);
  }

  /** A prefix of a sorted candidate list, read back through the true score. */
  lemma SortedPrefixByScore(ix: Index, q: Query, idf: Idf, descending: bool, i: int, j: int)
    requires Accumulate(ix, q.terms, idf).Some?
    requires 0 <= i < j
    requires j < |Prefix(Sort(Candidates(ix, q.terms, idf), ScoreIn(Accumulate(ix, q.terms, idf).value), descending), q.numResults)|
    ensures
      var r := Prefix(Sort(Candidates(ix, q.terms, idf), ScoreIn(Accumulate(ix, q.terms, idf).value), descending), q.numResults);
      Precedes(MatchScore(ix, q.terms, r[i], idf), MatchScore(ix, q.terms, r[j], idf), descending)
  {
    var acc := Accumulate(ix, q.terms, idf).value;
    var sorted := Sort(Candidates(ix, q.terms, idf), ScoreIn(acc), descending);
    var r := Prefix(sorted, q.numResults);
    assert r[i] == sorted[i] && r[j] == sorted[j];
    ScoreInIsMatchScore(ix, q.terms, idf, r[i]);
    ScoreInIsMatchScore(ix, q.terms, idf, r[j]);
  }

  /** `search` as written lists its results from the LOWEST score up. */
  lemma SearchIsAscending(ix: Index, q: Query, idf: Idf)
    ensures forall i, j :: 0 <= i < j < |Search(ix, q, idf).resultDocIds| ==>
              MatchScore(ix, q.terms, Search(ix, q, idf).resultDocIds[i], idf) <=
              MatchScore(ix, q.terms, Search(ix, q, idf).resultDocIds[j], idf)
  {
    if Accumulate(ix, q.terms, idf).Some? {
      forall i, j | 0 <= i < j < |Search(ix, q, idf).resultDocIds|
        ensures MatchScore(ix, q.terms, Search(ix, q, idf).resultDocIds[i], idf) <=
                MatchScore(ix, q.terms, Search(ix, q, idf).resultDocIds[j], idf)
      {
        SortedPrefixByScore(ix, q, idf, false, i, j);
      }
    }
  }

  /** `RankedSearch` lists its results from the highest score down. */
  lemma RankedSearchIsDescending(ix: Index, q: Query, idf: Idf)
    ensures forall i, j :: 0 <= i < j < |RankedSearch(ix, q, idf).resultDocIds| ==>
              MatchScore(ix, q.terms, RankedSearch(ix, q, idf).resultDocIds[i], idf) >=
              MatchScore(ix, q.terms, RankedSearch(ix, q, idf).resultDocIds[j], idf)
  {
    if Accumulate(ix, q.terms, idf).Some? {
      forall i, j | 0 <= i < j < |RankedSearch(ix, q, idf).resultDocIds|
        ensures MatchScore(ix, q.terms, RankedSearch(ix, q, idf).resultDocIds[i], idf) >=
                MatchScore(ix, q.terms, RankedSearch(ix, q, idf).resultDocIds[j], idf)
      {
        SortedPrefixByScore(ix, q, idf, true, i, j);
      }
    }
  }

  /** A candidate cut off by the truncation, read back through the true score. */
  lemma CutOffByScore(ix: Index, q: Query, idf: Idf, descending: bool, x: string, y: string)
    requires Accumulate(ix, q.terms, idf).Some?
    requires x in Prefix(Sort(Candidates(ix, q.terms, idf), ScoreIn(Accumulate(ix, q.terms, idf).value), descending), q.numResults)
    requires y in Candidates(ix, q.terms, idf)
    requires y !in Prefix(Sort(Candidates(ix, q.terms, idf), ScoreIn(Accumulate(ix, q.terms, idf).value), descending), q.numResults)
    ensures Precedes(MatchScore(ix, q.terms, x, idf), MatchScore(ix, q.terms, y, idf), descending)
  {
    var acc := Accumulate(ix, q.terms, idf).value;
    var c := Candidates(ix, q.terms, idf);
    SortKeepsElements(c, ScoreIn(acc), descending);
    PrefixOfSorted(Sort(c, ScoreIn(acc), descending), ScoreIn(acc), descending, q.numResults, x, y);
    ScoreInIsMatchScore(ix, q.terms, idf, x);
    ScoreInIsMatchScore(ix, q.terms, idf, y);
  }

  /** `search` as written keeps the LEAST relevant candidates: whatever it
      cuts off scores at least as high as everything it returns. */
  lemma SearchKeepsLeastRelevant(ix: Index, q: Query, idf: Idf, x: string, y: string)
    requires x in Search(ix, q, idf).resultDocIds
    requires y in Candidates(ix, q.terms, idf) && y !in Search(ix, q, idf).resultDocIds
    ensures MatchScore(ix, q.terms, x, idf) <= MatchScore(ix, q.terms, y, idf)
  {
    CutOffByScore(ix, q, idf, false, x, y);
  }

  /** `RankedSearch` keeps the most relevant candidates: whatever it cuts off
      scores no higher than anything it returns. */
  lemma RankedSearchKeepsMostRelevant(ix: Index, q: Query, idf: Idf, x: string, y: string)
    requires x in RankedSearch(ix, q, idf).resultDocIds
    requires y in Candidates(ix, q.terms, idf) && y !in RankedSearch(ix, q, idf).resultDocIds
    ensures MatchScore(ix, q.terms, x, idf) >= MatchScore(ix, q.terms, y, idf)
  {
    CutOffByScore(ix, q, idf, true, x, y);
  }

  /** Asking for one result among two candidates of different scores, `search`
      as written never returns the better one. */
  lemma TopResultOfTwo(ix: Index, q: Query, idf: Idf, worse: string, better: string)
    requires q.numResults == 1
    requires worse in Candidates(ix, q.terms, idf) && better in Candidates(ix, q.terms, idf)
    requires MatchScore(ix, q.terms, worse, idf) < MatchScore(ix, q.terms, better, idf)
    ensures better !in Search(ix, q, idf).resultDocIds
  {
    var r := Search(ix, q, idf).resultDocIds;
    if better in r {
      assert r == [better];
      SearchKeepsLeastRelevant(ix, q, idf, better, worse);
    }
  }

  /** In the same situation `RankedSearch` never returns the worse one. */
  lemma RankedTopResultOfTwo(ix: Index, q: Query, idf: Idf, worse: string, better: string)
    requires q.numResults == 1
    requires worse in Candidates(ix, q.terms, idf) && better in Candidates(ix, q.terms, idf)
    requires MatchScore(ix, q.terms, worse, idf) < MatchScore(ix, q.terms, better, idf)
    ensures worse !in RankedSearch(ix, q, idf).resultDocIds
  {
    var r := RankedSearch(ix, q, idf).resultDocIds;
    if worse in r {
      assert r == [worse];
      RankedSearchKeepsMostRelevant(ix, q, idf, worse, better);
    }
  }

  /** When `num_results` is at least the number of candidates, `search` as
      written returns every candidate. */
  lemma AllCandidatesFit(ix: Index, q: Query, idf: Idf, x: string)
    requires q.numResults >= |Candidates(ix, q.terms, idf)|
    requires x in Candidates(ix, q.terms, idf)
    ensures x in Search(ix, q, idf).resultDocIds
  {
    var acc := Accumulate(ix, q.terms, idf).value;
    SortKeepsElements(Candidates(ix, q.terms, idf), ScoreIn(acc), false);
  }

  /** So does `RankedSearch`. */
  lemma RankedAllCandidatesFit(ix: Index, q: Query, idf: Idf, x: string)
    requires q.numResults >= |Candidates(ix, q.terms, idf)|
    requires x in Candidates(ix, q.terms, idf)
    ensures x in RankedSearch(ix, q, idf).resultDocIds
  {
    var acc := Accumulate(ix, q.terms, idf).value;
    SortKeepsElements(Candidates(ix, q.terms, idf), ScoreIn(acc), true);
  }


  /** The index after adding document `x` (holding only term `a`) twice and
      then document `y` (holding only term `b`). */
  function RepeatedIndex(f: string, x: string, y: string, a: string, b: string): Index
  {
    var dx := TransformedDocument(x, [a]);
    AddDocument(AddDocument(AddDocument(Create(f), dx), dx), TransformedDocument(y, [b]))
  }

  lemma RepeatedPostingsOfA(f: string, x: string, y: string, a: string, b: string)
    requires a != b
    ensures RepeatedIndex(f, x, y, a, b).postings.GetOr(a, []) == [(x, TermFrequency(1, 1)), (x, TermFrequency(1, 1))]
  {
    var dx := TransformedDocument(x, [a]);
    var dy := TransformedDocument(y, [b]);
    var ix0 := Create(f);
    var ix1 := AddDocument(ix0, dx);
    var ix2 := AddDocument(ix1, dx);
    assert Count(dx.tokens, a) == 1;
    assert ix1.postings.GetOr(a, []) == [(x, TermFrequency(1, 1))] by {
      AddDocumentEffect(ix0, dx, a);
    }
    assert ix2.postings.GetOr(a, []) == [(x, TermFrequency(1, 1)), (x, TermFrequency(1, 1))] by {
      AddDocumentEffect(ix1, dx, a);
    }
    assert a !in dy.tokens;
    AddDocumentEffect(ix2, dy, a);
  }

  lemma RepeatedPostingsOfB(f: string, x: string, y: string, a: string, b: string)
    requires a != b
    ensures RepeatedIndex(f, x, y, a, b).postings.GetOr(b, []) == [(y, TermFrequency(1, 1))]
  {
    var dx := TransformedDocument(x, [a]);
    var dy := TransformedDocument(y, [b]);
    var ix0 := Create(f);
    var ix1 := AddDocument(ix0, dx);
    var ix2 := AddDocument(ix1, dx);
    assert b !in dx.tokens;
    assert ix1.postings.GetOr(b, []) == [] by {
      AddDocumentEffect(ix0, dx, b);
    }
    assert ix2.postings.GetOr(b, []) == [] by {
      AddDocumentEffect(ix1, dx, b);
    }
    assert Count(dy.tokens, b) == 1;
    AddDocumentEffect(ix2, dy, b);
  }

  lemma MatchCountOfTwo(ix: Index, a: string, b: string, id: string)
    ensures MatchCount(ix, [a, b], id) == PostingCount(ix.postings.GetOr(a, []), id) + PostingCount(ix.postings.GetOr(b, []), id)
  {
    assert [a, b][..1] == [a] && [a][..0] == [];
    assert MatchCount(ix, [a], id) == PostingCount(ix.postings.GetOr(a, []), id);
  }

  lemma PostingCountOfPair(p: Posting, q: Posting, id: string)
    ensures PostingCount([p, q], id) == (if p.0 == id then 1 else 0) + (if q.0 == id then 1 else 0)
  {
    assert [p, q][..1] == [p] && [p][..0] == [];
    assert PostingCount([p], id) == if p.0 == id then 1 else 0;
  }

  /** A document listed twice under term `a` and not under `b` reaches the
      match count of the query `a b`. */
  lemma TwiceListedMatches(ix: Index, x: string, a: string, b: string, p: Posting, idf: Idf)
    requires ix.postings.GetOr(a, []) == [(x, p.1), (x, p.1)]
    requires ix.postings.GetOr(b, []) == [p] && p.0 != x
    ensures x in Candidates(ix, [a, b], idf)
  {
    var terms := [a, b];
    MatchCountOfTwo(ix, a, b, x);
    PostingCountOfPair((x, p.1), (x, p.1), x);
    assert PostingCount([p], x) == 0 by {
      assert [p][..0] == [];
    }
    assert forall i :: 0 <= i < |terms| ==> terms[i] in ix.postings.m;
    FullCountIsCandidate(ix, terms, idf, x);
  }

  /** Adding one document twice breaks the match count: the document is
      counted twice for a term it has, which the conjunction test cannot tell
      from one count for each of two terms. Here document `x` holds only `a`,
      yet it is a candidate for the query `a b`. */
  lemma RepeatedDocumentMatchesMissingTerm(f: string, x: string, y: string, a: string, b: string, idf: Idf)
    requires x != y && a != b
    ensures x in Candidates(RepeatedIndex(f, x, y, a, b), [a, b], idf)
  {
    RepeatedPostingsOfA(f, x, y, a, b);
    RepeatedPostingsOfB(f, x, y, a, b);
    TwiceListedMatches(RepeatedIndex(f, x, y, a, b), x, a, b, (y, TermFrequency(1, 1)), idf);
  }

  /** A document whose match count reaches the number of query terms, all of
      them known, is a candidate. */
  lemma FullCountIsCandidate(ix: Index, terms: seq<string>, idf: Idf, id: string)
    requires forall i :: 0 <= i < |terms| ==> terms[i] in ix.postings.m
    requires terms != [] && MatchCount(ix, terms, id) == |terms|
    ensures id in Candidates(ix, terms, idf)
  {
    AccumulateDefined(ix, terms, idf);
    AccumulateEntry(ix, terms, idf, id);
    KeysCoverMap(Accumulate(ix, terms, idf).value);
  }

  // ---------------------------------------------------------------------------
  // write and read
  // ---------------------------------------------------------------------------

  /** One line after the header of the index file. */
  datatype TermRecord = TermRecord(term: string, documentsCount: int, index: seq<Posting>)

  /** The index file: the header's `number_of_documents` and one record per term.
      The JSON text itself is not modelled. */
  datatype IndexFile = IndexFile(numberOfDocuments: int, records: seq<TermRecord>)

  /** `write`: one record per key of `doc_counts`, in order, with the term's postings. */
  function Write(ix: Index): (r: IndexFile)
    requires ix.docCounts.Valid()
    ensures r.numberOfDocuments == ix.numberOfDocuments
    ensures |r.records| == |ix.docCounts.keys|
    ensures forall i :: 0 <= i < |r.records| ==>
              r.records[i].term == ix.docCounts.keys[i] &&
              r.records[i].documentsCount == ix.docCounts.m[r.records[i].term]
  {
    var ks := ix.docCounts.keys;
    IndexFile(ix.numberOfDocuments,
      seq(|ks|, i requires 0 <= i < |ks| =>
        TermRecord(ks[i], ix.docCounts.m[ks[i]], ix.postings.GetOr(ks[i], []))))
  }

  /** `read`: the header, then each record assigns its term's count and postings. */
  function Read(filename: string, f: IndexFile): (r: Index)
    ensures r.postings.Valid() && r.docCounts.Valid()
    ensures r.numberOfDocuments == f.numberOfDocuments
  {
    var rs := f.records;
    Index(filename, f.numberOfDocuments,
      FromItems(seq(|rs|, i requires 0 <= i < |rs| => (rs[i].term, rs[i].index))),
      FromItems(seq(|rs|, i requires 0 <= i < |rs| => (rs[i].term, rs[i].documentsCount))))
  }

  /** Writing an index and reading the file back gives the same index. */
  lemma ReadWrite(ix: Index)
    requires Inv(ix)
    ensures Read(ix.filename, Write(ix)) == ix
  {
    var rs := Write(ix).records;
    var postingItems := seq(|rs|, i requires 0 <= i < |rs| => (rs[i].term, rs[i].index));
    var countItems := seq(|rs|, i requires 0 <= i < |rs| => (rs[i].term, rs[i].documentsCount));
    assert countItems == ix.docCounts.Items();
    assert postingItems == ix.postings.Items();
    FromItemsOfItems(ix.docCounts);
    FromItemsOfItems(ix.postings);
  }
}
