/** `DictBasedInvertedIndexWithFrequencies` of index.py: for every term, a dict
    from document id to term frequency, the number of documents each term was
    counted in, and the number of documents. Adding a document id a second time
    overwrites its frequencies but still counts the document again. */
module DictIndex {
  import opened Base
  import opened Dicts
  import opened Sorting
  import opened Frequencies
  import opened Documents
  import opened SearchApi

  type Postings = Dict<string, real>

  datatype Index = Index(
    filename: string,
    numberOfDocuments: int,
    postings: Dict<string, Postings>,
    docCounts: Dict<string, int>)

  /** The dicts of the index are well formed, the per-term ones included. */
  ghost predicate WellFormed(ix: Index)
  {
    && ix.postings.Valid()
    && ix.docCounts.Valid()
    && (forall t :: t in ix.postings.m ==> ix.postings.m[t].Valid())
  }

  /** `__init__`. */
  function Create(filename: string): (r: Index)
    ensures Inv(r)
    ensures r.numberOfDocuments == 0
    ensures forall t :: t !in r.postings.m
  {
    Index(filename, 0, Empty(), Empty())
  }

  /** Both outer dicts list the same terms in the same order, and a term's
      document count is the number of documents in its postings. */
  ghost predicate Inv(ix: Index)
  {
    && WellFormed(ix)
    && ix.postings.keys == ix.docCounts.keys
    && (forall t :: t in ix.postings.m ==> t in ix.docCounts.m && ix.docCounts.m[t] == |ix.postings.m[t].m|)
  }

  /** The postings of `t`, or none. */
  function PostingsOf(ix: Index, t: string): Postings
  {
    ix.postings.GetOr(t, Empty())
  }

  lemma PostingsOfValid(ix: Index, t: string)
    requires WellFormed(ix)
    ensures PostingsOf(ix, t).Valid()
  {
  }

  /** One pass of the loop of `add_document`. */
  function AddPosting(ix: Index, docId: string, term: string, tf: real): (r: Index)
    requires WellFormed(ix)
    ensures WellFormed(r)
    ensures r.numberOfDocuments == ix.numberOfDocuments && r.filename == ix.filename
    ensures ix.postings.keys == ix.docCounts.keys ==> r.postings.keys == r.docCounts.keys
  {
    PostingsOfValid(ix, term);
    KeysCoverMap(ix.postings);
    KeysCoverMap(ix.docCounts);
    ix.(docCounts := ix.docCounts.Put(term, ix.docCounts.GetOr(term, 0) + 1),
        postings := ix.postings.Put(term, PostingsOf(ix, term).Put(docId, tf)))
  }

  /** The loop of `add_document` over `(term, tf)` pairs, in order. */
  function AddPostings(ix: Index, docId: string, tfs: seq<(string, real)>): (r: Index)
    requires WellFormed(ix)
    ensures WellFormed(r)
    ensures r.numberOfDocuments == ix.numberOfDocuments && r.filename == ix.filename
    ensures ix.postings.keys == ix.docCounts.keys ==> r.postings.keys == r.docCounts.keys
    decreases |tfs|
  {
    if tfs == [] then ix
    else
      var last := tfs[|tfs| - 1];
      AddPosting(AddPostings(ix, docId, tfs[..|tfs| - 1]), docId, last.0, last.1)
  }

  /** `add_document`. */
  function AddDocument(ix: Index, doc: TransformedDocument): (r: Index)
    requires WellFormed(ix)
    ensures WellFormed(r)
    ensures r.numberOfDocuments == ix.numberOfDocuments + 1
    ensures r.filename == ix.filename
    ensures ix.postings.keys == ix.docCounts.keys ==> r.postings.keys == r.docCounts.keys
  {
    AddPostings(ix.(numberOfDocuments := ix.numberOfDocuments + 1), doc.docId, TermFrequencies(doc.tokens))
  }

  /** The loop over pairs with distinct terms files `docId` under each of
      those terms, counts each of them once more, and leaves all else alone. */
  lemma {:induction false} AddPostingsEffect(ix: Index, docId: string, tfs: seq<(string, real)>, t: string)
    requires WellFormed(ix)
    requires NoDuplicates(Firsts(tfs))
    ensures PostingsOf(AddPostings(ix, docId, tfs), t).m ==
              if t in Firsts(tfs) then PostingsOf(ix, t).m[docId := FindTf(tfs, t).value] else PostingsOf(ix, t).m
    ensures AddPostings(ix, docId, tfs).docCounts.GetOr(t, 0) ==
              ix.docCounts.GetOr(t, 0) + (if t in Firsts(tfs) then 1 else 0)
    ensures t in AddPostings(ix, docId, tfs).postings.m <==> t in ix.postings.m || t in Firsts(tfs)
    decreases |tfs|
  {
    if tfs != [] {
      var front := tfs[..|tfs| - 1];
      var last := tfs[|tfs| - 1];
      assert Firsts(tfs) == Firsts(front) + [last.0];
      assert NoDuplicates(Firsts(front));
      AddPostingsEffect(ix, docId, front, t);
      if last.0 == t {
        assert t !in Firsts(front);
      }
    }
  }

  /** `add_document` sets the document's frequency under every term of the
      document (replacing an earlier one for the same id), counts the document
      once more for each of those terms, and changes nothing for other terms. */
  lemma AddDocumentEffect(ix: Index, doc: TransformedDocument, t: string)
    requires WellFormed(ix)
    ensures PostingsOf(AddDocument(ix, doc), t).m ==
              if t in doc.tokens
              then PostingsOf(ix, t).m[doc.docId := TermFrequency(Count(doc.tokens, t), |doc.tokens|)]
              else PostingsOf(ix, t).m
    ensures AddDocument(ix, doc).docCounts.GetOr(t, 0) ==
              ix.docCounts.GetOr(t, 0) + (if t in doc.tokens then 1 else 0)
    ensures t in AddDocument(ix, doc).postings.m <==> t in ix.postings.m || t in doc.tokens
  {
    AddDocumentPostings(ix, doc, t);
    AddDocumentCounts(ix, doc, t);
  }

  lemma AddDocumentPostings(ix: Index, doc: TransformedDocument, t: string)
    requires WellFormed(ix)
    ensures PostingsOf(AddDocument(ix, doc), t).m ==
              if t in doc.tokens
              then PostingsOf(ix, t).m[doc.docId := TermFrequency(Count(doc.tokens, t), |doc.tokens|)]
              else PostingsOf(ix, t).m
  {
    var start := ix.(numberOfDocuments := ix.numberOfDocuments + 1);
    var tfs := TermFrequencies(doc.tokens);
    var r := AddPostings(start, doc.docId, tfs);
    assert AddDocument(ix, doc) == r;
    FindTermFrequency(doc.tokens, t);
    AddPostingsEffect(start, doc.docId, tfs, t);
    if t in doc.tokens {
      assert t in Firsts(tfs);
    } else {
      assert t !in Firsts(tfs);
    }
  }

  lemma AddDocumentCounts(ix: Index, doc: TransformedDocument, t: string)
    requires WellFormed(ix)
    ensures AddDocument(ix, doc).docCounts.GetOr(t, 0) ==
              ix.docCounts.GetOr(t, 0) + (if t in doc.tokens then 1 else 0)
    ensures t in AddDocument(ix, doc).postings.m <==> t in ix.postings.m || t in doc.tokens
  {
    var start := ix.(numberOfDocuments := ix.numberOfDocuments + 1);
    var tfs := TermFrequencies(doc.tokens);
    var r := AddPostings(start, doc.docId, tfs);
    assert AddDocument(ix, doc) == r;
    FindTermFrequency(doc.tokens, t);
    AddPostingsEffect(start, doc.docId, tfs, t);
    if t in doc.tokens {
      assert t in Firsts(tfs);
    } else {
      assert t !in Firsts(tfs);
    }
  }

  lemma AddDocumentKeepsCount(ix: Index, doc: TransformedDocument, t: string)
    requires Inv(ix)
    requires forall u :: u in ix.postings.m ==> doc.docId !in ix.postings.m[u].m
    requires t in AddDocument(ix, doc).postings.m
    ensures AddDocument(ix, doc).docCounts.GetOr(t, 0) == |AddDocument(ix, doc).postings.m[t].m|
  {
    assert |PostingsOf(ix, t).m| == ix.docCounts.GetOr(t, 0) && doc.docId !in PostingsOf(ix, t).m by {
      KeysCoverMap(ix.postings);
      KeysCoverMap(ix.docCounts);
      assert t in ix.postings.m <==> t in ix.docCounts.m;
    }
    AddDocumentEffect(ix, doc, t);
  }

  /** Adding a document whose id is not indexed yet keeps the counts equal to
      the sizes of the postings. */
  lemma AddDocumentKeepsInv(ix: Index, doc: TransformedDocument)
    requires Inv(ix)
    requires forall t :: t in ix.postings.m ==> doc.docId !in ix.postings.m[t].m
    ensures Inv(AddDocument(ix, doc))
  {
    AddDocumentKeepsCounts(ix, doc);
    InvOfParts(AddDocument(ix, doc));
  }

  lemma InvOfParts(ix: Index)
    requires WellFormed(ix)
    requires ix.postings.keys == ix.docCounts.keys
    requires forall t :: t in ix.postings.m ==> t in ix.docCounts.m && ix.docCounts.m[t] == |ix.postings.m[t].m|
    ensures Inv(ix)
  {
  }

  lemma AddDocumentKeepsCounts(ix: Index, doc: TransformedDocument)
    requires Inv(ix)
    requires forall t :: t in ix.postings.m ==> doc.docId !in ix.postings.m[t].m
    ensures forall t :: t in AddDocument(ix, doc).postings.m ==>
              t in AddDocument(ix, doc).docCounts.m &&
              AddDocument(ix, doc).docCounts.m[t] == |AddDocument(ix, doc).postings.m[t].m|
  {
    var r := AddDocument(ix, doc);
    forall t | t in r.postings.m ensures t in r.docCounts.m && r.docCounts.m[t] == |r.postings.m[t].m| {
      KeysCoverMap(r.postings);
      KeysCoverMap(r.docCounts);
      AddDocumentKeepsCount(ix, doc, t);
    }
  }

  /** Adding a document again under an id that a term of it already lists
      counts the document once more for that term while its postings keep the
      same size, so the counts no longer match the postings. */
  lemma RepeatedDocumentOvercounts(ix: Index, doc: TransformedDocument, t: string)
    requires Inv(ix)
    requires t in doc.tokens && t in ix.postings.m && doc.docId in ix.postings.m[t].m
    ensures AddDocument(ix, doc).docCounts.GetOr(t, 0) == |PostingsOf(AddDocument(ix, doc), t).m| + 1
    ensures !Inv(AddDocument(ix, doc))
  {
    var before := ix.postings.m[t].m;
    var tf := TermFrequency(Count(doc.tokens, t), |doc.tokens|);
    assert |before[doc.docId := tf]| == |before| by {
      assert before[doc.docId := tf].Keys == before.Keys;
    }
    AddDocumentEffect(ix, doc, t);
  }

  // ---------------------------------------------------------------------------
  // search
  // ---------------------------------------------------------------------------

  /** `result_doc_ids` while the terms are scanned: `None` before the first
      term, then the ids that every term so far lists. */
  datatype Narrowed = Unset | Ids(ids: seq<string>)

  /** `ids & postings.keys()`, keeping the order of `ids`. */
  function Keep(ids: seq<string>, p: Postings): (r: seq<string>)
    ensures forall x :: x in r <==> x in ids && x in p.m
    ensures NoDuplicates(ids) ==> NoDuplicates(r)
    decreases |ids|
  {
    if ids == [] then []
    else
      var last := ids[|ids| - 1];
      var front := ids[..|ids| - 1];
      assert forall x :: x in ids <==> x in front || x == last;
      Keep(front, p) + if last in p.m then [last] else []
  }

  /** The first loop of `search`, from term `i` on: `None` where it returns
      early, because a term has no postings or no id is left. */
  function Narrow(ix: Index, terms: seq<string>, i: int, cur: Narrowed): (r: Option<Narrowed>)
    requires WellFormed(ix)
    requires 0 <= i <= |terms|
    ensures (exists j :: i <= j < |terms| && terms[j] !in ix.postings.m) ==> r.None?
    ensures r == Some(Unset) ==> cur == Unset && i == |terms|
    ensures (cur.Unset? || NoDuplicates(cur.ids)) && r.Some? && r.value.Ids? ==> NoDuplicates(r.value.ids)
    decreases |terms| - i
  {
    if i == |terms| then Some(cur)
    else
      var t := terms[i];
      if t !in ix.postings.m || cur == Ids([]) then None
      else
        var p := ix.postings.m[t];
        Narrow(ix, terms, i + 1, if cur.Unset? then Ids(p.keys) else Ids(Keep(cur.ids, p)))
  }

  /** The ids left after the first loop of `search` (none after an early return). */
  function Candidates(ix: Index, terms: seq<string>): (r: seq<string>)
    requires WellFormed(ix)
    ensures NoDuplicates(r)
  {
    match Narrow(ix, terms, 0, Unset)
    case Some(Ids(ids)) => ids
    case _ => []
  }

  /** `inverse_document_frequency(doc_counts[term], number_of_documents)`;
      `doc_counts` is a Counter, so a missing term counts as 0. */
  function TermIdf(ix: Index, t: string, idf: Idf): real
  {
    idf(ix.docCounts.GetOr(t, 0), ix.numberOfDocuments)
  }

  /** `tf * idf` of one term for one document (no frequency counts as 0). */
  function Gain(ix: Index, t: string, id: string, idf: Idf): real
  {
    PostingsOf(ix, t).GetOr(id, 0.0) * TermIdf(ix, t, idf)
  }

  /** The score of a document for the query terms: the sum over the terms, a
      repeated term as often as it is repeated, of its frequency in the
      document times its idf. */
  function Score(ix: Index, terms: seq<string>, id: string, idf: Idf): real
    decreases |terms|
  {
    if terms == [] then 0.0
    else Score(ix, terms[..|terms| - 1], id, idf) + Gain(ix, terms[|terms| - 1], id, idf)
  }

  function ScoreOf(ix: Index, terms: seq<string>, idf: Idf): string -> real
  {
    id => Score(ix, terms, id, idf)
  }

  /** `search`: the candidates by descending score, cut to `num_results` with
      Python's slice. Ties keep the candidates' order, which is the first term's
      postings order here; Python takes it from a set. */
  function Search(ix: Index, q: Query, idf: Idf): (r: SearchResults)
    requires WellFormed(ix)
    ensures q.terms == [] ==> r.resultDocIds == []
    ensures (exists i :: 0 <= i < |q.terms| && q.terms[i] !in ix.postings.m) ==> r.resultDocIds == []
    ensures q.numResults >= 0 ==>
              |r.resultDocIds| == if q.numResults < |Candidates(ix, q.terms)| then q.numResults else |Candidates(ix, q.terms)|
    ensures NoDuplicates(r.resultDocIds)
    ensures forall x :: x in r.resultDocIds ==> x in Candidates(ix, q.terms)
  {
    var c := Candidates(ix, q.terms);
    var key := ScoreOf(ix, q.terms, idf);
    SortNoDuplicates(c, key, true);
    SortKeepsElements(c, key, true);
    PrefixNoDuplicates(Sort(c, key, true), q.numResults);
    SearchResults(Prefix(Sort(c, key, true), q.numResults))
  }

  /** Every query term has postings, and all of them list `id`. */
  ghost predicate ListedByAll(ix: Index, terms: seq<string>, id: string, from: nat)
  {
    forall j :: from <= j < |terms| ==> terms[j] in ix.postings.m && id in ix.postings.m[terms[j]].m
  }

  lemma ListedByAllStep(ix: Index, terms: seq<string>, id: string, i: nat)
    requires i < |terms|
    ensures ListedByAll(ix, terms, id, i) <==>
              terms[i] in ix.postings.m && id in ix.postings.m[terms[i]].m && ListedByAll(ix, terms, id, i + 1)
  {
  }

  lemma {:induction false} NarrowMembers(ix: Index, terms: seq<string>, i: int, cur: Narrowed, id: string)
    requires WellFormed(ix)
    requires 0 <= i <= |terms|
    ensures (Narrow(ix, terms, i, cur).Some? && Narrow(ix, terms, i, cur).value.Ids? &&
             id in Narrow(ix, terms, i, cur).value.ids)
            <==>
            ListedByAll(ix, terms, id, i) && (if cur.Unset? then i < |terms| else id in cur.ids)
    decreases |terms| - i
  {
    if i < |terms| {
      var t := terms[i];
      if t !in ix.postings.m {
        assert !ListedByAll(ix, terms, id, i);
      } else if cur != Ids([]) {
        var p := ix.postings.m[t];
        var next := if cur.Unset? then Ids(p.keys) else Ids(Keep(cur.ids, p));
        assert Narrow(ix, terms, i, cur) == Narrow(ix, terms, i + 1, next);
        NarrowMembers(ix, terms, i + 1, next, id);
        ListedByAllStep(ix, terms, id, i);
        KeysCoverMap(p);
        assert id in next.ids <==> id in p.m && (cur.Unset? || id in cur.ids);
      }
    }
  }

  /** The first loop of `search` keeps exactly the ids that every query term
      lists, and none for an empty query. */
  lemma CandidatesAreListedByAll(ix: Index, terms: seq<string>, id: string)
    requires WellFormed(ix)
    ensures id in Candidates(ix, terms) <==>
              terms != [] &&
              forall j :: 0 <= j < |terms| ==> terms[j] in ix.postings.m && id in ix.postings.m[terms[j]].m
  {
    NarrowMembers(ix, terms, 0, Unset, id);
  }

  /** The results are ranked: each scores at least as high as the next. */
  lemma SearchIsDescending(ix: Index, q: Query, idf: Idf, i: int, j: int)
    requires WellFormed(ix)
    requires 0 <= i < j < |Search(ix, q, idf).resultDocIds|
    ensures Score(ix, q.terms, Search(ix, q, idf).resultDocIds[i], idf) >=
            Score(ix, q.terms, Search(ix, q, idf).resultDocIds[j], idf)
  {
    var key := ScoreOf(ix, q.terms, idf);
    var sorted := Sort(Candidates(ix, q.terms), key, true);
    assert Search(ix, q, idf).resultDocIds <= sorted;
    assert Precedes(key(sorted[i]), key(sorted[j]), true);
  }

  /** Whatever the cut to `num_results` drops scores no higher than anything
      kept. */
  lemma SearchKeepsMostRelevant(ix: Index, q: Query, idf: Idf, x: string, y: string)
    requires WellFormed(ix)
    requires x in Search(ix, q, idf).resultDocIds
    requires y in Candidates(ix, q.terms) && y !in Search(ix, q, idf).resultDocIds
    ensures Score(ix, q.terms, x, idf) >= Score(ix, q.terms, y, idf)
  {
    var key := ScoreOf(ix, q.terms, idf);
    var c := Candidates(ix, q.terms);
    SortKeepsElements(c, key, true);
    PrefixOfSorted(Sort(c, key, true), key, true, q.numResults, x, y);
  }

  /** With room for all of them, every candidate is returned. */
  lemma AllCandidatesFit(ix: Index, q: Query, idf: Idf, x: string)
    requires WellFormed(ix)
    requires q.numResults >= |Candidates(ix, q.terms)|
    requires x in Candidates(ix, q.terms)
    ensures x in Search(ix, q, idf).resultDocIds
  {
    SortKeepsElements(Candidates(ix, q.terms), ScoreOf(ix, q.terms, idf), true);
  }

  /** The inner loop of the second loop of `search`: for each id in order,
      `match_scores[docid] += gain(docid)`, a missing entry starting at 0.0. */
  function TermPass(scores: Dict<string, real>, ids: seq<string>, gain: string -> real): (r: Dict<string, real>)
    requires scores.Valid()
    ensures r.Valid()
    decreases |ids|
  {
    if ids == [] then scores
    else
      var prior := TermPass(scores, ids[..|ids| - 1], gain);
      var id := ids[|ids| - 1];
      prior.Put(id, prior.GetOr(id, 0.0) + gain(id))
  }

  /** The second loop of `search`, over the query terms in order: `match_scores`
      for the ids left after the first loop. */
  function MatchScores(ix: Index, terms: seq<string>, ids: seq<string>, idf: Idf): (r: Dict<string, real>)
    ensures r.Valid()
    decreases |terms|
  {
    if terms == [] then Empty()
    else
      var t := terms[|terms| - 1];
      TermPass(MatchScores(ix, terms[..|terms| - 1], ids, idf), ids, id => Gain(ix, t, id, idf))
  }

  /** One pass holds the ids it was given besides the ids it started with. */
  lemma {:induction false} TermPassMembers(scores: Dict<string, real>, ids: seq<string>, gain: string -> real, id: string)
    requires scores.Valid()
    ensures id in TermPass(scores, ids, gain).m <==> id in scores.m || id in ids
    decreases |ids|
  {
    if ids != [] {
      var front := ids[..|ids| - 1];
      assert id in ids <==> id in front || id == ids[|ids| - 1];
      TermPassMembers(scores, front, gain, id);
    }
  }

  /** One pass over distinct ids adds each id's gain once and leaves other
      entries alone. */
  lemma {:induction false} TermPassValues(scores: Dict<string, real>, ids: seq<string>, gain: string -> real, id: string)
    requires scores.Valid() && NoDuplicates(ids)
    requires id in scores.m || id in ids
    ensures id in TermPass(scores, ids, gain).m
    ensures TermPass(scores, ids, gain).m[id] == if id in ids then scores.GetOr(id, 0.0) + gain(id) else scores.m[id]
    decreases |ids|
  {
    TermPassMembers(scores, ids, gain, id);
    if ids != [] {
      var front := ids[..|ids| - 1];
      var last := ids[|ids| - 1];
      assert id in ids <==> id in front || id == last;
      assert last !in front;
      if id != last || id in scores.m {
        TermPassValues(scores, front, gain, id);
      } else {
        TermPassMembers(scores, front, gain, id);
      }
    }
  }

  /** A pass into an empty dict lays down exactly `ids`, in order. */
  lemma {:induction false} TermPassFromEmpty(scores: Dict<string, real>, ids: seq<string>, gain: string -> real)
    requires scores.Valid() && NoDuplicates(ids) && scores.keys == []
    ensures TermPass(scores, ids, gain).keys == ids
    decreases |ids|
  {
    if ids != [] {
      var front := ids[..|ids| - 1];
      var last := ids[|ids| - 1];
      var prior := TermPass(scores, front, gain);
      TermPassFromEmpty(scores, front, gain);
      assert last !in prior.m by {
        assert last !in front;
        assert last !in scores.m by { KeysCoverMap(scores); }
        TermPassMembers(scores, front, gain, last);
      }
      assert ids == front + [last];
    }
  }

  /** A pass over a dict that already holds every id keeps its key order. */
  lemma {:induction false} TermPassKeepsKeys(scores: Dict<string, real>, ids: seq<string>, gain: string -> real)
    requires scores.Valid()
    requires forall id :: id in ids ==> id in scores.m
    ensures TermPass(scores, ids, gain).keys == scores.keys
    decreases |ids|
  {
    if ids != [] {
      var front := ids[..|ids| - 1];
      var last := ids[|ids| - 1];
      assert forall id :: id in front ==> id in ids;
      TermPassKeepsKeys(scores, front, gain);
      TermPassMembers(scores, front, gain, last);
    }
  }

  /** `match_scores` holds exactly the ids left after the first loop (none for
      an empty query), in their order, each with its score. */
  lemma {:induction false} MatchScoresAreScores(ix: Index, terms: seq<string>, ids: seq<string>, idf: Idf)
    requires NoDuplicates(ids)
    ensures MatchScores(ix, terms, ids, idf).keys == if terms == [] then [] else ids
    ensures forall id :: id in MatchScores(ix, terms, ids, idf).m ==>
              MatchScores(ix, terms, ids, idf).m[id] == Score(ix, terms, id, idf)
    decreases |terms|
  {
    if terms != [] {
      var front := terms[..|terms| - 1];
      var t := terms[|terms| - 1];
      var prior := MatchScores(ix, front, ids, idf);
      MatchScoresAreScores(ix, front, ids, idf);
      KeysCoverMap(prior);
      var gain := id => Gain(ix, t, id, idf);
      if front == [] {
        TermPassFromEmpty(prior, ids, gain);
      } else {
        TermPassKeepsKeys(prior, ids, gain);
      }
      forall id | id in MatchScores(ix, terms, ids, idf).m
        ensures MatchScores(ix, terms, ids, idf).m[id] == Score(ix, terms, id, idf)
      {
        TermPassMembers(prior, ids, gain, id);
        assert id in ids;
        TermPassValues(prior, ids, gain, id);
        assert prior.GetOr(id, 0.0) == Score(ix, front, id, idf);
      }
    }
  }

  // ---------------------------------------------------------------------------
  // write and read
  // ---------------------------------------------------------------------------

  /** One line after the header of the index file: the term, its count and its
      `(doc_id, tf)` pairs. */
  datatype TermRecord = TermRecord(term: string, documentsCount: int, index: seq<(string, real)>)

  /** The index file: the header's `number_of_documents` and one record per
      term. The JSON text itself is not modelled. */
  datatype IndexFile = IndexFile(numberOfDocuments: int, records: seq<TermRecord>)

  /** `write`: one record per key of `doc_counts`, in order, with the items of
      the term's postings dict. */
  function Write(ix: Index): (r: IndexFile)
    requires WellFormed(ix)
    ensures r.numberOfDocuments == ix.numberOfDocuments
    ensures |r.records| == |ix.docCounts.keys|
    ensures forall i :: 0 <= i < |r.records| ==>
              r.records[i].term == ix.docCounts.keys[i] &&
              r.records[i].documentsCount == ix.docCounts.m[r.records[i].term]
  {
    var ks := ix.docCounts.keys;
    assert forall t :: PostingsOf(ix, t).Valid() by {
      forall t { PostingsOfValid(ix, t); }
    }
    IndexFile(ix.numberOfDocuments,
      seq(|ks|, i requires 0 <= i < |ks| =>
        TermRecord(ks[i], ix.docCounts.m[ks[i]], PostingsOf(ix, ks[i]).Items())))
  }

  /** `read`: the header, then each record assigns its term's count and a dict
      built from its pairs. */
  function Read(filename: string, f: IndexFile): (r: Index)
    ensures r.postings.Valid() && r.docCounts.Valid()
    ensures r.numberOfDocuments == f.numberOfDocuments
  {
    var rs := f.records;
    Index(filename, f.numberOfDocuments,
      FromItems(seq(|rs|, i requires 0 <= i < |rs| => (rs[i].term, FromItems(rs[i].index)))),
      FromItems(seq(|rs|, i requires 0 <= i < |rs| => (rs[i].term, rs[i].documentsCount))))
  }

  /** Writing an index and reading the file back gives the same index. Only
      the two dicts' agreement on their keys is needed, so an index whose
      counts a repeated `add_document` has pushed past its postings
      round-trips too. */
  lemma ReadWrite(ix: Index)
    requires WellFormed(ix) && ix.postings.keys == ix.docCounts.keys
    ensures Read(ix.filename, Write(ix)) == ix
  {
    var rs := Write(ix).records;
    var postingItems := seq(|rs|, i requires 0 <= i < |rs| => (rs[i].term, FromItems(rs[i].index)));
    var countItems := seq(|rs|, i requires 0 <= i < |rs| => (rs[i].term, rs[i].documentsCount));
    assert countItems == ix.docCounts.Items();
    forall i | 0 <= i < |rs| ensures postingItems[i] == ix.postings.Items()[i] {
      var t := ix.postings.keys[i];
      FromItemsOfItems(ix.postings.m[t]);
    }
    assert postingItems == ix.postings.Items();
    FromItemsOfItems(ix.docCounts);
    FromItemsOfItems(ix.postings);
  }
}
