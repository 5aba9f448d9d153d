/** The `Index` interface of index.py over its three implementations, and the
    two `Indexer` factories. Each kind answers `search` with its own code as
    written, so the list-based index ranks its results by ascending score. */
module Indexers {
  import opened Base
  import opened Documents
  import opened SearchApi
  import opened Frequencies
  import NaiveIndex
  import ListIndex
  import DictIndex

  datatype AnyIndex =
    | Naive(naive: NaiveIndex.Index)
    | ListBased(listBased: ListIndex.Index)
    | DictBased(dictBased: DictIndex.Index)

  /** The dicts inside the index are well formed, as `__init__` leaves them and
      `add_document` and `read` keep them. */
  ghost predicate Ready(ix: AnyIndex)
  {
    match ix
    case Naive(_) => true
    case ListBased(l) => l.postings.Valid() && l.docCounts.Valid()
    case DictBased(d) => DictIndex.WellFormed(d)
  }

  /** How many documents have been added: `len(docs)` for the naive index,
      `number_of_documents` for the others. */
  function DocumentCount(ix: AnyIndex): int
  {
    match ix
    case Naive(n) => |n.docs|
    case ListBased(l) => l.numberOfDocuments
    case DictBased(d) => d.numberOfDocuments
  }

  /** Document `id` has been indexed under term `t`. */
  ghost predicate Lists(ix: AnyIndex, t: string, id: string)
  {
    match ix
    case Naive(n) => exists i :: 0 <= i < |n.docs| && n.docs[i].docId == id && t in n.docs[i].tokens
    case ListBased(l) => id in Firsts(l.postings.GetOr(t, []))
    case DictBased(d) => id in DictIndex.PostingsOf(d, t).m
  }

  /** `add_document`. */
  function AddDocument(ix: AnyIndex, doc: TransformedDocument): (r: AnyIndex)
    requires Ready(ix)
    ensures Ready(r)
    ensures r.Naive? == ix.Naive? && r.ListBased? == ix.ListBased? && r.DictBased? == ix.DictBased?
    ensures DocumentCount(r) == DocumentCount(ix) + 1
  {
    match ix
    case Naive(n) => Naive(NaiveIndex.AddDocument(n, doc))
    case ListBased(l) => ListBased(ListIndex.AddDocument(l, doc))
    case DictBased(d) => DictBased(DictIndex.AddDocument(d, doc))
  }

  /** The documents a search for `terms` may return: every document holding
      all terms for the naive index, the documents every term's postings list
      for the inverted ones. */
  function Candidates(ix: AnyIndex, terms: seq<string>, idf: Idf): seq<string>
    requires Ready(ix)
  {
    match ix
    case Naive(n) => NaiveIndex.AllMatches(n.docs, terms)
    case ListBased(l) => ListIndex.Candidates(l, terms, idf)
    case DictBased(d) => DictIndex.Candidates(d, terms)
  }

  /** The tf-idf score `search` ranks a document by; the naive index does not rank. */
  function Relevance(ix: AnyIndex, terms: seq<string>, id: string, idf: Idf): real
  {
    match ix
    case Naive(_) => 0.0
    case ListBased(l) => ListIndex.MatchScore(l, terms, id, idf)
    case DictBased(d) => DictIndex.Score(d, terms, id, idf)
  }

  /** `search`: every id returned is a candidate, and a positive `num_results`
      returns that many, or all candidates when there are fewer. */
  function Search(ix: AnyIndex, q: Query, idf: Idf): (r: SearchResults)
    requires Ready(ix)
    ensures forall x :: x in r.resultDocIds ==> x in Candidates(ix, q.terms, idf)
    ensures q.numResults > 0 ==>
              |r.resultDocIds| == if q.numResults < |Candidates(ix, q.terms, idf)| then q.numResults else |Candidates(ix, q.terms, idf)|
    ensures !ix.Naive? && q.terms == [] ==> r.resultDocIds == []
  {
    match ix
    case Naive(n) =>
      NaiveIndex.SearchIsFirstMatches(n, q);
      NaiveIndex.Search(n, q)
    case ListBased(l) => ListIndex.Search(l, q, idf)
    case DictBased(d) => DictIndex.Search(d, q, idf)
  }

  /** The order of the results: the list-based index lists them from the
      lowest score up (index.py:146 sorts without `reverse=True`), the
      dict-based index from the highest score down. */
  lemma SearchOrder(ix: AnyIndex, q: Query, idf: Idf, i: int, j: int)
    requires Ready(ix)
    requires 0 <= i < j < |Search(ix, q, idf).resultDocIds|
    ensures ix.ListBased? ==>
              Relevance(ix, q.terms, Search(ix, q, idf).resultDocIds[i], idf) <=
              Relevance(ix, q.terms, Search(ix, q, idf).resultDocIds[j], idf)
    ensures ix.DictBased? ==>
              Relevance(ix, q.terms, Search(ix, q, idf).resultDocIds[i], idf) >=
              Relevance(ix, q.terms, Search(ix, q, idf).resultDocIds[j], idf)
  {
    match ix
    case Naive(_) =>
    case ListBased(l) =>
      ListIndex.SearchIsAscending(l, q, idf);
    case DictBased(d) =>
      DictIndex.SearchIsDescending(d, q, idf, i, j);
  }

  /** Adding a document lists its id under each of its tokens and under
      nothing else. */
  lemma AddDocumentLists(ix: AnyIndex, doc: TransformedDocument, t: string, id: string)
    requires Ready(ix)
    ensures Lists(AddDocument(ix, doc), t, id) <==> Lists(ix, t, id) || (id == doc.docId && t in doc.tokens)
  {
    match ix
    case Naive(n) =>
      var docs := NaiveIndex.AddDocument(n, doc).docs;
      if Lists(ix, t, id) {
        var i :| 0 <= i < |n.docs| && n.docs[i].docId == id && t in n.docs[i].tokens;
        assert docs[i] == n.docs[i];
      }
      if id == doc.docId && t in doc.tokens {
        assert docs[|n.docs|] == doc;
      }
    case ListBased(l) =>
      ListAddLists(l, doc, t, id);
    case DictBased(d) =>
      DictIndex.AddDocumentEffect(d, doc, t);
  }

  lemma ListAddLists(l: ListIndex.Index, doc: TransformedDocument, t: string, id: string)
    requires l.postings.Valid() && l.docCounts.Valid()
    ensures id in Firsts(ListIndex.AddDocument(l, doc).postings.GetOr(t, [])) <==>
              id in Firsts(l.postings.GetOr(t, [])) || (id == doc.docId && t in doc.tokens)
  {
    ListIndex.AddDocumentEffect(l, doc, t);
    var before := l.postings.GetOr(t, []);
    var after := ListIndex.AddDocument(l, doc).postings.GetOr(t, []);
    if t in doc.tokens {
      var entry := (doc.docId, TermFrequency(Count(doc.tokens, t), |doc.tokens|));
      assert after == before + [entry];
      IdsAppend(before, entry);
    } else {
      assert after == before;
    }
  }

  lemma IdsAppend(ps: seq<ListIndex.Posting>, p: ListIndex.Posting)
    ensures Firsts(ps + [p]) == Firsts(ps) + [p.0]
  {
  }

  /** Every document `search` returns is listed under every query term (for the
      list-based index, as long as no posting list names a document twice). */
  lemma SearchFindsListed(ix: AnyIndex, q: Query, idf: Idf, x: string, i: int)
    requires Ready(ix)
    requires ix.ListBased? ==> ListIndex.DistinctPostings(ix.listBased)
    requires x in Search(ix, q, idf).resultDocIds
    requires 0 <= i < |q.terms|
    ensures Lists(ix, q.terms[i], x)
  {
    match ix
    case Naive(n) =>
      NaiveIndex.AllMatchesSpec(n.docs, q.terms, x);
      var k :| 0 <= k < |n.docs| && n.docs[k].docId == x && NaiveIndex.HasAllTerms(n.docs[k], q.terms);
      assert q.terms[i] in n.docs[k].tokens;
    case ListBased(l) =>
      ListIndex.CandidatesHaveAllTerms(l, q.terms, idf, x);
    case DictBased(d) =>
      DictIndex.CandidatesAreListedByAll(d, q.terms, x);
  }

  // ---------------------------------------------------------------------------
  // indexers
  // ---------------------------------------------------------------------------

  datatype Indexer =
    | NaiveIndexer(indexFilename: string)
    | SingleIndexIndexer(index: AnyIndex)

  ghost predicate IndexerReady(indexer: Indexer)
  {
    indexer.SingleIndexIndexer? ==> Ready(indexer.index)
  }

  /** `create_index`: a new empty naive index for `NaiveIndexer`; the one index
      it was built with for `SingleIndexIndexer`, documents already added
      included. */
  function CreateIndex(indexer: Indexer): (r: AnyIndex)
    requires IndexerReady(indexer)
    ensures Ready(r)
    ensures indexer.NaiveIndexer? ==>
              r.Naive? && r.naive.filename == indexer.indexFilename && DocumentCount(r) == 0 &&
              forall t, id :: !Lists(r, t, id)
    ensures indexer.SingleIndexIndexer? ==> r == indexer.index
  {
    match indexer
    case NaiveIndexer(f) => Naive(NaiveIndex.Create(f))
    case SingleIndexIndexer(ix) => ix
  }

  /** A new index of either inverted kind lists nothing. */
  lemma FreshIndexesListNothing(filename: string, t: string, id: string)
    ensures !Lists(ListBased(ListIndex.Create(filename)), t, id)
    ensures !Lists(DictBased(DictIndex.Create(filename)), t, id)
    ensures Ready(ListBased(ListIndex.Create(filename))) && Ready(DictBased(DictIndex.Create(filename)))
  {
    assert ListIndex.Create(filename).postings.GetOr(t, []) == [];
  }
}
