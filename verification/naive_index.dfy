/** `NaiveIndex` of index.py: the transformed documents in the order they were
    added, searched by a linear scan for documents that contain every query
    term. */
module NaiveIndex {
  import opened Base
  import opened Documents
  import opened SearchApi

  datatype Index = Index(filename: string, docs: seq<TransformedDocument>)

  /** `__init__`. */
  function Create(filename: string): (r: Index)
    ensures r.filename == filename
    ensures forall q :: Search(r, q).resultDocIds == []
  {
    Index(filename, [])
  }

  /** `add_document`: the document goes last. */
  function AddDocument(ix: Index, doc: TransformedDocument): (r: Index)
    ensures r.filename == ix.filename
    ensures |r.docs| == |ix.docs| + 1 && r.docs[|ix.docs|] == doc
    ensures forall i :: 0 <= i < |ix.docs| ==> r.docs[i] == ix.docs[i]
  {
    ix.(docs := ix.docs + [doc])
  }

  /** `set(query.terms).issubset(doc.tokens)`. */
  predicate HasAllTerms(doc: TransformedDocument, terms: seq<string>)
  {
    forall i :: 0 <= i < |terms| ==> terms[i] in doc.tokens
  }

  /** Reference: the ids of all documents that contain every term, in order. */
  function AllMatches(docs: seq<TransformedDocument>, terms: seq<string>): (r: seq<string>)
    ensures |r| <= |docs|
    decreases |docs|
  {
    if docs == [] then []
    else (if HasAllTerms(docs[0], terms) then [docs[0].docId] else []) + AllMatches(docs[1..], terms)
  }

  /** The loop of `search`: after each document, stop once exactly
      `num_results` ids have been collected. */
  function Scan(docs: seq<TransformedDocument>, terms: seq<string>, numResults: int, found: seq<string>): (r: seq<string>)
    ensures found <= r
    decreases |docs|
  {
    if docs == [] then found
    else
      var next := if HasAllTerms(docs[0], terms) then found + [docs[0].docId] else found;
      if |next| == numResults then next else Scan(docs[1..], terms, numResults, next)
  }

  /** `search`. */
  function Search(ix: Index, q: Query): (r: SearchResults)
    ensures forall x :: x in r.resultDocIds ==> x in AllMatches(ix.docs, q.terms)
  {
    SearchIsFirstMatches(ix, q);
    SearchResults(Scan(ix.docs, q.terms, q.numResults, []))
  }

  /** An id is matched exactly when some document with that id has every term. */
  lemma {:induction false} AllMatchesSpec(docs: seq<TransformedDocument>, terms: seq<string>, id: string)
    ensures id in AllMatches(docs, terms) <==>
              exists i :: 0 <= i < |docs| && docs[i].docId == id && HasAllTerms(docs[i], terms)
    decreases |docs|
  {
    if docs != [] {
      AllMatchesSpec(docs[1..], terms, id);
      if id in AllMatches(docs[1..], terms) {
        var i :| 0 <= i < |docs[1..]| && docs[1..][i].docId == id && HasAllTerms(docs[1..][i], terms);
        assert docs[i + 1] == docs[1..][i];
      }
      if exists i :: 0 <= i < |docs| && docs[i].docId == id && HasAllTerms(docs[i], terms) {
        var i :| 0 <= i < |docs| && docs[i].docId == id && HasAllTerms(docs[i], terms);
        if i > 0 {
          assert docs[1..][i - 1] == docs[i];
        }
      }
    }
  }

  /** Adding a document appends its id to the matches when it has every term. */
  lemma {:induction false} AllMatchesAppend(docs: seq<TransformedDocument>, doc: TransformedDocument, terms: seq<string>)
    ensures AllMatches(docs + [doc], terms) ==
              AllMatches(docs, terms) + if HasAllTerms(doc, terms) then [doc.docId] else []
    decreases |docs|
  {
    if docs != [] {
      assert (docs + [doc])[1..] == docs[1..] + [doc];
      AllMatchesAppend(docs[1..], doc, terms);
    }
  }

  /** Once more ids are collected than wanted (or fewer than none are wanted),
      the stop test can no longer fire and the scan collects every match. */
  lemma {:induction false} ScanPastLimit(docs: seq<TransformedDocument>, terms: seq<string>, numResults: int, found: seq<string>)
    requires numResults < |found|
    ensures Scan(docs, terms, numResults, found) == found + AllMatches(docs, terms)
    decreases |docs|
  {
    if docs != [] {
      var next := if HasAllTerms(docs[0], terms) then found + [docs[0].docId] else found;
      assert Scan(docs, terms, numResults, found) == Scan(docs[1..], terms, numResults, next);
      ScanPastLimit(docs[1..], terms, numResults, next);
      assert found + AllMatches(docs, terms) == next + AllMatches(docs[1..], terms) by {
        if HasAllTerms(docs[0], terms) {
          assert AllMatches(docs, terms) == [docs[0].docId] + AllMatches(docs[1..], terms);
        } else {
          assert AllMatches(docs, terms) == AllMatches(docs[1..], terms);
        }
      }
    }
  }

  /** Below the limit, the scan collects the first matches up to the limit. */
  lemma {:induction false} ScanBelowLimit(docs: seq<TransformedDocument>, terms: seq<string>, numResults: int, found: seq<string>)
    requires |found| < numResults
    ensures Scan(docs, terms, numResults, found) == found + Prefix(AllMatches(docs, terms), numResults - |found|)
    decreases |docs|
  {
    if docs != [] {
      var all := AllMatches(docs, terms);
      var rest := AllMatches(docs[1..], terms);
      var k := numResults - |found|;
      if HasAllTerms(docs[0], terms) {
        var next := found + [docs[0].docId];
        assert all == [docs[0].docId] + rest;
        if |next| == numResults {
          assert Prefix(all, k) == [docs[0].docId];
        } else {
          ScanBelowLimit(docs[1..], terms, numResults, next);
          assert Prefix(all, k) == [docs[0].docId] + Prefix(rest, k - 1);
        }
      } else {
        assert all == rest;
        ScanBelowLimit(docs[1..], terms, numResults, found);
      }
    }
  }

  /** What `search` returns, by the sign of `num_results`: the first
      `num_results` matches for a positive one, every match for a negative one,
      and for zero every match if the first document matches (the stop test only
      fires when it sees exactly zero ids) and none otherwise. */
  lemma SearchIsFirstMatches(ix: Index, q: Query)
    ensures q.numResults > 0 ==>
              Scan(ix.docs, q.terms, q.numResults, []) == Prefix(AllMatches(ix.docs, q.terms), q.numResults)
    ensures q.numResults < 0 ==>
              Scan(ix.docs, q.terms, q.numResults, []) == AllMatches(ix.docs, q.terms)
    ensures q.numResults == 0 ==>
              Scan(ix.docs, q.terms, q.numResults, []) ==
                if ix.docs != [] && HasAllTerms(ix.docs[0], q.terms) then AllMatches(ix.docs, q.terms) else []
  {
    var docs, terms, n := ix.docs, q.terms, q.numResults;
    if n > 0 {
      ScanBelowLimit(docs, terms, n, []);
    } else if n < 0 {
      ScanPastLimit(docs, terms, n, []);
    } else if docs != [] && HasAllTerms(docs[0], terms) {
      ScanPastLimit(docs[1..], terms, n, [docs[0].docId]);
      assert [] + [docs[0].docId] == [docs[0].docId];
      assert Scan(docs, terms, n, []) == Scan(docs[1..], terms, n, [docs[0].docId]);
      assert AllMatches(docs, terms) == [docs[0].docId] + AllMatches(docs[1..], terms);
    }
  }

  /** A query without terms matches every document. */
  lemma {:induction false} EmptyQueryMatchesAll(docs: seq<TransformedDocument>)
    ensures |AllMatches(docs, [])| == |docs|
    ensures forall i :: 0 <= i < |docs| ==> AllMatches(docs, [])[i] == docs[i].docId
    decreases |docs|
  {
    if docs != [] {
      EmptyQueryMatchesAll(docs[1..]);
    }
  }

  // ---------------------------------------------------------------------------
  // write and read
  // ---------------------------------------------------------------------------

  /** One element of the JSON list the index file holds. */
  datatype DocRecord = DocRecord(docId: string, tokens: seq<string>)

  /** `write`: one record per document, in order. */
  function Write(ix: Index): (r: seq<DocRecord>)
    ensures |r| == |ix.docs|
    ensures forall i :: 0 <= i < |r| ==> r[i].docId == ix.docs[i].docId && r[i].tokens == ix.docs[i].tokens
  {
    seq(|ix.docs|, i requires 0 <= i < |ix.docs| => DocRecord(ix.docs[i].docId, ix.docs[i].tokens))
  }

  /** `read`: one document per record, in order. */
  function Read(filename: string, records: seq<DocRecord>): (r: Index)
    ensures r.filename == filename
    ensures |r.docs| == |records|
  {
    Index(filename, seq(|records|, i requires 0 <= i < |records| =>
      TransformedDocument(records[i].docId, records[i].tokens)))
  }

  /** Writing an index and reading the file back gives the same index, and
      reading a file and writing it out gives the same records. */
  lemma ReadWrite(ix: Index, records: seq<DocRecord>)
    ensures Read(ix.filename, Write(ix)) == ix
    ensures Write(Read(ix.filename, records)) == records
  {
    assert Read(ix.filename, Write(ix)).docs == ix.docs;
  }
}
