/** `DefaultIndexingProcess.run` of indexing_process.py: ask the indexer for an
    index, then transform and add every document of the collection in
    iteration order. Reading the collection from its source is I/O; `Run` takes
    the collection that `source.read()` returns. */
module IndexingProcess {
  import opened Base
  import opened Dicts
  import opened Documents
  import opened DocumentTransformer
  import opened Tokenizer
  import opened Indexers
  import NaiveIndex
  import ListIndex
  import DictIndex

  /** The loop of `run`, over `docs` in order. */
  function AddAll(ix: AnyIndex, docs: seq<InputDocument>): (r: AnyIndex)
    requires Ready(ix)
    ensures Ready(r)
    ensures r.Naive? == ix.Naive? && r.ListBased? == ix.ListBased? && r.DictBased? == ix.DictBased?
    ensures DocumentCount(r) == DocumentCount(ix) + |docs|
    decreases |docs|
  {
    if docs == [] then ix
    else AddDocument(AddAll(ix, docs[..|docs| - 1]), TransformDocument(docs[|docs| - 1]))
  }

  /** `run`. */
  function Run(indexer: Indexer, collection: DocumentCollection): (r: AnyIndex)
    requires IndexerReady(indexer) && collection.Valid()
    ensures Ready(r)
    ensures DocumentCount(r) == DocumentCount(CreateIndex(indexer)) + |collection.m|
    ensures collection.m == map[] ==> r == CreateIndex(indexer)
  {
    AddAll(CreateIndex(indexer), Iter(collection))
  }

  /** `doc` has id `id` and `t` among the tokens of its text, which are the
      tokens of its transformed document. */
  ghost predicate Names(doc: InputDocument, t: string, id: string)
  {
    doc.docId == id && t in Tokenize(doc.text)
  }

  /** Some document of `docs` has id `id` and `t` among its tokens. */
  ghost predicate Mentions(docs: seq<InputDocument>, t: string, id: string)
  {
    exists i :: 0 <= i < |docs| && Names(docs[i], t, id)
  }

  /** After the loop, a document is listed under a term exactly when it was
      listed before or one of the added documents with that id has the term
      among its tokens. */
  lemma {:induction false} AddAllLists(ix: AnyIndex, docs: seq<InputDocument>, t: string, id: string)
    requires Ready(ix)
    ensures Lists(AddAll(ix, docs), t, id) <==> Lists(ix, t, id) || Mentions(docs, t, id)
    decreases |docs|
  {
    if docs != [] {
      var front := docs[..|docs| - 1];
      var last := docs[|docs| - 1];
      var mid := AddAll(ix, front);
      assert AddAll(ix, docs) == AddDocument(mid, TransformDocument(last));
      AddAllLists(ix, front, t, id);
      AddDocumentLists(mid, TransformDocument(last), t, id);
      MentionsSnoc(docs, t, id);
    }
  }

  lemma MentionsSnoc(docs: seq<InputDocument>, t: string, id: string)
    requires docs != []
    ensures Mentions(docs, t, id) <==> Mentions(docs[..|docs| - 1], t, id) || Names(docs[|docs| - 1], t, id)
  {
    MentionsShrink(docs, t, id);
    MentionsGrow(docs, t, id);
  }

  lemma MentionsShrink(docs: seq<InputDocument>, t: string, id: string)
    requires docs != []
    ensures Mentions(docs, t, id) ==> Mentions(docs[..|docs| - 1], t, id) || Names(docs[|docs| - 1], t, id)
  {
    if Mentions(docs, t, id) && !Names(docs[|docs| - 1], t, id) {
      var i :| 0 <= i < |docs| && Names(docs[i], t, id);
      assert docs[..|docs| - 1][i] == docs[i];
    }
  }

  lemma MentionsGrow(docs: seq<InputDocument>, t: string, id: string)
    requires docs != []
    ensures Mentions(docs[..|docs| - 1], t, id) || Names(docs[|docs| - 1], t, id) ==> Mentions(docs, t, id)
  {
    var front := docs[..|docs| - 1];
    if Mentions(front, t, id) {
      var i :| 0 <= i < |front| && Names(front[i], t, id);
      assert docs[i] == front[i];
    }
  }

  /** Indexing a collection (every document filed under its own id) into an
      index that lists nothing yet lists each document under exactly the terms
      of its transformed text. */
  lemma RunLists(indexer: Indexer, collection: DocumentCollection, t: string, id: string)
    requires IndexerReady(indexer) && collection.Valid() && Keyed(collection)
    requires !Lists(CreateIndex(indexer), t, id)
    ensures Lists(Run(indexer, collection), t, id) <==>
              id in collection.m && t in TransformDocument(collection.m[id]).tokens
  {
    var docs := Iter(collection);
    AddAllLists(CreateIndex(indexer), docs, t, id);
    KeysCoverMap(collection);
    if Mentions(docs, t, id) {
      var i :| 0 <= i < |docs| && Names(docs[i], t, id);
      assert docs[i] == collection.m[collection.keys[i]];
    }
    if id in collection.m && t in TransformDocument(collection.m[id]).tokens {
      var i :| 0 <= i < |collection.keys| && collection.keys[i] == id;
      assert docs[i] == collection.m[id];
      assert Names(docs[i], t, id);
    }
  }

  lemma {:induction false} AddAllConcat(ix: AnyIndex, a: seq<InputDocument>, b: seq<InputDocument>)
    requires Ready(ix)
    ensures AddAll(ix, a + b) == AddAll(AddAll(ix, a), b)
    decreases |b|
  {
    if b == [] {
      assert a + b == a;
    } else {
      var front := b[..|b| - 1];
      var last := TransformDocument(b[|b| - 1]);
      assert (a + b)[..|a + b| - 1] == a + front;
      assert AddAll(ix, a + b) == AddDocument(AddAll(ix, a + front), last);
      AddAllConcat(ix, a, front);
      assert AddAll(AddAll(ix, a), b) == AddDocument(AddAll(AddAll(ix, a), front), last);
    }
  }

  /** `SingleIndexIndexer` hands out the same index every time, so a second run
      continues from what the first one added. */
  lemma SecondRunContinues(ix: AnyIndex, first: DocumentCollection, second: DocumentCollection)
    requires Ready(ix) && first.Valid() && second.Valid()
    ensures Run(SingleIndexIndexer(Run(SingleIndexIndexer(ix), first)), second) ==
              AddAll(ix, Iter(first) + Iter(second))
  {
    AddAllConcat(ix, Iter(first), Iter(second));
  }

  /** The naive index keeps the transformed documents in the order added. */
  lemma {:induction false} AddAllNaive(n: NaiveIndex.Index, docs: seq<InputDocument>)
    ensures AddAll(Naive(n), docs).naive.filename == n.filename
    ensures |AddAll(Naive(n), docs).naive.docs| == |n.docs| + |docs|
    ensures AddAll(Naive(n), docs).naive.docs[..|n.docs|] == n.docs
    ensures forall i :: 0 <= i < |docs| ==> AddAll(Naive(n), docs).naive.docs[|n.docs| + i] == TransformDocument(docs[i])
    decreases |docs|
  {
    if docs != [] {
      var front := docs[..|docs| - 1];
      AddAllNaive(n, front);
      var prior := AddAll(Naive(n), front).naive.docs;
      var after := AddAll(Naive(n), docs).naive.docs;
      assert after == prior + [TransformDocument(docs[|docs| - 1])];
      assert after[..|n.docs|] == prior[..|n.docs|];
      forall i | 0 <= i < |docs| ensures after[|n.docs| + i] == TransformDocument(docs[i]) {
        if i < |front| {
          assert front[i] == docs[i];
        }
      }
    }
  }

  /** `NaiveIndexer` starts every run from an empty index, so a run holds the
      transformed documents of its own collection and nothing else. */
  lemma NaiveRunIsFresh(filename: string, collection: DocumentCollection)
    requires collection.Valid()
    ensures Run(NaiveIndexer(filename), collection).Naive?
    ensures Run(NaiveIndexer(filename), collection).naive.filename == filename
    ensures |Run(NaiveIndexer(filename), collection).naive.docs| == |collection.m|
    ensures forall i :: 0 <= i < |collection.m| ==>
              Run(NaiveIndexer(filename), collection).naive.docs[i] == TransformDocument(Iter(collection)[i])
  {
    var docs := Iter(collection);
    var empty := NaiveIndex.Create(filename);
    var r := AddAll(Naive(empty), docs);
    assert Run(NaiveIndexer(filename), collection) == r;
    assert r.Naive? && r.naive.filename == filename && |r.naive.docs| == |docs| &&
           forall i :: 0 <= i < |docs| ==> r.naive.docs[i] == TransformDocument(docs[i]) by {
      AddAllNaive(empty, docs);
      assert |empty.docs| == 0;
    }
  }

  /** No two documents share an id. */
  ghost predicate DistinctIds(docs: seq<InputDocument>)
  {
    forall i, j :: 0 <= i < j < |docs| ==> docs[i].docId != docs[j].docId
  }

  /** No document of `docs` is listed under any term yet. */
  ghost predicate Unlisted(ix: AnyIndex, docs: seq<InputDocument>)
  {
    forall i, t :: 0 <= i < |docs| ==> !Lists(ix, t, docs[i].docId)
  }

  /** The last document is not listed by the index the earlier ones were added to. */
  lemma LastIsUnlisted(ix: AnyIndex, docs: seq<InputDocument>, t: string)
    requires Ready(ix) && docs != []
    requires DistinctIds(docs) && Unlisted(ix, docs)
    ensures !Lists(AddAll(ix, docs[..|docs| - 1]), t, docs[|docs| - 1].docId)
  {
    var front := docs[..|docs| - 1];
    var id := docs[|docs| - 1].docId;
    AddAllLists(ix, front, t, id);
    forall i | 0 <= i < |front| ensures front[i].docId != id {
      assert front[i] == docs[i];
    }
  }

  /** Adding documents with distinct new ids keeps the list-based index's
      counts equal to its list lengths and its posting lists free of repeats. */
  lemma {:induction false} AddAllKeepsListInvariants(ix: AnyIndex, docs: seq<InputDocument>)
    requires ix.ListBased? && ListIndex.Inv(ix.listBased) && ListIndex.DistinctPostings(ix.listBased)
    requires DistinctIds(docs) && Unlisted(ix, docs)
    ensures AddAll(ix, docs).ListBased?
    ensures ListIndex.Inv(AddAll(ix, docs).listBased) && ListIndex.DistinctPostings(AddAll(ix, docs).listBased)
    decreases |docs|
  {
    if docs != [] {
      var front := docs[..|docs| - 1];
      var doc := TransformDocument(docs[|docs| - 1]);
      AddAllKeepsListInvariants(ix, front);
      var l := AddAll(ix, front).listBased;
      forall t | t in l.postings.m ensures doc.docId !in Firsts(l.postings.m[t]) {
        LastIsUnlisted(ix, docs, t);
      }
      ListIndex.AddDocumentKeepsInv(l, doc);
      ListIndex.AddDocumentKeepsDistinctPostings(l, doc);
    }
  }

  /** Adding documents with distinct new ids keeps the dict-based index's counts
      equal to the sizes of its postings. */
  lemma {:induction false} AddAllKeepsDictInvariant(ix: AnyIndex, docs: seq<InputDocument>)
    requires ix.DictBased? && DictIndex.Inv(ix.dictBased)
    requires DistinctIds(docs) && Unlisted(ix, docs)
    ensures AddAll(ix, docs).DictBased? && DictIndex.Inv(AddAll(ix, docs).dictBased)
    decreases |docs|
  {
    if docs != [] {
      var front := docs[..|docs| - 1];
      var doc := TransformDocument(docs[|docs| - 1]);
      AddAllKeepsDictInvariant(ix, front);
      var d := AddAll(ix, front).dictBased;
      forall t | t in d.postings.m ensures doc.docId !in d.postings.m[t].m {
        LastIsUnlisted(ix, docs, t);
      }
      DictIndex.AddDocumentKeepsInv(d, doc);
    }
  }

  /** A collection files each document under its own id, so its documents have
      distinct ids. */
  lemma CollectionHasDistinctIds(collection: DocumentCollection)
    requires collection.Valid() && Keyed(collection)
    ensures DistinctIds(Iter(collection))
  {
    forall i, j | 0 <= i < j < |Iter(collection)| ensures Iter(collection)[i].docId != Iter(collection)[j].docId {
      IterHasDistinctIds(collection, i, j);
    }
  }

  /** The tf-idf indexing process, run into a new list-based index, yields an
      index whose counts match its posting lists and whose lists have no
      repeated document; the same run into a new dict-based index keeps that
      index's counts matching its postings. */
  lemma RunKeepsInvariants(filename: string, collection: DocumentCollection)
    requires collection.Valid() && Keyed(collection)
    ensures Run(SingleIndexIndexer(ListBased(ListIndex.Create(filename))), collection).ListBased?
    ensures ListIndex.Inv(Run(SingleIndexIndexer(ListBased(ListIndex.Create(filename))), collection).listBased)
    ensures ListIndex.DistinctPostings(Run(SingleIndexIndexer(ListBased(ListIndex.Create(filename))), collection).listBased)
    ensures Run(SingleIndexIndexer(DictBased(DictIndex.Create(filename))), collection).DictBased?
    ensures DictIndex.Inv(Run(SingleIndexIndexer(DictBased(DictIndex.Create(filename))), collection).dictBased)
  {
    var docs := Iter(collection);
    CollectionHasDistinctIds(collection);
    forall i, t | 0 <= i < |docs|
      ensures !Lists(ListBased(ListIndex.Create(filename)), t, docs[i].docId)
      ensures !Lists(DictBased(DictIndex.Create(filename)), t, docs[i].docId)
    {
      FreshIndexesListNothing(filename, t, docs[i].docId);
    }
    AddAllKeepsListInvariants(ListBased(ListIndex.Create(filename)), docs);
    AddAllKeepsDictInvariant(DictBased(DictIndex.Create(filename)), docs);
  }
}
