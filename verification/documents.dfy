/** The document records of documents.py and `DictDocumentCollection`, the
    in-memory collection that maps a document id to its `InputDocument`. The
    collection is a Python dict, so iteration follows insertion order. */
module Documents {
  import opened Base
  import opened Dicts

  /** The raw document as text acquisition produces it. */
  datatype InputDocument = InputDocument(docId: string, text: string, title: string)

  /** A document after text transformation: its id and its tokens. */
  datatype TransformedDocument = TransformedDocument(docId: string, tokens: seq<string>)

  type DocumentCollection = Dict<string, InputDocument>

  /** Every document is stored under its own id, as `insert` files it. */
  ghost predicate Keyed(c: DocumentCollection)
  {
    forall id :: id in c.m ==> c.m[id].docId == id
  }

  /** `create_empty`. */
  function CreateEmpty(): (r: DocumentCollection)
    ensures r.Valid() && Keyed(r)
    ensures forall id :: GetDoc(r, id).None?
    ensures Iter(r) == []
  {
    Empty()
  }

  /** `get_doc`: `None` where the dict lookup raises KeyError. */
  function GetDoc(c: DocumentCollection, docId: string): (r: Option<InputDocument>)
    ensures r.Some? <==> docId in c.m
    ensures r.Some? ==> r.value == c.m[docId]
  {
    c.Get(docId)
  }

  /** `get_docs`: the dict comprehension over `doc_ids`, in order; `None` when
      some id is missing, where the comprehension raises KeyError. A repeated id
      keeps its first position. */
  function GetDocs(c: DocumentCollection, ids: seq<string>): (r: Option<DocumentCollection>)
    ensures r.Some? ==> r.value.Valid()
  {
    if ids == [] then Some(Empty())
    else
      var last := ids[|ids| - 1];
      match GetDocs(c, ids[..|ids| - 1])
      case None => None
      case Some(d) => if last in c.m then Some(d.Put(last, c.m[last])) else None
  }

  /** `get_docs` fails exactly when some requested id is missing. */
  lemma {:induction false} GetDocsDefined(c: DocumentCollection, ids: seq<string>)
    ensures GetDocs(c, ids).Some? <==> forall i :: 0 <= i < |ids| ==> ids[i] in c.m
    decreases |ids|
  {
    if ids != [] {
      var front := ids[..|ids| - 1];
      GetDocsDefined(c, front);
      assert forall i :: 0 <= i < |front| ==> front[i] == ids[i];
    }
  }

  /** A successful `get_docs` lists each requested id once, in order of first request. */
  lemma {:induction false} GetDocsKeys(c: DocumentCollection, ids: seq<string>)
    requires GetDocs(c, ids).Some?
    ensures GetDocs(c, ids).value.keys == Distinct(ids)
    decreases |ids|
  {
    if ids != [] {
      var last := ids[|ids| - 1];
      var front := ids[..|ids| - 1];
      GetDocsKeys(c, front);
      assert ids == front + [last];
      DistinctAppend(front, last);
      KeysCoverMap(GetDocs(c, front).value);
    }
  }

  /** A successful `get_docs` holds the collection's own document for every id it lists. */
  lemma {:induction false} GetDocsValues(c: DocumentCollection, ids: seq<string>, id: string)
    requires GetDocs(c, ids).Some?
    requires id in GetDocs(c, ids).value.m
    ensures id in c.m && GetDocs(c, ids).value.m[id] == c.m[id]
    decreases |ids|
  {
    var last := ids[|ids| - 1];
    if id != last {
      GetDocsValues(c, ids[..|ids| - 1], id);
    }
  }

  /** A successful `get_docs` holds exactly the requested ids. */
  lemma GetDocsIds(c: DocumentCollection, ids: seq<string>)
    requires GetDocs(c, ids).Some?
    ensures forall id :: id in GetDocs(c, ids).value.m <==> id in ids
  {
    var d := GetDocs(c, ids).value;
    GetDocsKeys(c, ids);
    KeysCoverMap(d);
  }

  /** `__iter__`: the documents, in insertion order. */
  function Iter(c: DocumentCollection): (r: seq<InputDocument>)
    requires c.Valid()
    ensures |r| == |c.m|
    ensures forall i :: 0 <= i < |r| ==> r[i] == c.m[c.keys[i]]
  {
    c.Values()
  }

  /** `insert`: file the document under its id, replacing any document with that id. */
  function Insert(c: DocumentCollection, doc: InputDocument): (r: DocumentCollection)
    requires c.Valid()
    ensures r.Valid()
    ensures Keyed(c) ==> Keyed(r)
    ensures GetDoc(r, doc.docId) == Some(doc)
    ensures forall id :: id != doc.docId ==> GetDoc(r, id) == GetDoc(c, id)
  {
    c.Put(doc.docId, doc)
  }

  /** Iterating after an insert: a new id goes last; a known id keeps its place
      and its document is replaced. */
  lemma IterAfterInsert(c: DocumentCollection, doc: InputDocument)
    requires c.Valid()
    ensures doc.docId !in c.m ==> Iter(Insert(c, doc)) == Iter(c) + [doc]
    ensures doc.docId in c.m ==>
              |Iter(Insert(c, doc))| == |Iter(c)| &&
              forall i :: 0 <= i < |Iter(c)| ==>
                Iter(Insert(c, doc))[i] == if c.keys[i] == doc.docId then doc else Iter(c)[i]
  {
    KeysCoverMap(c);
    var r := Insert(c, doc);
    if doc.docId !in c.m {
      assert r.keys == c.keys + [doc.docId];
      forall i | 0 <= i < |c.keys| ensures Iter(r)[i] == Iter(c)[i] {
        assert c.keys[i] != doc.docId;
      }
    }
  }

  /** In a keyed collection every document is produced once: the ids met while
      iterating are pairwise different. */
  lemma IterHasDistinctIds(c: DocumentCollection, i: int, j: int)
    requires c.Valid() && Keyed(c)
    requires 0 <= i < j < |Iter(c)|
    ensures Iter(c)[i].docId != Iter(c)[j].docId
  {
    assert Iter(c)[i].docId == c.keys[i];
    assert Iter(c)[j].docId == c.keys[j];
  }

  lemma DistinctOfDistinct<T(!new)>(s: seq<T>)
    requires NoDuplicates(s)
    ensures Distinct(s) == s
  {
    if s != [] {
      var front := s[..|s| - 1];
      DistinctOfDistinct(front);
      assert s[|s| - 1] !in front;
    }
  }

  /** Fetching every id of a collection rebuilds the collection. */
  lemma GetDocsOfAllIds(c: DocumentCollection)
    requires c.Valid()
    ensures GetDocs(c, c.keys) == Some(c)
  {
    KeysCoverMap(c);
    DistinctOfDistinct(c.keys);
    GetDocsDefined(c, c.keys);
    GetDocsKeys(c, c.keys);
    GetDocsIds(c, c.keys);
    forall id | id in c.m ensures GetDocs(c, c.keys).value.m[id] == c.m[id] {
      GetDocsValues(c, c.keys, id);
    }
    var d := GetDocs(c, c.keys).value;
    assert d.m.Keys == c.m.Keys;
    assert d.m == c.m;
  }
}
