/** query_process.py: parse the query string, search the index, and format the
    results as one line per document title. The interactive loop and the
    factories that read an index from a file are I/O and not modelled. */
module QueryProcess {
  import opened Base
  import opened Chars
  import opened Documents
  import opened SearchApi
  import opened Tokenizer
  import opened TokenizerProperties
  import opened Frequencies
  import opened Indexers
  import ListIndex

  /** `NaiveQueryParser.parse_query`: the tokens of the query string. */
  function ParseQuery(queryStr: string, numResults: int): (r: Query)
    ensures r.numResults == numResults
    ensures Flatten(r.terms) == Lower(NonSpace(queryStr))
    ensures (forall i :: 0 <= i < |queryStr| ==> IsSpace(queryStr[i])) ==> r.terms == []
  {
    TokensSpellText(queryStr);
    BlankQueryHasNoTokens(queryStr);
    Query(Tokenize(queryStr), numResults)
  }

  lemma BlankQueryHasNoTokens(queryStr: string)
    ensures (forall i :: 0 <= i < |queryStr| ==> IsSpace(queryStr[i])) ==> Tokenize(queryStr) == []
  {
    if forall i :: 0 <= i < |queryStr| ==> IsSpace(queryStr[i]) {
      BlankTextHasNoTokens(queryStr);
    }
  }

  /** The line `OutputTitlesResultFormatter` prints for one result. */
  function TitleLine(docId: string, title: string): string
  {
    "(" + docId + ") " + title + "\n"
  }

  /** Reference: the title line of each id, in order. */
  function Lines(c: DocumentCollection, ids: seq<string>): (r: seq<string>)
    requires forall i :: 0 <= i < |ids| ==> ids[i] in c.m
    ensures |r| == |ids|
  {
    seq(|ids|, i requires 0 <= i < |ids| => TitleLine(ids[i], c.m[ids[i]].title))
  }

  /** `OutputTitlesResultFormatter.format_results_for_display`: the title lines
      concatenated, or `None` where `get_doc` raises KeyError for an id the
      collection does not hold. */
  function FormatTitles(c: DocumentCollection, ids: seq<string>): (r: Option<string>)
    ensures r.Some? <==> forall i :: 0 <= i < |ids| ==> ids[i] in c.m
    ensures ids == [] ==> r == Some("")
    decreases |ids|
  {
    if ids == [] then Some("")
    else
      var front := ids[..|ids| - 1];
      var last := ids[|ids| - 1];
      match FormatTitles(c, front)
      case None => None
      case Some(out) =>
        match GetDoc(c, last)
        case None => None
        case Some(doc) => Some(out + TitleLine(last, doc.title))
  }

  /** The formatter prints exactly the title lines, one per result, in order. */
  lemma {:induction false} FormatTitlesIsLines(c: DocumentCollection, ids: seq<string>)
    requires forall i :: 0 <= i < |ids| ==> ids[i] in c.m
    ensures FormatTitles(c, ids) == Some(Flatten(Lines(c, ids)))
    decreases |ids|
  {
    if ids != [] {
      var front := ids[..|ids| - 1];
      var last := ids[|ids| - 1];
      FormatTitlesIsLines(c, front);
      assert Lines(c, ids) == Lines(c, front) + [TitleLine(last, c.m[last].title)];
      FlattenAppend(Lines(c, front), [TitleLine(last, c.m[last].title)]);
      assert Flatten([TitleLine(last, c.m[last].title)]) == TitleLine(last, c.m[last].title);
    }
  }

  lemma FormatTitlesWhenFound(c: DocumentCollection, ids: seq<string>)
    ensures FormatTitles(c, ids).Some? ==> FormatTitles(c, ids).value == Flatten(Lines(c, ids))
  {
    if FormatTitles(c, ids).Some? {
      FormatTitlesIsLines(c, ids);
    }
  }

  /** A `QueryProcess` wired with a title formatter over `collection`; `idf`
      stands for `math.log` as the index uses it. */
  datatype QueryProcess = QueryProcess(index: AnyIndex, collection: DocumentCollection, idf: Idf)

  /** The default of `run`'s `num_results`. */
  const DefaultNumResults := 10

  /** The ids `run` searches out for a query string: candidates for its
      tokens, as many as `num_results` asks for when there are that many, in
      the order the index's `search` ranks them. */
  function Results(p: QueryProcess, queryString: string, numResults: int): (r: seq<string>)
    requires Ready(p.index)
    ensures forall x :: x in r ==> x in Candidates(p.index, Tokenize(queryString), p.idf)
    ensures numResults > 0 ==>
              |r| == if numResults < |Candidates(p.index, Tokenize(queryString), p.idf)| then numResults
                     else |Candidates(p.index, Tokenize(queryString), p.idf)|
    ensures p.index.ListBased? ==> forall i, j :: 0 <= i < j < |r| ==>
              Relevance(p.index, Tokenize(queryString), r[i], p.idf) <= Relevance(p.index, Tokenize(queryString), r[j], p.idf)
    ensures p.index.DictBased? ==> forall i, j :: 0 <= i < j < |r| ==>
              Relevance(p.index, Tokenize(queryString), r[i], p.idf) >= Relevance(p.index, Tokenize(queryString), r[j], p.idf)
  {
    var q := ParseQuery(queryString, numResults);
    var r := Search(p.index, q, p.idf).resultDocIds;
    assert forall i, j :: 0 <= i < j < |r| ==>
             (p.index.ListBased? ==> Relevance(p.index, q.terms, r[i], p.idf) <= Relevance(p.index, q.terms, r[j], p.idf)) &&
             (p.index.DictBased? ==> Relevance(p.index, q.terms, r[i], p.idf) >= Relevance(p.index, q.terms, r[j], p.idf)) by {
      forall i, j | 0 <= i < j < |r|
        ensures p.index.ListBased? ==> Relevance(p.index, q.terms, r[i], p.idf) <= Relevance(p.index, q.terms, r[j], p.idf)
        ensures p.index.DictBased? ==> Relevance(p.index, q.terms, r[i], p.idf) >= Relevance(p.index, q.terms, r[j], p.idf)
      {
        SearchOrder(p.index, q, p.idf, i, j);
      }
    }
    r
  }

  /** As written, a list-based index asked for one result never prints the
      better of two candidates with different scores: `run` shows the
      lower-scoring document. */
  lemma ListBasedPrintsLesserOfTwo(p: QueryProcess, queryString: string, worse: string, better: string)
    requires p.index.ListBased? && Ready(p.index)
    requires worse in Candidates(p.index, Tokenize(queryString), p.idf)
    requires better in Candidates(p.index, Tokenize(queryString), p.idf)
    requires Relevance(p.index, Tokenize(queryString), worse, p.idf) < Relevance(p.index, Tokenize(queryString), better, p.idf)
    ensures better !in Results(p, queryString, 1)
  {
    var q := ParseQuery(queryString, 1);
    ListIndex.TopResultOfTwo(p.index.listBased, q, p.idf, worse, better);
  }

  /** `QueryProcess.run`: parse, search, format. */
  function Run(p: QueryProcess, queryString: string, numResults: int): (r: Option<string>)
    requires Ready(p.index)
    ensures r.Some? <==> forall x :: x in Results(p, queryString, numResults) ==> x in p.collection.m
    ensures r.Some? ==> r.value == Flatten(Lines(p.collection, Results(p, queryString, numResults)))
  {
    var ids := Results(p, queryString, numResults);
    FormatTitlesWhenFound(p.collection, ids);
    FormatTitles(p.collection, ids)
  }

  /** `run` with `num_results` left at its default. */
  function RunDefault(p: QueryProcess, queryString: string): (r: Option<string>)
    requires Ready(p.index)
    ensures |Results(p, queryString, DefaultNumResults)| <= 10
    ensures r == Run(p, queryString, DefaultNumResults)
  {
    Run(p, queryString, DefaultNumResults)
  }

  /** A blank query string has no terms, so an inverted index finds nothing
      and nothing is printed. */
  lemma BlankQueryPrintsNothing(p: QueryProcess, queryString: string, numResults: int)
    requires Ready(p.index) && !p.index.Naive?
    requires forall i :: 0 <= i < |queryString| ==> IsSpace(queryString[i])
    ensures Run(p, queryString, numResults) == Some("")
  {
    assert Results(p, queryString, numResults) == [];
  }

  /** Every title printed belongs to a document the index lists under every
      token of the query string (for the list-based index, as long as no
      posting list names a document twice). */
  lemma PrintedDocumentsMatch(p: QueryProcess, queryString: string, numResults: int, i: int, j: int)
    requires Ready(p.index)
    requires p.index.ListBased? ==> ListIndex.DistinctPostings(p.index.listBased)
    requires 0 <= i < |Results(p, queryString, numResults)|
    requires 0 <= j < |Tokenize(queryString)|
    ensures Lists(p.index, Tokenize(queryString)[j], Results(p, queryString, numResults)[i])
  {
    var q := ParseQuery(queryString, numResults);
    SearchFindsListed(p.index, q, p.idf, Results(p, queryString, numResults)[i], j);
  }
}
