/** The query and result records that the index and the query process exchange.
    Their defining file, search_api.py, is not part of this model; the fields
    below are the ones the modelled code reads and writes. */
module SearchApi {
  /** A parsed query: its terms and how many results are wanted. */
  datatype Query = Query(terms: seq<string>, numResults: int)

  /** The ids of the documents a search returns, best first as each index orders them. */
  datatype SearchResults = SearchResults(resultDocIds: seq<string>)
}
