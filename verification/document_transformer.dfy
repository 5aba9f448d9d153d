/** `NaiveSearchDocumentTransformer`: the text transformation stage, which keeps
    a document's id and replaces its text by the text's tokens. */
module DocumentTransformer {
  import opened Base
  import opened Chars
  import opened Tokenizer
  import opened TokenizerProperties
  import opened Documents

  /** `transform_document`: the id is kept, the title dropped, and the tokens
      spell out the lower-cased non-space characters of the text, each token a
      symbol, an ellipsis or a word. */
  function TransformDocument(doc: InputDocument): (r: TransformedDocument)
    ensures r.docId == doc.docId
    ensures Flatten(r.tokens) == Lower(NonSpace(doc.text))
    ensures forall k :: 0 <= k < |r.tokens| ==> WellFormedToken(r.tokens[k])
  {
    TokensSpellText(doc.text);
    TokensWellFormed(doc.text);
    TransformedDocument(doc.docId, Tokenize(doc.text))
  }
}
