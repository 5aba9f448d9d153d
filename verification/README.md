# Text search engine core, modelled in Dafny

This project models the retrieval core of a small Python text-search system and
proves what it computes. Every Python class becomes an immutable datatype. Every
mutating method becomes a pure function that returns the new state, so an index
is a value threaded through `add_document`. The modelled parts are:

- **Tokenizer.** `NaiveTokenizer.tokenize` runs four regular-expression passes:
  lower-case and pad every non-word character, glue `w ' w` apostrophes, collapse
  `.\s+.\s+.` into `...`, and split on whitespace. Each `re.sub` is a leftmost,
  non-overlapping scan, as Python performs it. `counters.tokenize` runs the same
  four passes, so both use the one definition `Tokenizer.Tokenize`.
- **The three indexes of index.py.**
  - `NaiveIndex`: a subset-match scan over the documents.
  - The list-based tf-idf inverted index.
  - The dict-based tf-idf inverted index.

  Each has `add_document`, `search`, and `write`/`read` over record datatypes,
  plus the `Index` interface and the two `Indexer` factories.
- **Term statistics** of counters.py and hw3.py:
  - character and word counting with `collections.Counter`;
  - document counts;
  - stopwords and best terms;
  - the set-valued inverted index and two-word search.
- **Plumbing:**
  - the dict-backed document collection;
  - the document transformer;
  - the indexing process, as a fold over the collection;
  - query parsing and the title formatter;
  - `QueryProcess.run`;
  - relevance annotation and scoring;
  - sentence splitting.

Python dicts and Counters are `Dicts.Dict`: a map plus the insertion order of its
keys. Because of that, `write` order, `Counter.most_common` tie order and
document iteration order follow the program. Text uses ASCII semantics: `\w` is
letters, digits and `_`. Whitespace is code points 9-13 and 28-32. `lower()`
maps `A`-`Z`.

In two places the program's own text points another way; the model follows the code.

- The code puts a space around every `\W` character (tokenizer.py:23). Hyphens
  and decimal points are therefore tokens of their own: `pre-school` gives `pre`,
  `-`, `school`, and `22.5` gives `22`, `.`, `5`. The tests at
  test_group_one_tokenizer.py:44-45 expect `pre-school` and `22.5` as single
  tokens, so they test a different tokenizer.
- The list-based index sorts its results by ascending score (index.py:146),
  while `run` documents `num_results` as the number of top results
  (query_process.py:103). Both query-process factories build a list-based
  index (query_process.py:113-125), and the pipeline (`Indexers.Search`,
  `QueryProcess.Run`) runs that search as written, `ListIndex.Search`.
  `ListIndex.RankedSearch` is the corrected ranking (see Findings).

`math.log` in `inverse_document_frequency` is the parameter `idf: (int, int) -> real`
(`Frequencies.Idf`). Every index passes it the same two arguments the code does.
Term frequencies are exact `real` quotients. I/O is replaced by values:

- the index files become `IndexFile` / `DocRecord` record lists;
- `source.read()` becomes a `DocumentCollection` argument;
- the result of `run_queries` becomes an `AnnotateResults` argument.

## Model

| member | source | states |
|---|---|---|
| Base.Prefix | index.py:147 | Python's `s[0:n]`: a prefix of `s`, of length `min(n, len)` for `n >= 0`, and `len + n` (at least 0) for negative `n` |
| Sorting.Sort | index.py:146 | `sorted` with a key and a direction: the result is ordered by the key and is a permutation (same multiset) of the input |
| Sorting.SortKeepsElements | index.py:146 | sorting neither adds nor drops an element |
| Sorting.PrefixOfSorted | index.py:146-147 | after `[0:n]` on a sorted list, every element kept comes no later in key order than every element cut off |
| Dicts.FromItems | index.py:190-191 | `dict(items)` is a well-formed dict holding every item's key |
| Dicts.FromItemsOfItems | index.py:190-191 | rebuilding a dict from its own items gives the same dict, key order included |
| Chars.ToLower | tokenizer.py:23 | lower-casing one character yields no upper-case letter, keeps the word and space classes, and changes nothing that is not upper case |
| Chars.Lower | tokenizer.py:23 | `str.lower()` maps every character by `ToLower` and keeps the length |
| Chars.NonSpaceOfEllipsis | tokenizer.py:25 | a match of `.\s+.\s+.` has `...` as its only non-space content |
| Tokenizer.EllipsisEnd | tokenizer.py:25 | a match of the ellipsis pattern at the start spans at least five characters |
| Tokenizer.Split | tokenizer.py:26 | `str.split()` yields non-empty pieces free of whitespace |
| TokenizerProperties.PadKeepsNonSpace | tokenizer.py:23 | padding non-word characters only adds whitespace |
| TokenizerProperties.JoinApostrophesKeepsNonSpace | tokenizer.py:24 | gluing apostrophes only removes whitespace |
| TokenizerProperties.JoinEllipsesKeepsNonSpace | tokenizer.py:25 | collapsing ellipses only removes whitespace |
| TokenizerProperties.SplitSpellsNonSpace | tokenizer.py:26 | the pieces of `split()`, concatenated, are the text without its whitespace |
| TokenizerProperties.TokensSpellText | tokenizer.py:22-26 | the tokens, concatenated, are exactly the lower-cased non-whitespace characters of the text: nothing is added or lost |
| TokenizerProperties.TokensAreLowerCase | tokenizer.py:22-26 | no token is empty, and no token holds an upper-case letter or whitespace |
| TokenizerProperties.BlankTextHasNoTokens | tokenizer.py:22-26 | empty or all-whitespace text gives no tokens |
| TokenizerProperties.PadRun | tokenizer.py:23 | after pass 1 the token-shape automaton accepts: every non-word character stands alone between spaces or text ends |
| TokenizerProperties.JoinApostrophesRun | tokenizer.py:24 | pass 2 never changes whether a string has the token shape |
| TokenizerProperties.JoinEllipsesRun | tokenizer.py:25 | the automaton that allows `...` on the output of pass 3 stays in step with the one that does not on its input, so pass 3 only creates `...` tokens |
| TokenizerProperties.SplitRun | tokenizer.py:26 | every piece split out of a well-shaped string is well-shaped on its own |
| TokenizerProperties.TokenShape | tokenizer.py:22-26 | an accepted piece is a lone symbol, `...`, or a word whose apostrophes sit between word characters |
| TokenizerProperties.TokensWellFormed | tokenizer.py:22-26 | every token is a lone non-word non-space character, `...`, or a word whose apostrophes each have a word character on both sides |
| TokenizerExamples.PadWordRun | tokenizer.py:23 | a run of word characters is not padded |
| TokenizerExamples.PadSymbol | tokenizer.py:23 | a non-word character gets exactly one space on each side |
| TokenizerExamples.JoinApostrophesNoApostrophe | tokenizer.py:24 | without an apostrophe pass 2 changes nothing |
| TokenizerExamples.JoinEllipsesFewDots | tokenizer.py:25 | with fewer than two dots pass 3 changes nothing |
| TokenizerExamples.GlueAround | tokenizer.py:24 | pass 2 turns `la ' lb` into `la'lb` for any two word runs |
| TokenizerExamples.PassesOnEllipsis | tokenizer.py:24-25 | a word followed by padded dots comes out of passes 2 and 3 as the word and `...` |
| TokenizerExamples.SplitAround | tokenizer.py:26 | `la c lb` with single spaces splits into the three pieces |
| TokenizerExamples.TwoWords | test_tokenizer.py:12 | two word runs separated by a space give the two lower-cased words |
| TokenizerExamples.SymbolBetweenWords | test_tokenizer.py:15-21 | any non-word, non-space character other than `'` between two word runs (the tests use `,` `.` `%` `$` `-`) is a token of its own between the two words |
| TokenizerExamples.ApostropheBetweenWords | test_tokenizer.py:24-25 | an apostrophe between two word runs stays inside one token (`isn't`) |
| TokenizerExamples.ApostropheChain | tokenizer.py:24 | pass 2 resumes after each match, so in `a'x'b` with a one-character middle word only the first apostrophe is glued: the tokens are `a'x`, `'` and `b` |
| TokenizerExamples.WordThenEllipsis | test_tokenizer.py:28 | a word followed by `...` gives the word and `...` (`More...`) |
| Counters.TallyCountOf | counters.py:48 | `update(xs)` adds the occurrences of each element in `xs` to its count, and makes a key of exactly the old keys and the elements of `xs` |
| Counters.TallyCounts | counters.py:48 | `TallyCountOf` for every element at once |
| Counters.TallyKeys | counters.py:48 | from an empty counter, the keys are the distinct elements in order of first occurrence |
| Counters.TallyTotal | counters.py:48 | `update(xs)` adds `len(xs)` to the sum of the counts |
| Counters.MergeKeys | counters.py:66 | updating with a mapping adds its value to the count of each of its keys |
| Counters.Merge | counters.py:66 | updating a counter with a counter adds the counts key by key and unites the keys |
| Counters.MostCommon | hw3.py:23 | `most_common(n)` holds exactly `n` distinct keys of the counter, or all of them when there are fewer, and none for `n <= 0`; each comes with its count, in non-increasing count order |
| Counters.MostCommonIsTop | hw3.py:23 | a key that `most_common(n)` leaves out has a count no larger than any key it keeps |
| Counters.MostCommonAll | hw3.py:23 | with `n` at least the number of keys, `most_common(n)` lists every key with its count |
| Counters.CountCharacters | counters.py:44-49 | `Counter().update(text)`: keys are the distinct characters in order, each counted by its occurrences |
| Counters.CharacterCountsSumToLength | counters.py:44-49 | the character counts add up to `len(text)` |
| Counters.DictCountCharacters | counters.py:16-25 | the membership-test loop gives the same dict as the Counter variant, key order included |
| Counters.DefaultDictCountCharacters | counters.py:28-34 | the defaultdict loop gives the same dict as the Counter variant, key order included |
| Counters.CountWords | counters.py:51-54 | `count_words` counts every token by its occurrences in `tokenize(text)`, keys in order of first occurrence |
| Counters.WordCountsSumToTokens | counters.py:51-54 | the word counts add up to the number of tokens |
| Counters.TotalWordsCounts | counters.py:62-67 | `count_total_words` counts each word by its occurrences across all texts, with a key for exactly the words that occur |
| Counters.TotalWordsIsPointwiseSum | counters.py:62-67 | one more text adds its `count_words` to the total, word by word |
| Counters.NonEmptyTexts | counters.py:70 | the comprehension keeps only non-empty texts, at most one per record |
| Counters.NonEmptyTextsKeepsEveryText | counters.py:71-77 | every record with a non-empty text has that text in the output |
| Counters.NonEmptyTextsComeFromData | counters.py:71-77 | every output text is the text of some record |
| Counters.GetTextsFromData | counters.py:71-77 | the loop gives exactly the comprehension's list, in order |
| CorpusStatistics.DocumentCountIsDocs | hw3.py:8-15 | a word's document count is the number of texts whose tokens include it, so at most the number of texts |
| CorpusStatistics.DocumentCountsStep | hw3.py:14 | one more text adds one to the document count of each word it contains |
| CorpusStatistics.FrequentInDocuments | hw3.py:23-25 | the loop keeps exactly the listed words whose document count is at least 9 |
| CorpusStatistics.ComputeStopwords | hw3.py:19-26 | at most 20 stopwords, all among the 20 most frequent words |
| CorpusStatistics.StopwordsInNineTexts | hw3.py:19-26 | every stopword occurs in at least nine texts |
| CorpusStatistics.StopwordsAreTopWords | hw3.py:19-26 | a stopword occurs at least as often as any word outside the top twenty |
| CorpusStatistics.SmallVocabularyStopwords | hw3.py:19-26 | with at most twenty distinct words, every word in nine or more texts is a stopword |
| CorpusStatistics.WithoutKeys | hw3.py:32-33 | deleting the stopwords keeps exactly the other keys, each with its count |
| CorpusStatistics.BestTermsForDoc | hw3.py:30-34 | at most 10 distinct non-stopword tokens of the text, each with its count, in non-increasing count order |
| CorpusStatistics.BestTermsListAllWhenFew | hw3.py:30-34 | fewer than ten best terms means every non-stopword token of the text is among them |
| CorpusStatistics.BestTermsAreTop | hw3.py:30-34 | a non-stopword left out of the best terms occurs no more often than any kept |
| CorpusStatistics.BestTerms | hw3.py:37-38 | one best-terms list per text, in order |
| CorpusStatistics.IndexText | hw3.py:46-51 | one pass of the outer loop extends the index to one more text |
| CorpusStatistics.CreateInvertedIndex | hw3.py:42-52 | every word maps to exactly the positions of the texts that contain it; keys are the words that occur, in order |
| CorpusStatistics.Search2Words | hw3.py:56-57 | defined exactly when both words are keys; the result is a subset of both position sets |
| CorpusStatistics.Search2WordsFindsBoth | hw3.py:56-57 | on a built index, position `i` is found exactly when text `i` contains both words |
| CorpusStatistics.IndexSizeIsDocumentCount | hw3.py:42-52 | a word's position set has as many elements as its document count |
| Postings.AddPosition | hw3.py:48-51 | add the position to a word's set, creating the set for a new word at the end |
| Postings.AddText | hw3.py:47-51 | the inner loop files the text's position under every token and changes nothing else |
| Documents.CreateEmpty | documents.py:81-83 | the empty collection holds no document and iterates nothing |
| Documents.GetDoc | documents.py:85-86 | the stored document when the id is present, `None` (KeyError) otherwise |
| Documents.GetDocsDefined | documents.py:88-89 | `get_docs` fails exactly when some requested id is missing |
| Documents.GetDocsKeys | documents.py:88-89 | a successful `get_docs` lists each requested id once, in order of first request |
| Documents.GetDocsValues | documents.py:88-89 | a successful `get_docs` holds the collection's own document for each id |
| Documents.GetDocsIds | documents.py:88-89 | a successful `get_docs` holds exactly the requested ids |
| Documents.GetDocsOfAllIds | documents.py:88-89 | fetching every id of the collection rebuilds it |
| Documents.Iter | documents.py:91-92 | iteration yields each stored document once, in key order |
| Documents.Insert | documents.py:94-95 | after `insert(d)`, `get_doc(d.doc_id)` is `d`, and every other id is unchanged |
| Documents.IterAfterInsert | documents.py:94-95 | a new id is iterated last; a known id keeps its place with the new document |
| Documents.IterHasDistinctIds | documents.py:91-92 | in a collection filed by id, iteration meets no id twice |
| DocumentTransformer.TransformDocument | document_transformer.py:28-36 | keeps the id and ignores the title; the tokens spell the lower-cased non-space text, each a well-formed token |
| Frequencies.TermFrequency | index.py:82-83 | the share `count / len` lies in [0, 1] for a count between 0 and the length, and is positive for a positive count |
| Frequencies.TermFrequencies | index.py:101-104 | one `(term, tf)` pair per distinct token, in order of first occurrence |
| Frequencies.TermFrequencyIsShare | index.py:101-104 | each stored tf is the token's count over the document length, in (0, 1] |
| Frequencies.ShareOfSum | index.py:82-83 | the share of a sum is the sum of the shares |
| Frequencies.SumOfShares | index.py:82-83 | summing shares gives the share of the summed counts |
| Frequencies.FindTermFrequency | index.py:101-104 | a document's `(term, tf)` pairs name each token once, with `count/len`; the dict-based index uses the same pairs (index.py:161-164) |
| Frequencies.TermFrequenciesSumToOne | index.py:101-104 | the tfs of a document with tokens add up to 1 |
| NaiveIndex.Create | index.py:42-44 | a new naive index has the file name and finds nothing |
| NaiveIndex.AddDocument | index.py:46-47 | the document is appended; the earlier ones are untouched |
| NaiveIndex.AllMatchesSpec | index.py:49-57 | an id is matched exactly when some document with that id has every query term |
| NaiveIndex.AllMatchesAppend | index.py:46-57 | appending a document appends its id to the matches exactly when it has every term |
| NaiveIndex.Scan | index.py:52-56 | the scan only extends what it has found |
| NaiveIndex.Search | index.py:49-57 | every returned id belongs to a document containing every query term |
| NaiveIndex.ScanPastLimit | index.py:52-56 | once past the limit, the stop test never fires again and every match is collected |
| NaiveIndex.ScanBelowLimit | index.py:52-56 | below the limit, the scan collects the first matches up to the limit |
| NaiveIndex.SearchIsFirstMatches | index.py:49-57 | the first `num_results` matches in insertion order for a positive limit; all matches for a negative one; for 0, all matches if the first document matches and none otherwise |
| NaiveIndex.EmptyQueryMatchesAll | index.py:50-54 | an empty query matches every document, in order |
| NaiveIndex.Write | index.py:69-71 | one record per document with its id and tokens, in order |
| NaiveIndex.Read | index.py:59-67 | one document per record, under the index's file name |
| NaiveIndex.ReadWrite | index.py:59-71 | write then read restores the index, and read then write restores the records |
| ListIndex.Create | index.py:91-97 | a new index has no documents and no terms, and satisfies the invariants |
| ListIndex.AddPosting | index.py:103-105 | one loop pass keeps the dicts well formed and the two key orders in step |
| ListIndex.AddPostings | index.py:102-105 | the loop keeps the dicts well formed and the two key orders in step |
| ListIndex.AddDocument | index.py:99-105 | `number_of_documents` grows by exactly 1, even for an empty document |
| ListIndex.AddPostingsEffect | index.py:102-105 | over distinct terms, the loop appends one posting and one count to each listed term, and nothing else |
| ListIndex.AddDocumentEffect | index.py:99-105 | each token of the document gets `(doc_id, count/len)` appended and its count raised by 1; other terms are unchanged |
| ListIndex.AddDocumentPostings | index.py:105 | the posting-list part of `AddDocumentEffect` |
| ListIndex.AddDocumentCounts | index.py:103 | the count and key part of `AddDocumentEffect` |
| ListIndex.AddDocumentKeepsCount | index.py:103-105 | after an add, a term's document count is the length of its posting list |
| ListIndex.AddDocumentKeepsInv | index.py:99-105 | `add_document` keeps every count equal to its list length, for any document |
| ListIndex.AddDocumentKeepsDistinctPostings | index.py:99-105 | adding a new document id keeps every posting list free of repeated ids |
| ListIndex.AddDocumentKeepsDistinctAt | index.py:105 | the same for one term |
| ListIndex.Bump | index.py:141-142 | one posting seen keeps the match dict well formed |
| ListIndex.AddMatches | index.py:140-142 | the inner loop keeps the match dict well formed |
| ListIndex.Accumulate | index.py:136-142 | the outer loop yields a well-formed match dict, or an early return |
| ListIndex.FullMatches | index.py:143-145 | the comprehension keeps exactly the ids whose match count equals the number of terms |
| ListIndex.Search | index.py:133-147 | as written: `[]` for an empty query or an unknown term; otherwise distinct candidates, for `num_results >= 0` exactly `num_results` of them or all when there are fewer |
| ListIndex.RankedSearch | index.py:133-147 | corrected: the same guarantees, best score first |
| ListIndex.AccumulateDefined | index.py:136-138 | `search` returns early exactly when some query term has no postings |
| ListIndex.AddMatchesEntry | index.py:140-142 | the inner loop adds one match and `tf * idf` per posting naming the document |
| ListIndex.AccumulateEntry | index.py:136-142 | after the loop, each document's entry is its match count and its tf-idf score |
| ListIndex.MatchCountOfAll | index.py:141-145 | without repeated postings, the match count equals the number of terms exactly when every term lists the document |
| ListIndex.CandidatesHaveAllTerms | index.py:141-145 | without repeated postings, the candidates are exactly the documents every query term lists, and none for an empty query |
| ListIndex.FullCountIsCandidate | index.py:143-145 | a document whose match count reaches the number of known terms is a candidate |
| ListIndex.ScoreInIsMatchScore | index.py:142-146 | the sort key is the tf-idf score |
| ListIndex.SortedPrefixByScore | index.py:146-147 | a truncated sorted candidate list is ordered by true score |
| ListIndex.CutOffByScore | index.py:146-147 | a candidate cut off by truncation does not come before any kept one |
| ListIndex.SearchIsAscending | index.py:146-147 | as written, results run from the lowest score up |
| ListIndex.SearchKeepsLeastRelevant | index.py:146-147 | as written, every candidate cut off scores at least as high as every result |
| ListIndex.RankedSearchIsDescending | index.py:146-147 | corrected: results run from the highest score down |
| ListIndex.RankedSearchKeepsMostRelevant | index.py:146-147 | corrected: every candidate cut off scores no higher than any result |
| ListIndex.TopResultOfTwo | index.py:146-147 | as written, with one result asked and two candidates of different scores, the better-scoring one is never returned |
| ListIndex.RankedTopResultOfTwo | index.py:146-147 | corrected, in the same situation the worse-scoring one is never returned |
| ListIndex.AllCandidatesFit | index.py:146-147 | as written, with room for all candidates, every candidate is returned |
| ListIndex.RankedAllCandidatesFit | index.py:146-147 | corrected, with room for all candidates, every candidate is returned |
| ListIndex.TwiceListedMatches | index.py:141-145 | a document listed twice under one term reaches the match count of a two-term query |
| ListIndex.RepeatedDocumentMatchesMissingTerm | index.py:141-145 | after adding a document twice, it is a candidate for a query term it does not contain |
| ListIndex.Write | index.py:120-131 | one record per key of `doc_counts`, in order, with its count |
| ListIndex.Read | index.py:107-118 | restores `number_of_documents` and well-formed dicts |
| ListIndex.ReadWrite | index.py:107-131 | write then read restores the document count, every count and every posting list, in order |
| DictIndex.Create | index.py:151-157 | a new index has no documents and no terms, and satisfies the invariant |
| DictIndex.AddPosting | index.py:163-165 | one loop pass keeps the dicts well formed and the two key orders in step |
| DictIndex.AddPostings | index.py:162-165 | the loop keeps the dicts well formed and the two key orders in step |
| DictIndex.AddDocument | index.py:159-165 | `number_of_documents` grows by exactly 1, even for an empty document |
| DictIndex.AddPostingsEffect | index.py:162-165 | over distinct terms, the loop sets the document's tf and raises the count of each listed term, and nothing else |
| DictIndex.AddDocumentEffect | index.py:159-165 | each token's postings map the id to `count/len`, replacing any earlier entry, and its count rises by 1; other terms are unchanged |
| DictIndex.AddDocumentPostings | index.py:165 | the postings part of `AddDocumentEffect` |
| DictIndex.AddDocumentCounts | index.py:163 | the count and key part of `AddDocumentEffect` |
| DictIndex.AddDocumentKeepsCount | index.py:163-165 | for a new id, a term's count after the add is the size of its postings |
| DictIndex.AddDocumentKeepsInv | index.py:159-165 | adding a new document id keeps every count equal to the size of its postings |
| DictIndex.RepeatedDocumentOvercounts | index.py:163-165 | re-adding a listed id counts it again while its postings keep their size, breaking the invariant |
| DictIndex.Keep | index.py:201 | the intersection keeps exactly the ids present in both |
| DictIndex.Narrow | index.py:195-201 | an unknown query term forces the early return; the ids kept stay distinct |
| DictIndex.Candidates | index.py:194-201 | the ids left after the first loop are distinct |
| DictIndex.NarrowMembers | index.py:195-201 | the first loop keeps exactly the ids that every remaining term lists |
| DictIndex.CandidatesAreListedByAll | index.py:195-201 | the candidates are exactly the ids every query term lists, and none for an empty query |
| DictIndex.Search | index.py:193-212 | `[]` for an empty query or an unknown term; otherwise distinct candidates, for `num_results >= 0` exactly `num_results` of them or all when there are fewer |
| DictIndex.SearchIsDescending | index.py:211-212 | results run from the highest score down |
| DictIndex.SearchKeepsMostRelevant | index.py:211-212 | every candidate cut off scores no higher than any result |
| DictIndex.AllCandidatesFit | index.py:211-212 | with room for all candidates, every candidate is returned |
| DictIndex.TermPass | index.py:207-209 | one term's pass keeps the score dict well formed |
| DictIndex.TermPassMembers | index.py:207-209 | one pass holds the ids given besides those it started with |
| DictIndex.TermPassValues | index.py:207-209 | one pass adds each id's `tf * idf` once and leaves other entries alone |
| DictIndex.MatchScores | index.py:203-209 | the second loop yields a well-formed score dict |
| DictIndex.MatchScoresAreScores | index.py:203-209 | the scores hold exactly the candidates, in order, each with its tf-idf score |
| DictIndex.Write | index.py:167-178 | one record per key of `doc_counts`, in order, with its count |
| DictIndex.Read | index.py:180-191 | restores `number_of_documents` and well-formed dicts |
| DictIndex.ReadWrite | index.py:167-191 | write then read restores the document count, every count and every postings dict, in order, for any index whose two dicts share their keys, which every `add_document` keeps even for a repeated id |
| Indexers.AddDocument | index.py:16-18 | every kind of index counts one more document and stays the same kind |
| Indexers.Search | index.py:20-22 | each kind runs its own `search` as written: every id returned is a candidate, a positive `num_results` gives that many or all candidates when there are fewer, and an inverted index answers an empty query with nothing |
| Indexers.SearchOrder | index.py:146-147 | the list-based index returns its results from the lowest score up, as written; the dict-based index (index.py:211) from the highest down |
| Indexers.AddDocumentLists | index.py:16-18 | adding a document lists its id under exactly its tokens, in every kind of index |
| Indexers.SearchFindsListed | index.py:20-22 | every id any index returns is listed under every query term; for the list-based index only when no posting list names a document twice |
| Indexers.CreateIndex | index.py:74-79 | `NaiveIndexer` gives a fresh empty naive index with its file name; `SingleIndexIndexer` gives its own index |
| Indexers.FreshIndexesListNothing | index.py:91-97 | new inverted indexes list nothing |
| IndexingProcess.AddAll | indexing_process.py:30-33 | the loop keeps the index kind and counts one document per document iterated |
| IndexingProcess.Run | indexing_process.py:19-34 | the document count grows by the collection size; an empty collection leaves the created index unchanged |
| IndexingProcess.AddAllLists | indexing_process.py:30-33 | after the loop, an id is listed under a term exactly when it was before or an added document with that id has the term |
| IndexingProcess.RunLists | indexing_process.py:19-34 | a run into an index that lists nothing lists each document under exactly the tokens of its text |
| IndexingProcess.AddAllConcat | indexing_process.py:30-33 | adding two lists one after the other is adding their concatenation |
| IndexingProcess.SecondRunContinues | index.py:215-220 | with `SingleIndexIndexer`, a second run continues from the first run's documents |
| IndexingProcess.AddAllNaive | indexing_process.py:30-33 | the naive index holds the transformed documents, in iteration order, after the earlier ones |
| IndexingProcess.NaiveRunIsFresh | index.py:74-79 | with `NaiveIndexer`, each run holds only its own collection's transformed documents, in order |
| IndexingProcess.AddAllKeepsListInvariants | indexing_process.py:30-33 | adding documents with distinct new ids keeps the list-based counts equal to list lengths and lists free of repeats |
| IndexingProcess.AddAllKeepsDictInvariant | indexing_process.py:30-33 | adding documents with distinct new ids keeps the dict-based counts equal to postings sizes |
| IndexingProcess.CollectionHasDistinctIds | documents.py:94-95 | a collection filed by `insert` yields documents with distinct ids |
| IndexingProcess.RunKeepsInvariants | indexing_process.py:19-34 | the tf-idf process into a new index yields an index whose counts match its postings |
| QueryProcess.ParseQuery | query_process.py:39-45 | the terms are the tokens of the query and `num_results` passes through; a blank query has no terms |
| QueryProcess.BlankQueryHasNoTokens | query_process.py:45 | a blank query string tokenizes to nothing |
| QueryProcess.FormatTitles | query_process.py:75-80 | defined exactly when every id is in the collection (KeyError otherwise); `""` for no results |
| QueryProcess.FormatTitlesIsLines | query_process.py:75-80 | the output is one `(id) title` line per result, in order |
| QueryProcess.FormatTitlesWhenFound | query_process.py:75-80 | whenever the formatter succeeds, its output is those lines |
| QueryProcess.Results | query_process.py:107-108 | the ids are candidates for the query's tokens, `num_results` of them or all when there are fewer, lowest score first for the list-based index the factories build and highest first for the dict-based one |
| QueryProcess.ListBasedPrintsLesserOfTwo | query_process.py:107-108 | with the list-based index and `num_results == 1`, of two candidates with different scores the better one is never printed |
| QueryProcess.Run | query_process.py:100-110 | `run` is the title lines of the search results of the parsed query, or fails exactly when some result has no document |
| QueryProcess.RunDefault | query_process.py:100 | `num_results` defaults to 10, so at most ten titles |
| QueryProcess.BlankQueryPrintsNothing | query_process.py:100-110 | a blank query on an inverted index prints `""` |
| QueryProcess.PrintedDocumentsMatch | query_process.py:100-110 | every printed result is listed under every token of the query; for the list-based index only when no posting list names a document twice |
| Eval.AnnotateSingleResult | eval.py:65-71 | the entry returned always carries the given query id and document id, whether a judgement was found or not |
| Eval.AnnotateFindsFirstJudgement | eval.py:68-70 | the first matching judgement is returned |
| Eval.AnnotateUnjudged | eval.py:71 | without a matching judgement, the entry has value 0 |
| Eval.AnnotateQuery | eval.py:84-86 | one annotation per result of a query, each for that result |
| Eval.AnnotateItems | eval.py:83-86 | one annotation per result id of all queries |
| Eval.AnnotateResults | eval.py:74-87 | one annotation per result id in the dict |
| Eval.AnnotateItemsOrder | eval.py:74-87 | annotations come query by query in dict order, and results in order within a query |
| Eval.ScoreBySum | eval.py:90-91 | an empty list scores 0 and a one-entry list scores that entry's eval_value; with Eval.ScoreAppend this makes the score the sum of eval_value over the list |
| Eval.ScoreAppend | eval.py:90-91 | the score of concatenated lists is the sum of their scores |
| Eval.ScoreOfAnnotatedItems | eval.py:90-91 | the total score is the sum of the per-query scores |
| Eval.UnjudgedQueryScoresZero | eval.py:90-91 | a query without judgements scores 0 whatever it returned |
| SentenceBoundary.Cut | sentence_boundary.py:15 | the scan yields at least one piece, and one separator between each two pieces |
| SentenceBoundary.SentenceBoundary | sentence_boundary.py:9-18 | never empty; empty text gives `[""]` |
| SentenceBoundary.CutJoins | sentence_boundary.py:15 | pieces rejoined with the removed runs give back the text |
| SentenceBoundary.CutShape | sentence_boundary.py:15 | every piece but the last ends with `.`, `?` or `!`, and every removed run is non-empty whitespace |
| SentenceBoundary.CutPiecesEndSentences | sentence_boundary.py:15 | every piece but the last ends with a terminator |
| SentenceBoundary.CutSeparatorsAreSpace | sentence_boundary.py:15 | every removed run is non-empty whitespace |
| SentenceBoundary.CutPiecesHaveNoCut | sentence_boundary.py:15 | no piece holds a boundary, and no later piece starts with whitespace: cuts take whole runs |
| SentenceBoundary.NoCutKeepsText | sentence_boundary.py:15 | without a terminator followed by whitespace, the rest comes back whole |
| SentenceBoundary.SentenceBoundarySpec | sentence_boundary.py:9-18 | the split rejoins to the text; splits fall exactly at maximal whitespace runs after `.?!` |
| SentenceBoundary.NoBoundaryIsOnePiece | sentence_boundary.py:15 | text without a terminator followed by whitespace is returned as one piece |

## Left out

- Files and JSON. `read` and `write` work on record datatypes, not on text or files.
  `get_small_wiki` and `JsonEncoderWithIterablesDefault` are JSON plumbing.
- `math.log`. The idf is a function parameter. The model also does not handle a
  zero document count, which the code never reaches for a listed term.
- Floating point. Term frequencies and scores are exact reals. Float rounding can
  reorder near-equal scores.
- document_source.py and search_api.py are not part of this model. search_api's
  two records appear with the fields the code uses.
- `read_queries`, `read_tests` and `run_queries` in eval.py are file I/O.
  `AnnotateResults` takes the dict that `run_queries` returns.
- query_process.py:
  - `main`, its `input()` loop and the `create_*` factories are I/O;
  - `NaiveResultFormatter` returns Python's `repr` of a dataclass, which is not modelled.
- The module-level `print` at sentence_boundary.py:21.
- Unicode. `lower()`, `\w` and `\s` have ASCII semantics.
- DictIndex.Search: ties are ordered by the first term's postings order. Python
  iterates a set there, whose order is unspecified.
- CorpusStatistics.DocumentCountIsDocs: the counter is fed the distinct tokens in
  first-occurrence order rather than `set(...)` order. Only the key order of the
  result differs.
- `write`'s lookup of `term_to_doc_id_and_frequencies[term]` on a `defaultdict`
  can insert an empty entry. The invariant (counts and postings have the same
  keys) rules that case out.
- CorpusStatistics.WithoutKeys deletes keys as a set. `del c[w]` on a Counter
  ignores missing keys, so the order of deletions does not matter.
- Indexers.SearchFindsListed: for the list-based index it is stated only when no
  posting list names a document twice. Adding a document id a second time
  (index.py:99-105) breaks conjunctive matching: the repeated posting counts as
  a match for another term at index.py:141-145, so a document can come back
  for a term it does not contain (ListIndex.RepeatedDocumentMatchesMissingTerm).
  One run over a collection adds each id once, so its index meets the condition
  (IndexingProcess.RunKeepsInvariants). A second run with `SingleIndexIndexer`
  over the same collection re-adds every id, so it can break the condition.
- QueryProcess.PrintedDocumentsMatch: same condition and reason as
  Indexers.SearchFindsListed, since it is that lemma at the level of `run`.
- `search` does not mutate the index. The model has no index state to change, so
  no lemma states this.
- counters.py:37-41: `counters.tokenize` is the same four passes as
  `NaiveTokenizer.tokenize`, and both are the single function
  `Tokenizer.Tokenize`. Their equality holds by construction, not by a lemma.

## Findings

| source | as written | input that shows it | evidently intended | confidence | as-written member | corrected member |
|---|---|---|---|---|---|---|
| index.py:146 | `sorted(match_scores.keys(), key=match_scores.get)` sorts candidates by ascending score before `[0:num_results]`, so the least relevant documents are returned first and the most relevant are cut off | two candidates with different scores and `num_results == 1`: the higher-scoring one is never returned (`ListIndex.TopResultOfTwo`) and never printed by `run` (`QueryProcess.ListBasedPrintsLesserOfTwo`) | `reverse=True`, as the dict-based index does at index.py:211: best score first | not executed | ListIndex.SearchKeepsLeastRelevant | ListIndex.RankedSearchKeepsMostRelevant |
