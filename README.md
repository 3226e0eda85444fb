# Boogle search engine core in Dafny

This project models the discrete core of Boogle, a small book search engine, and proves properties of that model. The core has four parts:

- **Ingestion** (routes/books.js). A fetched book's tokens are lower-cased and counted. Each term's posting list in the inverted index then either gets created or has `{id, count}` appended.
- **Query side** (routes/search.js):
  - the "did you mean" suggestion at minimum edit distance;
  - trie-based autocompletion;
  - top-20 candidate selection;
  - the ±200-character snippet;
  - the unknown-term response;
  - for the advanced search: the `.`→`%` pattern rewrite, gathering the ids and looking up the counts.
- **Ranking** (routes/classement.js). Keyword occurrence counting, `rankByRelevance`, and `calculatePageRank`.
- **Book service** (services/book.js). Which download URL `fetch_content` and `fetch_image` choose, and the path a cover image is stored under.

Database tables are in-memory maps and sequences. The tokenizer, the clock and the trie lookup are parameters.

Modules and files:

| file | module | models |
|---|---|---|
| wrappers.dfy | `Wrappers` | `Option` for `null` results and lookups that miss; `Min`/`Max` |
| text.dfy | `Text` | `toLowerCase` on ASCII, substring occurrence, `indexOf`, `includes`, decimal rendering |
| sorting.dfy | `Sorting` | `Array.prototype.sort` with a numeric comparator: a stable sort by an integer key |
| mapsum.dfy | `MapSum` | the sum of a map's values |
| catalog.dfy | `Catalog` | the book record |
| editdistance.dfy | `EditDistance` | unit-cost Levenshtein distance |
| ingestion.dfy | `Ingestion` | token counting and the inverted-index update |
| search.dfy | `Search` | `suggestTerm`, `searchBooks` and `advancedSearchBooks` selection logic |
| autocomplete.dfy | `Autocomplete` | `getAutocompleteSuggestions` |
| ranking.dfy | `Ranking` | `countOccurrences`, `rankByRelevance` |
| pagerank.dfy | `PageRank` | `calculatePageRank` |
| bookservice.dfy | `BookService` | `fetch_content` / `fetch_image` choices, cover file name and path |

## Model

| member | source | states |
|---|---|---|
| Text.Lower | routes/books.js:42 | `toLowerCase`: same length, each character is lower-cased |
| Text.LowerIsLower | routes/books.js:42 | the result has no upper-case letter, and lower-casing twice is lower-casing once |
| Text.IndexOf | routes/search.js:105 | -1 exactly when the query occurs nowhere; otherwise the first index where it occurs |
| Text.Includes | services/book.js:12-13 | true exactly when the needle occurs somewhere in the string |
| Text.DecimalString | services/book.js:43 | a nonempty string of decimal digits, one digit exactly for values below 10, with no leading zero |
| Text.DecimalValueOfString | services/book.js:43 | reading the rendered digits back, most significant first, gives the number itself |
| Text.DecimalStringInjective | services/book.js:43 | different numbers are rendered differently, as the round trip implies |
| Sorting.SortBy | routes/search.js:21 | the result is a permutation of the input in non-decreasing key order |
| Sorting.SortByStable | routes/search.js:21 | the sort is stable: the elements with any one key keep their relative order |
| Sorting.SortByHead | routes/search.js:22 | the first element after sorting is the earliest element of minimum key |
| Sorting.SortByPrefixDominates | routes/search.js:97 | the first n sorted elements are a sub-multiset of the input, and every element left out has a key no smaller than any element taken |
| MapSum.SumBump | routes/books.js:43-44 | counting one more occurrence of a key adds one to the map's total |
| Ingestion.LowerTokens | routes/books.js:41-42 | each token is lower-cased, in order |
| Ingestion.FrequenciesKeys | routes/books.js:41-45 | every key of the frequency map is lower-case with a count of at least 1, and every token's lower-cased form is a key |
| Ingestion.FrequenciesSnoc | routes/books.js:43-44 | one more token creates its lower-cased key with 1 or increments it, and leaves the other keys alone |
| Ingestion.FrequenciesSum | routes/books.js:41-45 | the counts sum to the number of tokens |
| Ingestion.CountTokens | routes/books.js:40-45 | the counting loop yields, for each lower-cased token, the number of tokens equal to it after lower-casing |
| Ingestion.InvertedIndexTable.constructor | models/inverted_indexing.js:4-21 | the `invertedIndexing` table starts empty: no term has a posting list yet |
| Ingestion.InvertedIndexTable.AddPosting | routes/books.js:50-63 | an absent term gets the list `[p]`; a present term gets `p` appended at the end; no other term changes |
| Ingestion.InvertedIndexTable.IndexBook | routes/books.js:39-65 | the new index is the old one with one posting `(bookId, count)` added for each term of the book, and nothing else changed |
| Ingestion.NewTermGetsOnePosting | routes/books.js:50-57 | a term absent from the index ends up with exactly `[{id, count}]` |
| Ingestion.ExistingTermAppended | routes/books.js:58-63 | a present term keeps its earlier postings in order and gains `{id, count}` at the end |
| Ingestion.OtherTermsUntouched | routes/books.js:47 | terms that do not occur in the book are left exactly as they were |
| Ingestion.EveryTokenIndexed | routes/books.js:41-65 | after indexing, every lower-cased token of the book has the posting `{id, frequency}` in its term's list |
| Ingestion.IndexingTwiceDuplicates | routes/books.js:59-62 | indexing the same book twice leaves two postings for it under each of its terms |
| Ingestion.ConstructorCountedAsNaN | routes/books.js:43-44 | as written, the token "Constructor" is counted as NaN; the corrected count is 1 |
| Ingestion.ProtoTokenLost | routes/books.js:43-44 | as written, the token "__proto__" gets no entry at all; the corrected count is 1 |
| Ingestion.AsWrittenAgreesOtherwise | routes/books.js:40-45 | on token lists without those two names, the as-written loop and the corrected count agree |
| EditDistance.LevenshteinZeroIff | routes/search.js:17 | the distance is 0 exactly when the two strings are equal |
| Search.Suggestions | routes/search.js:14-19 | one suggestion per vocabulary term, in order, carrying the term's distance to the query |
| Search.SuggestTerm | routes/search.js:11-23 | no suggestion exactly when the vocabulary is empty (where the source fails); otherwise a vocabulary term whose distance is at most every other term's |
| Search.SuggestTermFirstClosest | routes/search.js:14-22 | among terms at equal minimum distance, the earliest in vocabulary order is suggested |
| Search.SuggestTermOfVocabularyTerm | routes/search.js:11-23 | a query that is itself a vocabulary term is suggested back unchanged |
| Search.TopStats | routes/search.js:97 | at most 20 stats, taken from the list, in non-increasing count order, and no stat left out has a higher count than one taken |
| Search.TopStatsFromStats | routes/search.js:97 | each selected stat is one of the term's stats |
| Search.CandidateIds | routes/search.js:97 | at most 20 ids, each the id of a selected stat, in the order of the selection |
| Search.SnippetWindow | routes/search.js:105-107 | 0 ≤ start ≤ end ≤ length and at most 400 wide; with no match the window is [0, min(length, 199)) |
| Search.Snippet | routes/search.js:104-109 | the new content is at most 403 characters and ends in "..." |
| Search.SnippetIsPieceOfContent | routes/search.js:108 | the new content is a slice of the old content followed by "..." |
| Search.SnippetShowsFirstMatch | routes/search.js:105-108 | when the query occurs in the lower-cased content and has at most 200 characters, it also occurs in the lower-cased snippet |
| Search.SnippetContents | routes/search.js:104-109 | every book in the results has its content replaced by its snippet and nothing else changed |
| Search.SearchBooksSelect | routes/search.js:84-97 | a known term yields its top-20 candidate ids; an unknown term with a non-empty vocabulary always yields the no-match response, with empty `books` and `recommendations` and the closest vocabulary term as `termSuggestion` (the one `SuggestTerm` picks, so ties go to the earliest term); it fails exactly when the vocabulary is empty |
| Search.LikePattern | routes/search.js:150 | every '.' becomes '%', every other character is kept |
| Search.PostingIds | routes/search.js:156 | the ids of a posting list, in order |
| Search.GatherIds | routes/search.js:155-157 | an id is gathered exactly when some matching term's list has a posting for it |
| Search.GatherIdsAppend | routes/search.js:155-157 | gathering is concatenation in term order, duplicates kept |
| Search.FirstPostingIndex | routes/search.js:178 | the first posting with the id, or none exactly when no posting has it |
| Search.FirstRowIndex | routes/search.js:177 | the first matching term whose list has the id, or none exactly when no list has it |
| Search.MatchCount | routes/search.js:176-178 | 0 when no list has the id; otherwise the count of the first posting with the id in the first term that has one |
| Autocomplete.StackWalkPop | routes/search.js:58-64 | popping the top frame and pushing its children leaves the walk order unchanged: the popped node, then its subtrees from the last child to the first, then the rest of the stack |
| Autocomplete.WalkFrom | routes/search.js:57-66 | the nodes visited are exactly the first min(5, subtree size) nodes of the walk of the found node, in walk order, all of them below it |
| Autocomplete.PushChildren | routes/search.js:62-64 | the children are pushed onto the stack in entry order, each with its key appended to the prefix |
| Autocomplete.GetAutocompleteSuggestions | routes/search.js:52-70 | no suggestions when the prefix is not found; otherwise min(5, nodes under the found node) suggestions, the first being the found node and all of them below it, and they are the first nodes of the depth-first walk that visits a node, then the subtree of its last child, down to that of its first child. The loop invariant keeps every stack entry reachable from the found node along a path whose keys extend the starting prefix |
| Ranking.CountOccurrences | routes/classement.js:1-5 | an empty keyword matches at every position, end included; otherwise the result is the number of successive leftmost matches in the lower-cased text, each search resuming right after the previous match, and it is 0 exactly when the lower-cased keyword never occurs |
| Ranking.CountFromZeroIff | routes/classement.js:2-4 | the matches counted from a position are 0 exactly when the keyword occurs nowhere from that position on |
| Ranking.CountFromScan | routes/classement.js:2-4 | the same count read as a left-to-right scan: nothing once fewer characters remain than the keyword has; a match at the current position counts one and the scan jumps past it; otherwise the scan moves one character on |
| Ranking.CountFromBound | routes/classement.js:3-4 | the matches counted from a position never take more characters than remain after it |
| Ranking.CountOccurrencesBound | routes/classement.js:1-5 | for a non-empty keyword, the matches never take more characters than the text has |
| Ranking.CountOccurrencesIgnoresCase | routes/classement.js:2 | counting ignores the case of both the text and the keyword |
| Ranking.ScoreAll | routes/classement.js:42-47 | each book gets the occurrences in its title, summary and content as its relevance score |
| Ranking.RankByRelevance | routes/classement.js:41-51 | the same array is returned, holding the scored books stably sorted by descending score |
| Ranking.RankedCarryScores | routes/classement.js:42-46 | each ranked book's score is the sum of its own occurrences |
| Ranking.RankedByRelevance | routes/classement.js:49-50 | the ranked books are a permutation of the scored books, in non-increasing score order, with equal scores in their original order |
| PageRank.BuildAdjacency | routes/classement.js:8-14 | the nodes are exactly the endpoints of the links; `m` is on the out-list of `n` exactly when there is a link n→m, and on the in-list exactly when there is a link m→n; every in-neighbour has a nonempty out-list |
| PageRank.AddLinkStep | routes/classement.js:9-14 | one more link adds `to` at the end of `from`'s out-list and `from` at the end of `to`'s in-list, creating missing nodes |
| PageRank.AdjacenciesWellLinked | routes/classement.js:13-29 | every node on an in-list is a node with a nonempty out-list, so the division never divides by zero |
| PageRank.DegreeSums | routes/classement.js:12-13 | total out-list length and total in-list length both equal the number of links, duplicates and self-loops included |
| PageRank.NodeIds | routes/classement.js:16 | every node exactly once |
| PageRank.SumInflow | routes/classement.js:28-30 | each in-neighbour's rank is shared over its out-links and summed |
| PageRank.UpdateRanks | routes/classement.js:24-33 | one pass computes the damped update for every node and the summed absolute change |
| PageRank.PushLink | routes/classement.js:9-14 | the two node creations and two pushes made for one link amount to adding that link to the table |
| PageRank.InitialRanks | routes/classement.js:18-21 | every node starts at 1/N, which is the rank table after zero updates |
| PageRank.Pass | routes/classement.js:24-33 | pass i turns the ranks after i updates into the ranks after i + 1 updates and measures that pass's change |
| PageRank.RunPasses | routes/classement.js:23-36 | the loop makes at most `maxIterations` updates, each after a pass whose change reached `epsilon`, and stops early only after a pass whose change was below `epsilon`, keeping the ranks from before it |
| PageRank.CalculatePageRankWithDefaults | routes/classement.js:7 | called without the optional arguments, the damping factor is 0.85, the threshold 0.0001 and at most 100 updates are made, with the same guarantees as the general call |
| PageRank.CalculatePageRank | routes/classement.js:7-39 | no links give no ranks; the ranks cover exactly the linked nodes; at most `maxIterations` updates are made, each after a pass that changed at least `epsilon`; on early exit the ranks are those from before the last pass, whose change was below `epsilon` |
| PageRank.NoLinksNoRanks | routes/classement.js:38 | with no links there are no ranks, however many passes run |
| BookService.LastIndexWithMeans | services/book.js:11-14 | the scan keeps the last format that matches, or none exactly when no format matches |
| BookService.ScanTextFormats | services/book.js:11-14 | the loop leaves the URLs of the last "text/plain" format and the last "text/html" format |
| BookService.ChooseContentSource | services/book.js:7-27 | the last "text/plain" URL when there is one, else the last "text/html" URL; no source exactly when neither is offered |
| BookService.ChooseImage | services/book.js:30-40 | the first format that is exactly "image/jpeg" or "image/png"; none exactly when there is no such format |
| BookService.FileBase | services/book.js:43 | the length is kept; a character that is not a-z, A-Z or 0-9 becomes '-', and each kept letter or digit is the title's character lower-cased, so only a-z, 0-9 and '-' remain |
| BookService.FileBaseIdempotent | services/book.js:43 | a file name base is its own file name base |
| BookService.ImagePathStaysInFolder | services/book.js:43-44 | the path is "assets/images/" + name + ".jpg", and the name has only a-z, 0-9 and '-', so the file stays in that folder |
| BookService.ImagePathDistinguishesTimes | services/book.js:43 | two covers of one title stored at different times get different paths |
| BookService.FetchImage | services/book.js:29-48 | no path exactly when no cover format is offered; otherwise "assets/images/<base>-<time>.jpg", whatever the format downloaded |

## Left out

- HTTP routing, status codes and request checks (routes/search.js, routes/books.js), and app.js: plumbing around the modelled logic.
- Sequelize models, migrations and the `findAll`/`findOne`/`create`/`save` calls. The tables are maps and sequences given as parameters.
- The SQL `LIKE` match of the rewritten pattern: only the rewrite is modelled.
- `axios.get`, the cheerio HTML-to-text step, `fs.writeFileSync` and loading assets/books.json: network and file I/O. `fetch_content` and `fetch_image` are modelled only up to the choice of URL and path.
- The tokenizer (`natural.WordTokenizer`, services/book.js:50-53) is foreign code: the tokens are an input.
- `Ingestion.InvertedIndexTable.IndexBook`: the terms are visited in some order, while the source visits them in the key order of a JavaScript object. The resulting table does not depend on that order.
- The tf-idf/score blends, their normalisation and sorting, and the recommendation lookups and sorts (routes/search.js:111-146, 173-198): floating-point scoring outside the modelled core.
- `computePageRank` in services/book.js:55-90 is floating-point numerics left out with the other score computations.
- `populateTrie`, the `/debug/trie` route and the trie's internals. The trie lookup `find` is a function parameter returning the found node or nothing. A node is a value tree whose children come in the order of `children.entries()`.
- `Autocomplete.GetAutocompleteSuggestions`: the prefix carried on the stack is proved consistent by the loop invariant, but it is never returned, so no `ensures` mentions it.
- `natural.LevenshteinDistance` is foreign code. It is defined here as unit-cost Levenshtein distance.
- Regular expressions (`new RegExp(keyword, 'gi')`, `search(regexPattern)`): keywords are matched literally, as plain strings.
- `toLowerCase` and the `[^a-zA-Z0-9]` replacement are modelled on single characters. Lower-casing is ASCII only, and a character outside the Basic Multilingual Plane counts as one character here but two UTF-16 units in JavaScript.
- `PageRank.CalculatePageRank`:
  - ranks are exact reals rather than IEEE doubles, so rounding is not modelled;
  - `Object.keys` order is taken to be node creation order rather than JavaScript's ascending order for integer-like keys. The ranks do not depend on the order, but the floating-point sum of changes would;
  - numeric ids stand for the string keys JavaScript converts them to.
- `Ranking.RankByRelevance`: a book's identity is its value; aliasing between array entries is not modelled.
- The fire-and-forget `populateTrie()` race at module load is left out as concurrency.
- In `searchBooks`, execution continues after the `catch` at routes/search.js:92-94 with a null result. That path is left out; only the successful send is modelled.

## Findings

| source | as written | input that shows it | evidently intended | confidence | as-written member | corrected member |
|---|---|---|---|---|---|---|
| routes/books.js:40-45 | `indexes` is a plain `{}`. The test `indexes[token] === undefined` sees the inherited `Object.prototype` properties: the lower-cased token "constructor" is incremented from an inherited function to NaN, and "__proto__" writes to the prototype slot and is never counted | tokens `["Constructor"]` give `{constructor: NaN}`; tokens `["__proto__"]` give `{}` | every lower-cased token counted from 1 (an object without a prototype or a `Map`) | not executed | Ingestion.ConstructorCountedAsNaN | Ingestion.CountTokens |
