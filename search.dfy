/**
 * The selection logic of the search routes (routes/search.js): the
 * edit-distance term suggestion, the top-20 candidate selection, the snippet
 * window cut around the first match, the response for an unknown term, and
 * the id gathering, count lookup and pattern rewrite of the advanced search.
 * The `tf_idfs` and `invertedIndexing` tables are in-memory values.
 */
module Search {
  import opened Wrappers
  import opened Text
  import opened Sorting
  import opened EditDistance
  import opened Catalog
  import opened Ingestion

  // ----- suggestTerm -----

  /** One `{term, distance}` record built by `suggestTerm`. */
  datatype Suggestion = Suggestion(term: string, distance: nat)

  function Suggestions(vocabulary: seq<string>, query: string): (r: seq<Suggestion>)
    ensures |r| == |vocabulary|
    ensures forall i :: 0 <= i < |r| ==> r[i] == Suggestion(vocabulary[i], Levenshtein(query, vocabulary[i]))
  {
    seq(|vocabulary|, i requires 0 <= i < |vocabulary| => Suggestion(vocabulary[i], Levenshtein(query, vocabulary[i])))
  }

  function ByDistance(s: Suggestion): int { s.distance }

  /**
   * `suggestTerm`: sorts the vocabulary by distance to the query and takes the
   * first term. On an empty vocabulary `suggestions[0].term` throws; that
   * failure is None.
   */
  function SuggestTerm(vocabulary: seq<string>, query: string): (r: Option<string>)
    ensures r.None? <==> vocabulary == []
    ensures r.Some? ==> r.value in vocabulary
    ensures r.Some? ==> forall t :: t in vocabulary ==> Levenshtein(query, r.value) <= Levenshtein(query, t)
  {
    if vocabulary == [] then None
    else
      var s := Suggestions(vocabulary, query);
      SortByHead(s, ByDistance);
      var i := FirstMinIndex(s, ByDistance);
      assert forall t :: t in vocabulary ==> exists j :: 0 <= j < |s| && s[j].term == t;
      Some(SortBy(s, ByDistance)[0].term)
  }

  /** Ties go to the earliest closest term in vocabulary order, because the sort is stable. */
  lemma SuggestTermFirstClosest(vocabulary: seq<string>, query: string, i: nat)
    requires i < |vocabulary|
    requires forall j :: 0 <= j < |vocabulary| ==> Levenshtein(query, vocabulary[i]) <= Levenshtein(query, vocabulary[j])
    requires forall j :: 0 <= j < i ==> Levenshtein(query, vocabulary[i]) < Levenshtein(query, vocabulary[j])
    ensures SuggestTerm(vocabulary, query) == Some(vocabulary[i])
  {
    var s := Suggestions(vocabulary, query);
    SortByHead(s, ByDistance);
    FirstMinIndexUnique(s, ByDistance, i);
  }

  /** A query that is itself in the vocabulary is suggested back unchanged. */
  lemma SuggestTermOfVocabularyTerm(vocabulary: seq<string>, query: string)
    requires query in vocabulary
    ensures SuggestTerm(vocabulary, query) == Some(query)
  {
    LevenshteinZeroIff(query, query);
    LevenshteinZeroIff(query, SuggestTerm(vocabulary, query).value);
  }

  // ----- searchBooks: candidate selection -----

  /** One element of a term's `stats` list in the `tf_idfs` table; its tf-idf score is not modelled. */
  datatype Stat = Stat(id: int, count: int)

  const MaxCandidates: nat := 20

  function ByCountDescending(s: Stat): int { -s.count }

  /** `stats.sort((a, b) => b.count - a.count)` cut to its first 20 elements. */
  function TopStats(stats: seq<Stat>): (r: seq<Stat>)
    ensures |r| == Min(MaxCandidates, |stats|)
    ensures multiset(r) <= multiset(stats)
    ensures forall i, j :: 0 <= i < j < |r| ==> r[i].count >= r[j].count
    ensures forall x, y :: x in multiset(stats) - multiset(r) && y in r ==> x.count <= y.count
  {
    var n := Min(MaxCandidates, |stats|);
    SortByPrefixDominates(stats, ByCountDescending, n);
    CountsDescending(SortBy(stats, ByCountDescending), n);
    SortBy(stats, ByCountDescending)[..n]
  }

  /** A prefix of the stats sorted by `ByCountDescending` lists the counts from highest to lowest. */
  lemma CountsDescending(sorted: seq<Stat>, n: nat)
    requires SortedBy(sorted, ByCountDescending) && n <= |sorted|
    ensures forall i, j :: 0 <= i < j < n ==> sorted[..n][i].count >= sorted[..n][j].count
  {
    forall i, j | 0 <= i < j < n ensures sorted[..n][i].count >= sorted[..n][j].count {
      assert ByCountDescending(sorted[i]) <= ByCountDescending(sorted[j]);
    }
  }

  lemma TopStatsFromStats(stats: seq<Stat>, k: nat)
    requires k < |TopStats(stats)|
    ensures TopStats(stats)[k] in stats
  {
    var top := TopStats(stats);
    assert top[k] in multiset(top);
    assert top[k] in multiset(stats);
  }

  function StatIds(stats: seq<Stat>): set<int>
  {
    set s | s in stats :: s.id
  }

  /** `booksIds` (routes/search.js:97): the ids of the top stats, in the same order. */
  function CandidateIds(stats: seq<Stat>): (r: seq<int>)
    ensures |r| == Min(MaxCandidates, |stats|)
    ensures forall k :: 0 <= k < |r| ==> r[k] in StatIds(stats) && r[k] == TopStats(stats)[k].id
  {
    var top := TopStats(stats);
    forall k | 0 <= k < |top| ensures top[k].id in StatIds(stats) {
      TopStatsFromStats(stats, k);
    }
    seq(|top|, k requires 0 <= k < |top| => top[k].id)
  }

  // ----- searchBooks: snippets -----

  const SnippetRadius: nat := 200

  /**
   * The `[start, end)` window cut from a text of length `len` around match
   * index `index`, where -1 means no match.
   */
  function SnippetWindow(len: nat, index: int): (w: (nat, nat))
    requires -1 <= index <= len
    ensures w.0 <= w.1 <= len
    ensures w.1 - w.0 <= 2 * SnippetRadius
    ensures index == -1 ==> w == (0, Min(len, SnippetRadius - 1))
  {
    (Max(0, index - SnippetRadius), Min(len, index + SnippetRadius))
  }

  /** The new `content` of a result (routes/search.js:105-108). */
  function Snippet(content: string, query: string): (r: string)
    ensures 3 <= |r| <= 2 * SnippetRadius + 3
    ensures r[|r| - 3..] == "..."
  {
    var w := SnippetWindow(|content|, IndexOf(Lower(content), query));
    content[w.0..w.1] + "..."
  }

  /** Before the "...", the snippet is a contiguous piece of the content. */
  lemma SnippetIsPieceOfContent(content: string, query: string)
    ensures exists s, e :: 0 <= s <= e <= |content| && Snippet(content, query) == content[s..e] + "..."
  {
    var w := SnippetWindow(|content|, IndexOf(Lower(content), query));
    assert Snippet(content, query) == content[w.0..w.1] + "...";
  }

  /** When the query occurs and is at most 200 characters long, the snippet shows its first occurrence. */
  lemma SnippetShowsFirstMatch(content: string, query: string)
    requires Includes(Lower(content), query) && |query| <= SnippetRadius
    ensures Includes(Lower(Snippet(content, query)), query)
  {
    var lowered := Lower(content);
    var i := IndexOf(lowered, query);
    var w := SnippetWindow(|content|, i);
    assert w.0 <= i && i + |query| <= w.1;
    var piece := content[w.0..w.1];
    assert Snippet(content, query) == piece + "...";
    OccursInSlice(lowered, query, i, w.0, w.1);
    LowerSlice(content, w.0, w.1);
    OccursInLonger(Lower(piece), Lower("..."), query, i - w.0);
    LowerAppend(piece, "...");
  }

  /** The `forEach` of routes/search.js:104-109, replacing each result's content by its snippet. */
  method SnippetContents(results: array<Book>, query: string)
    modifies results
    ensures forall k :: 0 <= k < results.Length ==>
      results[k] == old(results[k]).(content := Snippet(old(results[k]).content, query))
  {
    ghost var before := results[..];
    for k := 0 to results.Length
      invariant forall j :: 0 <= j < k ==> results[j] == before[j].(content := Snippet(before[j].content, query))
      invariant forall j :: k <= j < results.Length ==> results[j] == before[j]
    {
      var book := results[k];
      results[k] := book.(content := Snippet(book.content, query));
    }
  }

  // ----- searchBooks: what happens after the tf-idf lookup -----

  /** The body `{books, recommendations, termSuggestion}` sent for an unknown term. */
  datatype NoMatchResponse = NoMatchResponse(books: seq<Book>, recommendations: seq<Book>, termSuggestion: string)

  datatype SearchStep =
    | Candidates(ids: seq<int>)             // known term: these books are fetched and scored
    | NoMatch(response: NoMatchResponse)    // unknown term: answered with a suggestion
    | Failed                                // unknown term, empty vocabulary: suggestTerm throws

  /**
   * `searchBooks` up to the database fetch (routes/search.js:85-97): `tfIdfs`
   * is the `tf_idfs` table, `vocabulary` the terms of the `invertedIndexing`
   * table in the order the database returns them.
   */
  function SearchBooksSelect(tfIdfs: map<string, seq<Stat>>, vocabulary: seq<string>, query: string): (r: SearchStep)
    ensures query in tfIdfs ==> r == Candidates(CandidateIds(tfIdfs[query]))
    ensures query !in tfIdfs ==> (r.Failed? <==> vocabulary == [])
    ensures query !in tfIdfs ==> (r.NoMatch? <==> vocabulary != [])
    ensures r.NoMatch? ==> query !in tfIdfs && r.response.books == [] && r.response.recommendations == []
    ensures r.NoMatch? ==> r.response.termSuggestion in vocabulary
    ensures r.NoMatch? ==>
      forall t :: t in vocabulary ==> Levenshtein(query, r.response.termSuggestion) <= Levenshtein(query, t)
    ensures r.NoMatch? ==> SuggestTerm(vocabulary, query) == Some(r.response.termSuggestion)
  {
    if query in tfIdfs then Candidates(CandidateIds(tfIdfs[query]))
    else
      match SuggestTerm(vocabulary, query)
      case None => Failed
      case Some(t) => NoMatch(NoMatchResponse([], [], t))
  }

  // ----- advancedSearchBooks -----

  /** `regex.replace(/\./g, '%')`: every '.' becomes '%', nothing else changes. */
  function LikePattern(regex: string): (r: string)
    ensures |r| == |regex|
    ensures forall i :: 0 <= i < |r| ==> r[i] == if regex[i] == '.' then '%' else regex[i]
  {
    if regex == [] then []
    else [if regex[0] == '.' then '%' else regex[0]] + LikePattern(regex[1..])
  }

  /** A row of the `invertedIndexing` table. */
  datatype TermRow = TermRow(term: string, list: seq<Posting>)

  function PostingIds(list: seq<Posting>): (r: seq<int>)
    ensures |r| == |list|
    ensures forall k :: 0 <= k < |list| ==> r[k] == list[k].id
  {
    seq(|list|, k requires 0 <= k < |list| => list[k].id)
  }

  /** `bookIds` (routes/search.js:155-157): `reduce` concatenating each row's posting ids. */
  function GatherIds(rows: seq<TermRow>): (r: seq<int>)
    ensures forall id :: id in r <==>
      exists j, k :: 0 <= j < |rows| && 0 <= k < |rows[j].list| && rows[j].list[k].id == id
  {
    if rows == [] then []
    else
      var n := |rows| - 1;
      var r := GatherIds(rows[..n]) + PostingIds(rows[n].list);
      forall id | exists j, k :: 0 <= j < |rows| && 0 <= k < |rows[j].list| && rows[j].list[k].id == id
        ensures id in r
      {
        var j, k :| 0 <= j < |rows| && 0 <= k < |rows[j].list| && rows[j].list[k].id == id;
        if j < n {
          assert rows[..n][j] == rows[j];
        } else {
          assert PostingIds(rows[n].list)[k] == id;
        }
      }
      r
  }

  /** The ids are the rows' ids in row order, duplicates kept. */
  lemma {:induction false} GatherIdsAppend(a: seq<TermRow>, b: seq<TermRow>)
    ensures GatherIds(a + b) == GatherIds(a) + GatherIds(b)
    decreases |b|
  {
    if b != [] {
      var n := |b| - 1;
      assert (a + b)[..|a| + n] == a + b[..n];
      GatherIdsAppend(a, b[..n]);
    } else {
      assert a + b == a;
    }
  }

  /** The index of the first posting for `id` (`list.find(item => item.id === id)`). */
  function FirstPostingIndex(list: seq<Posting>, id: int): (r: Option<nat>)
    ensures r.None? <==> forall k :: 0 <= k < |list| ==> list[k].id != id
    ensures r.Some? ==> r.value < |list| && list[r.value].id == id
    ensures r.Some? ==> forall k :: 0 <= k < r.value ==> list[k].id != id
  {
    if list == [] then None
    else if list[0].id == id then Some(0)
    else match FirstPostingIndex(list[1..], id)
      case None => None
      case Some(k) => Some(k + 1)
  }

  /** The index of the first row whose list has a posting for `id` (`matchingTerms.find(...)`). */
  function FirstRowIndex(rows: seq<TermRow>, id: int): (r: Option<nat>)
    ensures r.None? <==> forall j :: 0 <= j < |rows| ==> FirstPostingIndex(rows[j].list, id).None?
    ensures r.Some? ==> r.value < |rows| && FirstPostingIndex(rows[r.value].list, id).Some?
    ensures r.Some? ==> forall j :: 0 <= j < r.value ==> FirstPostingIndex(rows[j].list, id).None?
  {
    if rows == [] then None
    else if FirstPostingIndex(rows[0].list, id).Some? then Some(0)
    else match FirstRowIndex(rows[1..], id)
      case None => None
      case Some(j) => Some(j + 1)
  }

  /** `k` is the first posting for `id` in row `j`, and no earlier row has one. */
  ghost predicate IsFirstMatch(rows: seq<TermRow>, id: int, j: int, k: int)
  {
    && 0 <= j < |rows| && 0 <= k && k < |rows[j].list| && rows[j].list[k].id == id
    && (forall k' :: 0 <= k' < k ==> rows[j].list[k'].id != id)
    && (forall j', k' :: 0 <= j' < j && 0 <= k' < |rows[j'].list| ==> rows[j'].list[k'].id != id)
  }

  /** The `count` used as `bookTfidf` for a book in the advanced search (routes/search.js:177-178). */
  function MatchCount(rows: seq<TermRow>, id: int): (c: nat)
    ensures (forall j, k :: 0 <= j < |rows| && 0 <= k < |rows[j].list| ==> rows[j].list[k].id != id) ==> c == 0
    ensures forall j, k :: IsFirstMatch(rows, id, j, k) ==> c == rows[j].list[k].count
  {
    match FirstRowIndex(rows, id)
    case None => 0
    case Some(j) =>
      var k := FirstPostingIndex(rows[j].list, id).value;
      forall j', k' | IsFirstMatch(rows, id, j', k') ensures j' == j && k' == k {
      }
      rows[j].list[k].count
  }
}
