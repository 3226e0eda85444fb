/**
 * Keyword relevance (routes/classement.js): `countOccurrences` counts the
 * case-insensitive matches of a keyword, and `rankByRelevance` scores each
 * book by the matches in its title, summary and content and sorts the
 * results by that score, highest first, in place.
 */
module Ranking {
  import opened Wrappers
  import opened Text
  import opened Sorting
  import opened Catalog

  /**
   * The matches of `k` in `t` found by a global search started at `from`:
   * each search finds the leftmost occurrence at or after the current
   * position, and the next one resumes right after that match, so matches
   * never overlap.
   */
  function CountFrom(t: string, k: string, from: nat): nat
    requires |k| > 0 && from <= |t|
    decreases |t| - from
  {
    var i := IndexOfFrom(t, k, from);
    if i == -1 then 0 else 1 + CountFrom(t, k, i + |k|)
  }

  /** Nothing is counted exactly when the keyword does not occur from `from` on. */
  lemma CountFromZeroIff(t: string, k: string, from: nat)
    requires |k| > 0 && from <= |t|
    ensures CountFrom(t, k, from) == 0 <==> forall j :: from <= j ==> !OccursAt(t, k, j)
  {
    IndexOfFromFirst(t, k, from);
  }

  /**
   * The same count as a left-to-right scan over positions: past the end
   * nothing is found; a match at `from` counts one and the scan jumps past
   * it; otherwise the scan moves on by one character.
   */
  lemma CountFromScan(t: string, k: string, from: nat)
    requires |k| > 0 && from <= |t|
    ensures from + |k| > |t| ==> CountFrom(t, k, from) == 0
    ensures from + |k| <= |t| && OccursAt(t, k, from) ==> CountFrom(t, k, from) == 1 + CountFrom(t, k, from + |k|)
    ensures from + |k| <= |t| && !OccursAt(t, k, from) ==> CountFrom(t, k, from) == CountFrom(t, k, from + 1)
  {
    if from + |k| > |t| {
      assert IndexOfFrom(t, k, from) == -1;
    } else if OccursAt(t, k, from) {
      assert IndexOfFrom(t, k, from) == from;
    } else {
      assert t[from..from + |k|] != k;
      assert IndexOfFrom(t, k, from) == IndexOfFrom(t, k, from + 1);
      CountFromSameMatch(t, k, from, from + 1);
    }
  }

  lemma CountFromUnfold(t: string, k: string, from: nat)
    requires |k| > 0 && from <= |t|
    ensures CountFrom(t, k, from) == (var i := IndexOfFrom(t, k, from); if i == -1 then 0 else 1 + CountFrom(t, k, i + |k|))
  {
  }

  /** Two starting points whose next match is the same count the same matches. */
  lemma CountFromSameMatch(t: string, k: string, a: nat, b: nat)
    requires |k| > 0 && a <= |t| && b <= |t|
    requires IndexOfFrom(t, k, a) == IndexOfFrom(t, k, b)
    ensures CountFrom(t, k, a) == CountFrom(t, k, b)
  {
    CountFromUnfold(t, k, a);
    CountFromUnfold(t, k, b);
  }

  /** One more match takes `|k|` more characters. */
  lemma OneMoreMatch(rest: nat, width: nat)
    ensures (1 + rest) * width == width + rest * width
  {
  }

  /** The matches counted from `from` on never take more characters than remain. */
  lemma {:induction false} CountFromBound(t: string, k: string, from: nat)
    requires |k| > 0 && from <= |t|
    ensures CountFrom(t, k, from) * |k| <= |t| - from
    decreases |t| - from
  {
    var i := IndexOfFrom(t, k, from);
    if i != -1 {
      var rest := CountFrom(t, k, i + |k|);
      CountFromBound(t, k, i + |k|);
      OneMoreMatch(rest, |k|);
    }
  }

  /**
   * `countOccurrences(text, keyword)`: the number of matches of
   * `new RegExp(keyword, 'gi')` in `text`, for a keyword read literally. An
   * empty keyword matches once at every position, the end included.
   */
  function CountOccurrences(text: string, keyword: string): (r: nat)
    ensures keyword == [] ==> r == |text| + 1
    ensures keyword != [] ==> (r == 0 <==> forall j :: !OccursAt(Lower(text), Lower(keyword), j))
  {
    if keyword == [] then |text| + 1
    else
      CountFromZeroIff(Lower(text), Lower(keyword), 0);
      CountFrom(Lower(text), Lower(keyword), 0)
  }

  /** The matches of a non-empty keyword never take more characters than the text has. */
  lemma CountOccurrencesBound(text: string, keyword: string)
    requires keyword != []
    ensures CountOccurrences(text, keyword) * |keyword| <= |text|
  {
    CountFromBound(Lower(text), Lower(keyword), 0);
  }

  /** Matching ignores case on both sides. */
  lemma CountOccurrencesIgnoresCase(text: string, keyword: string)
    ensures CountOccurrences(Lower(text), Lower(keyword)) == CountOccurrences(text, keyword)
  {
    LowerIsLower(text);
    LowerIsLower(keyword);
  }

  /** The score `rankByRelevance` gives a book: the keyword's matches in its title, summary and content. */
  function Relevance(book: Book, query: string): nat
  {
    CountOccurrences(book.title, query) + CountOccurrences(book.summary, query) + CountOccurrences(book.content, query)
  }

  function Scored(book: Book, query: string): Book
  {
    book.(relevanceScore := Some(Relevance(book, query)))
  }

  /** The books after the `forEach` of routes/classement.js:42-47. */
  function ScoreAll(books: seq<Book>, query: string): (r: seq<Book>)
    ensures |r| == |books|
    ensures forall i :: 0 <= i < |books| ==> r[i] == Scored(books[i], query)
  {
    seq(|books|, i requires 0 <= i < |books| => Scored(books[i], query))
  }

  function ScoreOf(book: Book): int { book.relevanceScore.GetOr(0) }

  /** The key of the comparator `(a, b) => b.relevanceScore - a.relevanceScore`. */
  function ByRelevanceDescending(book: Book): int { -ScoreOf(book) }

  /** `rankByRelevance`: scores every book, then sorts the same array in place and returns it. */
  method RankByRelevance(results: array<Book>, query: string) returns (ranked: array<Book>)
    modifies results
    ensures ranked == results
    ensures results[..] == SortBy(ScoreAll(old(results[..]), query), ByRelevanceDescending)
  {
    ghost var before := results[..];
    for i := 0 to results.Length
      invariant forall j :: 0 <= j < i ==> results[j] == Scored(before[j], query)
      invariant forall j :: i <= j < results.Length ==> results[j] == before[j]
    {
      results[i] := Scored(results[i], query);
    }
    assert results[..] == ScoreAll(before, query);
    var sorted := SortBy(results[..], ByRelevanceDescending);
    forall i | 0 <= i < results.Length {
      results[i] := sorted[i];
    }
    assert results[..] == sorted;
    ranked := results;
  }

  /** A scored book's score is its own relevance. */
  lemma ScoredCarriesScore(book: Book, query: string)
    ensures Scored(book, query).relevanceScore == Some(Relevance(Scored(book, query), query))
  {
    var b := Scored(book, query);
    assert b.title == book.title && b.summary == book.summary && b.content == book.content;
  }

  /** Every ranked book carries its own relevance as its score. */
  lemma RankedCarryScores(books: seq<Book>, query: string)
    ensures forall b :: b in SortBy(ScoreAll(books, query), ByRelevanceDescending) ==>
      b.relevanceScore == Some(Relevance(b, query))
  {
    var scored := ScoreAll(books, query);
    var r := SortBy(scored, ByRelevanceDescending);
    forall b | b in r ensures b.relevanceScore == Some(Relevance(b, query)) {
      assert b in multiset(r);
      assert b in multiset(scored);
      var j :| 0 <= j < |scored| && scored[j] == b;
      ScoredCarriesScore(books[j], query);
    }
  }

  /**
   * What the ranked results are: the same scored books, in non-increasing
   * score order, with books of equal score in their original order.
   */
  lemma RankedByRelevance(books: seq<Book>, query: string, k: int)
    ensures multiset(SortBy(ScoreAll(books, query), ByRelevanceDescending)) == multiset(ScoreAll(books, query))
    ensures forall i, j :: 0 <= i < j < |books| ==>
      ScoreOf(SortBy(ScoreAll(books, query), ByRelevanceDescending)[i])
        >= ScoreOf(SortBy(ScoreAll(books, query), ByRelevanceDescending)[j])
    ensures WithKey(SortBy(ScoreAll(books, query), ByRelevanceDescending), ByRelevanceDescending, k)
         == WithKey(ScoreAll(books, query), ByRelevanceDescending, k)
  {
    SortByStable(ScoreAll(books, query), ByRelevanceDescending, k);
  }
}
