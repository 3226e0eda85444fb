/**
 * The indexing part of the `/fetch` handler (routes/books.js): the tokens of a
 * newly stored book are lower-cased and counted into a term-frequency
 * dictionary, then every counted term's posting list in the inverted-index
 * table is created or has `{id, count}` appended. The table is an in-memory
 * map from term to posting list.
 */
module Ingestion {
  import opened Text
  import opened MapSum

  /** One entry `{id, count}` of a term's posting list. */
  datatype Posting = Posting(id: int, count: nat)

  /** The tokens after `toLowerCase`. */
  function LowerTokens(tokens: seq<string>): (r: seq<string>)
    ensures |r| == |tokens|
    ensures forall i :: 0 <= i < |tokens| ==> r[i] == Lower(tokens[i])
  {
    seq(|tokens|, i requires 0 <= i < |tokens| => Lower(tokens[i]))
  }

  /**
   * The term-frequency dictionary the counting loop should build: its keys are
   * the lower-cased tokens, and each maps to the number of tokens equal to it
   * after lower-casing.
   */
  function Frequencies(tokens: seq<string>): map<string, nat>
  {
    var lowered := LowerTokens(tokens);
    map t | t in lowered :: multiset(lowered)[t]
  }

  /** Every key is a lower-cased token that occurs, with a count of at least one; every token is a key. */
  lemma FrequenciesKeys(tokens: seq<string>)
    ensures forall t :: t in Frequencies(tokens) ==> IsLower(t) && Frequencies(tokens)[t] >= 1
    ensures forall i :: 0 <= i < |tokens| ==> Lower(tokens[i]) in Frequencies(tokens)
  {
    var lowered := LowerTokens(tokens);
    forall t | t in lowered ensures IsLower(t) {
      var i :| 0 <= i < |lowered| && lowered[i] == t;
      LowerIsLower(tokens[i]);
    }
    assert forall i :: 0 <= i < |tokens| ==> lowered[i] in lowered;
  }

  lemma FrequenciesSnoc(tokens: seq<string>, token: string)
    ensures Frequencies(tokens + [token]) == Bump(Frequencies(tokens), Lower(token))
  {
    var lowered, x := LowerTokens(tokens), Lower(token);
    var lowered' := LowerTokens(tokens + [token]);
    assert lowered' == lowered + [x];
    assert multiset(lowered') == multiset(lowered) + multiset{x};
    var lhs, rhs := Frequencies(tokens + [token]), Bump(Frequencies(tokens), x);
    assert lhs.Keys == rhs.Keys by {
      forall t ensures t in lhs <==> t in rhs {
        assert t in lowered' <==> t in lowered || t == x;
      }
    }
    forall t | t in lhs ensures lhs[t] == rhs[t] {
      if t != x {
        assert t in lowered;
      }
    }
  }

  /** The counts add up to the number of tokens. */
  lemma {:induction false} FrequenciesSum(tokens: seq<string>)
    ensures Sum(Frequencies(tokens)) == |tokens|
  {
    if tokens != [] {
      var n := |tokens| - 1;
      assert tokens == tokens[..n] + [tokens[n]];
      FrequenciesSum(tokens[..n]);
      FrequenciesSnoc(tokens[..n], tokens[n]);
      SumBump(Frequencies(tokens[..n]), Lower(tokens[n]));
    }
  }

  /** The counting loop of routes/books.js:40-45. */
  method CountTokens(tokens: seq<string>) returns (freq: map<string, nat>)
    ensures freq == Frequencies(tokens)
  {
    freq := map[];
    for i := 0 to |tokens|
      invariant freq == Frequencies(tokens[..i])
    {
      var token := Lower(tokens[i]);
      if token !in freq {
        freq := freq[token := 1];
      } else {
        freq := freq[token := freq[token] + 1];
      }
      assert tokens[..i + 1] == tokens[..i] + [tokens[i]];
      FrequenciesSnoc(tokens[..i], tokens[i]);
    }
    assert tokens[..|tokens|] == tokens;
  }

  /** The posting list stored for `term`, empty when the term has no row. */
  function Postings(table: map<string, seq<Posting>>, term: string): seq<Posting>
  {
    if term in table then table[term] else []
  }

  /**
   * The table after one book is indexed: every counted term gets
   * `{bookId, count}` at the end of its (possibly new) list; every other row
   * is left as it was.
   */
  function AfterIndexing(table: map<string, seq<Posting>>, bookId: int, freq: map<string, nat>)
    : map<string, seq<Posting>>
  {
    map t | t in table.Keys + freq.Keys ::
      if t in freq then Postings(table, t) + [Posting(bookId, freq[t])] else table[t]
  }

  /** Indexing one more term of the book is one create-or-append on that term's row. */
  lemma AfterIndexingStep(table: map<string, seq<Posting>>, bookId: int, done: map<string, nat>, t: string, c: nat)
    requires t !in done
    ensures var before := AfterIndexing(table, bookId, done);
      AfterIndexing(table, bookId, done[t := c]) == before[t := Postings(before, t) + [Posting(bookId, c)]]
  {
    var before := AfterIndexing(table, bookId, done);
    var lhs := AfterIndexing(table, bookId, done[t := c]);
    var rhs := before[t := Postings(before, t) + [Posting(bookId, c)]];
    assert Postings(before, t) == Postings(table, t);
    assert lhs.Keys == rhs.Keys;
    forall u | u in lhs ensures lhs[u] == rhs[u] {
    }
  }

  lemma RestrictGrows(freq: map<string, nat>, pending: set<string>, t: string)
    requires t in pending && pending <= freq.Keys
    ensures freq - (pending - {t}) == (freq - pending)[t := freq[t]]
    ensures t !in freq - pending
  {
  }

  /** The `inverted_indexing` table: one row per term holding its posting list. */
  class InvertedIndexTable {
    var terms: map<string, seq<Posting>>

    constructor ()
      ensures terms == map[]
    {
      terms := map[];
    }

    /** Creates the term's row with a one-element list, or appends to the existing list. */
    method AddPosting(term: string, p: Posting)
      modifies this
      ensures terms == old(terms)[term := Postings(old(terms), term) + [p]]
    {
      if term !in terms {
        assert Postings(terms, term) + [p] == [p];
        terms := terms[term := [p]];
      } else {
        terms := terms[term := terms[term] + [p]];
      }
    }

    /** Indexes one stored book (routes/books.js:39-65). */
    method IndexBook(bookId: int, tokens: seq<string>)
      modifies this
      ensures terms == AfterIndexing(old(terms), bookId, Frequencies(tokens))
    {
      var freq := CountTokens(tokens);
      var pending := freq.Keys;
      while pending != {}
        invariant pending <= freq.Keys
        invariant terms == AfterIndexing(old(terms), bookId, freq - pending)
        decreases pending
      {
        var t :| t in pending;
        RestrictGrows(freq, pending, t);
        AfterIndexingStep(old(terms), bookId, freq - pending, t, freq[t]);
        AddPosting(t, Posting(bookId, freq[t]));
        pending := pending - {t};
      }
      assert freq - {} == freq;
    }
  }

  /** A term that had no row gets exactly one posting, for this book. */
  lemma NewTermGetsOnePosting(table: map<string, seq<Posting>>, bookId: int, tokens: seq<string>, t: string)
    requires t in Frequencies(tokens) && t !in table
    ensures AfterIndexing(table, bookId, Frequencies(tokens))[t] == [Posting(bookId, Frequencies(tokens)[t])]
  {
  }

  /** A term that had a row gets the new posting at the end; earlier postings stay, in order. */
  lemma ExistingTermAppended(table: map<string, seq<Posting>>, bookId: int, tokens: seq<string>, t: string)
    requires t in Frequencies(tokens) && t in table
    ensures var list := AfterIndexing(table, bookId, Frequencies(tokens))[t];
      |list| == |table[t]| + 1 && list[..|table[t]|] == table[t]
      && list[|table[t]|] == Posting(bookId, Frequencies(tokens)[t])
  {
  }

  /** Terms that do not occur in the book are untouched. */
  lemma OtherTermsUntouched(table: map<string, seq<Posting>>, bookId: int, tokens: seq<string>, t: string)
    requires t !in Frequencies(tokens)
    ensures var after := AfterIndexing(table, bookId, Frequencies(tokens));
      (t in after <==> t in table) && (t in table ==> after[t] == table[t])
  {
  }

  /** After indexing, every token of the book, lower-cased, lists the book with its frequency. */
  lemma EveryTokenIndexed(table: map<string, seq<Posting>>, bookId: int, tokens: seq<string>, i: nat)
    requires i < |tokens|
    ensures var t := Lower(tokens[i]);
      var after := AfterIndexing(table, bookId, Frequencies(tokens));
      t in after && Posting(bookId, multiset(LowerTokens(tokens))[t]) in after[t]
  {
    var t := Lower(tokens[i]);
    assert LowerTokens(tokens)[i] == t;
    var list := AfterIndexing(table, bookId, Frequencies(tokens))[t];
    assert list[|list| - 1] == Posting(bookId, multiset(LowerTokens(tokens))[t]);
  }

  /** No deduplication: indexing the same book twice leaves two postings for it under each of its terms. */
  lemma IndexingTwiceDuplicates(table: map<string, seq<Posting>>, bookId: int, tokens: seq<string>, t: string)
    requires t in Frequencies(tokens)
    ensures var freq := Frequencies(tokens);
      AfterIndexing(AfterIndexing(table, bookId, freq), bookId, freq)[t]
        == Postings(table, t) + [Posting(bookId, freq[t]), Posting(bookId, freq[t])]
  {
  }

  // ---------------------------------------------------------------------
  // The counting loop as written. `indexes` is a plain `{}` object, so a
  // lookup of a token that names a property inherited from Object.prototype
  // is not `undefined`. Two such names are entirely lower-case, and
  // lower-cased tokens can equal them:
  //  - "constructor": the `else` branch increments the inherited function,
  //    which gives NaN, and that NaN becomes the token's stored count;
  //  - "__proto__": the incremented value is NaN, which the __proto__ setter
  //    ignores, so the token never becomes a key and is not indexed.
  // `Frequencies` above is the intended behaviour, and the one the index uses.
  // ---------------------------------------------------------------------

  /** A number the loop can leave in `indexes`: a count, or NaN. */
  datatype JsCount = Count(n: nat) | NaN

  /** One pass of the loop body at routes/books.js:42-44 on a plain object. */
  function CountStepAsWritten(indexes: map<string, JsCount>, token: string): map<string, JsCount>
  {
    if token == "__proto__" then indexes
    else if token in indexes then
      indexes[token := if indexes[token].Count? then Count(indexes[token].n + 1) else NaN]
    else if token == "constructor" then indexes[token := NaN]
    else indexes[token := Count(1)]
  }

  /** The dictionary the loop at routes/books.js:40-45 really builds. */
  function FrequenciesAsWritten(tokens: seq<string>): map<string, JsCount>
  {
    if tokens == [] then map[]
    else
      var n := |tokens| - 1;
      CountStepAsWritten(FrequenciesAsWritten(tokens[..n]), Lower(tokens[n]))
  }

  /** The intended counts, seen as JavaScript numbers. */
  function AsNumbers(freq: map<string, nat>): map<string, JsCount>
  {
    map t | t in freq :: Count(freq[t])
  }

  lemma StepAsWrittenAgrees(freq: map<string, nat>, token: string)
    requires token != "constructor" && token != "__proto__"
    ensures CountStepAsWritten(AsNumbers(freq), token) == AsNumbers(Bump(freq, token))
  {
    var lhs, rhs := CountStepAsWritten(AsNumbers(freq), token), AsNumbers(Bump(freq, token));
    assert lhs.Keys == rhs.Keys;
    forall u | u in lhs ensures lhs[u] == rhs[u] {
    }
  }

  /** The token "Constructor" is counted as NaN instead of 1. */
  lemma ConstructorCountedAsNaN()
    ensures FrequenciesAsWritten(["Constructor"]) == map["constructor" := NaN]
    ensures Frequencies(["Constructor"]) == map["constructor" := 1]
  {
    assert Lower("Constructor") == "constructor";
    assert LowerTokens(["Constructor"]) == ["constructor"];
  }

  /** The token "__proto__" is lost, whereas it should be counted once. */
  lemma ProtoTokenLost()
    ensures FrequenciesAsWritten(["__proto__"]) == map[]
    ensures Frequencies(["__proto__"]) == map["__proto__" := 1]
  {
    assert Lower("__proto__") == "__proto__";
    assert LowerTokens(["__proto__"]) == ["__proto__"];
  }

  /** On every other token list the loop as written agrees with `Frequencies`. */
  lemma {:induction false} AsWrittenAgreesOtherwise(tokens: seq<string>)
    requires forall i :: 0 <= i < |tokens| ==> Lower(tokens[i]) != "constructor" && Lower(tokens[i]) != "__proto__"
    ensures FrequenciesAsWritten(tokens) == AsNumbers(Frequencies(tokens))
  {
    if tokens == [] {
      assert AsNumbers(Frequencies(tokens)) == map[];
    } else {
      var n := |tokens| - 1;
      assert tokens == tokens[..n] + [tokens[n]];
      AsWrittenAgreesOtherwise(tokens[..n]);
      FrequenciesSnoc(tokens[..n], tokens[n]);
      StepAsWrittenAgrees(Frequencies(tokens[..n]), Lower(tokens[n]));
    }
  }
}
