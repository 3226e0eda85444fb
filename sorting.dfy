/**
 * `Array.prototype.sort` with a numeric comparator `(a, b) => key(a) - key(b)`.
 * Since ES2019 that sort is stable, so its result is fully determined: the
 * stable permutation of the input into non-decreasing key order. It is
 * modelled here as a stable insertion sort. A descending sort
 * `(a, b) => key(b) - key(a)` is `SortBy` with the negated key.
 */
module Sorting {

  /** `s` is in non-decreasing key order. */
  ghost predicate SortedBy<T>(s: seq<T>, key: T -> int) {
    forall i, j :: 0 <= i < j < |s| ==> key(s[i]) <= key(s[j])
  }

  /** The elements of `s` whose key is `k`, in their order in `s`. */
  function WithKey<T>(s: seq<T>, key: T -> int, k: int): (r: seq<T>)
    ensures |r| <= |s|
  {
    if s == [] then []
    else if key(s[0]) == k then [s[0]] + WithKey(s[1..], key, k)
    else WithKey(s[1..], key, k)
  }

  /** Inserts `x` before the first element whose key is not smaller than its own. */
  function Insert<T>(x: T, s: seq<T>, key: T -> int): (r: seq<T>)
    ensures multiset(r) == multiset(s) + multiset{x}
    ensures SortedBy(s, key) ==> SortedBy(r, key)
    ensures r[0] == x || (s != [] && r[0] == s[0])
  {
    if s == [] || key(x) <= key(s[0]) then
      SortedCons(x, s, key);
      [x] + s
    else
      assert s == [s[0]] + s[1..];
      var rest := Insert(x, s[1..], key);
      SortedCons(s[0], rest, key);
      [s[0]] + rest
  }

  /** Putting `h` in front of a sorted `t` keeps it sorted when `h`'s key is not above `t`'s first. */
  lemma SortedCons<T>(h: T, t: seq<T>, key: T -> int)
    ensures SortedBy(t, key) && (t == [] || key(h) <= key(t[0])) ==> SortedBy([h] + t, key)
  {
    if SortedBy(t, key) && (t == [] || key(h) <= key(t[0])) {
      forall i, j | 0 <= i < j < |[h] + t| ensures key(([h] + t)[i]) <= key(([h] + t)[j]) {
        if i > 0 {
          assert ([h] + t)[i] == t[i - 1];
        } else if j > 1 {
          assert key(t[0]) <= key(t[j - 1]);
        }
      }
    }
  }

  /** The stable sort of `s` by ascending key. */
  function SortBy<T>(s: seq<T>, key: T -> int): (r: seq<T>)
    ensures multiset(r) == multiset(s)
    ensures |r| == |s|
    ensures SortedBy(r, key)
  {
    if s == [] then []
    else
      assert s == [s[0]] + s[1..];
      Insert(s[0], SortBy(s[1..], key), key)
  }

  lemma {:induction false} WithKeyInsert<T>(x: T, s: seq<T>, key: T -> int, k: int)
    ensures WithKey(Insert(x, s, key), key, k)
         == if key(x) == k then [x] + WithKey(s, key, k) else WithKey(s, key, k)
  {
    if s == [] || key(x) <= key(s[0]) {
      assert Insert(x, s, key) == [x] + s;
      assert ([x] + s)[1..] == s;
    } else {
      var r := Insert(x, s, key);
      assert r == [s[0]] + Insert(x, s[1..], key);
      assert r[1..] == Insert(x, s[1..], key);
      WithKeyInsert(x, s[1..], key, k);
      // s[0] precedes x and has a smaller key, so it is never in x's group
    }
  }

  /** Stability: for every key, the elements with that key keep their relative order. */
  lemma {:induction false} SortByStable<T>(s: seq<T>, key: T -> int, k: int)
    ensures WithKey(SortBy(s, key), key, k) == WithKey(s, key, k)
  {
    if s != [] {
      SortByStable(s[1..], key, k);
      WithKeyInsert(s[0], SortBy(s[1..], key), key, k);
    }
  }

  /** The index of the first element of `s` with the smallest key. */
  function FirstMinIndex<T>(s: seq<T>, key: T -> int): (r: nat)
    requires s != []
    ensures r < |s|
    ensures forall j :: 0 <= j < |s| ==> key(s[r]) <= key(s[j])
    ensures forall j :: 0 <= j < r ==> key(s[r]) < key(s[j])
  {
    if |s| == 1 then 0
    else
      var j := FirstMinIndex(s[1..], key) + 1;
      if key(s[0]) <= key(s[j]) then 0 else j
  }

  /** The head of the sorted sequence is the earliest element with the smallest key. */
  lemma {:induction false} SortByHead<T>(s: seq<T>, key: T -> int)
    requires s != []
    ensures SortBy(s, key)[0] == s[FirstMinIndex(s, key)]
  {
    if |s| > 1 {
      SortByHead(s[1..], key);
      var t := SortBy(s[1..], key);
      assert t[0] == s[1..][FirstMinIndex(s[1..], key)];
    }
  }

  /** Any index that is the earliest minimum is `FirstMinIndex`. */
  lemma FirstMinIndexUnique<T>(s: seq<T>, key: T -> int, i: nat)
    requires i < |s|
    requires forall j :: 0 <= j < |s| ==> key(s[i]) <= key(s[j])
    requires forall j :: 0 <= j < i ==> key(s[i]) < key(s[j])
    ensures FirstMinIndex(s, key) == i
  {
  }

  /**
   * Taking the first `n` elements of the sorted sequence selects the `n`
   * smallest keys: each element left out has a key at least as large as
   * that of every element taken.
   */
  lemma {:induction false} SortByPrefixDominates<T>(s: seq<T>, key: T -> int, n: nat)
    requires n <= |s|
    ensures multiset(SortBy(s, key)[..n]) <= multiset(s)
    ensures forall x, y :: x in multiset(s) - multiset(SortBy(s, key)[..n]) && y in SortBy(s, key)[..n]
              ==> key(y) <= key(x)
  {
    var r := SortBy(s, key);
    assert r == r[..n] + r[n..];
    assert multiset(r) == multiset(r[..n]) + multiset(r[n..]);
    SortedSplit(r, key, n);
  }

  /** In a sorted sequence, nothing after position `n` has a smaller key than anything before it. */
  lemma SortedSplit<T>(r: seq<T>, key: T -> int, n: nat)
    requires SortedBy(r, key) && n <= |r|
    ensures forall x, y :: x in multiset(r[n..]) && y in r[..n] ==> key(y) <= key(x)
  {
    forall x, y | x in multiset(r[n..]) && y in r[..n]
      ensures key(y) <= key(x)
    {
      var a :| 0 <= a < |r[n..]| && r[n..][a] == x;
      var b :| 0 <= b < n && r[..n][b] == y;
      assert r[b] == y && r[n + a] == x;
    }
  }
}
