/**
 * String helpers shared by the search engine: JavaScript's `toLowerCase`
 * (on ASCII letters), substring occurrence, `indexOf` and `includes`.
 */
module Text {

  /** `toLowerCase` on one character: A-Z map to a-z, everything else is kept. */
  function LowerChar(c: char): (r: char)
    ensures 'A' <= c <= 'Z' ==> r as int == c as int + 32
    ensures !('A' <= c <= 'Z') ==> r == c
    ensures !('A' <= r <= 'Z')
  {
    if 'A' <= c <= 'Z' then (c as int + 32) as char else c
  }

  /** `toLowerCase` on a string. */
  function Lower(s: string): (r: string)
    ensures |r| == |s|
    ensures forall i :: 0 <= i < |s| ==> r[i] == LowerChar(s[i])
  {
    seq(|s|, i requires 0 <= i < |s| => LowerChar(s[i]))
  }

  /** A string that `toLowerCase` leaves unchanged. */
  predicate IsLower(s: string) {
    forall i :: 0 <= i < |s| ==> !('A' <= s[i] <= 'Z')
  }

  lemma LowerIsLower(s: string)
    ensures IsLower(Lower(s))
    ensures Lower(Lower(s)) == Lower(s)
  {
  }

  lemma LowerSlice(s: string, i: nat, j: nat)
    requires i <= j <= |s|
    ensures Lower(s[i..j]) == Lower(s)[i..j]
  {
  }

  lemma LowerAppend(s: string, t: string)
    ensures Lower(s + t) == Lower(s) + Lower(t)
  {
  }

  /** `q` occurs in `s` starting at index `j`. */
  predicate OccursAt(s: string, q: string, j: int) {
    0 <= j && j + |q| <= |s| && s[j..j + |q|] == q
  }

  lemma OccursInSlice(s: string, q: string, i: int, a: nat, b: nat)
    requires OccursAt(s, q, i) && a <= i && i + |q| <= b <= |s|
    ensures OccursAt(s[a..b], q, i - a)
  {
    var t := s[a..b];
    forall k | 0 <= k < |q| ensures t[i - a..i - a + |q|][k] == q[k] {
      assert t[i - a + k] == s[i + k];
      assert s[i..i + |q|][k] == s[i + k];
    }
    assert t[i - a..i - a + |q|] == q;
  }

  lemma OccursInLonger(s: string, t: string, q: string, i: int)
    requires OccursAt(s, q, i)
    ensures OccursAt(s + t, q, i)
  {
    assert (s + t)[i..i + |q|] == s[i..i + |q|];
  }

  /** `s.indexOf(q, from)`: the first index at or after `from` where `q` occurs, or -1. */
  function IndexOfFrom(s: string, q: string, from: nat): (r: int)
    requires from <= |s|
    ensures r == -1 || (from <= r <= |s| - |q| && OccursAt(s, q, r))
    decreases |s| - from
  {
    if from + |q| > |s| then -1
    else if s[from..from + |q|] == q then from
    else IndexOfFrom(s, q, from + 1)
  }

  /** The search fails exactly when nothing occurs from `from` on, and otherwise finds the first occurrence. */
  lemma {:induction false} IndexOfFromFirst(s: string, q: string, from: nat)
    requires from <= |s|
    ensures IndexOfFrom(s, q, from) == -1 <==> forall j :: from <= j ==> !OccursAt(s, q, j)
    ensures IndexOfFrom(s, q, from) != -1 ==> forall j :: from <= j < IndexOfFrom(s, q, from) ==> !OccursAt(s, q, j)
    decreases |s| - from
  {
    if from + |q| <= |s| && s[from..from + |q|] != q {
      IndexOfFromFirst(s, q, from + 1);
    }
  }

  /** `s.indexOf(q)`. */
  function IndexOf(s: string, q: string): (r: int)
    ensures -1 <= r <= |s|
    ensures r == -1 <==> forall j :: !OccursAt(s, q, j)
    ensures r != -1 ==> OccursAt(s, q, r) && forall j :: 0 <= j < r ==> !OccursAt(s, q, j)
  {
    IndexOfFromFirst(s, q, 0);
    IndexOfFrom(s, q, 0)
  }

  /** `s.includes(q)`. */
  function Includes(s: string, q: string): (b: bool)
    ensures b <==> exists j :: OccursAt(s, q, j)
  {
    IndexOf(s, q) != -1
  }

  /** The decimal rendering of a non-negative integer, as `'' + n` gives it. */
  function DecimalString(n: nat): (r: string)
    ensures |r| > 0
    ensures forall i :: 0 <= i < |r| ==> '0' <= r[i] <= '9'
    ensures n < 10 <==> |r| == 1
    ensures |r| > 1 ==> r[0] != '0'
  {
    if n < 10 then [('0' as int + n) as char]
    else DecimalString(n / 10) + [('0' as int + n % 10) as char]
  }

  /** The value of a string of decimal digits, most significant digit first. */
  function DecimalValue(s: string): nat
    requires forall i :: 0 <= i < |s| ==> '0' <= s[i] <= '9'
  {
    if s == [] then 0
    else DecimalValue(s[..|s| - 1]) * 10 + (s[|s| - 1] as int - '0' as int)
  }

  /** Reading the rendering back gives the number: the digits are those of `n`. */
  lemma {:induction false} DecimalValueOfString(n: nat)
    ensures DecimalValue(DecimalString(n)) == n
  {
    var s := DecimalString(n);
    if n < 10 {
      assert s[..0] == [];
    } else {
      assert s[..|s| - 1] == DecimalString(n / 10);
      DecimalValueOfString(n / 10);
    }
  }

  /** Different numbers have different renderings. */
  lemma DecimalStringInjective(a: nat, b: nat)
    requires DecimalString(a) == DecimalString(b)
    ensures a == b
  {
    DecimalValueOfString(a);
    DecimalValueOfString(b);
  }
}
