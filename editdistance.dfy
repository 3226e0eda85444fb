/**
 * Levenshtein distance with unit costs for insertion, deletion and
 * substitution, the defaults of the edit-distance routine the search route
 * calls.
 */
module EditDistance {

  function Min3(a: nat, b: nat, c: nat): nat
  {
    if a <= b && a <= c then a else if b <= c then b else c
  }

  function Levenshtein(a: string, b: string): nat
    decreases |a| + |b|
  {
    if a == [] then |b|
    else if b == [] then |a|
    else Min3(Levenshtein(a[1..], b) + 1,
              Levenshtein(a, b[1..]) + 1,
              Levenshtein(a[1..], b[1..]) + (if a[0] == b[0] then 0 else 1))
  }

  /** The distance is zero exactly between equal strings. */
  lemma {:induction false} LevenshteinZeroIff(a: string, b: string)
    ensures Levenshtein(a, b) == 0 <==> a == b
    decreases |a| + |b|
  {
    if a != [] && b != [] {
      LevenshteinZeroIff(a[1..], b[1..]);
      if a == b {
        assert a[1..] == b[1..];
      } else if a[0] == b[0] {
        assert a == [a[0]] + a[1..] && b == [b[0]] + b[1..];
      }
    }
  }
}
