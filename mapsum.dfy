/** The sum of the values of a finite map, independent of the order its keys are visited in. */
module MapSum {

  ghost function Sum<K>(m: map<K, nat>): nat
    decreases |m|
  {
    if m == map[] then 0
    else
      var k :| k in m;
      assert |m - {k}| < |m| by { assert m.Keys - {k} < m.Keys; }
      m[k] + Sum(m - {k})
  }

  /** Any key may be taken out first. */
  lemma {:induction false} SumRemove<K>(m: map<K, nat>, k: K)
    requires k in m
    ensures Sum(m) == m[k] + Sum(m - {k})
    decreases |m|
  {
    var k' :| k' in m && Sum(m) == m[k'] + Sum(m - {k'});
    if k' != k {
      assert |m - {k'}| < |m| by { assert (m - {k'}).Keys < m.Keys; }
      assert |m - {k}| < |m| by { assert (m - {k}).Keys < m.Keys; }
      SumRemove(m - {k'}, k);
      SumRemove(m - {k}, k');
      assert m - {k'} - {k} == m - {k} - {k'};
    }
  }

  /** Counts one more `k`: a missing key is created with 1, a present one is incremented. */
  function Bump<K>(m: map<K, nat>, k: K): map<K, nat>
  {
    m[k := (if k in m then m[k] else 0) + 1]
  }

  /** Counting one more key adds one to the sum. */
  lemma SumBump<K>(m: map<K, nat>, k: K)
    ensures Sum(Bump(m, k)) == Sum(m) + 1
  {
    var m' := Bump(m, k);
    SumRemove(m', k);
    assert m' - {k} == m - {k};
    if k in m {
      SumRemove(m, k);
    } else {
      assert m - {k} == m;
    }
  }

  /** Makes sure `k` is a key, with 0 when it was missing. */
  function Pad<K>(m: map<K, nat>, k: K): map<K, nat>
  {
    if k in m then m else m[k := 0]
  }

  /** A key added with 0 leaves the sum unchanged. */
  lemma SumPad<K>(m: map<K, nat>, k: K)
    ensures Sum(Pad(m, k)) == Sum(m)
  {
    if k !in m {
      SumRemove(m[k := 0], k);
      assert m[k := 0] - {k} == m;
    }
  }
}
