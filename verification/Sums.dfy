/** Sums of the values of a finite map. */
module Sums {

  ghost function SumMap(m: map<nat, nat>): nat {
    if m.Keys == {} then 0 else
      var k :| k in m.Keys;
      m[k] + SumMap(m - {k})
  }

  lemma {:induction false} SumRemove(m: map<nat, nat>, k: nat)
    requires k in m
    ensures SumMap(m) == m[k] + SumMap(m - {k})
    decreases |m|
  {
    var j :| j in m.Keys && SumMap(m) == m[j] + SumMap(m - {j});
    if j != k {
      SumRemove(m - {j}, k);
      SumRemove(m - {k}, j);
      assert m - {j} - {k} == m - {k} - {j};
    }
  }

  function Get(m: map<nat, nat>, k: nat): nat {
    if k in m then m[k] else 0
  }

  /** Changing one value changes the sum by the same amount. */
  lemma SumUpdate(m: map<nat, nat>, k: nat, v: nat)
    ensures SumMap(m[k := v]) == SumMap(m) - Get(m, k) + v
  {
    var m' := m[k := v];
    SumRemove(m', k);
    assert m' - {k} == m - {k};
    if k in m {
      SumRemove(m, k);
    } else {
      assert m - {k} == m;
    }
  }
}
