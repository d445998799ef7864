/** Sums of a weight over the values of a finite map. */
module MapSums {

  ghost function Sum<K, V>(m: map<K, V>, weight: V -> nat): nat {
    if |m| == 0 then 0
    else
      var k := Key(m);
      assert (m - {k}).Keys == m.Keys - {k};
      weight(m[k]) + Sum(m - {k}, weight)
  }

  ghost function Key<K, V>(m: map<K, V>): (k: K)
    requires |m| != 0
    ensures k in m
  {
    var k :| k in m;
    k
  }

  lemma {:induction false} SumRemove<K, V>(m: map<K, V>, k: K, weight: V -> nat)
    requires k in m
    ensures Sum(m, weight) == weight(m[k]) + Sum(m - {k}, weight)
    decreases |m|
  {
    var first := Key(m);
    if first != k {
      assert (m - {first}).Keys == m.Keys - {first};
      assert (m - {k}).Keys == m.Keys - {k};
      SumRemove(m - {first}, k, weight);
      SumRemove(m - {k}, first, weight);
      assert m - {first} - {k} == m - {k} - {first};
    }
  }

  lemma SumUpdate<K, V>(m: map<K, V>, k: K, v: V, weight: V -> nat)
    ensures Sum(m[k := v], weight) + (if k in m then weight(m[k]) else 0) == Sum(m, weight) + weight(v)
  {
    SumRemove(m[k := v], k, weight);
    if k in m {
      SumRemove(m, k, weight);
      assert m[k := v] - {k} == m - {k};
    } else {
      assert m[k := v] - {k} == m;
    }
  }
}
