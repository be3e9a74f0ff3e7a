/** Sums of a weight over the values of a finite map. */
module MapSums {

  /** The sum of `w` over all values of a map. */
  ghost function Sum<K, V>(m: map<K, V>, w: V -> nat): nat
    decreases m.Keys
  {
    if m.Keys == {} then 0
    else
      var t :| t in m.Keys;
      w(m[t]) + Sum(m - {t}, w)
  }

  lemma {:induction false} SumWithout<K, V>(m: map<K, V>, w: V -> nat, t: K)
    requires t in m
    ensures Sum(m, w) == w(m[t]) + Sum(m - {t}, w)
    decreases m.Keys
  {
    var u :| u in m.Keys && Sum(m, w) == w(m[u]) + Sum(m - {u}, w);
    if u != t {
      SumWithout(m - {u}, w, t);
      SumWithout(m - {t}, w, u);
      assert m - {u} - {t} == m - {t} - {u};
    }
  }

  lemma SumMoved<K, V>(m: map<K, V>, w: V -> nat, t: K, x: V)
    ensures Sum(m[t := x], w) == Sum(m, w) - (if t in m then w(m[t]) else 0) + w(x)
  {
    SumWithout(m[t := x], w, t);
    assert m[t := x] - {t} == m - {t};
    if t in m {
      SumWithout(m, w, t);
    } else {
      assert m - {t} == m;
    }
  }

  lemma {:induction false} SumPositive<K, V>(m: map<K, V>, w: V -> nat)
    requires Sum(m, w) > 0
    ensures exists t :: t in m && w(m[t]) > 0
    decreases m.Keys
  {
    var u :| u in m.Keys && Sum(m, w) == w(m[u]) + Sum(m - {u}, w);
    if w(m[u]) == 0 {
      SumPositive(m - {u}, w);
      var t :| t in m - {u} && w((m - {u})[t]) > 0;
      assert t in m && w(m[t]) > 0;
    }
  }

  lemma {:induction false} SameSum<K, V>(p: map<K, V>, q: map<K, V>, w: V -> nat)
    requires p.Keys == q.Keys && forall t | t in p :: w(p[t]) == w(q[t])
    ensures Sum(p, w) == Sum(q, w)
    decreases p.Keys
  {
    if p.Keys != {} {
      var t :| t in p.Keys && Sum(p, w) == w(p[t]) + Sum(p - {t}, w);
      SumWithout(q, w, t);
      SameSum(p - {t}, q - {t}, w);
    }
  }
}
