/** Sums of an integer weight over a finite set. */
module SetSums {

  ghost function SetSum<T>(s: set<T>, w: T -> int): int
    decreases s
  {
    if s == {} then 0
    else
      var x :| x in s;
      w(x) + SetSum(s - {x}, w)
  }

  lemma {:induction false} SumRemove<T>(s: set<T>, w: T -> int, x: T)
    requires x in s
    ensures SetSum(s, w) == w(x) + SetSum(s - {x}, w)
    decreases s
  {
    var y :| y in s && SetSum(s, w) == w(y) + SetSum(s - {y}, w);
    if y != x {
      SumRemove(s - {y}, w, x);
      SumRemove(s - {x}, w, y);
      assert s - {y} - {x} == s - {x} - {y};
    }
  }

  lemma SumInsert<T>(s: set<T>, w: T -> int, x: T)
    requires x !in s
    ensures SetSum(s + {x}, w) == SetSum(s, w) + w(x)
  {
    SumRemove(s + {x}, w, x);
    assert s + {x} - {x} == s;
  }

  lemma {:induction false} SumUnion<T>(s: set<T>, t: set<T>, w: T -> int)
    requires s !! t
    ensures SetSum(s + t, w) == SetSum(s, w) + SetSum(t, w)
    decreases t
  {
    if t == {} {
      assert s + t == s;
    } else {
      var x :| x in t;
      SumUnion(s, t - {x}, w);
      SumInsert(s + (t - {x}), w, x);
      assert s + (t - {x}) + {x} == s + t;
      SumRemove(t, w, x);
    }
  }

  lemma {:induction false} SumNonNegative<T>(s: set<T>, w: T -> int)
    requires forall x | x in s :: w(x) >= 0
    ensures SetSum(s, w) >= 0
    decreases s
  {
    if s != {} {
      var x :| x in s;
      SumRemove(s, w, x);
      SumNonNegative(s - {x}, w);
    }
  }

  lemma SumSubset<T>(s: set<T>, t: set<T>, w: T -> int)
    requires s <= t && forall x | x in t :: w(x) >= 0
    ensures SetSum(s, w) <= SetSum(t, w)
  {
    SumNonNegative(t - s, w);
    SumUnion(s, t - s, w);
    assert s + (t - s) == t;
  }

  /** A weight bounded by a multiple of another. */
  lemma {:induction false} SumScaled<T>(s: set<T>, w: T -> int, v: T -> int, k: int)
    requires forall x | x in s :: w(x) <= k * v(x)
    ensures SetSum(s, w) <= k * SetSum(s, v)
    decreases s
  {
    if s != {} {
      var x :| x in s;
      SumRemove(s, w, x);
      SumRemove(s, v, x);
      SumScaled(s - {x}, w, v, k);
      assert k * (v(x) + SetSum(s - {x}, v)) == k * v(x) + k * SetSum(s - {x}, v);
    }
  }

  /** Two weights that differ for one member only. */
  lemma {:induction false} SumBump<T>(s: set<T>, w: T -> int, v: T -> int, k: T, x: int)
    requires forall t | t in s :: v(t) == w(t) + if t == k then x else 0
    ensures SetSum(s, v) == SetSum(s, w) + if k in s then x else 0
    decreases s
  {
    if s != {} {
      var t :| t in s;
      SumRemove(s, w, t);
      SumRemove(s, v, t);
      SumBump(s - {t}, w, v, k, x);
    }
  }

  lemma {:induction false} SumZero<T>(s: set<T>, w: T -> int)
    requires forall x | x in s :: w(x) == 0
    ensures SetSum(s, w) == 0
    decreases s
  {
    if s != {} {
      var x :| x in s;
      SumRemove(s, w, x);
      SumZero(s - {x}, w);
    }
  }
}
