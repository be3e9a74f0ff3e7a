/** Comparing packages by what they pay for their size, without division. */
module FeeRates {
  import opened Mempool

  /** `a` pays more for its size than `b`. */
  predicate Better(a: Mod, b: Mod) {
    a.fees * b.size > b.fees * a.size
  }

  /** The fee that a rate per thousand bytes asks for. */
  function GetFee(rate: nat, size: int): int {
    var fee := rate * size / 1000;
    if fee == 0 && size != 0 && rate > 0 then 1 else fee
  }

  /** `m` pays less for its size than the rate asks for. */
  predicate BelowRate(m: Mod, rate: nat) {
    1000 * m.fees < rate * m.size
  }

  lemma Scale(x: int, y: int, k: int)
    requires x <= y && k >= 0
    ensures x * k <= y * k
  {
  }

  lemma Unscale(x: int, y: int, k: int)
    requires x * k <= y * k && k > 0
    ensures x <= y
  {
    assert (y + 1) * k == y * k + k;
    if x > y {
      Scale(y + 1, x, k);
      assert false;
    }
  }

  lemma Swap(x: int, y: int, z: int)
    ensures x * y * z == x * z * y
  {
    assert x * (y * z) == x * (z * y);
  }

  lemma Irreflexive(a: Mod)
    ensures !Better(a, a)
  {
  }

  lemma Asymmetric(a: Mod, b: Mod)
    requires Better(a, b)
    ensures !Better(b, a)
  {
  }

  /** What is no better than something that is no better than `a` is no better than `a`. */
  lemma NoBetterTransitive(a: Mod, b: Mod, c: Mod)
    requires a.size >= 0 && b.size > 0 && c.size >= 0 && !Better(b, a) && !Better(c, b)
    ensures !Better(c, a)
  {
    Scale(c.fees * b.size, b.fees * c.size, a.size);
    Scale(b.fees * a.size, a.fees * b.size, c.size);
    Swap(c.fees, b.size, a.size);
    Swap(b.fees, c.size, a.size);
    Swap(a.fees, b.size, c.size);
    Unscale(c.fees * a.size, a.fees * c.size, b.size);
  }

  /** A package that does not pay the minimum pays less than the rate. */
  lemma UnpaidBelow(m: Mod, rate: nat)
    requires m.size > 0 && m.fees < GetFee(rate, m.size)
    ensures BelowRate(m, rate)
  {
    var x := rate * m.size;
    assert rate > 0 ==> x > 0 by {
      if rate > 0 {
        Scale(1, rate, m.size);
      }
    }
  }

  /** The fee is the rate rounded down, but never free. */
  lemma FeeBounds(rate: nat, size: nat)
    ensures rate * size - 1000 < 1000 * GetFee(rate, size)
    ensures GetFee(rate, size) > 1 ==> 1000 * GetFee(rate, size) <= rate * size
    ensures GetFee(rate, size) > 0 <==> rate > 0 && size > 0
  {
    assert rate > 0 && size > 0 ==> rate * size > 0 by {
      if rate > 0 && size > 0 {
        Scale(1, rate, size);
      }
    }
  }

  lemma FeeCases()
    ensures GetFee(0, 100000) == 0 && GetFee(1000, 121) == 121 && GetFee(1000, 999) == 999
    ensures GetFee(123, 0) == 0 && GetFee(123, 8) == 1 && GetFee(123, 9) == 1 && GetFee(123, 121) == 14
    ensures GetFee(123, 122) == 15 && GetFee(123, 999) == 122 && GetFee(123, 9000) == 1107
  {
  }

  /** What is no better than a package below the rate is below it too. */
  lemma NoBetterBelow(a: Mod, b: Mod, rate: nat)
    requires a.size > 0 && b.size > 0 && !Better(b, a) && BelowRate(a, rate)
    ensures BelowRate(b, rate)
  {
    var p, q := b.fees * a.size, a.fees * b.size;
    assert 1000 * a.fees + 1 <= rate * a.size;
    Scale(1000 * a.fees + 1, rate * a.size, b.size);
    assert (1000 * a.fees + 1) * b.size == 1000 * q + b.size;
    Swap(rate, a.size, b.size);
    assert 1000 * b.fees * a.size == 1000 * p;
    if 1000 * b.fees >= rate * b.size {
      Scale(rate * b.size, 1000 * b.fees, a.size);
      assert false;
    }
  }
}
