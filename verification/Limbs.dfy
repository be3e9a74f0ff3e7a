/** Numbers kept as 32-bit limbs, least significant first. */
module Limbs {

  import opened Digits

  const BASE := 0x1_0000_0000

  /** The weight of limb `i`. */
  function Weight(i: nat): (w: nat)
    ensures w > 0
  {
    Pow(BASE, i)
  }

  function Num(s: seq<nat>): nat {
    if s == [] then 0 else Num(s[..|s| - 1]) + s[|s| - 1] * Weight(|s| - 1)
  }

  predicate Words(s: seq<nat>) {
    forall i | 0 <= i < |s| :: s[i] < BASE
  }

  lemma WeightNext(i: nat)
    ensures Weight(i + 1) == BASE * Weight(i)
  {
  }

  lemma WeightAdd(i: nat, j: nat)
    ensures Weight(i + j) == Weight(i) * Weight(j)
  {
    PowAdd(BASE, i, j);
  }

  lemma WeightPow(i: nat)
    ensures Weight(i) == Pow(2, 32 * i)
  {
    assert Pow(2, 32) == BASE by {
      assert Pow(2, 8) == 256;
      PowDouble(2, 8, 256);
      PowDouble(2, 16, 65536);
    }
    PowPow(2, 32, i);
  }

  lemma NumNext(s: seq<nat>, i: nat)
    requires i < |s|
    ensures Num(s[..i + 1]) == Num(s[..i]) + s[i] * Weight(i)
  {
    assert s[..i + 1][..i] == s[..i];
  }

  lemma {:induction false} NumBound(s: seq<nat>)
    requires Words(s)
    ensures Num(s) < Weight(|s|)
  {
    if s != [] {
      var n := |s| - 1;
      NumBound(s[..n]);
      WeightNext(n);
      TimesMonotone(s[n] + 1, BASE, Weight(n), Weight(n));
      assert (s[n] + 1) * Weight(n) == s[n] * Weight(n) + Weight(n);
    }
  }

  lemma {:induction false} NumZero(s: seq<nat>)
    requires forall i | 0 <= i < |s| :: s[i] == 0
    ensures Num(s) == 0
  {
    if s != [] {
      NumZero(s[..|s| - 1]);
    }
  }

  /** Changing one limb. */
  lemma {:induction false} NumUpdate(s: seq<nat>, p: nat, v: nat)
    requires p < |s|
    ensures Num(s[p := v]) == Num(s) + v * Weight(p) - s[p] * Weight(p)
  {
    var n := |s| - 1;
    if p == n {
      assert s[p := v][..n] == s[..n];
    } else {
      assert s[p := v][..n] == s[..n][p := v];
      NumUpdate(s[..n], p, v);
    }
  }

  /** The number made of a low and a high part. */
  lemma {:induction false} NumSplit(s: seq<nat>, j: nat)
    requires j <= |s|
    ensures Num(s) == Num(s[..j]) + Weight(j) * Num(s[j..])
    decreases |s|
  {
    if j == |s| {
      assert s[..j] == s;
      assert Weight(j) * 0 == 0;
    } else {
      var n := |s| - 1;
      NumSplit(s[..n], j);
      assert s[..n][..j] == s[..j];
      assert s[..n][j..] == s[j..][..n - j];
      WeightAdd(j, n - j);
      Collect(Weight(j), Num(s[j..][..n - j]), s[n], Weight(n - j));
    }
  }

  lemma Collect(w: nat, a: nat, b: nat, c: nat)
    ensures w * a + b * (w * c) == w * (a + b * c)
  {
    assert b * (w * c) == w * (b * c);
  }

  /** One step of a carry loop. */
  lemma CarryOn(low: nat, carry: nat, w: nat, n: nat, sum: nat)
    requires low + carry * w == sum && n >= carry
    ensures low + n % BASE * w + n / BASE * (BASE * w) == sum + (n - carry) * w
  {
    var q, r := n / BASE, n % BASE;
    assert n == q * BASE + r;
    assert q * (BASE * w) == q * BASE * w;
    assert r * w + q * BASE * w == n * w;
    assert (n - carry) * w == n * w - carry * w;
  }

  /** What remains below the width is the sum modulo the width. */
  lemma Wrapped(v: nat, over: nat, w: nat, sum: nat)
    requires v + over * w == sum && v < w
    ensures v == sum % w
  {
    QuotientRemainder(over, w, v, sum / w, sum % w);
  }

  // Bitwise or.

  function Or(x: nat, y: nat): nat {
    if x == 0 then y else (if x % 2 == 1 || y % 2 == 1 then 1 else 0) + 2 * Or(x / 2, y / 2)
  }

  /** Operands without a common bit are added. */
  lemma {:induction false} OrDisjoint(x: nat, y: nat, s: nat)
    requires x < Pow(2, s) && y % Pow(2, s) == 0
    ensures Or(x, y) == x + y
    decreases s
  {
    if x != 0 {
      HalfMultiple(y, Pow(2, s - 1));
      OrDisjoint(x / 2, y / 2, s - 1);
    }
  }

  lemma HalfMultiple(y: nat, p: nat)
    requires p > 0 && y % (2 * p) == 0
    ensures y % 2 == 0 && y / 2 % p == 0
  {
    var k := y / (2 * p);
    assert y == k * (2 * p) == 2 * (k * p);
    assert y / 2 == k * p;
    QuotientRemainder(k, p, 0, k * p / p, k * p % p);
  }

  lemma OrZero(y: nat)
    ensures Or(0, y) == y
  {
  }
}
