/** Shifts, bit counts and long division of fixed-width integers. */
module BigShift {

  import opened Digits
  import opened Limbs
  import opened BigUint

  // Splitting a limb at a bit position.

  lemma PowerOfLimb(s: nat)
    requires s <= 32
    ensures Pow(2, s) * Pow(2, 32 - s) == BASE
  {
    PowAdd(2, s, 32 - s);
    WeightPow(1);
    assert Weight(1) == BASE * Weight(0);
  }

  lemma Multiple(k: nat, f: nat)
    requires f > 0
    ensures k * f % f == 0 && k * f / f == k
  {
    QuotientRemainder(k, f, 0, k * f / f, k * f % f);
  }

  lemma PartsOf(q: nat, g: nat, r: nat, f: nat)
    requires r < g && f > 0 && f * g == BASE
    ensures (q * g + r) * f == q * BASE + r * f && r * f < BASE
  {
    assert q * g * f == q * (f * g);
    assert (q * g + r) * f == q * g * f + r * f;
    TimesMonotone(r + 1, g, f, f);
    assert (r + 1) * f == r * f + f;
    assert g * f == f * g;
  }

  lemma SmallQuotient(q: nat, g: nat, r: nat, f: nat)
    requires q * g + r < f * g
    ensures q < f
  {
    assert q >= f ==> q * g >= f * g;
  }

  /** Multiplying a limb by a power: the part that stays and the part that leaves. */
  lemma LimbParts(x: nat, f: nat, g: nat)
    requires f > 0 && g > 0 && f * g == BASE && x < BASE
    ensures x * f % BASE % f == 0 && x * f / BASE == x / g < f
    ensures x * f == x * f / BASE * BASE + x * f % BASE
  {
    var q, r := x / g, x % g;
    PartsOf(q, g, r, f);
    SmallQuotient(q, g, r, f);
    Multiple(r, f);
    var t := x * f;
    assert t == q * BASE + r * f;
  }

  // Left shift.

  /** The first `i` limbs have been shifted by `k` limbs and `s` bits. */
  ghost predicate Raised(now: seq<nat>, x: seq<nat>, k: nat, s: nat, i: nat, over: nat) {
    && |now| == |x| && Words(now) && i <= |x|
    && (forall m | i + k < m < |now| :: now[m] == 0)
    && (i + k < |now| ==> now[i + k] < Pow(2, s))
    && Num(now) + over * Weight(|x|) == Num(x[..i]) * (Pow(2, s) * Weight(k))
  }

  /** The limbs after one more step. */
  function RaiseLimb(now: seq<nat>, v: nat, k: nat, s: nat, i: nat): seq<nat>
    requires s < 32
  {
    var high := if i + k + 1 < |now| && s != 0 then now[i + k + 1 := Or(now[i + k + 1], v / Pow(2, 32 - s))] else now;
    if i + k < |high| then high[i + k := Or(high[i + k], v * Pow(2, s) % BASE)] else high
  }

  lemma RaisedNone(x: seq<nat>, now: seq<nat>, k: nat, s: nat)
    requires |now| == |x| && AllZero(now)
    ensures Raised(now, x, k, s, 0, 0)
  {
    NumZero(now);
  }

  lemma RaisedNext(now: seq<nat>, x: seq<nat>, k: nat, s: nat, i: nat, over: nat) returns (over': nat)
    requires s < 32 && i < |x| && Words(x) && Raised(now, x, k, s, i, over)
    ensures Raised(RaiseLimb(now, x[i], k, s, i), x, k, s, i + 1, over')
  {
    hide Num, Weight, Or, Pow;
    var n, f, g := |x|, Pow(2, s), Pow(2, 32 - s);
    var t := x[i] * f;
    var lo, hi := t % BASE, t / BASE;
    PowerOfLimb(s);
    LimbParts(x[i], f, g);
    NumNext(x, i);
    WeightAdd(i, k);
    RaisedGoal(Num(x[..i]), x[i], Weight(i), f, Weight(k));
    if i + k + 1 < n {
      var high := now[i + k + 1 := hi];
      RaiseHigh(now, x[i], s, i + k + 1);
      NumUpdate(now, i + k + 1, hi);
      OrDisjoint(high[i + k], lo, s);
      NumUpdate(high, i + k, now[i + k] + lo);
      WeightNext(i + k);
      LimbSum(now[i + k], lo, hi, Weight(i + k), t);
      WordSum(now[i + k], lo, f, g);
      over' := over;
    } else if i + k < n {
      OrDisjoint(now[i + k], lo, s);
      NumUpdate(now, i + k, now[i + k] + lo);
      WeightNext(i + k);
      LimbSum(now[i + k], lo, hi, Weight(i + k), t);
      WordSum(now[i + k], lo, f, g);
      over' := over + hi;
      assert (over + hi) * Weight(n) == over * Weight(n) + hi * Weight(n);
    } else {
      WeightAdd(i + k - n, n);
      over' := over + t * Weight(i + k - n);
      Beyond(over, t, Weight(i + k - n), Weight(n));
    }
  }

  lemma RaisedGoal(x: nat, v: nat, wi: nat, f: nat, wk: nat)
    ensures (x + v * wi) * (f * wk) == x * (f * wk) + v * f * (wi * wk)
  {
    assert v * wi * (f * wk) == v * f * (wi * wk);
  }

  lemma LimbSum(old_: nat, lo: nat, hi: nat, w: nat, t: nat)
    requires t == hi * BASE + lo
    ensures (old_ + lo) * w - old_ * w + hi * (BASE * w) == t * w
  {
    assert (old_ + lo) * w == old_ * w + lo * w;
    assert hi * (BASE * w) == hi * BASE * w;
  }

  /** The low part still fits the limb. */
  lemma WordSum(old_: nat, lo: nat, f: nat, g: nat)
    requires old_ < f && lo < BASE && f > 0 && lo % f == 0 && f * g == BASE
    ensures old_ + lo < BASE
  {
    var q := lo / f;
    assert lo == q * f;
    assert q >= g ==> q * f >= g * f;
    assert g * f == f * g;
    TimesMonotone(q + 1, g, f, f);
    assert (q + 1) * f == q * f + f;
  }

  lemma Beyond(over: nat, t: nat, u: nat, w: nat)
    ensures (over + t * u) * w == over * w + t * (u * w)
  {
    assert t * u * w == t * (u * w);
  }

  /** What the high part writes: nothing if no bits leave the limb. */
  lemma RaiseHigh(now: seq<nat>, v: nat, s: nat, m: nat)
    requires s < 32 && m < |now| && now[m] == 0 && v < BASE
    ensures (if s != 0 then now[m := Or(now[m], v / Pow(2, 32 - s))] else now) == now[m := v * Pow(2, s) / BASE]
  {
    hide Or, Pow;
    PowerOfLimb(s);
    LimbParts(v, Pow(2, s), Pow(2, 32 - s));
    OrZero(v / Pow(2, 32 - s));
    if s == 0 {
      PowZero();
    }
  }

  lemma PowZero()
    ensures Pow(2, 0) == 1
  {
  }

  method ShiftLeft(a: array<nat>, shift: nat)
    requires Ok(a)
    modifies a
    ensures Ok(a) && Val(a) == old(Val(a)) * Pow(2, shift) % Weight(a.Length)
  {
    hide Num, Weight, Or, Pow, Raised;
    var x := a[..];
    for i := 0 to a.Length
      invariant forall m | 0 <= m < i :: a[m] == 0
    {
      a[i] := 0;
    }
    var k, s := shift / 32, shift % 32;
    ghost var over: nat := 0;
    RaisedNone(x, a[..], k, s);
    for i := 0 to a.Length
      invariant Raised(a[..], x, k, s, i, over)
    {
      ghost var before := a[..];
      over := RaisedNext(a[..], x, k, s, i, over);
      if i + k + 1 < a.Length && s != 0 {
        a[i + k + 1] := Or(a[i + k + 1], x[i] / Pow(2, 32 - s));
      }
      if i + k < a.Length {
        a[i + k] := Or(a[i + k], x[i] * Pow(2, s) % BASE);
      }
      assert a[..] == RaiseLimb(before, x[i], k, s, i);
    }
    RaisedAll(a[..], x, k, s, over);
  }

  lemma RaisedAll(now: seq<nat>, x: seq<nat>, k: nat, s: nat, over: nat)
    requires Raised(now, x, k, s, |x|, over)
    ensures Words(now) && Num(now) == Num(x) * Pow(2, 32 * k + s) % Weight(|x|)
  {
    hide Num, Weight, Pow;
    assert x[..|x|] == x;
    WeightPow(k);
    PowAdd(2, 32 * k, s);
    Commute(Pow(2, s), Weight(k));
    NumBound(now);
    Wrapped(Num(now), over, Weight(|x|), Num(x) * (Pow(2, s) * Weight(k)));
  }

  // Right shift.

  /** The first `i` limbs have been shifted down by `k` limbs and `s` bits, leaving a remainder. */
  ghost predicate Lowered(now: seq<nat>, x: seq<nat>, k: nat, s: nat, i: nat, rem: nat)
    requires s < 32
  {
    && |now| == |x| && Words(now) && i <= |x|
    && (forall m | 0 <= m < |now| && m + k >= i :: now[m] == 0)
    && (i > k ==> now[i - k - 1] < Pow(2, 32 - s))
    && rem < Pow(2, s) * Weight(k) && (i <= k ==> rem < Weight(i))
    && Num(x[..i]) == Num(now) * (Pow(2, s) * Weight(k)) + rem
  }

  function LowerLimb(now: seq<nat>, v: nat, k: nat, s: nat, i: nat): seq<nat>
    requires s < 32 && i < |now|
  {
    var low := if i >= k + 1 && s != 0 then now[i - k - 1 := Or(now[i - k - 1], v * Pow(2, 32 - s) % BASE)] else now;
    if i >= k then low[i - k := Or(low[i - k], v / Pow(2, s))] else low
  }

  lemma LoweredNone(x: seq<nat>, now: seq<nat>, k: nat, s: nat)
    requires |now| == |x| && AllZero(now) && s < 32
    ensures Lowered(now, x, k, s, 0, 0)
  {
    NumZero(now);
    TimesMonotone(1, Pow(2, s), 1, Weight(k));
  }

  lemma LoweredNext(now: seq<nat>, x: seq<nat>, k: nat, s: nat, i: nat, rem: nat) returns (rem': nat)
    requires s < 32 && i < |x| && Words(x) && Lowered(now, x, k, s, i, rem)
    ensures Lowered(LowerLimb(now, x[i], k, s, i), x, k, s, i + 1, rem')
  {
    hide Num, Weight, Or, Pow;
    if i < k {
      rem' := LoweredBelow(now, x, k, s, i, rem);
    } else if i == k {
      rem' := LoweredFirst(now, x, k, s, rem);
    } else {
      LoweredAbove(now, x, k, s, i, rem);
      rem' := rem;
    }
  }

  lemma LoweredBelow(now: seq<nat>, x: seq<nat>, k: nat, s: nat, i: nat, rem: nat) returns (rem': nat)
    requires s < 32 && i < |x| && i < k && Words(x) && Lowered(now, x, k, s, i, rem)
    ensures Lowered(now, x, k, s, i + 1, rem')
  {
    hide Num, Weight, Or, Pow;
    NumZero(now);
    NumBound(x[..i + 1]);
    rem' := Num(x[..i + 1]);
    WeightGrows(i + 1, k);
    PowPositive(s);
    TimesMonotone(1, Pow(2, s), Weight(k), Weight(k));
  }

  lemma WeightGrows(i: nat, k: nat)
    requires i <= k
    ensures Weight(i) <= Weight(k)
  {
    PowGrows(BASE, i, k);
  }

  lemma PowPositive(s: nat)
    ensures Pow(2, s) > 0
  {
  }

  lemma LoweredFirst(now: seq<nat>, x: seq<nat>, k: nat, s: nat, rem: nat) returns (rem': nat)
    requires s < 32 && k < |x| && Words(x) && Lowered(now, x, k, s, k, rem)
    ensures Lowered(LowerLimb(now, x[k], k, s, k), x, k, s, k + 1, rem')
  {
    hide Num, Weight, Or, Pow;
    var f, g, w := Pow(2, s), Pow(2, 32 - s), Weight(k);
    PowerOfLimb(s);
    NumZero(now);
    NumNext(x, k);
    var q, r := x[k] / f, x[k] % f;
    OrZero(q);
    NumUpdate(now, 0, q);
    WeightZero();
    rem' := rem + r * w;
    FirstAlgebra(q, r, f, w, rem, x[k]);
    Commute(f, g);
    SmallQuotient(q, f, r, g);
  }

  lemma WeightZero()
    ensures Weight(0) == 1
  {
  }

  lemma FirstAlgebra(q: nat, r: nat, f: nat, w: nat, rem: nat, x: nat)
    requires x == q * f + r && r < f && rem < w
    ensures rem + x * w == q * (f * w) + (rem + r * w) && rem + r * w < f * w
  {
    assert x * w == q * f * w + r * w;
    assert q * f * w == q * (f * w);
    TimesMonotone(r + 1, f, w, w);
    assert (r + 1) * w == r * w + w;
  }

  lemma LoweredAbove(now: seq<nat>, x: seq<nat>, k: nat, s: nat, i: nat, rem: nat)
    requires s < 32 && k < i < |x| && Words(x) && Lowered(now, x, k, s, i, rem)
    ensures Lowered(LowerLimb(now, x[i], k, s, i), x, k, s, i + 1, rem)
  {
    hide Num, Weight, Or, Pow;
    var f, g, p := Pow(2, s), Pow(2, 32 - s), i - k - 1;
    var t := x[i] * g;
    var lo, hi := t % BASE, t / BASE;
    PowerOfLimb(s);
    Commute(f, g);
    LimbParts(x[i], g, f);
    NumNext(x, i);
    LowerLow(now, x[i], s, p);
    var low := now[p := now[p] + lo];
    NumUpdate(now, p, now[p] + lo);
    OrZero(hi);
    NumUpdate(low, p + 1, hi);
    WeightNext(p);
    LimbSum(now[p], lo, hi, Weight(p), t);
    WordSum(now[p], lo, g, f);
    WeightAdd(k, p + 1);
    AboveAlgebra(Num(now), x[i], g, f, Weight(p), Weight(k));
  }

  lemma AboveAlgebra(v: nat, x: nat, g: nat, f: nat, wp: nat, wk: nat)
    requires f * g == BASE
    ensures (v + x * g * wp) * (f * wk) == v * (f * wk) + x * (wk * (BASE * wp))
  {
    assert x * g * wp * (f * wk) == x * (wk * (f * g * wp));
  }

  /** What the low part writes: nothing if no bits leave the limb. */
  lemma LowerLow(now: seq<nat>, v: nat, s: nat, p: nat)
    requires s < 32 && p < |now| && now[p] < Pow(2, 32 - s) && v < BASE
    ensures var lo := v * Pow(2, 32 - s) % BASE;
            (if s != 0 then now[p := Or(now[p], lo)] else now) == now[p := now[p] + lo]
  {
    hide Or, Pow;
    PowerOfLimb(s);
    Commute(Pow(2, s), Pow(2, 32 - s));
    LimbParts(v, Pow(2, 32 - s), Pow(2, s));
    OrDisjoint(now[p], v * Pow(2, 32 - s) % BASE, 32 - s);
    if s == 0 {
      PowZero();
      Multiple(v, BASE);
    }
  }

  method ShiftRight(a: array<nat>, shift: nat)
    requires Ok(a)
    modifies a
    ensures Ok(a) && Val(a) == old(Val(a)) / Pow(2, shift)
  {
    hide Num, Weight, Or, Pow, Lowered;
    var x := a[..];
    for i := 0 to a.Length
      invariant forall m | 0 <= m < i :: a[m] == 0
    {
      a[i] := 0;
    }
    var k, s := shift / 32, shift % 32;
    ghost var rem: nat := 0;
    LoweredNone(x, a[..], k, s);
    for i := 0 to a.Length
      invariant Lowered(a[..], x, k, s, i, rem)
    {
      ghost var before := a[..];
      rem := LoweredNext(a[..], x, k, s, i, rem);
      if i >= k + 1 && s != 0 {
        a[i - k - 1] := Or(a[i - k - 1], x[i] * Pow(2, 32 - s) % BASE);
      }
      if i >= k {
        a[i - k] := Or(a[i - k], x[i] / Pow(2, s));
      }
      assert a[..] == LowerLimb(before, x[i], k, s, i);
    }
    LoweredAll(a[..], x, k, s, rem);
  }

  lemma LoweredAll(now: seq<nat>, x: seq<nat>, k: nat, s: nat, rem: nat)
    requires s < 32 && Lowered(now, x, k, s, |x|, rem)
    ensures Words(now) && Num(now) == Num(x) / Pow(2, 32 * k + s)
  {
    hide Num, Weight, Pow;
    assert x[..|x|] == x;
    WeightPow(k);
    PowAdd(2, 32 * k, s);
    Commute(Pow(2, s), Weight(k));
    var d := Pow(2, s) * Weight(k);
    PowPositive(32 * k + s);
    QuotientRemainder(Num(now), d, rem, Num(x) / d, Num(x) % d);
  }

  // The number of bits.

  predicate BitSet(x: nat, b: nat) {
    x / Pow(2, b) % 2 == 1
  }

  lemma TopBit(x: nat, b: nat)
    requires x < Pow(2, b + 1)
    ensures BitSet(x, b) <==> x >= Pow(2, b)
  {
    hide Pow;
    PowNext(2, b);
    PowPositive(b);
    var p := Pow(2, b);
    if x >= p {
      QuotientRemainder(1, p, x - p, x / p, x % p);
    } else {
      QuotientRemainder(0, p, x, x / p, x % p);
    }
  }

  /** The bits of a number whose highest limb that is not zero has `b + 1` bits. */
  lemma BitsValue(x: seq<nat>, pos: nat, b: nat)
    requires pos < |x| && Words(x) && (forall i | pos < i < |x| :: x[i] == 0)
    requires Pow(2, b) <= x[pos] < Pow(2, b + 1)
    ensures Pow(2, 32 * pos + b) <= Num(x) < Pow(2, 32 * pos + b + 1)
  {
    hide Num, Weight, Pow;
    NumSplit(x, pos + 1);
    NumZero(x[pos + 1..]);
    NumNext(x, pos);
    NumBound(x[..pos]);
    WeightPow(pos);
    PowAdd(2, 32 * pos, b);
    PowAdd(2, 32 * pos, b + 1);
    var w := Weight(pos);
    Commute(w, Pow(2, b));
    Commute(w, Pow(2, b + 1));
    TimesMonotone(Pow(2, b), x[pos], w, w);
    TimesMonotone(x[pos] + 1, Pow(2, b + 1), w, w);
    assert (x[pos] + 1) * w == x[pos] * w + w;
    assert Weight(pos + 1) * 0 == 0;
  }

  /** The position of the highest bit plus one, or zero. */
  method Bits(a: array<nat>) returns (r: nat)
    requires Ok(a)
    ensures Val(a) < Pow(2, r) && (r > 0 ==> Pow(2, r - 1) <= Val(a)) && r <= 32 * a.Length
  {
    hide Num, Weight, Pow, BitSet;
    for pos := a.Length downto 0
      invariant forall i | pos <= i < a.Length :: a[i] == 0
    {
      if a[pos] != 0 {
        PowerOfLimb(32);
        PowZero();
        for bits := 32 downto 1
          invariant a[pos] < Pow(2, bits)
        {
          TopBit(a[pos], bits);
          if BitSet(a[pos], bits) {
            BitsValue(a[..], pos, bits);
            return 32 * pos + bits + 1;
          }
        }
        BitsValue(a[..], pos, 0);
        return 32 * pos + 1;
      }
    }
    NumZero(a[..]);
    PowZero();
    return 0;
  }
}
