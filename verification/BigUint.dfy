/**
  Unsigned integers of a fixed number of 32-bit limbs, changed in place.  The
  256-bit case has eight limbs; nothing here depends on that.
 */
module BigUint {

  import opened Basics
  import opened Limbs

  ghost predicate Ok(a: array<nat>)
    reads a
  {
    Words(a[..])
  }

  /** The value of the limbs. */
  ghost function Val(a: array<nat>): nat
    reads a
  {
    Num(a[..])
  }

  // Carry loops: x + m * y, limb by limb.

  /** The limbs done so far, and the carry out of them. */
  ghost predicate Running(low: seq<nat>, x: seq<nat>, m: nat, y: seq<nat>, carry: nat) {
    && |low| <= |x| && |low| <= |y| && Words(low)
    && Num(low) + carry * Weight(|low|) == Num(x[..|low|]) + m * Num(y[..|low|])
  }

  function Total(carry: nat, x: nat, m: nat, y: nat): nat {
    carry + x + m * y
  }

  /** No step of a carry loop exceeds 64 bits, and the carry is a limb again. */
  lemma TotalFits(carry: nat, x: nat, m: nat, y: nat)
    requires carry < BASE && x < BASE && m < BASE && y < BASE
    ensures Total(carry, x, m, y) < TWO_64 && Total(carry, x, m, y) / BASE < BASE
  {
    ProductFits(m, y, BASE - 1);
  }

  lemma ProductFits(m: nat, y: nat, most: nat)
    requires m <= most
    ensures m * y <= most * y
  {
  }

  lemma RunningNone(x: seq<nat>, m: nat, y: seq<nat>)
    ensures Running([], x, m, y, 0)
  {
    assert x[..0] == [] && y[..0] == [];
  }

  lemma RunningNext(low: seq<nat>, x: seq<nat>, m: nat, y: seq<nat>, carry: nat)
    requires Running(low, x, m, y, carry) && |low| < |x| && |low| < |y|
    ensures var n := Total(carry, x[|low|], m, y[|low|]);
            Running(low + [n % BASE], x, m, y, n / BASE)
  {
    hide Weight, Num, Total;
    var i := |low|;
    var n := Total(carry, x[i], m, y[i]);
    TotalIs(carry, x[i], m, y[i], Weight(i));
    var next := low + [n % BASE];
    assert next[..i] == low && next[..i + 1] == next;
    NumNext(next, i);
    NumNext(x, i);
    NumNext(y, i);
    WeightNext(i);
    var sum := Num(x[..i]) + m * Num(y[..i]);
    CarryOn(Num(low), carry, Weight(i), n, sum);
    TimesSum(m, Num(y[..i]), y[i] * Weight(i));
  }

  lemma TimesSum(m: nat, a: nat, b: nat)
    ensures m * (a + b) == m * a + m * b
  {
  }

  lemma TotalIs(carry: nat, x: nat, m: nat, y: nat, w: nat)
    ensures Total(carry, x, m, y) >= carry
    ensures (Total(carry, x, m, y) - carry) * w == x * w + m * (y * w)
  {
    assert (x + m * y) * w == x * w + m * y * w;
    assert m * y * w == m * (y * w);
  }

  /** After all limbs, the result is the sum modulo the width. */
  lemma RunningAll(low: seq<nat>, x: seq<nat>, m: nat, y: seq<nat>, carry: nat)
    requires Running(low, x, m, y, carry) && |low| == |x| == |y|
    ensures Num(low) == (Num(x) + m * Num(y)) % Weight(|low|)
  {
    hide Weight, Num;
    assert x[..|low|] == x && y[..|low|] == y;
    NumBound(low);
    Wrapped(Num(low), carry, Weight(|low|), Num(x) + m * Num(y));
  }

  method Add(a: array<nat>, b: array<nat>)
    requires a.Length == b.Length && Ok(a) && Ok(b)
    modifies a
    ensures Ok(a) && Val(a) == (old(Val(a)) + old(Val(b))) % Weight(a.Length)
  {
    hide Weight, Num, Running;
    ghost var x, y := a[..], b[..];
    var carry: Uint64 := 0;
    RunningNone(x, 1, y);
    for i := 0 to a.Length
      invariant Running(a[..i], x, 1, y, carry) && carry < BASE
      invariant a[i..] == x[i..] && b[i..] == y[i..]
    {
      RunningNext(a[..i], x, 1, y, carry);
      assert a[i] == a[i..][0] && b[i] == b[i..][0];
      var n: Uint64 := carry + a[i] + b[i];
      a[i] := n % BASE;
      carry := n / BASE;
      assert a[..i + 1] == a[..i] + [a[i]];
      assert a[i + 1..] == x[i + 1..] && b[i + 1..] == y[i + 1..];
    }
    assert a[..a.Length] == a[..];
    RunningAll(a[..], x, 1, y, carry);
    RunningWords(a[..], x, 1, y, carry);
  }

  lemma RunningWords(low: seq<nat>, x: seq<nat>, m: nat, y: seq<nat>, carry: nat)
    requires Running(low, x, m, y, carry)
    ensures Words(low)
  {
  }

  /** Multiply by a single limb. */
  method MultiplySmall(a: array<nat>, b32: nat)
    requires Ok(a) && b32 < BASE
    modifies a
    ensures Ok(a) && Val(a) == old(Val(a)) * b32 % Weight(a.Length)
  {
    hide Weight, Num, Running, Total;
    ghost var zero: seq<nat> := seq(a.Length, _ => 0);
    ghost var y := a[..];
    var carry: Uint64 := 0;
    RunningNone(zero, b32, y);
    for i := 0 to a.Length
      invariant Running(a[..i], zero, b32, y, carry) && a[i..] == y[i..] && carry < BASE
    {
      RunningNext(a[..i], zero, b32, y, carry);
      assert a[i] == a[i..][0];
      TotalFits(carry, 0, b32, a[i]);
      var n: Uint64 := Total(carry, 0, b32, a[i]);
      a[i] := n % BASE;
      carry := n / BASE;
      assert a[..i + 1] == a[..i] + [a[i]];
      assert a[i + 1..] == y[i + 1..];
    }
    assert a[..a.Length] == a[..];
    RunningAll(a[..], zero, b32, y, carry);
    RunningWords(a[..], zero, b32, y, carry);
    NumZero(zero);
    Commute(b32, Num(y));
  }

  lemma RowAlgebra(p: nat, wj: nat, wr: nat, na: nat, nb: nat, c: nat, aj: nat, y0: nat, y1: nat)
    requires na + c * wr == nb + aj * y0
    ensures p + wj * na + (c + aj * y1) * (wj * wr) == p + wj * nb + aj * wj * (y0 + wr * y1)
  {
    assert wj * (na + c * wr) == wj * na + c * (wj * wr);
    assert wj * (nb + aj * y0) == wj * nb + aj * wj * y0;
    assert (c + aj * y1) * (wj * wr) == c * (wj * wr) + aj * y1 * (wj * wr);
    assert aj * y1 * (wj * wr) == aj * wj * (wr * y1);
    assert aj * wj * (y0 + wr * y1) == aj * wj * y0 + aj * wj * (wr * y1);
  }

  /** One row of a long multiplication adds a limb times the other factor, up to the width. */
  lemma RowEffect(before: seq<nat>, after: seq<nat>, j: nat, aj: nat, y: seq<nat>, c: nat) returns (over: nat)
    requires j < |before| == |after| == |y| && after[..j] == before[..j]
    requires Running(after[j..], before[j..], aj, y[..|y| - j], c)
    ensures Num(after) + over * Weight(|y|) == Num(before) + aj * Weight(j) * Num(y)
  {
    hide Weight, Num;
    var r := |y| - j;
    assert before[j..][..r] == before[j..] && y[..r][..r] == y[..r];
    NumSplit(before, j);
    NumSplit(after, j);
    NumSplit(y, r);
    WeightAdd(j, r);
    over := c + aj * Num(y[r..]);
    RowAlgebra(Num(before[..j]), Weight(j), Weight(r), Num(after[j..]), Num(before[j..]), c, aj,
               Num(y[..r]), Num(y[r..]));
  }

  ghost predicate AllZero(s: seq<nat>) {
    forall i | 0 <= i < |s| :: s[i] == 0
  }

  method MultiplyRow(a: array<nat>, j: nat, aj: nat, b: array<nat>) returns (ghost over: nat)
    requires a.Length == b.Length && j < a.Length && Ok(a) && Ok(b) && aj < BASE
    requires a == b ==> AllZero(a[..])
    modifies a
    ensures Ok(a) && (a == b ==> AllZero(a[..]))
    ensures a != b ==> Val(a) + over * Weight(a.Length) == old(Val(a)) + aj * Weight(j) * Val(b)
  {
    hide Weight, Num, Running, Total;
    ghost var before, y := a[..], b[..];
    ghost var x, z := before[j..], y[..|y| - j];
    var carry: Uint64 := 0;
    RunningNone(x, aj, z);
    assert a[j..j] == [];
    for i := 0 to a.Length - j
      invariant a[..j] == before[..j] && a[i + j..] == before[i + j..]
      invariant a == b ==> AllZero(a[..]) && carry == 0
      invariant a != b ==> Running(a[j..j + i], x, aj, z, carry)
      invariant Words(a[..]) && Words(b[..]) && carry < BASE
    {
      if a != b {
        RunningNext(a[j..j + i], x, aj, z, carry);
        assert b[..] == y && z[i] == b[i];
      }
      assert x[i] == before[i + j] == a[i + j..][0] == a[i + j];
      TotalZero(aj);
      TotalFits(carry, a[i + j], aj, b[i]);
      var n: Uint64 := Total(carry, a[i + j], aj, b[i]);
      a[i + j] := n % BASE;
      carry := n / BASE;
      assert a[j..j + i + 1] == a[j..j + i] + [a[i + j]];
      assert a[i + 1 + j..] == before[i + 1 + j..];
      assert a[..j] == before[..j];
    }
    over := 0;
    if a != b {
      assert a[j..j + (a.Length - j)] == a[j..];
      assert b[..] == y;
      over := RowEffect(before, a[..], j, aj, y, carry);
    }
  }

  lemma TotalZero(m: nat)
    ensures Total(0, 0, m, 0) == 0
  {
  }

  /**
    Multiply modulo the width.  The result is cleared before the other factor is
    read, so multiplying a number by itself in place gives zero.
   */
  method Multiply(a: array<nat>, b: array<nat>)
    requires a.Length == b.Length && Ok(a) && Ok(b)
    modifies a
    ensures Ok(a)
    ensures Val(a) == if a == b then 0 else old(Val(a)) * old(Val(b)) % Weight(a.Length)
  {
    hide Weight, Num, Running;
    var x := a[..];
    ghost var y := b[..];
    for i := 0 to a.Length
      invariant forall k | 0 <= k < i :: a[k] == 0
      invariant a != b ==> b[..] == y
    {
      a[i] := 0;
    }
    ghost var over: nat := 0;
    NumZero(a[..]);
    RunningStart(x, y);
    for j := 0 to a.Length
      invariant Words(a[..]) && Words(x) && Ok(b) && (a == b ==> AllZero(a[..])) && (a != b ==> b[..] == y)
      invariant a != b ==> Val(a) + over * Weight(a.Length) == Num(x[..j]) * Num(y)
    {
      ghost var c := MultiplyRow(a, j, x[j], b);
      NextRow(x, j, y, over, c, Weight(a.Length));
      over := over + c;
    }
    if a != b {
      assert x[..a.Length] == x;
      NumBound(a[..]);
      Wrapped(Val(a), over, Weight(a.Length), Num(x) * Num(y));
    } else {
      NumZero(a[..]);
    }
  }

  lemma RunningStart(x: seq<nat>, y: seq<nat>)
    ensures Num(x[..0]) * Num(y) == 0
  {
  }

  lemma NextRow(x: seq<nat>, j: nat, y: seq<nat>, over: nat, c: nat, w: nat)
    requires j < |x|
    ensures Num(x[..j + 1]) * Num(y) == Num(x[..j]) * Num(y) + x[j] * Weight(j) * Num(y)
    ensures (over + c) * w == over * w + c * w
  {
    hide Weight, Num;
    NumNext(x, j);
    TimesSum(Num(y), Num(x[..j]), x[j] * Weight(j));
  }

  lemma Commute(a: nat, b: nat)
    ensures a * b == b * a
  {
  }

  // Complement, increment, negation, subtraction.

  lemma {:induction false} ComplementValue(s: seq<nat>, t: seq<nat>)
    requires |s| == |t| && forall i | 0 <= i < |s| :: t[i] + s[i] == BASE - 1
    ensures Num(s) + Num(t) == Weight(|s|) - 1
  {
    if s != [] {
      var n := |s| - 1;
      ComplementValue(s[..n], t[..n]);
      WeightNext(n);
      assert s[n] * Weight(n) + t[n] * Weight(n) == (s[n] + t[n]) * Weight(n) == (BASE - 1) * Weight(n);
      assert (BASE - 1) * Weight(n) == BASE * Weight(n) - Weight(n);
    }
  }

  method Complement(a: array<nat>) returns (r: array<nat>)
    requires Ok(a)
    ensures fresh(r) && r.Length == a.Length && Ok(r) && Val(r) == Weight(a.Length) - 1 - Val(a)
  {
    hide Weight, Num;
    r := new nat[a.Length];
    for i := 0 to a.Length
      invariant forall k | 0 <= k < i :: r[k] + a[k] == BASE - 1
    {
      r[i] := BASE - 1 - a[i];
    }
    ComplementValue(a[..], r[..]);
  }

  lemma {:induction false} RippledValue(was: seq<nat>, i: nat)
    requires i <= |was| && forall k | 0 <= k < i :: was[k] == BASE - 1
    ensures Num(was[..i]) == Weight(i) - 1
  {
    if i > 0 {
      RippledValue(was, i - 1);
      NumNext(was, i - 1);
      WeightNext(i - 1);
      assert (BASE - 1) * Weight(i - 1) == BASE * Weight(i - 1) - Weight(i - 1);
    }
  }

  lemma IncrementedValue(was: seq<nat>, i: nat, now: seq<nat>)
    requires i < |was| == |now| && (forall k | 0 <= k < i :: now[k] == 0 && was[k] == BASE - 1)
    requires now[i] == was[i] + 1 && now[i + 1..] == was[i + 1..]
    ensures Num(now) == Num(was) + 1
  {
    hide Weight, Num;
    RippledValue(was, i);
    NumZero(now[..i]);
    NumSplit(was, i + 1);
    NumSplit(now, i + 1);
    NumNext(was, i);
    NumNext(now, i);
    assert (was[i] + 1) * Weight(i) == was[i] * Weight(i) + Weight(i);
  }

  method Increment(a: array<nat>)
    requires Ok(a) && a.Length > 0
    modifies a
    ensures Ok(a) && Val(a) == (old(Val(a)) + 1) % Weight(a.Length)
  {
    hide Weight, Num;
    ghost var was := a[..];
    NumBound(was);
    var i := 0;
    a[0] := (a[0] + 1) % BASE;
    while a[i] == 0 && i < a.Length - 1
      invariant i < a.Length && Words(a[..]) && (forall k | 0 <= k < i :: a[k] == 0 && was[k] == BASE - 1)
      invariant a[i] == (was[i] + 1) % BASE && a[i + 1..] == was[i + 1..]
      decreases a.Length - i
    {
      assert a[i + 1] == a[i + 1..][0] && was[i + 1] == was[i + 1..][0];
      i := i + 1;
      a[i] := (a[i] + 1) % BASE;
      assert a[i + 1..] == was[i..][1..] == was[i + 1..];
    }
    if a[i] != 0 {
      IncrementedValue(was, i, a[..]);
      NumBound(a[..]);
      Wrapped(Val(a), 0, Weight(a.Length), Num(was) + 1);
    } else {
      assert was[..a.Length] == was;
      RippledValue(was, a.Length);
      NumZero(a[..]);
      Wrapped(0, 1, Weight(a.Length), Num(was) + 1);
    }
  }

  method Negate(a: array<nat>) returns (r: array<nat>)
    requires Ok(a) && a.Length > 0
    ensures fresh(r) && r.Length == a.Length && Ok(r) && Val(r) == (Weight(a.Length) - Val(a)) % Weight(a.Length)
  {
    hide Weight, Num;
    r := Complement(a);
    Increment(r);
  }

  /** Subtract modulo the width; exact if the result is not negative. */
  method Subtract(a: array<nat>, b: array<nat>)
    requires a.Length == b.Length > 0 && Ok(a) && Ok(b)
    modifies a
    ensures Ok(a)
    ensures Val(a) == if old(Val(a)) >= old(Val(b)) then old(Val(a)) - old(Val(b))
                      else old(Val(a)) + Weight(a.Length) - old(Val(b))
  {
    hide Weight, Num;
    NumBound(a[..]);
    NumBound(b[..]);
    ghost var x, y := Val(a), Val(b);
    var minus := Negate(b);
    Add(a, minus);
    Difference(x, y, Weight(a.Length));
  }

  lemma Difference(x: nat, y: nat, w: nat)
    requires x < w && y < w
    ensures (x + (w - y) % w) % w == if x >= y then x - y else x + w - y
  {
    if y == 0 {
      Wrapped(0, 1, w, w);
      Wrapped(x, 0, w, x);
    } else {
      Wrapped(w - y, 0, w, w - y);
      if x >= y {
        Wrapped(x - y, 1, w, x + w - y);
      } else {
        Wrapped(x + w - y, 0, w, x + w - y);
      }
    }
  }

  /** The sign of the difference. */
  method CompareTo(a: array<nat>, b: array<nat>) returns (r: int)
    requires a.Length == b.Length && Ok(a) && Ok(b)
    ensures r == if Val(a) < Val(b) then -1 else if Val(a) > Val(b) then 1 else 0
  {
    hide Weight, Num;
    for i := a.Length downto 0
      invariant a[i..] == b[i..]
    {
      Decided(a[..], b[..], i);
      if a[i] < b[i] {
        return -1;
      }
      if a[i] > b[i] {
        return 1;
      }
      assert a[i..] == [a[i]] + a[i + 1..] && b[i..] == [b[i]] + b[i + 1..];
    }
    assert a[0..] == a[..] && b[0..] == b[..];
    return 0;
  }

  /** The highest limb that differs decides. */
  lemma Decided(x: seq<nat>, y: seq<nat>, i: nat)
    requires i < |x| == |y| && Words(x) && Words(y) && x[i + 1..] == y[i + 1..]
    ensures x[i] < y[i] ==> Num(x) < Num(y)
    ensures y[i] < x[i] ==> Num(y) < Num(x)
  {
    hide Weight, Num;
    NumSplit(x, i + 1);
    NumSplit(y, i + 1);
    NumNext(x, i);
    NumNext(y, i);
    NumBound(x[..i]);
    NumBound(y[..i]);
    Apart(x[i], y[i], Weight(i));
  }

  lemma Apart(x: nat, y: nat, w: nat)
    ensures x < y ==> x * w + w <= y * w
    ensures y < x ==> y * w + w <= x * w
  {
    assert x < y ==> (x + 1) * w <= y * w;
    assert y < x ==> (y + 1) * w <= x * w;
    assert (x + 1) * w == x * w + w && (y + 1) * w == y * w + w;
  }
}
