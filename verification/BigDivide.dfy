/** Long division, one bit at a time. */
module BigDivide {

  import opened Digits
  import opened Limbs
  import opened BigUint
  import opened BigShift

  lemma {:induction false} OrRightZero(y: nat)
    ensures Or(y, 0) == y
  {
    if y != 0 {
      OrRightZero(y / 2);
    }
  }

  lemma {:induction false} OrAbove(y: nat, x: nat, s: nat)
    requires x < Pow(2, s) && y % Pow(2, s) == 0
    ensures Or(y, x) == y + x
    decreases s
  {
    if s == 0 {
      OrRightZero(y);
    } else if y != 0 {
      HalfMultiple(y, Pow(2, s - 1));
      OrAbove(y / 2, x / 2, s - 1);
    }
  }

  /** How many of the lowest `h` bits of the number lie in limb `i`. */
  function Cut(h: nat, i: nat): nat {
    if h <= 32 * i then 0 else if h - 32 * i >= 32 then 32 else h - 32 * i
  }

  /** The lowest `h` bits are zero. */
  ghost predicate Clear(q: seq<nat>, h: nat) {
    forall i | 0 <= i < |q| :: q[i] % Pow(2, Cut(h, i)) == 0
  }

  lemma DividesLess(x: nat, m: nat, n: nat)
    requires m <= n && x % Pow(2, n) == 0
    ensures x % Pow(2, m) == 0
  {
    hide Pow;
    PowAdd(2, m, n - m);
    PowPositive(m);
    PowPositive(n);
    var k := x / Pow(2, n);
    assert x == k * Pow(2, n);
    assert k * (Pow(2, m) * Pow(2, n - m)) == k * Pow(2, n - m) * Pow(2, m);
    Multiple(k * Pow(2, n - m), Pow(2, m));
  }

  lemma SumDivides(x: nat, p: nat)
    requires p > 0 && x % p == 0
    ensures (x + p) % p == 0
  {
    var k := x / p;
    assert (k + 1) * p == k * p + p;
    Multiple(k + 1, p);
  }

  /** Setting the bit above the clear ones adds its weight. */
  lemma SetBit(q: seq<nat>, h: nat)
    requires Words(q) && Clear(q, h + 1) && h / 32 < |q|
    ensures var w, j := h / 32, h % 32;
            var next := q[w := Or(q[w], Pow(2, j))];
            Words(next) && Clear(next, h) && Num(next) == Num(q) + Pow(2, h)
  {
    hide Pow, Num, Weight, Or;
    var w, j := h / 32, h % 32;
    var p := Pow(2, j);
    assert Cut(h + 1, w) == j + 1 && Cut(h, w) == j;
    PowNext(2, j);
    PowPositive(j);
    OrAbove(q[w], p, j + 1);
    PowerOfLimb(j + 1);
    WordSum(p, q[w], Pow(2, j + 1), Pow(2, 32 - (j + 1)));
    NumUpdate(q, w, q[w] + p);
    WeightPow(w);
    PowAdd(2, j, 32 * w);
    assert (q[w] + p) * Weight(w) == q[w] * Weight(w) + p * Weight(w);
    DividesLess(q[w], j, j + 1);
    SumDivides(q[w], p);
    var next := q[w := q[w] + p];
    forall i | 0 <= i < |q| ensures next[i] % Pow(2, Cut(h, i)) == 0 {
      DividesLess(q[i], Cut(h, i), Cut(h + 1, i));
    }
  }

  lemma ClearLess(q: seq<nat>, h: nat)
    requires Clear(q, h + 1)
    ensures Clear(q, h)
  {
    hide Pow;
    forall i | 0 <= i < |q| ensures q[i] % Pow(2, Cut(h, i)) == 0 {
      DividesLess(q[i], Cut(h, i), Cut(h + 1, i));
    }
  }

  lemma ClearZero(q: seq<nat>, h: nat)
    requires AllZero(q)
    ensures Clear(q, h)
  {
    hide Pow;
    forall i | 0 <= i < |q| ensures q[i] % Pow(2, Cut(h, i)) == 0 {
      PowPositive(Cut(h, i));
      Multiple(0, Pow(2, Cut(h, i)));
    }
  }

  /** The quotient bits above `shift` are found; `num` is what is left. */
  ghost predicate Dividing(q: seq<nat>, num: nat, div: nat, a: nat, b: nat, shift: int)
    requires shift >= -1
  {
    && Words(q) && Clear(q, shift + 1)
    && a == Num(q) * b + num && num < b * Pow(2, shift + 1)
    && (shift >= 0 ==> shift < 32 * |q| && div == b * Pow(2, shift))
  }

  lemma DividingSet(q: seq<nat>, num: nat, div: nat, a: nat, b: nat, shift: nat)
    requires Dividing(q, num, div, a, b, shift) && num >= div
    ensures Dividing(q[shift / 32 := Or(q[shift / 32], Pow(2, shift % 32))], num - div, div / 2, a, b, shift - 1)
  {
    hide Pow, Num, Weight, Or, Clear;
    SetBit(q, shift);
    PowNext(2, shift);
    Halved(b, shift);
    TakeAway(Num(q), Pow(2, shift), b, num, div);
    assert b * (2 * Pow(2, shift)) == 2 * (b * Pow(2, shift));
  }

  lemma DividingSkip(q: seq<nat>, num: nat, div: nat, a: nat, b: nat, shift: nat)
    requires Dividing(q, num, div, a, b, shift) && num < div
    ensures Dividing(q, num, div / 2, a, b, shift - 1)
  {
    hide Pow, Num, Weight, Or, Clear;
    ClearLess(q, shift);
    Halved(b, shift);
  }

  lemma Halved(b: nat, shift: nat)
    ensures shift > 0 ==> b * Pow(2, shift) / 2 == b * Pow(2, shift - 1)
  {
    if shift > 0 {
      assert b * (2 * Pow(2, shift - 1)) == 2 * (b * Pow(2, shift - 1));
    }
  }

  lemma TakeAway(q: nat, p: nat, b: nat, num: nat, div: nat)
    requires div == b * p && num >= div
    ensures q * b + num == (q + p) * b + (num - div)
  {
    assert (q + p) * b == q * b + p * b;
  }

  /** Aligned at the top, the divisor is at most twice too small. */
  lemma Aligned(a: nat, b: nat, n: nat, d: nat, width: nat)
    requires d <= n <= 32 * width && a < Pow(2, n) && d > 0 && Pow(2, d - 1) <= b < Pow(2, d)
    ensures a < b * Pow(2, n - d + 1) && b * Pow(2, n - d) < Weight(width)
  {
    hide Pow, Weight;
    PowAdd(2, d - 1, n - d + 1);
    TimesMonotone(Pow(2, d - 1), b, Pow(2, n - d + 1), Pow(2, n - d + 1));
    PowAdd(2, d, n - d);
    PowPositive(n - d);
    TimesMonotone(b + 1, Pow(2, d), Pow(2, n - d), Pow(2, n - d));
    assert (b + 1) * Pow(2, n - d) == b * Pow(2, n - d) + Pow(2, n - d);
    PowGrows(2, n, 32 * width);
    WeightPow(width);
  }

  lemma DividingStart(q: seq<nat>, a: nat, b: nat, n: nat, d: nat)
    requires AllZero(q) && d <= n <= 32 * |q| && a < Pow(2, n) && d > 0 && Pow(2, d - 1) <= b < Pow(2, d)
    ensures Dividing(q, a, b * Pow(2, n - d) % Weight(|q|), a, b, n - d)
  {
    hide Pow, Weight, Num, Clear;
    Aligned(a, b, n, d, |q|);
    Wrapped(b * Pow(2, n - d), 0, Weight(|q|), b * Pow(2, n - d));
    ClearZero(q, n - d + 1);
    NumZero(q);
  }

  lemma DividingDone(q: seq<nat>, num: nat, div: nat, a: nat, b: nat)
    requires Dividing(q, num, div, a, b, -1) && b > 0
    ensures Num(q) == a / b && num == a % b
  {
    hide Num, Clear;
    assert Pow(2, 0) == 1;
    QuotientRemainder(Num(q), b, num, a / b, a % b);
  }

  method Copy(a: array<nat>) returns (r: array<nat>)
    ensures fresh(r) && r[..] == a[..]
  {
    r := new nat[a.Length](i requires 0 <= i < a.Length reads a => a[i]);
  }

  /** The quotient in place and the remainder, unless the divisor is zero. */
  method Divide(a: array<nat>, b: array<nat>) returns (ok: bool, ghost rem: nat)
    requires a.Length == b.Length > 0 && Ok(a) && Ok(b)
    modifies a
    ensures Ok(a) && (ok <==> old(Val(b)) != 0)
    ensures ok ==> Val(a) == old(Val(a)) / old(Val(b)) && rem == old(Val(a)) % old(Val(b))
    ensures !ok ==> Val(a) == 0
  {
    hide Pow, Num, Weight, Or, Dividing;
    ghost var x, y := Val(a), Val(b);
    rem := 0;
    var div := Copy(b);
    var num := Copy(a);
    for i := 0 to a.Length
      invariant forall m | 0 <= m < i :: a[m] == 0
      modifies a
    {
      a[i] := 0;
    }
    NumZero(a[..]);
    PowZero();
    var numBits := Bits(num);
    var divBits := Bits(div);
    if divBits == 0 {
      return false, rem;
    }
    PowPositive(divBits - 1);
    if divBits > numBits {
      PowGrows(2, numBits, divBits - 1);
      rem := x;
      SmallerDividend(x, y);
      return true, rem;
    }
    DividingStart(a[..], x, y, numBits, divBits);
    ShiftLeft(div, numBits - divBits);
    LongDivide(a, num, div, numBits - divBits, x, y);
    rem := Val(num);
    return true, rem;
  }

  /** Subtract the divisor wherever it fits, moving it down bit by bit. */
  method LongDivide(a: array<nat>, num: array<nat>, div: array<nat>, shift0: nat, ghost x: nat, ghost y: nat)
    requires a != num && a != div && num != div && num.Length == div.Length == a.Length && y > 0
    requires Ok(num) && Ok(div) && Ok(a) && Dividing(a[..], Val(num), Val(div), x, y, shift0)
    modifies a, num, div
    ensures Ok(a) && Val(a) == x / y && Val(num) == x % y
  {
    hide Pow, Num, Weight, Or, Dividing;
    var shift: int := shift0;
    while shift >= 0
      invariant -1 <= shift && Ok(num) && Ok(div) && Ok(a) && Dividing(a[..], Val(num), Val(div), x, y, shift)
      decreases shift + 1
    {
      var cmp := CompareTo(num, div);
      ghost var was := a[..];
      InRange(was, Val(num), Val(div), x, y, shift);
      if cmp >= 0 {
        DividingSet(was, Val(num), Val(div), x, y, shift);
        Subtract(num, div);
        a[shift / 32] := Or(a[shift / 32], Pow(2, shift % 32));
        assert a[..] == was[shift / 32 := Or(was[shift / 32], Pow(2, shift % 32))];
      } else {
        DividingSkip(was, Val(num), Val(div), x, y, shift);
      }
      PowOne();
      ShiftRight(div, 1);
      shift := shift - 1;
      DividingWords(a[..], Val(num), Val(div), x, y, shift);
    }
    DividingDone(a[..], Val(num), Val(div), x, y);
  }

  lemma InRange(q: seq<nat>, num: nat, div: nat, a: nat, b: nat, shift: nat)
    requires Dividing(q, num, div, a, b, shift)
    ensures shift / 32 < |q|
  {
  }

  lemma DividingWords(q: seq<nat>, num: nat, div: nat, a: nat, b: nat, shift: int)
    requires shift >= -1 && Dividing(q, num, div, a, b, shift)
    ensures Words(q)
  {
  }

  lemma PowOne()
    ensures Pow(2, 1) == 2
  {
  }

  lemma SmallerDividend(x: nat, y: nat)
    requires x < y
    ensures x / y == 0 && x % y == x
  {
  }
}
