/** Difficulty targets: compact form, proof of work and retargeting on 256-bit integers. */
module Target {

  import opened Basics
  import opened Digits
  import opened Limbs
  import opened BigUint
  import opened BigShift
  import opened BigDivide
  import opened Compact

  const WIDTH := 8

  lemma WidthBytes()
    ensures Weight(WIDTH) == Bytes(32)
  {
    hide Pow;
    WeightPow(WIDTH);
  }

  lemma LowLimbs(s: seq<nat>)
    requires |s| >= 2
    ensures Num(s) == s[0] + s[1] * BASE + Weight(2) * Num(s[2..])
  {
    hide Num, Weight;
    NumSplit(s, 2);
    NumNext(s, 0);
    NumNext(s, 1);
    NumZero(s[..0]);
    WeightZero();
    WeightNext(0);
  }

  method FromUint64(b: nat) returns (a: array<nat>)
    requires b < TWO_64
    ensures fresh(a) && a.Length == WIDTH && Ok(a) && Val(a) == b
  {
    hide Num, Weight;
    a := new nat[WIDTH](_ => 0);
    a[0] := b % BASE;
    a[1] := b / BASE;
    LowLimbs(a[..]);
    NumZero(a[..][2..]);
  }

  /** The lowest 64 bits. */
  method GetLow64(a: array<nat>) returns (low: nat)
    requires a.Length == WIDTH && Ok(a)
    ensures low == Val(a) % TWO_64
  {
    hide Num, Weight;
    LowLimbs(a[..]);
    WeightNext(0);
    WeightNext(1);
    WeightZero();
    low := a[0] + a[1] * BASE;
    Wrapped(low, Num(a[..][2..]), TWO_64, Val(a));
  }

  /** Read a compact form; the flags say whether it is negative or too large for 256 bits. */
  method SetCompact(c: nat) returns (a: array<nat>, negative: bool, overflow: bool)
    requires c < BASE
    ensures fresh(a) && a.Length == WIDTH && Ok(a) && Val(a) == Meaning(c) % Weight(WIDTH)
    ensures overflow <==> Meaning(c) >= Weight(WIDTH)
    ensures negative <==> Meaning(c) != 0 && Negative(c)
  {
    hide Num, Weight, Bytes;
    WidthBytes();
    var size := c / EXPONENT;
    var word := c % SIGN;
    if size <= 3 {
      word := Quotient(word, Bytes(3 - size));
      QuotientLess(c % SIGN, Bytes(3 - size));
      a := FromUint64(word);
      NumBound(a[..]);
      BelowWidth(word);
    } else {
      a := FromUint64(word);
      ShiftLeft(a, 8 * (size - 3));
      OverflowIff(word, size);
      ProductZero(word, Bytes(size - 3));
      BytesPow(size - 3);
    }
    negative := word != 0 && c / SIGN % 2 == 1;
    overflow := word != 0 && (size > 34 || (word > 0xff && size > 33) || (word > 0xffff && size > 32));
  }

  lemma QuotientLess(a: nat, b: nat)
    requires b > 0
    ensures Quotient(a, b) <= a
  {
    var q := a / b;
    TimesMonotone(q, q, 1, b);
  }

  lemma BelowWidth(x: nat)
    requires x < SIGN
    ensures x < Weight(WIDTH) && x % Weight(WIDTH) == x
  {
    hide Weight;
    WeightGrows(1, WIDTH);
    WeightNext(0);
    WeightZero();
    Wrapped(x, 0, Weight(WIDTH), x);
  }

  lemma ProductZero(a: nat, b: nat)
    requires b > 0
    ensures Product(a, b) == a * b && (Product(a, b) == 0 <==> a == 0)
  {
    assert a >= 1 ==> a * b >= b;
  }

  lemma BytesPow(n: nat)
    ensures Bytes(n) == Pow(2, 8 * n)
  {
  }

  /** Write a compact form. */
  method GetCompact(a: array<nat>, negative: bool) returns (c: nat)
    requires a.Length == WIDTH && Ok(a)
    ensures c == CompactOf(Val(a)) + if negative && Mantissa(CompactOf(Val(a))) != 0 then SIGN else 0
  {
    hide Num, Weight, Leading, BitsOf, Pow;
    var bits := Bits(a);
    BitsOfIs(Val(a));
    BitsUnique(Val(a), bits, BitsOf(Val(a)));
    var size := (bits + 7) / 8;
    c := LeadingBytes(a, size);
    if c / SIGN % 2 == 1 {
      c := c / 256;
      size := size + 1;
    }
    assert c < SIGN && size < 256;
    Unpack(c, size);
    c := c + size * EXPONENT;
    c := c + if negative && c % SIGN != 0 then SIGN else 0;
  }

  method LeadingBytes(a: array<nat>, size: nat) returns (c: nat)
    requires a.Length == WIDTH && Ok(a) && size == Size(Val(a))
    ensures c == Leading(Val(a)) < 0x1000000
  {
    hide Num, Weight, Bytes, Size, Pow;
    LeadingFits(Val(a));
    if size <= 3 {
      SmallValue(Val(a));
      var low := GetLow64(a);
      c := Product(low, Bytes(3 - size));
    } else {
      var bn := Copy(a);
      BytesPow(size - 3);
      ShiftRight(bn, 8 * (size - 3));
      c := GetLow64(bn);
    }
  }

  /** Three bytes. */
  lemma LeadingFits(x: nat)
    ensures Leading(x) < 0x1000000
  {
    hide Bytes, Size;
    SizeBounds(x);
    SmallBytes();
    var n := Size(x);
    if n <= 3 {
      BytesSplit(3, 3 - n);
      TimesMonotone(x + 1, Bytes(n), Bytes(3 - n), Bytes(3 - n));
      assert (x + 1) * Bytes(3 - n) == x * Bytes(3 - n) + Bytes(3 - n);
      assert Bytes(n) * Bytes(3 - n) == Bytes(3);
    } else {
      BytesSplit(n, n - 3);
      QuotientBelow(x, Bytes(n - 3), 0x1000000);
    }
  }

  lemma QuotientBelow(x: nat, u: nat, k: nat)
    requires u > 0 && x < k * u
    ensures x / u < k
  {
    var q, r := x / u, x % u;
    assert x == q * u + r;
    if q >= k {
      TimesMonotone(k, q, u, u);
      assert false;
    }
  }

  lemma SmallValue(x: nat)
    requires Size(x) <= 3
    ensures x < 0x1000000
  {
    hide Bytes, Size;
    SizeBounds(x);
    SmallBytes();
    BytesGrow(Size(x), 3);
  }

  // Work.

  /** The expected number of hashes for a block: 2^256 / (target + 1), or zero for a target that is not valid. */
  method GetBlockProof(nBits: nat) returns (proof: array<nat>)
    requires nBits < BASE
    ensures proof.Length == WIDTH && Ok(proof)
    ensures var t := Meaning(nBits);
            Val(proof) == if t == 0 || t >= Weight(WIDTH) || Negative(nBits) then 0 else Weight(WIDTH) / (t + 1)
  {
    hide Num, Weight, Meaning;
    var target, negative, overflow := SetCompact(nBits);
    if !overflow {
      Wrapped(Meaning(nBits), 0, Weight(WIDTH), Meaning(nBits));
    }
    var zero := FromUint64(0);
    var cmp := CompareTo(target, zero);
    if negative || overflow || cmp == 0 {
      return zero;
    }
    NotAllOnes(nBits);
    proof := WorkOf(target);
  }

  method WorkOf(target: array<nat>) returns (proof: array<nat>)
    requires target.Length == WIDTH && Ok(target) && 0 < Val(target) && Val(target) + 1 < Weight(WIDTH)
    ensures proof.Length == WIDTH && Ok(proof) && Val(proof) == Weight(WIDTH) / (Val(target) + 1)
  {
    hide Num, Weight;
    ghost var t, w := Val(target), Weight(WIDTH);
    proof := Complement(target);
    var one := FromUint64(1);
    var next := Copy(target);
    Add(next, one);
    Wrapped(t + 1, 0, w, t + 1);
    var ok;
    ghost var rem;
    ok, rem := Divide(proof, next);
    ProofValue(t, w);
    assert Val(proof) == (w - 1 - t) / (t + 1);
    ghost var p := Val(proof);
    assert Val(one) == 1;
    Add(proof, one);
    Wrapped(p + 1, 0, w, p + 1);
  }

  /** A compact form never has all 256 bits set. */
  lemma NotAllOnes(c: nat)
    requires Meaning(c) < Weight(WIDTH)
    ensures Meaning(c) + 1 < Weight(WIDTH)
  {
    hide Weight, Bytes;
    WidthBytes();
    BytesNext(31);
    var m, e := Mantissa(c), Exponent(c);
    if e <= 3 {
      QuotientLess(m, Bytes(3 - e));
      SmallBytes();
      BytesGrow(3, 32);
    } else {
      BytesNext(e - 4);
      assert m * (256 * Bytes(e - 4)) == 256 * (m * Bytes(e - 4));
    }
  }

  /** (2^256 - 1 - t) / (t + 1) + 1 is 2^256 / (t + 1). */
  lemma ProofValue(t: nat, w: nat)
    requires 0 < t && t + 1 < w
    ensures (w - 1 - t) / (t + 1) + 1 == w / (t + 1) < w
  {
    var d := t + 1;
    var q, r := (w - d) / d, (w - d) % d;
    assert w - d == q * d + r;
    assert (q + 1) * d == q * d + d;
    QuotientOf(w, d, q + 1, r);
    TimesMonotone(q + 1, q + 1, 2, d);
  }

  // Retargeting.

  /** The time taken, limited to a factor of four either way. */
  function Clamped(span: int, timespan: nat): nat {
    if span < timespan / 4 then timespan / 4 else if span > timespan * 4 then timespan * 4 else span
  }

  /** The new target before it is written: 256-bit arithmetic, and a 32-bit multiplier. */
  ghost function NewTarget(target: nat, span: nat, timespan: nat, limit: nat): nat
    requires timespan > 0
  {
    Min(target % Weight(WIDTH) * (span % BASE) % Weight(WIDTH) / timespan, limit)
  }

  method CalculateNextWorkRequired(nBits: nat, lastTime: int, firstTime: int, powLimit: array<nat>, timespan: nat,
                                   noRetargeting: bool)
    returns (r: nat)
    requires nBits < BASE && powLimit.Length == WIDTH && Ok(powLimit) && 0 < timespan < TWO_64 / 8
    ensures r == if noRetargeting then nBits
                 else
                   var span := Clamped(lastTime - firstTime, timespan);
                   CompactOf(NewTarget(Meaning(nBits), span, timespan, Val(powLimit)))
  {
    hide Num, Weight, Meaning, CompactOf;
    if noRetargeting {
      return nBits;
    }
    var span := lastTime - firstTime;
    if span < timespan / 4 {
      span := timespan / 4;
    }
    if span > timespan * 4 {
      span := timespan * 4;
    }
    var bnNew, _, _ := SetCompact(nBits);
    MultiplySmall(bnNew, span % BASE);
    var divisor := FromUint64(timespan);
    var _, _ := Divide(bnNew, divisor);
    var cmp := CompareTo(bnNew, powLimit);
    if cmp > 0 {
      bnNew := Copy(powLimit);
    }
    r := GetCompact(bnNew, false);
  }

  /**
    As long as the product fits 256 bits the new target is the truncation of the
    old one scaled by the time taken, at most four times larger and never above
    the limit.
   */
  lemma RetargetScales(target: nat, span: int, timespan: nat, limit: nat)
    requires 0 < timespan && target * Clamped(span, timespan) < Weight(WIDTH) && timespan * 4 < BASE
    ensures NewTarget(target, Clamped(span, timespan), timespan, limit)
         == Min(target * Clamped(span, timespan) / timespan, limit)
    ensures var y := Meaning(CompactOf(NewTarget(target, Clamped(span, timespan), timespan, limit)));
            y <= limit && y <= 4 * target
  {
    hide Weight, Meaning, CompactOf, Clamped;
    ClampedBound(span, timespan);
    var k := Clamped(span, timespan);
    NoWrap(target, k);
    TimesMonotone(target, target, k, 4 * timespan);
    assert target * (4 * timespan) == 4 * target * timespan;
    QuotientAtMost(target * k, timespan, 4 * target);
    Truncates(NewTarget(target, k, timespan, limit));
  }

  /**
    Exactly when the new target is the scaled one: the product fits 256 bits, or
    even what is left of it after wrapping reaches the limit.
   */
  lemma RetargetIff(target: nat, span: int, timespan: nat, limit: nat)
    requires 0 < timespan && target < Weight(WIDTH) && timespan * 4 < BASE
    ensures var k := Clamped(span, timespan);
            (NewTarget(target, k, timespan, limit) == Min(target * k / timespan, limit))
            <==> target * k < Weight(WIDTH) || limit <= target * k % Weight(WIDTH) / timespan
  {
    hide Weight, Clamped;
    ClampedBound(span, timespan);
    WeightGrows(1, WIDTH);
    WeightNext(0);
    WeightZero();
    var k, w := Clamped(span, timespan), Weight(WIDTH);
    Wrapped(target, 0, w, target);
    if target * k < w {
      Wrapped(target * k, 0, w, target * k);
    } else {
      WrapLoses(target * k, w, timespan);
    }
  }

  /** A wrapped number has a smaller quotient. */
  lemma WrapLoses(x: nat, w: nat, u: nat)
    requires x >= w >= u > 0
    ensures x % w / u < x / u
  {
    var q, r := x / w, x % w;
    assert x == q * w + r;
    TimesMonotone(1, q, w, w);
    var a, b := r / u, r % u;
    assert r == a * u + b;
    var c, e := x / u, x % u;
    assert x == c * u + e;
    if c <= a {
      TimesMonotone(c, a, u, u);
      assert false;
    }
  }

  lemma ClampedBound(span: int, timespan: nat)
    ensures timespan / 4 <= Clamped(span, timespan) <= timespan * 4
  {
  }

  lemma NoWrap(target: nat, k: nat)
    requires target * k < Weight(WIDTH) && k < BASE
    ensures target % Weight(WIDTH) * (k % BASE) % Weight(WIDTH) == target * k
  {
    hide Weight;
    if target < Weight(WIDTH) {
      Wrapped(target, 0, Weight(WIDTH), target);
    } else {
      LargeTarget(target, k, Weight(WIDTH));
    }
    Wrapped(target * k, 0, Weight(WIDTH), target * k);
  }

  /** A target beyond the width can only be scaled by zero. */
  lemma LargeTarget(target: nat, k: nat, w: nat)
    requires target >= w > 0 && target * k < w
    ensures k == 0 && target * k == 0 && target % w * k == 0
  {
    if k >= 1 {
      TimesMonotone(target, target, 1, k);
      assert false;
    }
  }

  lemma QuotientAtMost(x: nat, u: nat, k: nat)
    requires u > 0 && x <= k * u
    ensures x / u <= k
  {
    assert (k + 1) * u == k * u + u;
    QuotientBelow(x, u, k + 1);
  }

  const TWO_WEEKS := 14 * 24 * 60 * 60

  /** With the main network's limit the product always fits. */
  lemma MainNetworkFits(target: nat, span: int)
    requires target < Bytes(28)
    ensures target * Clamped(span, TWO_WEEKS) < Weight(WIDTH)
  {
    hide Bytes, Weight;
    WidthBytes();
    BytesSplit(32, 28);
    SmallBytes();
    BytesNext(3);
    TimesMonotone(target, Bytes(28), Clamped(span, TWO_WEEKS), 4 * TWO_WEEKS);
    TimesMonotone(4 * TWO_WEEKS + 1, Bytes(4), Bytes(28), Bytes(28));
    assert (4 * TWO_WEEKS + 1) * Bytes(28) == Bytes(28) * (4 * TWO_WEEKS) + Bytes(28);
  }

  /**
    With the test network's limit it need not: blocks four times too slow then make
    the target more than two thousand times smaller instead of four times larger.
   */
  lemma TestNetworkWraps()
    ensures var target, limit := Meaning(0x1f7fffff), Bytes(31) - 1;
            target <= limit && 2000 * NewTarget(target, 4 * TWO_WEEKS, TWO_WEEKS, limit) < target
  {
    hide Bytes, Weight;
    var u := Bytes(28);
    var m, rest := 0x7fffff, (0x7fffff * (4 * TWO_WEEKS)) % BASE;
    var q := (0x7fffff * (4 * TWO_WEEKS)) / BASE;
    var target := Meaning(0x1f7fffff);
    assert target == m * u;
    WidthBytes();
    BytesSplit(31, 28);
    BytesSplit(32, 28);
    SmallBytes();
    BytesNext(3);
    TimesMonotone(m, 0xffffff, u, u);
    assert target * (4 * TWO_WEEKS) == m * (4 * TWO_WEEKS) * u == (q * BASE + rest) * u == q * (BASE * u) + rest * u;
    TimesMonotone(rest + 1, BASE, u, u);
    assert (rest + 1) * u == rest * u + u;
    Wrapped(target, 0, Weight(WIDTH), target);
    Wrapped(rest * u, q, Weight(WIDTH), target * (4 * TWO_WEEKS));
    assert 2000 * rest < m * TWO_WEEKS;
    TimesMonotone(2000 * rest + 1, m * TWO_WEEKS, u, u);
    assert (2000 * rest + 1) * u == 2000 * (rest * u) + u;
    SmallShare(rest * u, TWO_WEEKS, target);
  }

  /** With the test network's limit the new target is the scaled one exactly if the product fits. */
  lemma TestNetworkIff(target: nat, span: int)
    requires target < Weight(WIDTH)
    ensures var k, limit := Clamped(span, TWO_WEEKS), Bytes(31) - 1;
            (NewTarget(target, k, TWO_WEEKS, limit) == Min(target * k / TWO_WEEKS, limit))
            <==> target * k < Weight(WIDTH)
  {
    hide Weight, Bytes, Clamped;
    var k, limit := Clamped(span, TWO_WEEKS), Bytes(31) - 1;
    RetargetIff(target, span, TWO_WEEKS, limit);
    WidthBytes();
    BytesNext(31);
    SmallBytes();
    BytesGrow(3, 31);
    QuotientBelow(target * k % Weight(WIDTH), TWO_WEEKS, limit);
  }

  lemma SmallShare(x: nat, t: nat, target: nat)
    requires t > 0 && 2000 * x < target * t
    ensures 2000 * (x / t) < target
  {
    var q := x / t;
    assert q * t <= x && 2000 * q * t == 2000 * (q * t);
    if 2000 * q >= target {
      TimesMonotone(target, 2000 * q, t, t);
      assert false;
    }
  }

  /** A hash meets its claimed target exactly if the target is valid, within the limit, and not below the hash. */
  method CheckProofOfWork(hash: array<nat>, nBits: nat, powLimit: array<nat>) returns (ok: bool)
    requires nBits < BASE && powLimit.Length == hash.Length == WIDTH && Ok(powLimit) && Ok(hash)
    ensures ok <==> !Negative(nBits) && 0 < Meaning(nBits) <= Val(powLimit) && Val(hash) <= Meaning(nBits)
  {
    hide Num, Weight, Meaning;
    var target, negative, overflow := SetCompact(nBits);
    NumBound(powLimit[..]);
    if !overflow {
      Wrapped(Meaning(nBits), 0, Weight(WIDTH), Meaning(nBits));
    }
    var zero := FromUint64(0);
    var isZero := CompareTo(target, zero);
    var limit := CompareTo(target, powLimit);
    if negative || isZero == 0 || overflow || limit > 0 {
      return false;
    }
    var cmp := CompareTo(hash, target);
    if cmp > 0 {
      return false;
    }
    return true;
  }
}
