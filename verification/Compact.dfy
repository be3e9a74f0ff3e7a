/** The compact form of large numbers: a sign, a mantissa of 23 bits and an exponent of base 256. */
module Compact {

  import opened Digits
  import opened BigShift

  const SIGN := 0x800000
  const EXPONENT := 0x1000000

  function Exponent(c: nat): nat {
    c / EXPONENT
  }

  function Mantissa(c: nat): nat {
    c % SIGN
  }

  predicate Negative(c: nat) {
    c / SIGN % 2 == 1
  }

  /** The number of bytes `n` as a power of 256. */
  function Bytes(n: nat): (p: nat)
    ensures p > 0
  {
    Pow(2, 8 * n)
  }

  /** The whole number a compact form stands for, sign aside and without any limit of width. */
  function Meaning(c: nat): nat {
    Scaled(Mantissa(c), Exponent(c))
  }

  function Product(a: nat, b: nat): nat {
    a * b
  }

  function Quotient(a: nat, b: nat): nat
    requires b > 0
  {
    a / b
  }

  function Scaled(m: nat, e: nat): nat {
    if e <= 3 then Quotient(m, Bytes(3 - e)) else Product(m, Bytes(e - 3))
  }

  function BitsOf(x: nat): nat {
    if x == 0 then 0 else 1 + BitsOf(x / 2)
  }

  ghost predicate IsBits(x: nat, r: nat) {
    x < Pow(2, r) && (r > 0 ==> Pow(2, r - 1) <= x)
  }

  lemma {:induction false} BitsOfIs(x: nat)
    ensures IsBits(x, BitsOf(x))
  {
    if x > 0 {
      BitsOfIs(x / 2);
      var r := BitsOf(x / 2);
      PowNext(2, r);
      if r > 0 {
        PowNext(2, r - 1);
      }
    }
  }

  lemma BitsUnique(x: nat, r: nat, s: nat)
    requires IsBits(x, r) && IsBits(x, s)
    ensures r == s
  {
    hide Pow;
    if r < s {
      PowGrows(2, r, s - 1);
    } else if s < r {
      PowGrows(2, s, r - 1);
    }
  }

  /** The number of bytes needed. */
  function Size(x: nat): nat {
    (BitsOf(x) + 7) / 8
  }

  /** The three leading bytes. */
  function Leading(x: nat): nat {
    if Size(x) <= 3 then x * Bytes(3 - Size(x)) else x / Bytes(Size(x) - 3)
  }

  /** The compact form; a mantissa that would look negative is shortened by a byte. */
  function CompactOf(x: nat): nat {
    if Leading(x) >= SIGN then Leading(x) / 256 + (Size(x) + 1) * EXPONENT else Leading(x) + Size(x) * EXPONENT
  }

  lemma Unpack(m: nat, e: nat)
    requires m < SIGN
    ensures var c := m + e * EXPONENT;
            Exponent(c) == e && Mantissa(c) == m && !Negative(c)
  {
  }

  lemma BytesNext(n: nat)
    ensures Bytes(n + 1) == 256 * Bytes(n)
  {
    PowAdd(2, 8, 8 * n);
    assert Pow(2, 8) == 256;
  }

  lemma SmallBytes()
    ensures Bytes(0) == 1 && Bytes(1) == 256 && Bytes(2) == 65536 && Bytes(3) == 0x1000000
  {
    hide Bytes;
    assert Bytes(0) == 1 by {
      BytesZero();
    }
    BytesNext(0);
    BytesNext(1);
    BytesNext(2);
  }

  lemma BytesZero()
    ensures Bytes(0) == 1
  {
  }

  /** A number of `n` bytes is below 256^n and, unless zero, not below 256^(n-1). */
  lemma SizeBounds(x: nat)
    ensures x < Bytes(Size(x)) && (x > 0 ==> Size(x) > 0 && Bytes(Size(x) - 1) <= x)
  {
    hide Pow;
    BitsOfIs(x);
    var r, n := BitsOf(x), Size(x);
    PowGrows(2, r, 8 * n);
    if x > 0 {
      PowGrows(2, 8 * (n - 1), r - 1);
    }
  }

  lemma SizeIs(x: nat, n: nat)
    requires n > 0 && Bytes(n - 1) <= x < Bytes(n)
    ensures Size(x) == n
  {
    hide Pow, BitsOf;
    BitsOfIs(x);
    var r := BitsOf(x);
    PowPositive(8 * (n - 1));
    BitsPositive(x);
    if r > 8 * n {
      PowGrows(2, 8 * n, r - 1);
    } else if r <= 8 * (n - 1) {
      PowGrows(2, r, 8 * (n - 1));
    }
  }

  lemma BitsPositive(x: nat)
    requires x > 0
    ensures BitsOf(x) > 0
  {
  }

  /** Small numbers are kept exactly. */
  lemma SmallExact(x: nat)
    requires x < SIGN
    ensures Meaning(CompactOf(x)) == x && !Negative(CompactOf(x)) && Exponent(CompactOf(x)) <= 3
  {
    hide Bytes, Size;
    SmallBytes();
    if x == 0 {
      SizeZero();
      Unpack(0, 0);
    } else if x < 256 {
      SizeIs(x, 1);
      if x < 128 {
        Unpack(x * 65536, 1);
      } else {
        Unpack(x * 256, 2);
      }
    } else if x < 65536 {
      SizeIs(x, 2);
      if x < 32768 {
        Unpack(x * 256, 2);
      } else {
        Unpack(x, 3);
      }
    } else {
      SizeIs(x, 3);
      Unpack(x, 3);
    }
  }

  lemma SizeZero()
    ensures Size(0) == 0
  {
  }

  /** Larger numbers keep at least sixteen leading bits. */
  lemma LargeParts(x: nat)
    requires x >= SIGN
    ensures var c := CompactOf(x);
            && Exponent(c) > 3 && Mantissa(c) == x / Bytes(Exponent(c) - 3) >= 0x8000
            && !Negative(c) && c == Mantissa(c) + Exponent(c) * EXPONENT
  {
    hide Bytes, Size;
    var n := Size(x);
    SizeBounds(x);
    SmallBytes();
    if n < 3 {
      BytesGrow(n, 2);
      assert false;
    }
    var u := Bytes(n - 3);
    BytesSplit(n - 1, n - 3);
    BytesSplit(n, n - 3);
    var m := x / u;
    LeadingBounds(x, u);
    assert n == 3 ==> x * Bytes(0) == x / Bytes(0);
    if m >= SIGN {
      Unpack(m / 256, n + 1);
      BytesNext(n - 3);
      DivideTwice(x, u, 256);
    } else {
      Unpack(m, n);
      if n == 3 {
        assert false;
      }
    }
  }

  lemma BytesGrow(m: nat, n: nat)
    requires m <= n
    ensures Bytes(m) <= Bytes(n)
  {
    PowGrows(2, 8 * m, 8 * n);
  }

  lemma BytesSplit(n: nat, k: nat)
    requires k <= n
    ensures Bytes(n) == Bytes(n - k) * Bytes(k)
  {
    PowAdd(2, 8 * (n - k), 8 * k);
  }

  lemma LeadingBounds(x: nat, u: nat)
    requires u > 0 && 65536 * u <= x < 0x1000000 * u
    ensures 65536 <= x / u < 0x1000000
  {
    var q, r := x / u, x % u;
    assert x == q * u + r;
    assert q < 65536 ==> (q + 1) * u <= 65536 * u;
    assert (q + 1) * u == q * u + u;
    assert q >= 0x1000000 ==> q * u >= 0x1000000 * u;
  }

  /** Nothing is gained, and less than one part in 32768 is lost. */
  lemma Truncates(x: nat)
    ensures var y := Meaning(CompactOf(x));
            y <= x && (x > 0 ==> (x - y) * 32768 < x) && !Negative(CompactOf(x))
  {
    hide Bytes, CompactOf;
    if x < SIGN {
      SmallExact(x);
    } else {
      LargeParts(x);
      var e := Exponent(CompactOf(x));
      RemainderBound(x, Bytes(e - 3));
    }
  }

  lemma RemainderBound(x: nat, u: nat)
    requires u > 0 && x / u >= 32768
    ensures x / u * u <= x && (x - x / u * u) * 32768 < x
  {
    var q, r := x / u, x % u;
    assert x == q * u + r;
    TimesMonotone(32768, q, u, u);
  }

  /** Writing, reading and writing again changes nothing. */
  lemma Stable(x: nat)
    ensures CompactOf(Meaning(CompactOf(x))) == CompactOf(x)
  {
    hide Bytes, Size;
    if x < SIGN {
      SmallExact(x);
    } else {
      LargeParts(x);
      var c := CompactOf(x);
      Rewritten(Mantissa(c), Exponent(c));
    }
  }

  /** The compact form of a mantissa times a power of 256. */
  lemma Rewritten(m: nat, e: nat)
    requires e > 3 && 0x8000 <= m < SIGN
    ensures CompactOf(Product(m, Bytes(e - 3))) == m + e * EXPONENT
  {
    hide Bytes, Size;
    var u := Bytes(e - 3);
    var y := Product(m, u);
    BytesSplit(e - 1, e - 3);
    BytesSplit(e - 2, e - 3);
    BytesSplit(e, e - 3);
    SmallBytes();
    if m >= 65536 {
      TimesMonotone(65536, m, u, u);
      TimesMonotone(m, 0xffffff, u, u);
      SizeIs(y, e);
      QuotientOf(y, u, m, 0);
    } else {
      TimesMonotone(256, m, u, u);
      TimesMonotone(m, 65535, u, u);
      SizeIs(y, e - 1);
      BytesNext(e - 4);
      var v := Bytes(e - 4);
      assert m * (256 * v) == m * 256 * v;
      QuotientOf(y, v, m * 256, 0);
      assert e == 4 ==> y * Bytes(0) == m * 256;
    }
  }

  /** The test for overflow says exactly whether 256 bits are too few. */
  lemma OverflowIff(m: nat, e: nat)
    requires m < SIGN && e > 3
    ensures (m != 0 && (e > 34 || (m > 0xff && e > 33) || (m > 0xffff && e > 32))) <==>
            Product(m, Bytes(e - 3)) >= Bytes(32)
  {
    hide Bytes;
    SmallBytes();
    var u := Bytes(e - 3);
    if e > 34 {
      BytesGrow(32, e - 3);
      if m != 0 {
        TimesMonotone(1, m, u, u);
      }
    } else if e == 34 {
      BytesSplit(32, 31);
      Against(m, 256, u);
    } else if e == 33 {
      BytesSplit(32, 30);
      Against(m, 65536, u);
    } else {
      BytesSplit(32, 29);
      BytesGrow(e - 3, 29);
      TimesMonotone(m + 1, 0x1000000, u, Bytes(29));
      assert (m + 1) * u == m * u + u;
    }
  }

  lemma Against(m: nat, k: nat, u: nat)
    requires u > 0
    ensures m * u >= k * u <==> m >= k
  {
    assert m >= k ==> m * u >= k * u;
    assert m < k ==> (m + 1) * u <= k * u;
    assert (m + 1) * u == m * u + u;
  }

  /** The repository's own cases. */
  lemma Cases()
    ensures forall c | c in {0, 0x00123456, 0x01003456, 0x02000056, 0x03000000, 0x04000000, 0x00923456, 0x01803456,
                             0x02800056, 0x03800000, 0x04800000} :: Meaning(c) == 0
    ensures Meaning(0x01123456) == Meaning(0x01fedcba) - 0x6c == 0x12 && Negative(0x01fedcba) && !Negative(0x01123456)
    ensures Meaning(0x02123456) == 0x1234 && Meaning(0x03123456) == 0x123456 && Meaning(0x04123456) == 0x12345600
    ensures Meaning(0x04923456) == 0x12345600 && Negative(0x04923456) && Meaning(0x05009234) == 0x92340000
    ensures Meaning(0x20123456) == 0x123456 * Bytes(29)
    ensures CompactOf(0) == 0 && CompactOf(0x12) == 0x01120000 && CompactOf(0x80) == 0x02008000
    ensures CompactOf(0x7e) == 0x01fe0000 - SIGN && CompactOf(0x1234) == 0x02123400
    ensures CompactOf(0x123456) == 0x03123456 && CompactOf(0x12345600) == 0x04123456
    ensures CompactOf(0x92340000) == 0x05009234 && CompactOf(0x123456 * Bytes(29)) == 0x20123456
  {
    hide Bytes, Size;
    SmallBytes();
    SizeZero();
    SizeIs(0x12, 1);
    SizeIs(0x80, 1);
    SizeIs(0x7e, 1);
    SizeIs(0x1234, 2);
    SizeIs(0x123456, 3);
    BytesNext(3);
    SizeIs(0x12345600, 4);
    SizeIs(0x92340000, 4);
    Rewritten(0x123456, 32);
  }
}
