/** Numbers written as digits, most significant first, in any base. */
module Digits {

  function Pow(b: nat, n: nat): (p: nat)
    ensures b > 0 ==> p > 0
  {
    if n == 0 then 1 else b * Pow(b, n - 1)
  }

  lemma Associate(a: nat, b: nat, c: nat)
    ensures a * (b * c) == a * b * c
  {
  }

  lemma {:induction false} PowAdd(b: nat, m: nat, n: nat)
    ensures Pow(b, m + n) == Pow(b, m) * Pow(b, n)
  {
    if m > 0 {
      PowAdd(b, m - 1, n);
      Associate(b, Pow(b, m - 1), Pow(b, n));
    }
  }

  lemma {:induction false} PowPow(b: nat, m: nat, n: nat)
    ensures Pow(Pow(b, m), n) == Pow(b, m * n)
    decreases n
  {
    if n > 0 {
      PowPow(b, m, n - 1);
      PowAdd(b, m, m * (n - 1));
      assert m + m * (n - 1) == m * n;
    } else {
      assert m * n == 0;
    }
  }

  lemma TimesMonotone(a: nat, b: nat, c: nat, d: nat)
    requires a <= b && c <= d
    ensures a * c <= b * d
  {
    assert a * c <= b * c <= b * d;
  }

  lemma {:induction false} PowMonotone(a: nat, b: nat, n: nat)
    requires a <= b
    ensures Pow(a, n) <= Pow(b, n)
  {
    if n > 0 {
      PowMonotone(a, b, n - 1);
      TimesMonotone(a, b, Pow(a, n - 1), Pow(b, n - 1));
    }
  }

  lemma {:induction false} PowStrict(a: nat, b: nat, n: nat)
    requires a < b && n > 0
    ensures Pow(a, n) < Pow(b, n)
  {
    PowMonotone(a, b, n - 1);
    TimesMonotone(a, a, Pow(a, n - 1), Pow(b, n - 1));
    TimesMonotone(a + 1, b, Pow(b, n - 1), Pow(b, n - 1));
    assert (a + 1) * Pow(b, n - 1) == a * Pow(b, n - 1) + Pow(b, n - 1);
  }

  lemma {:induction false} PowGrows(b: nat, m: nat, n: nat)
    requires b > 0 && m <= n
    ensures Pow(b, m) <= Pow(b, n)
  {
    if m < n {
      PowGrows(b, m, n - 1);
      TimesMonotone(1, b, Pow(b, n - 1), Pow(b, n - 1));
    }
  }

  lemma PowSwap(a: nat, n: nat, p: nat)
    ensures Pow(Pow(a, n), p) == Pow(Pow(a, p), n)
  {
    PowPow(a, n, p);
    PowPow(a, p, n);
    assert n * p == p * n;
  }

  lemma PowLarger(b: nat, q: nat, n: nat, k: nat, p: nat)
    requires b > 0 && p * k >= q * n
    ensures Pow(Pow(b, q), n) <= Pow(Pow(b, k), p)
  {
    hide Pow;
    PowPow(b, q, n);
    PowPow(b, k, p);
    var s, t := q * n, k * p;
    assert t == p * k;
    PowGrows(b, s, t);
  }

  /**
    A comparison of two powers settles all with a larger ratio of exponents: if
    a^p <= b^q then a^n <= b^k whenever k / n >= q / p.
   */
  lemma RatioBound(a: nat, b: nat, p: nat, q: nat, n: nat, k: nat)
    requires b > 0 && p > 0 && Pow(a, p) <= Pow(b, q) && p * k >= q * n
    ensures Pow(a, n) <= Pow(b, k)
  {
    hide Pow;
    PowSwap(a, n, p);
    PowMonotone(Pow(a, p), Pow(b, q), n);
    PowLarger(b, q, n, k, p);
    if Pow(b, k) < Pow(a, n) {
      PowStrict(Pow(b, k), Pow(a, n), p);
      assert false;
    }
  }

  /** Eleven base 58 digits hold eight bytes. */
  lemma EncodeRatio()
    ensures Pow(256, 8) <= Pow(58, 11)
  {
  }

  lemma PowNext(b: nat, n: nat)
    ensures Pow(b, n + 1) == b * Pow(b, n)
  {
  }

  lemma PowDouble(b: nat, n: nat, x: nat)
    requires Pow(b, n) == x
    ensures Pow(b, 2 * n) == x * x
  {
    PowAdd(b, n, n);
  }

  lemma LargePower()
    ensures Pow(58, 71) == 159730386663078066345306447337161584696769904898410078913243029577507397293846405390982563136983769384625594118558891106107392
  {
    assert Pow(58, 8) == 128063081718016;
    PowDouble(58, 8, 128063081718016);
    PowNext(58, 16);
    PowDouble(58, 17, 951208868148684143308060622848);
    PowNext(58, 34);
    PowDouble(58, 35, 52478302028992644968172978478148648556151605660894866578604032);
    PowNext(58, 70);
  }

  /** Fifty-two bytes hold seventy-one base 58 digits. */
  lemma DecodeRatio()
    ensures Pow(58, 71) <= Pow(256, 52)
  {
    LargePower();
    assert Pow(256, 13) == 20282409603651670423947251286016;
    PowDouble(256, 13, 20282409603651670423947251286016);
    PowDouble(256, 26, 411376139330301510538742295639337626245683966408394965837152256);
  }

  function Value(b: nat, s: seq<nat>): nat {
    if s == [] then 0 else Value(b, s[..|s| - 1]) * b + s[|s| - 1]
  }

  predicate Within(b: nat, s: seq<nat>) {
    forall i | 0 <= i < |s| :: s[i] < b
  }

  lemma ValueAppend(b: nat, s: seq<nat>, d: nat)
    ensures Value(b, s + [d]) == Value(b, s) * b + d
  {
    assert (s + [d])[..|s|] == s;
  }

  lemma {:induction false} ValueBound(b: nat, s: seq<nat>)
    requires Within(b, s)
    ensures Value(b, s) < Pow(b, |s|)
  {
    if s != [] {
      ValueBound(b, s[..|s| - 1]);
      TimesMonotone(Value(b, s[..|s| - 1]) + 1, Pow(b, |s| - 1), b, b);
      var v := Value(b, s[..|s| - 1]);
      assert (v + 1) * b == v * b + b;
      assert Pow(b, |s| - 1) * b == b * Pow(b, |s| - 1);
    }
  }

  lemma {:induction false} ValuePrepend(b: nat, d: nat, s: seq<nat>)
    ensures Value(b, [d] + s) == d * Pow(b, |s|) + Value(b, s)
  {
    if s == [] {
      assert [d] + s == [] + [d];
      ValueAppend(b, [], d);
    } else {
      var t, e := s[..|s| - 1], s[|s| - 1];
      assert [d] + s == ([d] + t) + [e];
      ValuePrepend(b, d, t);
      ValueAppend(b, [d] + t, e);
      Distribute(d, Pow(b, |t|), Value(b, t), b);
    }
  }

  lemma Distribute(d: nat, p: nat, v: nat, b: nat)
    ensures (d * p + v) * b == d * (b * p) + v * b
  {
    assert d * p * b == d * (b * p);
  }

  /** The number of leading zeros. */
  function Zeros(s: seq<nat>): (z: nat)
    ensures z <= |s| && (z < |s| ==> s[z] != 0) && forall i | 0 <= i < z :: s[i] == 0
  {
    if s == [] || s[0] != 0 then 0 else 1 + Zeros(s[1..])
  }

  lemma {:induction false} DropZeros(b: nat, s: seq<nat>, z: nat)
    requires z <= |s| && forall i | 0 <= i < z :: s[i] == 0
    ensures Value(b, s[z..]) == Value(b, s)
  {
    if z == 0 {
      assert s[0..] == s;
    } else {
      DropZeros(b, s, z - 1);
      assert s[z - 1..] == [0] + s[z..];
      ValuePrepend(b, 0, s[z..]);
    }
  }

  lemma {:induction false} Positive(b: nat, s: seq<nat>)
    requires b > 0 && s != [] && s[0] != 0
    ensures Value(b, s) > 0
  {
    assert s == [s[0]] + s[1..];
    ValuePrepend(b, s[0], s[1..]);
    TimesMonotone(1, s[0], 1, Pow(b, |s| - 1));
  }

  lemma QuotientRemainder(q: nat, b: nat, r: nat, q': nat, r': nat)
    requires r < b && r' < b && q * b + r == q' * b + r'
    ensures q == q' && r == r'
  {
    assert q < q' ==> (q + 1) * b <= q' * b;
    assert q' < q ==> (q' + 1) * b <= q * b;
    assert (q + 1) * b == q * b + b && (q' + 1) * b == q' * b + b;
  }

  lemma NestedRemainder(q: nat, u: nat, r1: nat, s: nat, k: nat, r2: nat)
    requires q == s * k + r2 && r1 < u && r2 < k
    ensures q * u + r1 == s * (k * u) + (r2 * u + r1) && r2 * u + r1 < k * u
  {
    assert q * u == s * k * u + r2 * u;
    assert s * k * u == s * (k * u);
    TimesMonotone(r2 + 1, k, u, u);
    assert (r2 + 1) * u == r2 * u + u;
  }

  lemma DivideTwice(x: nat, u: nat, k: nat)
    requires u > 0 && k > 0
    ensures x / u / k == x / (k * u)
  {
    var q := x / u;
    NestedRemainder(q, u, x % u, q / k, k, q % k);
    QuotientOf(x, k * u, q / k, q % k * u + x % u);
  }

  /** A digit in base `w` of the quotient by `u`. */
  lemma RemainderQuotient(x: nat, u: nat, w: nat)
    requires u > 0 && w > 0
    ensures w * u > 0 && x / u % w == x % (w * u) / u
  {
    var q := x / u;
    var s, r2, r1 := q / w, q % w, x % u;
    NestedRemainder(q, u, r1, s, w, r2);
    var m := w * u;
    assert x == x / m * m + x % m;
    QuotientRemainder(s, m, r2 * u + r1, x / m, x % m);
    QuotientOf(x % m, u, r2, r1);
  }

  lemma SmallRemainder(x: nat, m: nat)
    requires x < m
    ensures x % m == x
  {
  }

  lemma QuotientOf(x: nat, d: nat, q: nat, r: nat)
    requires x == q * d + r && r < d
    ensures x / d == q
  {
    QuotientRemainder(q, d, r, x / d, x % d);
  }

  lemma DropMultiple(k: nat, p: nat, y: nat)
    requires p > 0
    ensures (k * p + y) % p == y % p
  {
    var c, r := y / p, y % p;
    assert y == c * p + r;
    assert (k + c) * p == k * p + c * p;
    QuotientOf(k * p + y, p, k + c, r);
  }

  /** Multiplying and adding may go on with a remainder. */
  lemma StepModulo(n: nat, k: nat, x: nat, p: nat)
    requires p > 0
    ensures (n % p * k + x) % p == (n * k + x) % p
  {
    var q, r := n / p, n % p;
    assert n == q * p + r;
    assert n * k == q * p * k + r * k;
    assert q * p * k == q * k * p;
    DropMultiple(q * k, p, r * k + x);
  }

  /** Digits without leading zeros are determined by the number. */
  lemma {:induction false} CanonicalUnique(b: nat, s: seq<nat>, t: seq<nat>)
    requires b > 0 && Within(b, s) && Within(b, t) && Value(b, s) == Value(b, t)
    requires (s != [] ==> s[0] != 0) && (t != [] ==> t[0] != 0)
    ensures s == t
    decreases |s|
  {
    if s == [] {
      if t != [] {
        Positive(b, t);
        assert false;
      }
    } else {
      Positive(b, s);
      var s', t' := s[..|s| - 1], t[..|t| - 1];
      QuotientRemainder(Value(b, s'), b, s[|s| - 1], Value(b, t'), t[|t| - 1]);
      CanonicalUnique(b, s', t');
      assert s == s' + [s[|s| - 1]] && t == t' + [t[|t| - 1]];
    }
  }

  /** Two digit strings, perhaps in different bases, stand for the same zeros and number. */
  ghost predicate SameNumber(b: nat, s: seq<nat>, c: nat, t: seq<nat>) {
    Within(b, s) && Within(c, t) && Zeros(s) == Zeros(t) && Value(b, s) == Value(c, t)
  }

  lemma SameNumberUnique(b: nat, s: seq<nat>, s': seq<nat>)
    requires b > 0 && SameNumber(b, s, b, s')
    ensures s == s'
  {
    var z := Zeros(s);
    DropZeros(b, s, z);
    DropZeros(b, s', z);
    CanonicalUnique(b, s[z..], s'[z..]);
    assert s == s[..z] + s[z..] && s' == s'[..z] + s'[z..];
    assert s[..z] == s'[..z];
  }
}
