/**
  Compressed transaction outputs: amounts and scripts.  Validity and decompression of
  public keys are arbitrary functions, related only where a claim says so.
 */
module OutputCodec {

  import opened Basics
  import opened Digits
  import opened VarInt

  // Amounts.

  /** Divide out factors of ten, at most nine in all. */
  function Strip(n: nat, e: nat): (r: (nat, nat))
    requires n > 0 && e <= 9
    ensures r.0 > 0 && r.1 <= 9
    decreases n
  {
    if n % 10 == 0 && e < 9 then Strip(n / 10, e + 1) else (n, e)
  }

  function Packed(m: nat, e: nat): nat
    requires m > 0
  {
    if e < 9 then 1 + (m / 10 * 9 + m % 10 - 1) * 10 + e else 1 + (m - 1) * 10 + 9
  }

  function Compressed(n: nat): nat {
    if n == 0 then 0 else var (m, e) := Strip(n, 0); Packed(m, e)
  }

  /** The significant part and the number of zeros a packed amount stands for. */
  function Unpacked(x: nat): (nat, nat)
    requires x > 0
  {
    var e := (x - 1) % 10;
    var y := (x - 1) / 10;
    if e < 9 then (y / 9 * 10 + (y % 9 + 1), e) else (y + 1, e)
  }

  function Decompressed(x: nat): nat {
    if x == 0 then 0 else var (m, e) := Unpacked(x); m * Pow(10, e)
  }

  lemma {:induction false} StripFacts(n: nat, e: nat)
    requires n > 0 && e <= 9
    ensures var (m, f) := Strip(n, e);
            0 < m <= n && e <= f <= 9 && m * Pow(10, f - e) == n && (f < 9 ==> m % 10 != 0)
    decreases n
  {
    if n % 10 == 0 && e < 9 {
      StripFacts(n / 10, e + 1);
      var (m, f) := Strip(n, e);
      PowNext(10, f - e - 1);
      assert m * (10 * Pow(10, f - e - 1)) == 10 * (m * Pow(10, f - e - 1));
    }
  }

  lemma UnpackPacked(m: nat, e: nat)
    requires m > 0 && e <= 9 && (e < 9 ==> m % 10 != 0)
    ensures Packed(m, e) > 0 && Unpacked(Packed(m, e)) == (m, e)
  {
  }

  /** Every amount survives. */
  lemma AmountRoundTrip(n: nat)
    ensures Decompressed(Compressed(n)) == n
  {
    if n > 0 {
      StripFacts(n, 0);
      var (m, e) := Strip(n, 0);
      UnpackPacked(m, e);
    }
  }

  lemma {:induction false} StripZeros(m: nat, e: nat, k: nat)
    requires m > 0 && k + e <= 9 && (k + e < 9 ==> m % 10 != 0)
    ensures m * Pow(10, e) > 0 && Strip(m * Pow(10, e), k) == (m, k + e)
    decreases e
  {
    hide Pow;
    if e == 0 {
      PowZeroTimes(m);
    } else {
      StripZeros(m, e - 1, k + 1);
      PowNext(10, e - 1);
      TimesTen(m, Pow(10, e - 1));
    }
  }

  lemma PackUnpacked(x: nat)
    requires x > 0
    ensures var (m, e) := Unpacked(x);
            m > 0 && e <= 9 && (e < 9 ==> m % 10 != 0) && Packed(m, e) == x
  {
    var e, y := (x - 1) % 10, (x - 1) / 10;
    if e < 9 {
      var m := y / 9 * 10 + (y % 9 + 1);
      assert m / 10 == y / 9 && m % 10 == y % 9 + 1;
    }
  }

  /** And every number is the compressed form of some amount. */
  lemma AmountOnto(x: nat)
    ensures Compressed(Decompressed(x)) == x
  {
    if x > 0 {
      PackUnpacked(x);
      var (m, e) := Unpacked(x);
      StripZeros(m, e, 0);
    }
  }

  /** The form of a compressed amount that ends in fewer than nine zeros: last digit `d`, `e` zeros. */
  lemma CompressedForm(k: nat, d: nat, e: nat)
    requires 1 <= d <= 9 && e < 9
    ensures Compressed((10 * k + d) * Pow(10, e)) == 10 * (9 * k + d - 1) + e + 1
  {
    hide Pow;
    StripZeros(10 * k + d, e, 0);
  }

  /** The form of a compressed multiple of ten coins. */
  lemma CompressedRound(m: nat)
    ensures Compressed(m * Pow(10, 9)) == 10 * m
  {
    hide Pow;
    if m > 0 {
      StripZeros(m, 9, 0);
    }
  }

  /** The repository's own cases: a cent, a coin, fifty coins and all coins. */
  lemma AmountCases()
    ensures Compressed(0) == 0 && Compressed(1) == 0x1 && Compressed(1000000) == 0x7 && Compressed(100000000) == 0x9
    ensures Compressed(50 * 100000000) == 0x32 && Compressed(MAX_MONEY) == 0x1406f40
  {
    assert Pow(10, 0) == 1 && Pow(10, 3) == 1000;
    PowAdd(10, 3, 3);
    PowAdd(10, 3, 6);
    PowNext(10, 6);
    PowNext(10, 7);
    hide Pow;
    CompressedForm(0, 1, 0);
    CompressedForm(0, 1, 6);
    CompressedForm(0, 1, 8);
    CompressedRound(5);
    CompressedRound(2100000);
  }

  const MAX_MONEY := 21000000 * 100000000

  /** No overflow for any amount of money. */
  lemma AmountFits(n: nat)
    ensures Compressed(n) <= 10 * n
    ensures n <= MAX_MONEY ==> Compressed(n) < TWO_64
  {
    if n > 0 {
      StripFacts(n, 0);
    }
  }

  /** In 64 bits every amount survives whose compressed form does not overflow. */
  lemma AmountRoundTrip64(n: Uint64)
    requires Compressed(n) < TWO_64
    ensures Decompressed(Compressed(n) % TWO_64) % TWO_64 == n
  {
    hide Compressed, Decompressed;
    AmountRoundTrip(n);
  }

  /** Arithmetic is that of unsigned 64-bit integers. */
  method CompressAmount(n0: Uint64) returns (x: Uint64)
    ensures x == Compressed(n0) % TWO_64
  {
    if n0 == 0 {
      return 0;
    }
    var n: Uint64, e := n0, 0;
    while n % 10 == 0 && e < 9
      invariant n > 0 && e <= 9 && Strip(n, e) == Strip(n0, 0)
      decreases n
    {
      n := n / 10;
      e := e + 1;
    }
    StripFacts(n0, 0);
    if e < 9 {
      var d := n % 10;
      assert 1 <= d <= 9;
      n := n / 10;
      return (1 + (n * 9 + d - 1) * 10 + e) % TWO_64;
    } else {
      return (1 + (n - 1) * 10 + 9) % TWO_64;
    }
  }

  method DecompressAmount(x0: Uint64) returns (n: Uint64)
    ensures n == Decompressed(x0) % TWO_64
  {
    hide Scaled;
    if x0 == 0 {
      return 0;
    }
    var x: Uint64 := x0 - 1;
    var e := x % 10;
    x := x / 10;
    n := 0;
    if e < 9 {
      var d := x % 9 + 1;
      x := x / 9;
      n := x * 10 + d;
    } else {
      n := x + 1;
    }
    ghost var m, f := n, e;
    ScaledNone(m);
    DecompressedIs(x0, m, f);
    while e != 0
      invariant 0 <= e <= f && n == Scaled(m, f - e)
    {
      ScaledNext(m, f - e);
      n := n * 10 % TWO_64;
      e := e - 1;
    }
  }

  ghost function Scaled(m: nat, k: nat): nat {
    m * Pow(10, k) % TWO_64
  }

  lemma ScaledNone(m: Uint64)
    ensures Scaled(m, 0) == m
  {
    PowZeroTimes(m);
  }

  lemma ScaledNext(m: nat, k: nat)
    ensures Scaled(m, k + 1) == Scaled(m, k) * 10 % TWO_64
  {
    hide Pow;
    PowNext(10, k);
    TimesTen(m, Pow(10, k));
    StepModulo(m * Pow(10, k), 10, 0, TWO_64);
  }

  lemma DecompressedIs(x: nat, m: nat, e: nat)
    requires x > 0 && Unpacked(x) == (m, e)
    ensures Decompressed(x) % TWO_64 == Scaled(m, e)
  {
  }

  lemma TimesTen(m: nat, p: nat)
    ensures m * p * 10 == m * (10 * p)
  {
  }

  lemma PowZeroTimes(n: nat)
    ensures n * Pow(10, 0) == n
  {
  }

  // Scripts.

  const OP_RETURN: Byte := 0x6a
  const OP_DUP: Byte := 0x76
  const OP_EQUAL: Byte := 0x87
  const OP_EQUALVERIFY: Byte := 0x88
  const OP_HASH160: Byte := 0xa9
  const OP_CHECKSIG: Byte := 0xac
  const SPECIAL_SCRIPTS := 6
  const MAX_SCRIPT_SIZE := 10000

  type Script = seq<Byte>

  datatype Curve = Curve(valid: seq<Byte> -> bool, expand: seq<Byte> -> Option<seq<Byte>>)

  /** A valid key is recovered from its first coordinate and the parity of its second. */
  ghost predicate Sound(curve: Curve) {
    forall k: seq<Byte> | |k| == 65 && k[0] == 4 && curve.valid(k) ::
      curve.expand([2 + k[64] % 2] + k[1..33]) == Some(k)
  }

  predicate IsToKeyID(s: Script) {
    |s| == 25 && s[0] == OP_DUP && s[1] == OP_HASH160 && s[2] == 20 && s[23] == OP_EQUALVERIFY && s[24] == OP_CHECKSIG
  }

  predicate IsToScriptID(s: Script) {
    |s| == 23 && s[0] == OP_HASH160 && s[1] == 20 && s[22] == OP_EQUAL
  }

  predicate IsToShortKey(s: Script) {
    |s| == 35 && s[0] == 33 && s[34] == OP_CHECKSIG && (s[1] == 2 || s[1] == 3)
  }

  predicate IsToLongKey(curve: Curve, s: Script) {
    |s| == 67 && s[0] == 65 && s[66] == OP_CHECKSIG && s[1] == 4 && curve.valid(s[1..66])
  }

  function CompressScript(curve: Curve, s: Script): Option<seq<Byte>> {
    if IsToKeyID(s) then Some([0] + s[3..23])
    else if IsToScriptID(s) then Some([1] + s[2..22])
    else if IsToShortKey(s) then Some([s[1]] + s[2..34])
    else if IsToLongKey(curve, s) then Some([4 + s[65] % 2] + s[2..34])
    else None
  }

  function SpecialSize(n: nat): nat {
    if n == 0 || n == 1 then 20 else if 2 <= n <= 5 then 32 else 0
  }

  /** The script a special form stands for; it stays empty if the key cannot be recovered. */
  function DecompressScript(curve: Curve, n: nat, data: seq<Byte>): Script
    requires n < SPECIAL_SCRIPTS
  {
    if n == 0 then [OP_DUP, OP_HASH160, 20] + data + [OP_EQUALVERIFY, OP_CHECKSIG]
    else if n == 1 then [OP_HASH160, 20] + data + [OP_EQUAL]
    else if n <= 3 then [33, n] + data + [OP_CHECKSIG]
    else
      match curve.expand([n - 2] + data)
      case None => []
      case Some(k) => [65] + k + [OP_CHECKSIG]
  }

  function WriteScript(curve: Curve, s: Script): seq<Byte> {
    match CompressScript(curve, s)
    case Some(c) => c
    case None => VarInt.VarInt((|s| + SPECIAL_SCRIPTS) % TWO_32) + s
  }

  /** The size of a script, calculated without writing it. */
  method ScriptSize(curve: Curve, s: Script) returns (n: nat)
    ensures n == |WriteScript(curve, s)|
  {
    var compr := CompressScript(curve, s);
    if compr.Some? {
      return |compr.value|;
    }
    n := GetSizeOfVarInt((|s| + SPECIAL_SCRIPTS) % TWO_32);
    n := |s| + n;
  }

  function ReadScript(curve: Curve, stream: seq<Byte>): Option<(Script, seq<Byte>)> {
    match Read(32, stream)
    case None => None
    case Some((n, r)) =>
      if n < SPECIAL_SCRIPTS then
        var k := SpecialSize(n);
        if |r| < k then None else Some((DecompressScript(curve, n, r[..k]), r[k..]))
      else
        var m := n - SPECIAL_SCRIPTS;
        // The number of bytes to skip is a signed integer.
        if |r| < m || m >= 0x8000_0000 then None
        else if m > MAX_SCRIPT_SIZE then Some(([OP_RETURN], r[m..]))
        else Some((r[..m], r[m..]))
  }

  lemma SpecialRoundTrip(curve: Curve, s: Script)
    requires Sound(curve) && CompressScript(curve, s).Some?
    ensures var c := CompressScript(curve, s).value;
            && |c| > 0 && c[0] < SPECIAL_SCRIPTS && |c| == 1 + SpecialSize(c[0])
            && DecompressScript(curve, c[0], c[1..]) == s
  {
    var c := CompressScript(curve, s).value;
    if IsToKeyID(s) {
      assert s == [OP_DUP, OP_HASH160, 20] + s[3..23] + [OP_EQUALVERIFY, OP_CHECKSIG];
    } else if IsToScriptID(s) {
      assert s == [OP_HASH160, 20] + s[2..22] + [OP_EQUAL];
    } else if IsToShortKey(s) {
      assert s == [33, s[1]] + s[2..34] + [OP_CHECKSIG];
    } else {
      var k := s[1..66];
      SliceOfSlice(s, 1, 66, 1, 33);
      assert c[1..] == k[1..33] && c[0] - 2 == 2 + k[64] % 2;
      assert s == [65] + k + [OP_CHECKSIG];
    }
  }

  lemma SliceOfSlice(s: seq<Byte>, a: nat, b: nat, c: nat, d: nat)
    requires a <= b <= |s| && c <= d <= b - a
    ensures s[a..b][c..d] == s[a + c..a + d]
  {
    var t := s[a..b];
    forall i | 0 <= i < d - c ensures t[c..d][i] == s[a + c..a + d][i] {
      assert t[c + i] == s[a + (c + i)];
    }
  }

  /** Every script survives, except that one over the size limit comes back as a bare OP_RETURN. */
  lemma ScriptRoundTrip(curve: Curve, s: Script, rest: seq<Byte>)
    requires Sound(curve) && |s| <= MAX_SIZE
    ensures ReadScript(curve, WriteScript(curve, s) + rest)
         == Some((if |s| > 10000 then [OP_RETURN] else s, rest))
  {
    hide ReadFrom, VarInt.VarInt, DecompressScript, Sound, Pow;
    Widths();
    if CompressScript(curve, s).Some? {
      SpecialRoundTrip(curve, s);
      var c := CompressScript(curve, s).value;
      assert c + rest == [c[0]] + (c[1..] + rest);
      ReadByte(0, c[0], c[1..] + rest);
      assert c[0] % TWO_32 == c[0];
      assert (c[1..] + rest)[..SpecialSize(c[0])] == c[1..] && (c[1..] + rest)[SpecialSize(c[0])..] == rest;
    } else {
      var n := |s| + SPECIAL_SCRIPTS;
      assert WriteScript(curve, s) + rest == VarInt.VarInt(n) + (s + rest);
      ReadBack(32, n, s + rest);
      assert (s + rest)[..|s|] == s && (s + rest)[|s|..] == rest;
    }
  }
}
