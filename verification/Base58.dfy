/** Base 58 strings, with and without a checksum. */
module Base58 {

  import opened Basics
  import opened Digits

  // The alphabet: letters and figures except 0, I, O and l.

  function Symbol(d: nat): char
    requires d < 58
  {
    if d < 9 then '1' + d as char
    else if d < 17 then 'A' + (d - 9) as char
    else if d < 22 then 'J' + (d - 17) as char
    else if d < 33 then 'P' + (d - 22) as char
    else if d < 44 then 'a' + (d - 33) as char
    else 'm' + (d - 44) as char
  }

  function DigitOf(c: char): (d: Option<nat>)
    ensures d.Some? ==> d.value < 58
  {
    if '1' <= c <= '9' then Some((c - '1') as nat)
    else if 'A' <= c <= 'H' then Some((c - 'A') as nat + 9)
    else if 'J' <= c <= 'N' then Some((c - 'J') as nat + 17)
    else if 'P' <= c <= 'Z' then Some((c - 'P') as nat + 22)
    else if 'a' <= c <= 'k' then Some((c - 'a') as nat + 33)
    else if 'm' <= c <= 'z' then Some((c - 'm') as nat + 44)
    else None
  }

  // The symbols in order: the figures and letters that cannot be mistaken for one another.

  lemma FiguresAndCapitals()
    ensures [Symbol(0), Symbol(1), Symbol(2), Symbol(3), Symbol(4), Symbol(5), Symbol(6)] == "1234567"
    ensures [Symbol(7), Symbol(8), Symbol(9), Symbol(10), Symbol(11), Symbol(12), Symbol(13)] == "89ABCDE"
    ensures [Symbol(14), Symbol(15), Symbol(16), Symbol(17), Symbol(18), Symbol(19), Symbol(20)] == "FGHJKLM"
    ensures [Symbol(21), Symbol(22), Symbol(23), Symbol(24), Symbol(25), Symbol(26), Symbol(27)] == "NPQRSTU"
    ensures [Symbol(28), Symbol(29), Symbol(30), Symbol(31), Symbol(32)] == "VWXYZ"
  {
  }

  lemma SmallLetters()
    ensures [Symbol(33), Symbol(34), Symbol(35), Symbol(36), Symbol(37), Symbol(38), Symbol(39)] == "abcdefg"
    ensures [Symbol(40), Symbol(41), Symbol(42), Symbol(43), Symbol(44), Symbol(45), Symbol(46)] == "hijkmno"
    ensures [Symbol(47), Symbol(48), Symbol(49), Symbol(50), Symbol(51), Symbol(52), Symbol(53)] == "pqrstuv"
    ensures [Symbol(54), Symbol(55), Symbol(56), Symbol(57)] == "wxyz"
  {
  }

  lemma SymbolDigit(d: nat)
    requires d < 58
    ensures DigitOf(Symbol(d)) == Some(d)
  {
  }

  lemma DigitSymbol(c: char)
    ensures DigitOf(c).Some? ==> Symbol(DigitOf(c).value) == c
  {
  }

  ghost predicate AllSymbols(s: string) {
    forall i | 0 <= i < |s| :: DigitOf(s[i]).Some?
  }

  ghost function DigitsOf(s: string): seq<nat>
    requires AllSymbols(s)
  {
    seq(|s|, i requires 0 <= i < |s| => DigitOf(s[i]).value)
  }

  /** The string stands for the bytes: as many leading zeros and the same number. */
  ghost predicate IsEncoding(v: seq<Byte>, s: string) {
    AllSymbols(s) && SameNumber(256, v, 58, DigitsOf(s))
  }

  lemma EncodingUnique(v: seq<Byte>, s: string, t: string)
    requires IsEncoding(v, s) && IsEncoding(v, t)
    ensures s == t
  {
    hide SameNumber;
    SameNumberChain(v, DigitsOf(s), DigitsOf(t));
    SameNumberUnique(58, DigitsOf(s), DigitsOf(t));
    forall i | 0 <= i < |s| ensures s[i] == t[i] {
      assert DigitsOf(s)[i] == DigitsOf(t)[i];
      DigitSymbol(s[i]);
      DigitSymbol(t[i]);
    }
  }

  lemma SameNumberChain(v: seq<Byte>, s: seq<nat>, t: seq<nat>)
    requires SameNumber(256, v, 58, s) && SameNumber(256, v, 58, t)
    ensures SameNumber(58, s, 58, t)
  {
  }

  lemma DecodingUnique(v: seq<Byte>, w: seq<Byte>, s: string)
    requires IsEncoding(v, s) && IsEncoding(w, s)
    ensures v == w
  {
    SameNumberUnique(256, v, w);
  }

  // Multiplying a digit buffer in place.

  function Total(carry: nat, mult: nat, d: nat): nat {
    carry + mult * d
  }

  function Kept(total: nat, base: nat): nat
    requires base > 0
  {
    total % base
  }

  function Carried(total: nat, base: nat): nat
    requires base > 0
  {
    total / base
  }

  lemma CarryStep(p: nat, base: nat, mult: nat, d: nat, carry: nat, low: nat, rest: nat, add: nat)
    requires base > 0 && low + carry * p == rest * mult + add
    ensures var c := Total(carry, mult, d);
            (Kept(c, base) * p + low) + Carried(c, base) * (base * p) == (d * p + rest) * mult + add
  {
    var c := carry + mult * d;
    var q, r := c / base, c % base;
    assert c == q * base + r;
    assert q * (base * p) == q * base * p;
    assert r * p + q * base * p == (q * base + r) * p;
    assert c * p == carry * p + mult * d * p;
    assert (d * p + rest) * mult == mult * d * p + rest * mult;
  }

  lemma KeptWithin(total: nat, base: nat)
    requires base > 0
    ensures Kept(total, base) < base
  {
  }

  /** The lowest `i` digits have been multiplied, leaving a carry. */
  ghost predicate Multiplied(base: nat, mult: nat, add: nat, was: seq<nat>, now: seq<nat>, i: nat, carry: nat) {
    && |now| == |was| && i <= |was| && Within(base, now)
    && now[..|was| - i] == was[..|was| - i]
    && Value(base, now[|was| - i..]) + carry * Pow(base, i) == Value(base, was[|was| - i..]) * mult + add
  }

  lemma MultipliedNext(base: nat, mult: nat, add: nat, was: seq<nat>, now: seq<nat>, i: nat, carry: nat)
    requires base > 0 && Multiplied(base, mult, add, was, now, i, carry) && i < |was|
    ensures var k := |was| - 1 - i;
            var c := Total(carry, mult, now[k]);
            Multiplied(base, mult, add, was, now[k := Kept(c, base)], i + 1, Carried(c, base))
  {
    hide Pow, Value, Total, Kept, Carried;
    var k := |was| - 1 - i;
    assert now[k] == now[..|was| - i][k] == was[k];
    var c := Total(carry, mult, now[k]);
    KeptWithin(c, base);
    var next := now[k := Kept(c, base)];
    assert next[k..] == [Kept(c, base)] + now[k + 1..] && was[k..] == [was[k]] + was[k + 1..];
    ValuePrepend(base, Kept(c, base), now[k + 1..]);
    ValuePrepend(base, was[k], was[k + 1..]);
    PowNext(base, i);
    CarryStep(Pow(base, i), base, mult, was[k], carry, Value(base, now[k + 1..]), Value(base, was[k + 1..]), add);
    assert next[..k] == now[..|was| - i][..k] == was[..k];
  }

  /** Once the rest of the buffer is zero, or all of it is done, nothing is carried out. */
  lemma MultipliedAll(base: nat, mult: nat, add: nat, was: seq<nat>, now: seq<nat>, i: nat, carry: nat)
    requires base > 0 && Multiplied(base, mult, add, was, now, i, carry)
    requires Value(base, was) * mult + add < Pow(base, |was|)
    requires i == |was| || (carry == 0 && forall k | 0 <= k < |was| - i :: was[k] == 0)
    ensures carry == 0 && Value(base, now) == Value(base, was) * mult + add
    ensures forall k | 0 <= k < |was| - i :: now[k] == 0
  {
    hide Pow, Value;
    var total := Value(base, was) * mult + add;
    if i == |was| {
      assert now[0..] == now && was[0..] == was;
      NoCarry(Value(base, now), carry, Pow(base, i), total);
    } else {
      forall k | 0 <= k < |was| - i ensures now[k] == 0 {
        assert now[..|was| - i][k] == was[..|was| - i][k];
      }
      DropZeros(base, now, |was| - i);
      DropZeros(base, was, |was| - i);
    }
  }

  lemma NoCarry(v: nat, carry: nat, p: nat, total: nat)
    requires v + carry * p == total < p
    ensures carry == 0 && v == total
  {
    assert carry >= 1 ==> carry * p >= p;
  }

  /**
    Multiply the number in the buffer and add a digit, working from the last digit
    and stopping as soon as `length` digits are done and nothing is carried.
   */
  method MultiplyAdd(a: array<nat>, base: nat, mult: nat, add: nat, length: nat) returns (i: nat)
    requires base > 0 && Within(base, a[..]) && length <= a.Length
    requires forall k | 0 <= k < a.Length - length :: a[k] == 0
    requires Value(base, a[..]) * mult + add < Pow(base, a.Length)
    modifies a
    ensures Within(base, a[..]) && length <= i <= a.Length
    ensures Value(base, a[..]) == Value(base, old(a[..])) * mult + add
    ensures forall k | 0 <= k < a.Length - i :: a[k] == 0
  {
    hide Pow, Value, Multiplied, Total, Kept, Carried;
    ghost var was := a[..];
    var carry: nat := add;
    i := 0;
    MultipliedNone(base, mult, add, was);
    while (carry != 0 || i < length) && i < a.Length
      invariant i <= a.Length && Multiplied(base, mult, add, was, a[..], i, carry)
      decreases a.Length - i
    {
      MultipliedNext(base, mult, add, was, a[..], i, carry);
      carry := Total(carry, mult, a[a.Length - 1 - i]);
      a[a.Length - 1 - i] := Kept(carry, base);
      carry := Carried(carry, base);
      i := i + 1;
    }
    MultipliedAll(base, mult, add, was, a[..], i, carry);
    MultipliedWithin(base, mult, add, was, a[..], i, carry);
    assert carry == 0;
  }

  lemma MultipliedNone(base: nat, mult: nat, add: nat, was: seq<nat>)
    requires Within(base, was)
    ensures Multiplied(base, mult, add, was, was, 0, add)
  {
    assert was[|was|..] == [];
  }

  lemma MultipliedWithin(base: nat, mult: nat, add: nat, was: seq<nat>, now: seq<nat>, i: nat, carry: nat)
    requires Multiplied(base, mult, add, was, now, i, carry)
    ensures Within(base, now)
  {
  }

  // Encoding.

  /** As many base 58 digits as the buffer has room for are enough. */
  lemma EncodeFits(n: nat)
    ensures Pow(256, n) <= Pow(58, n * 138 / 100 + 1)
  {
    EncodeRatio();
    RatioBound(256, 58, 8, 11, n, n * 138 / 100 + 1);
  }

  lemma DecodeFits(n: nat)
    ensures Pow(58, n) <= Pow(256, n * 733 / 1000 + 1)
  {
    hide Pow;
    DecodeRatio();
    assert 1000 * (n * 733 / 1000) + 1000 > n * 733;
    RatioBound(58, 256, 71, 52, n, n * 733 / 1000 + 1);
  }

  /** The number after the next digit still fits the buffer. */
  lemma RoomForNext(b: nat, s: seq<nat>, k: nat, c: nat, size: nat)
    requires k < |s| && Within(b, s) && b > 0 && Pow(b, |s|) <= Pow(c, size)
    ensures s[..k + 1] == s[..k] + [s[k]] && Value(b, s[..k + 1]) == Value(b, s[..k]) * b + s[k] < Pow(c, size)
  {
    hide Pow, Value;
    assert s[..k + 1] == s[..k] + [s[k]];
    ValueAppend(b, s[..k], s[k]);
    ValueBound(b, s[..k + 1]);
    PowGrows(b, k + 1, |s|);
  }

  method EncodeBase58(v: seq<Byte>) returns (str: string)
    ensures IsEncoding(v, str)
  {
    hide Pow, Value;
    var zeroes := 0;
    while zeroes < |v| && v[zeroes] == 0
      invariant zeroes <= |v| && forall i | 0 <= i < zeroes :: v[i] == 0
    {
      zeroes := zeroes + 1;
    }
    ghost var rest: seq<nat> := v[zeroes..];
    var size := (|v| - zeroes) * 138 / 100 + 1;
    var b58 := new nat[size](_ => 0);
    var length := 0;
    EncodeFits(|rest|);
    AllZero(58, b58[..]);
    AllZero(256, rest[..0]);
    for k := 0 to |v| - zeroes
      invariant fresh(b58) && b58.Length == size && Within(58, b58[..]) && length <= size
      invariant Value(58, b58[..]) == Value(256, rest[..k])
      invariant forall i | 0 <= i < size - length :: b58[i] == 0
    {
      RoomForNext(256, rest, k, 58, size);
      length := MultiplyAdd(b58, 58, 256, v[zeroes + k], length);
    }
    assert rest[..|rest|] == rest;
    DropZeros(256, v, zeroes);
    var it := size - length;
    while it < size && b58[it] == 0
      invariant it <= size && forall i | 0 <= i < it :: b58[i] == 0
    {
      it := it + 1;
    }
    DropZeros(58, b58[..], it);
    str := Spell(zeroes, b58[it..]);
    Spelled(v, zeroes, b58[it..], str);
  }

  lemma AllZero(b: nat, s: seq<nat>)
    requires forall i | 0 <= i < |s| :: s[i] == 0
    ensures Value(b, s) == 0
  {
    DropZeros(b, s, |s|);
  }

  /** Ones for the leading zeros, then a symbol for each digit. */
  method Spell(zeroes: nat, digits: seq<nat>) returns (str: string)
    requires Within(58, digits)
    ensures |str| == zeroes + |digits|
    ensures forall i | 0 <= i < zeroes :: str[i] == '1'
    ensures forall i | 0 <= i < |digits| :: str[zeroes + i] == Symbol(digits[i])
  {
    hide Symbol;
    str := seq(zeroes, _ => '1');
    for k := 0 to |digits|
      invariant |str| == zeroes + k
      invariant forall i | 0 <= i < zeroes :: str[i] == '1'
      invariant forall i | 0 <= i < k :: str[zeroes + i] == Symbol(digits[i])
    {
      str := str + [Symbol(digits[k])];
    }
  }

  lemma Spelled(v: seq<Byte>, zeroes: nat, digits: seq<nat>, str: string)
    requires Within(58, digits) && (digits != [] ==> digits[0] != 0) && zeroes <= |v|
    requires (forall i | 0 <= i < zeroes :: v[i] == 0) && (zeroes < |v| ==> v[zeroes] != 0)
    requires Value(256, v) == Value(58, digits)
    requires |str| == zeroes + |digits| && forall i | 0 <= i < zeroes :: str[i] == '1'
    requires forall i | 0 <= i < |digits| :: str[zeroes + i] == Symbol(digits[i])
    ensures IsEncoding(v, str)
  {
    hide Pow, Value, Symbol, DigitOf;
    OneIsZero();
    forall i | 0 <= i < |str|
      ensures DigitOf(str[i]) == Some(if i < zeroes then 0 else digits[i - zeroes])
    {
      if i >= zeroes {
        SymbolDigit(digits[i - zeroes]);
        assert str[zeroes + (i - zeroes)] == Symbol(digits[i - zeroes]);
      }
    }
    var d := DigitsOf(str);
    assert d[zeroes..] == digits;
    DropZeros(58, d, zeroes);
    ZerosAre(d, zeroes);
    ZerosAre(v, zeroes);
  }

  lemma OneIsZero()
    ensures DigitOf('1') == Some(0)
  {
  }

  lemma {:induction false} ZerosAre(s: seq<nat>, z: nat)
    requires z <= |s| && (forall i | 0 <= i < z :: s[i] == 0) && (z < |s| ==> s[z] != 0)
    ensures Zeros(s) == z
  {
    if z > 0 {
      ZerosAre(s[1..], z - 1);
    }
  }

  // Decoding.

  predicate IsSpace(c: char) {
    c == ' ' || '\t' <= c <= '\r'
  }

  /** The number of leading spaces. */
  ghost function Lead(s: string): (n: nat)
    ensures n <= |s| && (n < |s| ==> !IsSpace(s[n])) && forall i | 0 <= i < n :: IsSpace(s[i])
  {
    if s == [] || !IsSpace(s[0]) then 0 else 1 + Lead(s[1..])
  }

  /** The length without trailing spaces. */
  ghost function Body(s: string): (n: nat)
    ensures n <= |s| && (n > 0 ==> !IsSpace(s[n - 1])) && forall i | n <= i < |s| :: IsSpace(s[i])
  {
    if s == [] || !IsSpace(s[|s| - 1]) then |s| else Body(s[..|s| - 1])
  }

  /** The string without the spaces around it. */
  ghost function Strip(s: string): string {
    s[Lead(s)..][..Body(s[Lead(s)..])]
  }

  lemma SpaceIsNoSymbol(c: char)
    ensures IsSpace(c) ==> DigitOf(c).None?
  {
  }

  /** Apply one symbol after the other to the buffer, up to the first space, the end, or a bad character. */
  method ReadDigits(s: string, start: nat) returns (ok: bool, p: nat, b256: array<nat>)
    requires start <= |s|
    ensures start <= p <= |s| && fresh(b256)
    ensures ok ==> (p < |s| ==> IsSpace(s[p])) && AllSymbols(s[start..p]) && Within(256, b256[..])
    ensures ok ==> Value(256, b256[..]) == Value(58, DigitsOf(s[start..p]))
    ensures !ok ==> p < |s| && !IsSpace(s[p]) && DigitOf(s[p]).None?
  {
    hide Pow, Value, DigitOf, IsSpace;
    b256 := new nat[(|s| - start) * 733 / 1000 + 1](_ => 0);
    DecodeFits(|s| - start);
    AllZero(256, b256[..]);
    AllZero(58, DigitsOf(s[start..start]));
    p := start;
    while p < |s| && !IsSpace(s[p])
      invariant start <= p <= |s| && AllSymbols(s[start..p]) && Within(256, b256[..])
      invariant Value(256, b256[..]) == Value(58, DigitsOf(s[start..p]))
    {
      var d := DigitOf(s[p]);
      if d.None? {
        return false, p, b256;
      }
      ReadNext(s, start, p, b256.Length);
      var _ := MultiplyAdd(b256, 256, 58, d.value, b256.Length);
      p := p + 1;
    }
    return true, p, b256;
  }

  lemma ReadNext(s: string, start: nat, p: nat, size: nat)
    requires start <= p < |s| && AllSymbols(s[start..p]) && DigitOf(s[p]).Some?
    requires Pow(58, |s| - start) <= Pow(256, size)
    ensures AllSymbols(s[start..p + 1])
    ensures Value(58, DigitsOf(s[start..p + 1]))
         == Value(58, DigitsOf(s[start..p])) * 58 + DigitOf(s[p]).value < Pow(256, size)
  {
    hide Pow, Value, DigitOf;
    assert s[start..p + 1] == s[start..p] + [s[p]];
    var d := DigitsOf(s[start..p + 1]);
    assert d == DigitsOf(s[start..p]) + [DigitOf(s[p]).value];
    ValueAppend(58, DigitsOf(s[start..p]), DigitOf(s[p]).value);
    SymbolsWithin(s[start..p + 1]);
    ValueBound(58, d);
    PowGrows(58, p + 1 - start, |s| - start);
  }

  lemma SymbolsWithin(s: string)
    requires AllSymbols(s)
    ensures Within(58, DigitsOf(s))
  {
    hide DigitOf;
  }

  lemma {:induction false} LeadIs(s: string, n: nat)
    requires n <= |s| && (n < |s| ==> !IsSpace(s[n])) && forall i | 0 <= i < n :: IsSpace(s[i])
    ensures Lead(s) == n
  {
    hide IsSpace;
    if n > 0 {
      LeadIs(s[1..], n - 1);
    }
  }

  /** Where the digits end and only spaces follow, the stripped string ends. */
  lemma StripIs(s: string, start: nat, p: nat)
    requires start == Lead(s) && start <= p <= |s| && (forall i | p <= i < |s| :: IsSpace(s[i]))
    requires forall i | start <= i < p :: !IsSpace(s[i])
    ensures Strip(s) == s[start..p]
  {
    hide IsSpace, Body, Lead;
    var t, n := s[start..], p - start;
    forall i | 0 <= i < |t| ensures t[i] == s[start + i] {
    }
    BodyIs(t, n);
    assert t[..n] == s[start..p];
  }

  lemma {:induction false} BodyIs(s: string, n: nat)
    requires n <= |s| && (n > 0 ==> !IsSpace(s[n - 1])) && forall i | n <= i < |s| :: IsSpace(s[i])
    ensures Body(s) == n
  {
    hide IsSpace;
    if n < |s| {
      BodyIs(s[..|s| - 1], n);
    }
  }

  /** Anything that is followed by something other than a space is kept. */
  lemma StripKeeps(s: string, i: nat, j: nat)
    requires Lead(s) <= i <= j < |s| && !IsSpace(s[j])
    ensures s[i] in Strip(s)
  {
    hide IsSpace;
    var start := Lead(s);
    var t := s[start..];
    assert t[j - start] == s[j];
    assert Strip(s)[i - start] == s[i];
  }

  lemma BadSymbol(s: string, i: nat, j: nat)
    requires Lead(s) <= i <= j < |s| && !IsSpace(s[j]) && DigitOf(s[i]).None?
    ensures !AllSymbols(Strip(s))
  {
    hide IsSpace, DigitOf;
    StripKeeps(s, i, j);
  }

  /** The bytes of a string, or none if it has anything but symbols between the spaces around it. */
  method DecodeBase58(s: string) returns (r: Option<seq<Byte>>)
    ensures r.Some? ==> IsEncoding(r.value, Strip(s))
    ensures r.None? ==> !AllSymbols(Strip(s))
  {
    hide Pow, Value, DigitOf, IsSpace, Strip, SameNumber;
    var start := 0;
    while start < |s| && IsSpace(s[start])
      invariant start <= |s| && forall i | 0 <= i < start :: IsSpace(s[i])
    {
      start := start + 1;
    }
    LeadIs(s, start);
    var zeroes := 0;
    while start + zeroes < |s| && s[start + zeroes] == '1'
      invariant start + zeroes <= |s| && forall i | start <= i < start + zeroes :: s[i] == '1'
    {
      zeroes := zeroes + 1;
    }
    var ok, p, b256 := ReadDigits(s, start + zeroes);
    if !ok {
      BadSymbol(s, p, p);
      return None;
    }
    var q := p;
    while q < |s| && IsSpace(s[q])
      invariant p <= q <= |s| && forall i | p <= i < q :: IsSpace(s[i])
    {
      q := q + 1;
    }
    if q != |s| {
      SpaceIsNoSymbol(s[p]);
      BadSymbol(s, p, q);
      return None;
    }
    SymbolsAreNoSpaces(s, start, zeroes, p);
    StripIs(s, start, p);
    var it := 0;
    while it < b256.Length && b256[it] == 0
      invariant it <= b256.Length && forall i | 0 <= i < it :: b256[i] == 0
    {
      it := it + 1;
    }
    var v: seq<Byte> := seq(zeroes, _ => 0);
    ghost var all := b256[..];
    for k := it to b256.Length
      invariant it <= k && b256[..] == all && v == seq(zeroes, _ => 0) + all[it..k]
    {
      v := v + [b256[k]];
    }
    DropZeros(256, all, it);
    assert all[it..b256.Length] == all[it..];
    Assembled(s, start, zeroes, p, all[it..], v);
    return Some(v);
  }

  lemma SymbolsAreNoSpaces(s: string, start: nat, zeroes: nat, p: nat)
    requires start + zeroes <= p <= |s| && (forall i | start <= i < start + zeroes :: s[i] == '1')
    requires AllSymbols(s[start + zeroes..p])
    ensures forall i | start <= i < p :: !IsSpace(s[i]) && DigitOf(s[i]).Some?
  {
    hide IsSpace, DigitOf;
    OneIsZero();
    forall i | start <= i < p ensures !IsSpace(s[i]) && DigitOf(s[i]).Some? {
      SpaceIsNoSymbol(s[i]);
      if i >= start + zeroes {
        assert s[i] == s[start + zeroes..p][i - start - zeroes];
      }
    }
  }

  lemma Assembled(s: string, start: nat, zeroes: nat, p: nat, rest: seq<nat>, v: seq<Byte>)
    requires start + zeroes <= p <= |s| && (forall i | start <= i < start + zeroes :: s[i] == '1')
    requires AllSymbols(s[start + zeroes..p]) && (start + zeroes < |s| ==> s[start + zeroes] != '1')
    requires Within(256, rest) && (rest != [] ==> rest[0] != 0)
    requires Value(256, rest) == Value(58, DigitsOf(s[start + zeroes..p]))
    requires v == seq(zeroes, _ => 0) + rest
    ensures IsEncoding(v, s[start..p])
  {
    hide Pow, Value, DigitOf, IsSpace;
    SymbolsAreNoSpaces(s, start, zeroes, p);
    OneIsZero();
    var d := DigitsOf(s[start..p]);
    assert d[zeroes..] == DigitsOf(s[start + zeroes..p]);
    DropZeros(58, d, zeroes);
    assert v[zeroes..] == rest;
    DropZeros(256, v, zeroes);
    if start + zeroes < p {
      NotOne(s[start + zeroes]);
    }
    ZerosAre(d, zeroes);
    ZerosAre(v, zeroes);
    SymbolsWithin(s[start..p]);
  }

  lemma NotOne(c: char)
    requires DigitOf(c).Some? && c != '1'
    ensures DigitOf(c) != Some(0)
  {
  }

  lemma StripSymbols(s: string)
    requires AllSymbols(s)
    ensures Strip(s) == s
  {
    hide IsSpace, DigitOf;
    forall i | 0 <= i < |s| ensures !IsSpace(s[i]) {
      SpaceIsNoSymbol(s[i]);
    }
    LeadIs(s, 0);
    StripIs(s, 0, |s|);
  }

  /** Every byte string survives. */
  method ThereAndBack(v: seq<Byte>) returns (r: Option<seq<Byte>>)
    ensures r == Some(v)
  {
    hide SameNumber, Strip;
    var s := EncodeBase58(v);
    StripSymbols(s);
    r := DecodeBase58(s);
    DecodingUnique(v, r.value, s);
  }

  /** Every accepted string is reproduced, without the spaces around it. */
  method BackAndThere(s: string) returns (t: Option<string>)
    ensures t.Some? ==> t.value == Strip(s)
    ensures t.Some? <==> AllSymbols(Strip(s))
  {
    hide SameNumber, Strip;
    var r := DecodeBase58(s);
    if r.None? {
      return None;
    }
    var u := EncodeBase58(r.value);
    EncodingUnique(r.value, u, Strip(s));
    return Some(u);
  }

  // With a checksum of four bytes.

  ghost predicate IsHash(hash: seq<Byte> -> seq<Byte>) {
    forall v :: |hash(v)| == 32
  }

  method EncodeBase58Check(v: seq<Byte>, hash: seq<Byte> -> seq<Byte>) returns (s: string)
    requires IsHash(hash)
    ensures IsEncoding(v + hash(v)[..4], s)
  {
    s := EncodeBase58(v + hash(v)[..4]);
  }

  /** Accepted exactly if the string is, up to spaces around it, the encoding of bytes with their checksum. */
  method DecodeBase58Check(s: string, hash: seq<Byte> -> seq<Byte>) returns (r: Option<seq<Byte>>)
    requires IsHash(hash)
    ensures r.Some? ==> IsEncoding(r.value + hash(r.value)[..4], Strip(s))
    ensures r.None? ==> forall v :: !IsEncoding(v + hash(v)[..4], Strip(s))
  {
    hide SameNumber, Strip;
    var d := DecodeBase58(s);
    if d.None? {
      return None;
    }
    var w := d.value;
    forall v | IsEncoding(v + hash(v)[..4], Strip(s))
      ensures |w| >= 4 && w[..|w| - 4] == v && w[|w| - 4..] == hash(v)[..4]
    {
      DecodingUnique(w, v + hash(v)[..4], Strip(s));
    }
    if |w| < 4 {
      return None;
    }
    var v := w[..|w| - 4];
    if hash(v)[..4] != w[|w| - 4..] {
      return None;
    }
    assert w == v + hash(v)[..4];
    return Some(v);
  }
}
