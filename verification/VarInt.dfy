/**
  The variable-length integers of the database records: base 128 with a one-to-one
  twist.  They are read into integers of a fixed width, which wrap around.
 */
module VarInt {

  import opened Basics
  import opened Digits

  /** The bytes of `n`; all but the very last carry the continuation bit. */
  function Enc(n: nat, last: bool): seq<Byte> {
    (if n <= 127 then [] else Enc(n / 128 - 1, false)) + [n % 128 + if last then 0 else 128]
  }

  function VarInt(n: nat): seq<Byte> {
    Enc(n, true)
  }

  /** Read on from a partial value. */
  function ReadFrom(n: nat, s: seq<Byte>): Option<(nat, seq<Byte>)>
    decreases |s|
  {
    if s == [] then None
    else
      var m := n * 128 + s[0] % 128;
      if s[0] >= 128 then ReadFrom(m + 1, s[1..]) else Some((m, s[1..]))
  }

  lemma ReadByte(n: nat, b: Byte, s: seq<Byte>)
    ensures ReadFrom(n, [b] + s)
         == if b >= 128 then ReadFrom(n * 128 + b % 128 + 1, s) else Some((n * 128 + b % 128, s))
  {
    assert ([b] + s)[1..] == s;
  }

  lemma ReadNothing(n: nat)
    ensures ReadFrom(n, []) == None
  {
  }

  /** A prefix with the continuation bit stands for its value plus one. */
  lemma {:induction false} ReadHead(n: nat, s: seq<Byte>)
    ensures ReadFrom(0, Enc(n, false) + s) == ReadFrom(n + 1, s)
    decreases n
  {
    hide ReadFrom;
    var b: Byte := n % 128 + 128;
    if n <= 127 {
      EncLast(n, false);
      ReadByte(0, b, s);
    } else {
      EncNext(n, false, s);
      ReadHead(n / 128 - 1, [b] + s);
      ReadByte(n / 128, b, s);
    }
  }

  /** Reading undoes writing, whatever follows. */
  lemma RoundTrip(n: nat, s: seq<Byte>)
    ensures ReadFrom(0, VarInt(n) + s) == Some((n, s))
  {
    hide ReadFrom;
    var b: Byte := n % 128;
    if n <= 127 {
      EncLast(n, true);
      ReadByte(0, b, s);
    } else {
      EncNext(n, true, s);
      ReadHead(n / 128 - 1, [b] + s);
      ReadByte(n / 128, b, s);
    }
  }

  /** What has been read when the value so far is `n`: nothing, or a prefix of continuing bytes. */
  function Seen(n: nat): seq<Byte> {
    if n == 0 then [] else Enc(n - 1, false)
  }

  /** Of the numbers of any size there is no second way to write one: what was read is exactly its encoding. */
  lemma {:induction false} Canonical(n: nat, s: seq<Byte>)
    requires ReadFrom(n, s).Some?
    ensures var (m, rest) := ReadFrom(n, s).value;
            Seen(n) + s == VarInt(m) + rest
    decreases |s|
  {
    hide ReadFrom;
    ReadNothing(n);
    var b, t := s[0], s[1..];
    assert s == [b] + t;
    ReadByte(n, b, t);
    var m := n * 128 + b % 128;
    SeenNext(n, b, t);
    if b >= 128 {
      Canonical(m + 1, t);
    }
  }

  lemma SeenNext(n: nat, b: Byte, t: seq<Byte>)
    ensures var m := n * 128 + b % 128;
            Seen(n) + ([b] + t) == (if b >= 128 then Seen(m + 1) else VarInt(m)) + t
  {
    var m := n * 128 + b % 128;
    assert m / 128 == n && m % 128 == b % 128;
    assert Enc(m, b < 128) == Seen(n) + [b];
  }

  // Fixed widths.

  /** Read into an integer of `w` bits. */
  function Read(w: nat, s: seq<Byte>): Option<(nat, seq<Byte>)> {
    match ReadFrom(0, s)
    case None => None
    case Some((m, rest)) => Some((m % Pow(2, w), rest))
  }

  /** Reading undoes writing for the numbers of the width. */
  lemma ReadBack(w: nat, n: nat, s: seq<Byte>)
    requires n < Pow(2, w)
    ensures Read(w, VarInt(n) + s) == Some((n, s))
  {
    hide ReadFrom, VarInt, Pow;
    RoundTrip(n, s);
    QuotientOf(n, Pow(2, w), 0, n);
  }

  /** What was read is the encoding of the number returned exactly if the bytes stand for a number of the width. */
  lemma CanonicalIff(w: nat, s: seq<Byte>)
    requires ReadFrom(0, s).Some?
    ensures var (m, rest) := ReadFrom(0, s).value;
            Read(w, s) == Some((m % Pow(2, w), rest))
            && (s == VarInt(m % Pow(2, w)) + rest <==> m < Pow(2, w))
  {
    hide ReadFrom, VarInt, Pow;
    var (m, rest) := ReadFrom(0, s).value;
    Canonical(0, s);
    var n := m % Pow(2, w);
    if s == VarInt(n) + rest {
      RoundTrip(n, rest);
    }
    if m < Pow(2, w) {
      QuotientOf(m, Pow(2, w), 0, m);
    }
  }

  /** Zero has a second encoding, of ten bytes, among the 64-bit integers. */
  lemma SecondZero()
    ensures Read(64, VarInt(TWO_64)) == Some((0, [])) && VarInt(TWO_64) != VarInt(0)
  {
    hide ReadFrom, Pow;
    RoundTrip(TWO_64, []);
    assert VarInt(TWO_64) + [] == VarInt(TWO_64);
    Widths();
    assert |VarInt(TWO_64)| > 1;
  }

  lemma Widths()
    ensures Pow(2, 32) == TWO_32 && Pow(2, 64) == TWO_64
  {
    assert Pow(2, 8) == 256;
    PowDouble(2, 8, 256);
    PowDouble(2, 16, 65536);
    PowDouble(2, 32, TWO_32);
  }

  /** The bits shifted out at the top are lost. */
  method ReadVarInt(w: nat, s: seq<Byte>) returns (r: Option<(nat, seq<Byte>)>)
    ensures r == Read(w, s)
  {
    hide Pow;
    var n: nat := 0;
    ghost var m: nat := 0;
    var i := 0;
    assert s[0..] == s;
    QuotientOf(0, Pow(2, w), 0, 0);
    while true
      invariant i <= |s| && ReadFrom(m, s[i..]) == ReadFrom(0, s) && n == m % Pow(2, w)
      decreases |s| - i
    {
      if i == |s| {
        return None;
      }
      var ch := s[i];
      assert s[i..][1..] == s[i + 1..];
      i := i + 1;
      var more := if ch >= 128 then 1 else 0;
      StepModulo(m, 128, ch % 128 + more, Pow(2, w));
      m := m * 128 + ch % 128 + more;
      n := (n * 128 + (ch % 128 + more)) % Pow(2, w);
      if ch < 128 {
        return Some((n, s[i..]));
      }
    }
  }

  function Reversed(s: seq<Byte>): seq<Byte> {
    if s == [] then [] else Reversed(s[1..]) + [s[0]]
  }

  lemma {:induction false} ReversedAppend(s: seq<Byte>, b: Byte)
    ensures Reversed(s + [b]) == [b] + Reversed(s)
  {
    if s != [] {
      assert (s + [b])[1..] == s[1..] + [b];
      ReversedAppend(s[1..], b);
    }
  }

  lemma EncNext(n: nat, last: bool, tail: seq<Byte>)
    requires n > 127
    ensures Enc(n, last) + tail == Enc(n / 128 - 1, false) + ([n % 128 + if last then 0 else 128] + tail)
  {
  }

  /** A signed number below zero is cut to a single byte. */
  function Written(n: int): seq<Byte> {
    if n < 0 then [n % 128] else VarInt(n)
  }

  /** What a signed 32-bit number is read back as. */
  function Back(n: Int32): Int32 {
    if n < 0 then n % 128 else n
  }

  /** A signed number comes back exactly if it is not negative. */
  lemma SignedRoundTrip(n: Int32, s: seq<Byte>)
    ensures var r := Read(32, Written(n) + s);
            r.Some? && ToInt32(r.value.0) == Back(n) && r.value.1 == s
    ensures Back(n) == n <==> n >= 0
  {
    hide ReadFrom, Pow;
    Widths();
    if n < 0 {
      EncLast(n % 128, true);
      ReadBack(32, n % 128, s);
    } else {
      ReadBack(32, n, s);
    }
  }

  /** The buffer of (w + 6) / 7 bytes is never exceeded by a number of w bits. */
  method WriteVarInt(w: nat, n0: int) returns (out: seq<Byte>)
    requires w > 0 && n0 < Pow(2, w)
    ensures out == Written(n0) && |out| <= (w + 6) / 7
  {
    hide Enc, Pow, Reversed, Room;
    var tmp := new Byte[(w + 6) / 7](_ => 0);
    var n, len: nat := n0, 0;
    ReversedNone();
    assert tmp[..0] == [];
    RoomFirst(n, w);
    while true
      invariant len < tmp.Length && Room(n, len, w)
      invariant n0 < 0 ==> n == n0 && len == 0
      invariant n0 >= 0 ==> n >= 0 && Enc(n, len == 0) + Reversed(tmp[..len]) == Written(n0)
      decreases n
    {
      var b: Byte := n % 128 + if len == 0 then 0 else 128;
      tmp[len] := b;
      assert tmp[..len + 1] == tmp[..len] + [b];
      ReversedAppend(tmp[..len], b);
      if n <= 127 {
        if n >= 0 {
          EncLast(n, len == 0);
        } else {
          assert tmp[..len] == [];
        }
        break;
      }
      EncNext(n, len == 0, Reversed(tmp[..len]));
      NextFits(n, len, w);
      n := n / 128 - 1;
      len := len + 1;
    }
    assert Reversed(tmp[..len + 1]) == Written(n0);
    out := Emit(tmp, len);
  }

  /** The buffer is written out from its end. */
  method Emit(tmp: array<Byte>, len: nat) returns (out: seq<Byte>)
    requires len < tmp.Length
    ensures out == Reversed(tmp[..len + 1]) && |out| == len + 1
  {
    hide Reversed;
    out := [];
    var k := len + 1;
    ReversedNone();
    while k > 0
      invariant 0 <= k <= len + 1 && out + Reversed(tmp[..k]) == Reversed(tmp[..len + 1]) && |out| == len + 1 - k
    {
      k := k - 1;
      assert tmp[..k + 1] == tmp[..k] + [tmp[k]];
      ReversedAppend(tmp[..k], tmp[k]);
      out := out + [tmp[k]];
    }
    assert tmp[..0] == [];
  }

  lemma ReversedNone()
    ensures Reversed([]) == []
  {
  }

  lemma EncLast(n: nat, last: bool)
    requires n <= 127
    ensures Enc(n, last) == [n % 128 + if last then 0 else 128]
  {
  }

  /** What is left to write after `len` bytes fits the bits that are left. */
  ghost predicate Room(n: int, len: nat, w: nat) {
    n * Pow(128, len) < Pow(2, w)
  }

  lemma RoomFirst(n: int, w: nat)
    requires n < Pow(2, w)
    ensures Room(n, 0, w)
  {
  }

  lemma NextFits(n: nat, len: nat, w: nat)
    requires Room(n, len, w) && n > 127
    ensures len + 1 < (w + 6) / 7 && Room(n / 128 - 1, len + 1, w)
  {
    hide Pow;
    PowNext(128, len);
    var p := Pow(128, len);
    TimesMonotone(128, n, p, p);
    assert Pow(2, 7) == 128 by { PowSeven(); }
    PowPow(2, 7, len + 1);
    if w <= 7 * (len + 1) {
      PowGrows(2, w, 7 * (len + 1));
      assert false;
    }
    TimesMonotone((n / 128 - 1) * 128, n, p, p);
    assert (n / 128 - 1) * (128 * p) == (n / 128 - 1) * 128 * p;
  }

  lemma PowSeven()
    ensures Pow(2, 7) == 128
  {
  }

  method GetSizeOfVarInt(n0: int) returns (size: nat)
    ensures size == |Written(n0)|
  {
    size := 0;
    var n := n0;
    while true
      invariant n0 < 0 ==> n == n0 && size == 0
      invariant n0 >= 0 ==> n >= 0 && size + |Enc(n, size == 0)| == |Written(n0)|
      decreases n
    {
      size := size + 1;
      if n <= 127 {
        break;
      }
      n := n / 128 - 1;
    }
  }
}
