/** The documented examples of variable-length integers and of database records. */
module RecordExamples {

  import opened Basics
  import opened Digits
  import opened VarInt
  import opened OutputCodec
  import opened CoinTypes
  import opened CoinsCodec

  // What a byte sequence encodes, as documented.

  /** sum(i = 1..n, 128^i * (a[len - i - 1] % 128 + 1)) */
  function Higher(a: seq<Byte>, n: nat): nat
    requires n < |a|
  {
    if n == 0 then 0 else Higher(a, n - 1) + Pow(128, n) * (a[|a| - n - 1] % 128 + 1)
  }

  function Encoded(a: seq<Byte>): nat
    requires a != []
  {
    a[|a| - 1] % 128 + Higher(a, |a| - 1)
  }

  /** One more digit at the end moves all others up. */
  lemma {:induction false} HigherAppend(a: seq<Byte>, d: Byte, n: nat)
    requires n < |a|
    ensures Higher(a + [d], n + 1) == 128 * (a[|a| - 1] % 128 + 1) + 128 * Higher(a, n)
  {
    hide Pow;
    var b := a + [d];
    assert b[|b| - (n + 1) - 1] == a[|a| - n - 1];
    PowNext(128, n);
    if n == 0 {
      assert Pow(128, 0) == 1 by {
        PowZero();
      }
      assert Higher(b, 1) == Higher(b, 0) + Pow(128, 1) * (a[|a| - 1] % 128 + 1);
    } else {
      HigherAppend(a, d, n - 1);
      var x := a[|a| - n - 1] % 128 + 1;
      Associate(128, Pow(128, n), x);
      assert 128 * (Higher(a, n - 1) + Pow(128, n) * x) == 128 * Higher(a, n - 1) + 128 * (Pow(128, n) * x);
    }
  }

  lemma PowZero()
    ensures Pow(128, 0) == 1
  {
  }

  lemma First(d: nat, last: bool)
    requires d < 128
    ensures Enc(d, last) == [d + if last then 0 else 128]
  {
  }

  lemma Next(m: nat, d: nat, last: bool)
    requires d < 128
    ensures Enc(128 * (m + 1) + d, last) == Enc(m, false) + [d + if last then 0 else 128]
  {
  }

  lemma EncodedAppend(a: seq<Byte>, d: Byte)
    requires a != []
    ensures Encoded(a + [d]) == 128 * (Encoded(a) + 1) + d % 128
  {
    hide Higher;
    HigherAppend(a, d, |a| - 1);
  }

  /** The encoding of a number encodes it. */
  lemma {:induction false} EncodedIs(n: nat, last: bool)
    ensures Enc(n, last) != [] && Encoded(Enc(n, last)) == n
    decreases n
  {
    hide Enc, Encoded;
    if n <= 127 {
      First(n, last);
      EncodedOne(n + if last then 0 else 128);
    } else {
      var m, d := n / 128 - 1, n % 128;
      EncodedIs(m, false);
      Next(m, d, last);
      EncodedAppend(Enc(m, false), d + if last then 0 else 128);
    }
  }

  lemma EncodedOne(d: Byte)
    ensures Encoded([d]) == d % 128
  {
  }

  lemma Integers()
    ensures VarInt.VarInt(0) == [0x00] && VarInt.VarInt(1) == [0x01] && VarInt.VarInt(127) == [0x7f]
    ensures VarInt.VarInt(128) == [0x80, 0x00] && VarInt.VarInt(255) == [0x80, 0x7f]
    ensures VarInt.VarInt(256) == [0x81, 0x00] && VarInt.VarInt(16383) == [0xfe, 0x7f]
    ensures VarInt.VarInt(16384) == [0xff, 0x00] && VarInt.VarInt(16511) == [0xff, 0x7f]
  {
    hide Enc;
    First(0, true);
    First(1, true);
    First(127, true);
    First(0, false);
    Next(0, 0, true);
    Next(0, 127, true);
    First(1, false);
    Next(1, 0, true);
    First(126, false);
    Next(126, 127, true);
    First(127, false);
    Next(127, 0, true);
    Next(127, 127, true);
  }

  lemma LargeIntegers()
    ensures VarInt.VarInt(65535) == [0x82, 0xfe, 0x7f]
    ensures VarInt.VarInt(TWO_32) == [0x8e, 0xfe, 0xfe, 0xff, 0x00]
  {
    hide Enc;
    First(2, false);
    Next(2, 126, false);
    Next(510, 127, true);
    First(14, false);
    Next(14, 126, false);
    Next(2046, 126, false);
    Next(262142, 127, false);
    Next(33554431, 0, true);
  }

  lemma Sizes(n: nat)
    ensures |VarInt.VarInt(n)| == 1 <==> n <= 127
    ensures |VarInt.VarInt(n)| == 2 <==> 128 <= n <= 16511
    ensures |VarInt.VarInt(n)| == 3 <==> 16512 <= n <= 2113663
  {
    if n > 127 {
      SizeNext(n, true);
      var m := n / 128 - 1;
      if m > 127 {
        SizeNext(m, false);
        if m / 128 - 1 > 127 {
          SizeNext(m / 128 - 1, false);
        }
      }
    }
  }

  lemma SizeNext(n: nat, last: bool)
    requires n > 127
    ensures |Enc(n, last)| == |Enc(n / 128 - 1, false)| + 1 && |Enc(n / 128 - 1, false)| > 0
  {
  }

  // Records.

  function PayToKey(hash: seq<Byte>): Script {
    [OP_DUP, OP_HASH160, 20] + hash + [OP_EQUALVERIFY, OP_CHECKSIG]
  }

  lemma KeyWritten(curve: Curve, hash: seq<Byte>)
    requires |hash| == 20
    ensures WriteScript(curve, PayToKey(hash)) == [0x00] + hash
  {
    var s := PayToKey(hash);
    assert s[3..23] == hash;
  }

  lemma Amounts()
    ensures Compressed(60000000000) == 600 && Compressed(234925952) == 2114333561 && Compressed(110397) == 993571
  {
    CompressedRound(60);
  }

  lemma Numbers()
    ensures VarInt.VarInt(600) == [0x83, 0x58] && VarInt.VarInt(203998) == [0x8b, 0xb8, 0x5e]
    ensures VarInt.VarInt(993571) == [0xbb, 0xd1, 0x23] && VarInt.VarInt(120891) == [0x86, 0xaf, 0x3b]
    ensures VarInt.VarInt(2114333561) == [0x86, 0xef, 0x97, 0xd5, 0x79]
  {
    hide Enc;
    First(3, false);
    Next(3, 88, true);
    First(11, false);
    Next(11, 56, false);
    Next(1592, 94, true);
    First(59, false);
    Next(59, 81, false);
    Next(7761, 35, true);
    First(6, false);
    Next(6, 47, false);
    Next(943, 59, true);
    Next(6, 111, false);
    Next(1007, 23, false);
    Next(129047, 85, false);
    Next(16518229, 121, true);
  }

  lemma SmallNumber(n: Byte)
    requires n < 128
    ensures VarInt.VarInt(n) == [n] && Written(n) == [n]
  {
  }

  lemma OutWritten(curve: Curve, hash: seq<Byte>, value: Int64, x: nat)
    requires |hash| == 20 && value >= 0 && Compressed(value) == x < TWO_64
    ensures WriteOut(curve, Out(value, PayToKey(hash))) == VarInt.VarInt(x) + ([0x00] + hash)
  {
    hide Compressed, VarInt.VarInt;
    KeyWritten(curve, hash);
    assert value % TWO_64 == value && x % TWO_64 == x;
  }

  /** The parts of a record of version 1. */
  lemma RecordParts(curve: Curve, c: Coins, size: nat, nonZero: nat, code: Byte)
    requires !IsPruned(c) && IsMaskSize(c.vout, size) && c.version == 1 && c.height >= 0
    requires nonZero == NonZero(c.vout, 0, size) && code < 128
    requires Avail(c.vout, 0) || Avail(c.vout, 1) || nonZero > 0
    requires code == Code(c.coinBase, Avail(c.vout, 0), Avail(c.vout, 1), nonZero)
    ensures IsRecord(curve, c, [0x01, code] + Mask(c.vout, 0, size) + Outs(curve, c.vout, 0) + VarInt.VarInt(c.height))
  {
    hide Mask, Outs, VarInt.VarInt, Avail, NonZero, IsMaskSize, IsPruned;
    SmallNumber(1);
    SmallNumber(code);
    var m, o, h := Mask(c.vout, 0, size), Outs(curve, c.vout, 0), VarInt.VarInt(c.height);
    assert Record(curve, c, size) == [0x01] + ([code] + (m + (o + h)));
    assert [0x01] + ([code] + (m + (o + h))) == [0x01, code] + m + o + h;
  }

  /** Version 1, height 203998, the second of two outputs left: 600 coins for a key. */
  lemma FirstRecord(curve: Curve, hash: seq<Byte>)
    requires |hash| == 20
    ensures var c := Coins(false, [Null, Out(60000000000, PayToKey(hash))], 203998, 1);
            IsRecord(curve, c, [0x01, 0x04, 0x83, 0x58, 0x00] + hash + [0x8b, 0xb8, 0x5e])
  {
    hide VarInt.VarInt, Compressed, WriteOut, WriteScript, PayToKey, Record;
    var c := Coins(false, [Null, Out(60000000000, PayToKey(hash))], 203998, 1);
    Amounts();
    Numbers();
    OutWritten(curve, hash, 60000000000, 600);
    assert Avail(c.vout, 1) && !Avail(c.vout, 0);
    RecordParts(curve, c, 0, 0, 4);
    LastOut(curve, c.vout, 1);
    assert Outs(curve, c.vout, 0) == [] + Outs(curve, c.vout, 1);
    assert [0x01, 0x04] + [] + ([0x83, 0x58] + ([0x00] + hash)) + [0x8b, 0xb8, 0x5e]
        == [0x01, 0x04, 0x83, 0x58, 0x00] + hash + [0x8b, 0xb8, 0x5e];
  }

  lemma LastOut(curve: Curve, vout: seq<TxOut>, i: nat)
    requires |vout| == i + 1 && vout[i].Out?
    ensures Outs(curve, vout, i) == WriteOut(curve, vout[i])
  {
    assert Outs(curve, vout, i + 1) == [];
  }

  lemma {:induction false} NoOuts(curve: Curve, vout: seq<TxOut>, i: nat, j: nat)
    requires i <= j <= |vout| && forall k | i <= k < j :: vout[k].Null?
    ensures Outs(curve, vout, i) == Outs(curve, vout, j)
    decreases j - i
  {
    if i < j {
      NoOuts(curve, vout, i + 1, j);
      assert Outs(curve, vout, i) == [] + Outs(curve, vout, i + 1);
    }
  }

  /** A coinbase of version 1 and height 120891 with outputs 4 and 16 of 17 left. */
  function SecondCoins(first: seq<Byte>, second: seq<Byte>): Coins {
    var vout := seq(17, i => if i == 4 then Out(234925952, PayToKey(first))
                             else if i == 16 then Out(110397, PayToKey(second))
                             else Null);
    Coins(true, vout, 120891, 1)
  }

  lemma SecondMask(first: seq<Byte>, second: seq<Byte>)
    ensures var vout := SecondCoins(first, second).vout;
            IsMaskSize(vout, 2) && Mask(vout, 0, 2) == [0x04, 0x40] && NonZero(vout, 0, 2) == 2
  {
    hide PayToKey, MaskByte, Flags;
    var vout := SecondCoins(first, second).vout;
    FlagSet(vout, 4, 2, 2, 8);
    FlagSet(vout, 16, 10, 6, 8);
    assert Pow(2, 2) == 4 && Pow(2, 6) == 64;
    MaskIs(vout, 0);
    MaskIs(vout, 1);
    assert Mask(vout, 2, 2) == [] && Mask(vout, 1, 2) == [0x40];
    assert NonZero(vout, 2, 2) == 0 && NonZero(vout, 1, 2) == 1;
  }

  lemma MaskIs(vout: seq<TxOut>, b: nat)
    ensures MaskByte(vout, b) == Flags(vout, 2 + b * 8, 8)
  {
  }

  /** One available output among `k` from `p` on sets one bit. */
  lemma {:induction false} FlagSet(vout: seq<TxOut>, at: nat, p: nat, i: nat, k: nat)
    requires at == p + i < p + k && forall j | p <= j < p + k :: Avail(vout, j) <==> j == at
    ensures Flags(vout, p, k) == Pow(2, i)
    decreases k
  {
    hide Avail;
    if i == 0 {
      FlagsZero(vout, p + 1, k - 1);
    } else {
      FlagSet(vout, at, p + 1, i - 1, k - 1);
    }
  }

  lemma SecondOuts(curve: Curve, first: seq<Byte>, second: seq<Byte>)
    requires |first| == 20 && |second| == 20
    ensures Outs(curve, SecondCoins(first, second).vout, 0)
         == ([0x86, 0xef, 0x97, 0xd5, 0x79] + ([0x00] + first)) + ([0xbb, 0xd1, 0x23] + ([0x00] + second))
  {
    hide VarInt.VarInt, Compressed, WriteOut, WriteScript, PayToKey;
    var vout := SecondCoins(first, second).vout;
    Amounts();
    Numbers();
    OutWritten(curve, first, 234925952, 2114333561);
    OutWritten(curve, second, 110397, 993571);
    NoOuts(curve, vout, 0, 4);
    NoOuts(curve, vout, 5, 16);
    LastOut(curve, vout, 16);
    assert Outs(curve, vout, 4) == WriteOut(curve, vout[4]) + Outs(curve, vout, 5);
  }

  lemma SecondRecord(curve: Curve, first: seq<Byte>, second: seq<Byte>)
    requires |first| == 20 && |second| == 20
    ensures IsRecord(curve, SecondCoins(first, second),
                     [0x01, 0x09, 0x04, 0x40] + [0x86, 0xef, 0x97, 0xd5, 0x79, 0x00] + first
                     + [0xbb, 0xd1, 0x23, 0x00] + second + [0x86, 0xaf, 0x3b])
  {
    hide VarInt.VarInt, PayToKey, Mask, NonZero, IsMaskSize, Outs, Record;
    var c := SecondCoins(first, second);
    SecondMask(first, second);
    SecondOuts(curve, first, second);
    Numbers();
    assert Avail(c.vout, 4) && !Avail(c.vout, 0) && !Avail(c.vout, 1);
    RecordParts(curve, c, 2, 2, 9);
    assert [0x01, 0x09] + [0x04, 0x40]
           + (([0x86, 0xef, 0x97, 0xd5, 0x79] + ([0x00] + first)) + ([0xbb, 0xd1, 0x23] + ([0x00] + second)))
           + [0x86, 0xaf, 0x3b]
        == [0x01, 0x09, 0x04, 0x40] + [0x86, 0xef, 0x97, 0xd5, 0x79, 0x00] + first
           + [0xbb, 0xd1, 0x23, 0x00] + second + [0x86, 0xaf, 0x3b];
  }
}
