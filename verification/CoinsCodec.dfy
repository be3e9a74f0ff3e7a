/** The database record of a transaction's unspent outputs. */
module CoinsCodec {

  import opened Basics
  import opened Digits
  import opened VarInt
  import opened OutputCodec
  import opened CoinTypes

  // One output.

  function WriteOut(curve: Curve, o: TxOut): seq<Byte>
    requires o.Out?
  {
    VarInt.VarInt(Compressed(o.value % TWO_64) % TWO_64) + WriteScript(curve, o.script)
  }

  /** An output with the value of a null output is one. */
  function ReadOut(curve: Curve, s: seq<Byte>): Option<(TxOut, seq<Byte>)> {
    match Read(64, s)
    case None => None
    case Some((x, r)) =>
      match ReadScript(curve, r)
      case None => None
      case Some((script, r')) =>
        var value := ToInt64(Decompressed(x));
        Some((if value == -1 then Null else Out(value, script), r'))
  }

  /** An output that a transaction can have: an amount that can be compressed, and a script that can be read. */
  predicate OutOk(o: TxOut) {
    o.Out? ==> o.value >= 0 && Compressed(o.value) < TWO_64 && |o.script| <= MAX_SIZE
  }

  /** What an output is read back as. */
  function Stored(o: TxOut): TxOut {
    if o.Out? && |o.script| > MAX_SCRIPT_SIZE then Out(o.value, [OP_RETURN]) else o
  }

  lemma OutRoundTrip(curve: Curve, o: TxOut, rest: seq<Byte>)
    requires Sound(curve) && o.Out? && OutOk(o)
    ensures ReadOut(curve, WriteOut(curve, o) + rest) == Some((Stored(o), rest))
  {
    hide ReadFrom, VarInt.VarInt, Sound, WriteScript, ReadScript, Compressed, Decompressed, Pow;
    var x, w := Compressed(o.value), WriteScript(curve, o.script);
    assert WriteOut(curve, o) + rest == VarInt.VarInt(x) + (w + rest);
    Widths();
    ReadBack(64, x, w + rest);
    ScriptRoundTrip(curve, o.script, rest);
    AmountRoundTrip(o.value);
  }

  /** The size of an output is that of its parts. */
  method OutSize(curve: Curve, o: TxOut) returns (n: nat)
    requires o.Out?
    ensures n == |WriteOut(curve, o)|
  {
    hide VarInt.VarInt, WriteScript, Compressed;
    var x := CompressAmount(o.value % TWO_64);
    var a := GetSizeOfVarInt(x);
    var b := ScriptSize(curve, o.script);
    n := a + b;
  }

  // The bit mask of available outputs; the first two are kept in the header code.

  predicate Avail(vout: seq<TxOut>, i: nat) {
    i < |vout| && !vout[i].Null?
  }

  function One(on: bool): nat {
    if on then 1 else 0
  }

  predicate Bit(n: nat, i: nat) {
    n / Pow(2, i) % 2 == 1
  }

  lemma BitNext(n: nat, i: nat)
    ensures Bit(n, i + 1) == Bit(n / 2, i)
  {
    hide Pow;
    PowNext(2, i);
    DivideTwice(n, 2, Pow(2, i));
    assert Pow(2, i) * 2 == 2 * Pow(2, i);
  }

  /** `k` availability bits from output `p` on. */
  function Flags(vout: seq<TxOut>, p: nat, k: nat): (r: nat)
    ensures r < Pow(2, k)
    decreases k
  {
    if k == 0 then 0 else One(Avail(vout, p)) + 2 * Flags(vout, p + 1, k - 1)
  }

  lemma LowestBit(n: nat)
    ensures Bit(n, 0) <==> n % 2 == 1
  {
  }

  lemma {:induction false} FlagsBit(vout: seq<TxOut>, p: nat, k: nat, i: nat)
    requires i < k
    ensures Bit(Flags(vout, p, k), i) <==> Avail(vout, p + i)
    decreases k
  {
    hide Avail, Bit;
    var n := Flags(vout, p, k);
    if i == 0 {
      LowestBit(n);
    } else {
      BitNext(n, i - 1);
      FlagsBit(vout, p + 1, k - 1, i - 1);
    }
  }

  lemma {:induction false} FlagsZero(vout: seq<TxOut>, p: nat, k: nat)
    ensures Flags(vout, p, k) == 0 <==> forall i | p <= i < p + k :: !Avail(vout, i)
    decreases k
  {
    hide Avail;
    if k > 0 {
      FlagsZero(vout, p + 1, k - 1);
      assert (forall i | p <= i < p + k :: !Avail(vout, i)) <==>
             !Avail(vout, p) && forall i | p + 1 <= i < p + k :: !Avail(vout, i);
    }
  }

  /** Mask byte `b`. */
  function MaskByte(vout: seq<TxOut>, b: nat): Byte {
    assert Pow(2, 8) == 256;
    Flags(vout, 2 + b * 8, 8)
  }

  function ByteBits(n: Byte): seq<bool> {
    seq(8, i requires 0 <= i < 8 => Bit(n, i))
  }

  // The mask bytes from `b` up to `size`, and how many of them are not zero.

  function Mask(vout: seq<TxOut>, b: nat, size: nat): seq<Byte>
    decreases size - b
  {
    if b >= size then [] else [MaskByte(vout, b)] + Mask(vout, b + 1, size)
  }

  function NonZero(vout: seq<TxOut>, b: nat, size: nat): nat
    decreases size - b
  {
    if b >= size then 0 else One(MaskByte(vout, b) != 0) + NonZero(vout, b + 1, size)
  }

  /** The mask ends with its last byte that is not zero. */
  ghost predicate IsMaskSize(vout: seq<TxOut>, size: nat) {
    && (forall i: nat | i >= 2 + size * 8 :: !Avail(vout, i))
    && (size > 0 ==> MaskByte(vout, size - 1) != 0)
  }

  lemma {:induction false} NonZeroPositive(vout: seq<TxOut>, b: nat, size: nat)
    requires b < size && MaskByte(vout, size - 1) != 0
    ensures NonZero(vout, b, size) > 0
    decreases size - b
  {
    if b + 1 < size {
      NonZeroPositive(vout, b + 1, size);
    }
  }

  lemma {:induction false} NonZeroNext(vout: seq<TxOut>, b: nat, size: nat)
    requires b <= size
    ensures NonZero(vout, b, size + 1) == NonZero(vout, b, size) + One(MaskByte(vout, size) != 0)
    decreases size - b
  {
    hide MaskByte;
    if b < size {
      NonZeroNext(vout, b + 1, size);
    } else {
      assert NonZero(vout, b + 1, size + 1) == 0;
    }
  }

  /** Zero bytes do not count. */
  lemma {:induction false} NonZeroSame(vout: seq<TxOut>, used: nat, size: nat)
    requires used <= size && forall b | used <= b < size :: MaskByte(vout, b) == 0
    ensures NonZero(vout, 0, size) == NonZero(vout, 0, used)
    decreases size - used
  {
    hide MaskByte;
    if used < size {
      NonZeroSame(vout, used, size - 1);
      NonZeroNext(vout, 0, size - 1);
    }
  }

  /** The number of mask bytes up to the last one that is not zero, and how many of these are not zero. */
  method CalcMaskSize(vout: seq<TxOut>) returns (nBytes: nat, nNonzero: nat)
    ensures IsMaskSize(vout, nBytes) && nNonzero == NonZero(vout, 0, nBytes)
  {
    hide MaskByte, NonZero;
    nBytes, nNonzero := 0, 0;
    var b := 0;
    NonZeroNone(vout);
    while 2 + b * 8 < |vout|
      invariant nBytes <= b && nNonzero == NonZero(vout, 0, b)
      invariant nBytes > 0 ==> MaskByte(vout, nBytes - 1) != 0
      invariant forall k | nBytes <= k < b :: MaskByte(vout, k) == 0
      decreases |vout| - b * 8
    {
      var zero := true;
      var i := 0;
      while i < 8 && 2 + b * 8 + i < |vout|
        invariant 0 <= i <= 8
        invariant zero <==> forall k | 2 + b * 8 <= k < 2 + b * 8 + i :: !Avail(vout, k)
      {
        assert Avail(vout, 2 + b * 8 + i) <==> !vout[2 + b * 8 + i].Null?;
        if !vout[2 + b * 8 + i].Null? {
          zero := false;
        }
        i := i + 1;
      }
      MaskByteZero(vout, b);
      NonZeroNext(vout, 0, b);
      if !zero {
        nBytes := b + 1;
        nNonzero := nNonzero + 1;
      }
      b := b + 1;
    }
    NonZeroSame(vout, nBytes, b);
    NothingBeyond(vout, nBytes, b);
  }

  lemma NonZeroNone(vout: seq<TxOut>)
    ensures NonZero(vout, 0, 0) == 0
  {
  }

  lemma MaskByteZero(vout: seq<TxOut>, b: nat)
    ensures MaskByte(vout, b) == 0 <==> forall i | 2 + b * 8 <= i < 10 + b * 8 :: !Avail(vout, i)
  {
    FlagsZero(vout, 2 + b * 8, 8);
  }

  lemma NothingBeyond(vout: seq<TxOut>, size: nat, b: nat)
    requires size <= b && |vout| <= 2 + b * 8 && forall k | size <= k < b :: MaskByte(vout, k) == 0
    ensures forall i: nat | i >= 2 + size * 8 :: !Avail(vout, i)
  {
    hide MaskByte;
    forall i: nat | i >= 2 + size * 8 ensures !Avail(vout, i) {
      if i < |vout| {
        MaskByteZero(vout, (i - 2) / 8);
      }
    }
  }

  // The record.

  /** The outputs are those of a transaction. */
  predicate OutsOk(vout: seq<TxOut>) {
    |vout| <= MAX_SIZE && forall i | 0 <= i < |vout| :: OutOk(vout[i])
  }

  /** The outputs from `i` on that are not spent. */
  ghost function Outs(curve: Curve, vout: seq<TxOut>, i: nat): seq<Byte>
    decreases |vout| - i
  {
    if i >= |vout| then []
    else (if vout[i].Null? then [] else WriteOut(curve, vout[i])) + Outs(curve, vout, i + 1)
  }

  /**
    Coinbase flag, the first two outputs, and the number of mask bytes that are not
    zero, less one if it cannot be zero.
   */
  function Code(coinBase: bool, first: bool, second: bool, nonZero: nat): nat
    requires first || second || nonZero > 0
  {
    8 * (nonZero - if first || second then 0 else 1) + One(coinBase) + 2 * One(first) + 4 * One(second)
  }

  lemma SomethingAvailable(c: Coins, size: nat)
    requires !IsPruned(c) && IsMaskSize(c.vout, size)
    ensures Avail(c.vout, 0) || Avail(c.vout, 1) || NonZero(c.vout, 0, size) > 0
  {
    hide MaskByte;
    var i :| 0 <= i < |c.vout| && !c.vout[i].Null?;
    assert Avail(c.vout, i);
    if i >= 2 {
      assert size > 0;
      NonZeroPositive(c.vout, 0, size);
    }
  }

  ghost function Record(curve: Curve, c: Coins, size: nat): seq<Byte>
    requires !IsPruned(c) && IsMaskSize(c.vout, size)
  {
    SomethingAvailable(c, size);
    Written(c.version)
    + (VarInt.VarInt(Code(c.coinBase, Avail(c.vout, 0), Avail(c.vout, 1), NonZero(c.vout, 0, size)) % TWO_32)
       + (Mask(c.vout, 0, size) + (Outs(curve, c.vout, 0) + Written(c.height))))
  }

  ghost predicate IsRecord(curve: Curve, c: Coins, s: seq<Byte>) {
    !IsPruned(c) && exists size :: IsMaskSize(c.vout, size) && s == Record(curve, c, size)
  }

  /** Read mask bytes until `n` of them were not zero. */
  function ReadMask(avail: seq<bool>, n: nat, s: seq<Byte>): Option<(seq<bool>, seq<Byte>)>
    decreases |s|
  {
    if n == 0 then Some((avail, s))
    else if s == [] then None
    else ReadMask(avail + ByteBits(s[0]), n - One(s[0] != 0), s[1..])
  }

  function ReadOuts(curve: Curve, vout: seq<TxOut>, avail: seq<bool>, s: seq<Byte>): Option<(seq<TxOut>, seq<Byte>)>
    requires |vout| <= |avail|
    decreases |avail| - |vout|
  {
    if |vout| == |avail| then Some((vout, s))
    else if !avail[|vout|] then ReadOuts(curve, vout + [Null], avail, s)
    else
      match ReadOut(curve, s)
      case None => None
      case Some((o, r)) => ReadOuts(curve, vout + [o], avail, r)
  }

  /** How many mask bytes are not zero, from the header code. */
  function MaskCode(code: nat): nat {
    code / 8 + if code / 2 % 4 != 0 then 0 else 1
  }

  function ReadRecord(curve: Curve, s: seq<Byte>): Option<(Coins, seq<Byte>)> {
    match Read(32, s)
    case None => None
    case Some((version, s1)) =>
      match Read(32, s1)
      case None => None
      case Some((code, s2)) =>
        match ReadMask([code / 2 % 2 == 1, code / 4 % 2 == 1], MaskCode(code), s2)
        case None => None
        case Some((avail, s3)) => ReadBody(curve, ToInt32(version), code % 2 == 1, avail, s3)
  }

  function ReadBody(curve: Curve, version: Int32, coinBase: bool, avail: seq<bool>, s: seq<Byte>)
    : Option<(Coins, seq<Byte>)>
  {
    match ReadOuts(curve, [], avail, s)
    case None => None
    case Some((vout, s4)) =>
      match Read(32, s4)
      case None => None
      case Some((height, s5)) => Some((Cleaned(Coins(coinBase, vout, ToInt32(height), version)), s5))
  }

  lemma CodeRoundTrip(coinBase: bool, first: bool, second: bool, nonZero: nat)
    requires first || second || nonZero > 0
    ensures var code := Code(coinBase, first, second, nonZero);
            && (code % 2 == 1 <==> coinBase) && (code / 2 % 2 == 1 <==> first) && (code / 4 % 2 == 1 <==> second)
            && MaskCode(code) == nonZero
  {
  }

  /** The first `k` outputs are available or not, as the flags say. */
  ghost predicate Flagged(vout: seq<TxOut>, avail: seq<bool>) {
    forall i | 0 <= i < |avail| :: avail[i] <==> Avail(vout, i)
  }

  lemma {:induction false} MaskRoundTrip(vout: seq<TxOut>, avail: seq<bool>, b: nat, size: nat, rest: seq<Byte>)
    requires b <= size && IsMaskSize(vout, size) && |avail| == 2 + b * 8 && Flagged(vout, avail)
    ensures var r := ReadMask(avail, NonZero(vout, b, size), Mask(vout, b, size) + rest);
            r.Some? && r.value.1 == rest && |r.value.0| == 2 + size * 8 && Flagged(vout, r.value.0)
    decreases size - b
  {
    hide MaskByte, Bit;
    if b < size {
      NonZeroPositive(vout, b, size);
      var s := Mask(vout, b, size) + rest;
      assert s[0] == MaskByte(vout, b) && s[1..] == Mask(vout, b + 1, size) + rest;
      var next := avail + ByteBits(s[0]);
      forall i | 0 <= i < |next| ensures next[i] <==> Avail(vout, i) {
        if i >= |avail| {
          MaskByteBit(vout, b, i - |avail|);
        }
      }
      MaskRoundTrip(vout, next, b + 1, size, rest);
    } else {
      assert Mask(vout, b, size) + rest == rest;
    }
  }

  lemma MaskByteBit(vout: seq<TxOut>, b: nat, i: nat)
    requires i < 8
    ensures Bit(MaskByte(vout, b), i) <==> Avail(vout, 2 + b * 8 + i)
  {
    hide Bit;
    FlagsBit(vout, 2 + b * 8, 8, i);
  }

  /** The outputs the flags admit. */
  ghost predicate Agrees(vout: seq<TxOut>, read: seq<TxOut>) {
    forall i | 0 <= i < |read| :: read[i] == if Avail(vout, i) then vout[i] else Null
  }

  /** What the outputs are read back as. */
  function StoredAll(vout: seq<TxOut>): seq<TxOut> {
    seq(|vout|, i requires 0 <= i < |vout| => Stored(vout[i]))
  }

  lemma {:induction false} OutsNothing(curve: Curve, vout: seq<TxOut>, i: nat)
    requires forall k: nat | k >= i :: !Avail(vout, k)
    ensures Outs(curve, vout, i) == []
    decreases |vout| - i
  {
    if i < |vout| {
      assert !Avail(vout, i);
      OutsNothing(curve, vout, i + 1);
    }
  }

  lemma {:induction false} OutsRoundTrip(curve: Curve, vout: seq<TxOut>, read: seq<TxOut>, avail: seq<bool>,
                                         rest: seq<Byte>)
    requires Sound(curve) && OutsOk(vout)
    requires Flagged(vout, avail) && (forall i: nat | i >= |avail| :: !Avail(vout, i))
    requires |read| <= |avail| && Agrees(StoredAll(vout), read)
    ensures var r := ReadOuts(curve, read, avail, Outs(curve, vout, |read|) + rest);
            r.Some? && r.value.1 == rest && |r.value.0| == |avail| && Agrees(StoredAll(vout), r.value.0)
    decreases |avail| - |read|
  {
    hide Sound, ReadOut, WriteOut, OutOk, Stored;
    var i := |read|;
    if i == |avail| {
      OutsNothing(curve, vout, i);
      assert Outs(curve, vout, i) + rest == rest;
    } else if !avail[i] {
      StoredAt(vout, i);
      OutsRoundTrip(curve, vout, read + [Null], avail, rest);
      OutsSkip(curve, vout, i);
    } else {
      var w := WriteBytes(curve, vout, i);
      assert Outs(curve, vout, i) + rest == w + (Outs(curve, vout, i + 1) + rest);
      OutRoundTrip(curve, vout[i], Outs(curve, vout, i + 1) + rest);
      StoredAt(vout, i);
      OutsRoundTrip(curve, vout, read + [Stored(vout[i])], avail, rest);
    }
  }

  lemma StoredAt(vout: seq<TxOut>, i: nat)
    ensures Avail(StoredAll(vout), i) <==> Avail(vout, i)
    ensures Avail(vout, i) ==> StoredAll(vout)[i] == Stored(vout[i])
  {
  }

  lemma OutsSkip(curve: Curve, vout: seq<TxOut>, i: nat)
    requires !Avail(vout, i)
    ensures Outs(curve, vout, i) == Outs(curve, vout, i + 1)
  {
  }

  ghost function WriteBytes(curve: Curve, vout: seq<TxOut>, i: nat): (w: seq<Byte>)
    requires Avail(vout, i)
    ensures vout[i].Out? && w == WriteOut(curve, vout[i])
    ensures Outs(curve, vout, i) == w + Outs(curve, vout, i + 1)
  {
    WriteOut(curve, vout[i])
  }

  /** Records that agree on what is available are trimmed to the same outputs. */
  lemma TrimSame(vout: seq<TxOut>, read: seq<TxOut>)
    requires Agrees(vout, read) && forall i: nat | i >= |read| :: !Avail(vout, i)
    ensures Trimmed(read) == Trimmed(vout)
  {
    var a, b := Trimmed(vout), Trimmed(read);
    if |a| > 0 {
      assert Avail(vout, |a| - 1);
    }
    if |b| > 0 {
      assert read[|b| - 1] == b[|b| - 1];
      assert Avail(vout, |b| - 1);
    }
    assert |a| == |b|;
    forall i | 0 <= i < |a| ensures a[i] == b[i] {
      assert b[i] == read[i] && a[i] == vout[i];
    }
  }

  /** What a record is read back as: without the spent outputs at its end. */
  function Loaded(c: Coins): Coins {
    Cleaned(Coins(c.coinBase, StoredAll(c.vout), Back(c.height), Back(c.version)))
  }

  /** A record comes back the same, but trimmed, exactly if no number is negative and no script is over-long. */
  lemma LoadedIff(c: Coins)
    ensures Loaded(c) == Cleaned(c) <==>
            && c.version >= 0 && c.height >= 0
            && forall i | 0 <= i < |c.vout| && c.vout[i].Out? :: |c.vout[i].script| <= MAX_SCRIPT_SIZE
  {
    var same := forall i | 0 <= i < |c.vout| && c.vout[i].Out? :: |c.vout[i].script| <= MAX_SCRIPT_SIZE;
    if same {
      assert StoredAll(c.vout) == c.vout;
    } else {
      var i :| 0 <= i < |c.vout| && c.vout[i].Out? && |c.vout[i].script| > MAX_SCRIPT_SIZE;
      assert Trimmed(c.vout)[i] == c.vout[i];
      assert StoredAll(c.vout)[i] == Stored(c.vout[i]) != c.vout[i];
      assert Trimmed(StoredAll(c.vout))[i] == StoredAll(c.vout)[i];
    }
  }

  /** Reading a written record gives back what was stored. */
  lemma RecordRoundTrip(curve: Curve, c: Coins, s: seq<Byte>, rest: seq<Byte>)
    requires Sound(curve) && OutsOk(c.vout) && IsRecord(curve, c, s)
    ensures ReadRecord(curve, s + rest) == Some((Loaded(c), rest))
  {
    hide Sound, ReadFrom, Read, VarInt.VarInt, Written, ReadMask, Mask, NonZero, Outs, ReadOuts, Code, MaskCode;
    hide IsMaskSize, OutsOk, Pow;
    var size :| IsMaskSize(c.vout, size) && s == Record(curve, c, size);
    SomethingAvailable(c, size);
    var first, second, n := Avail(c.vout, 0), Avail(c.vout, 1), NonZero(c.vout, 0, size);
    var code := Code(c.coinBase, first, second, n);
    var height := Written(c.height) + rest;
    var outs := Outs(curve, c.vout, 0) + height;
    var mask := Mask(c.vout, 0, size) + outs;
    CodeFits(c.vout, size, c.coinBase, first, second);
    assert s + rest == Written(c.version) + (VarInt.VarInt(code) + mask);
    SignedRoundTrip(c.version, VarInt.VarInt(code) + mask);
    Widths();
    ReadBack(32, code, mask);
    CodeRoundTrip(c.coinBase, first, second, n);
    MaskRoundTrip(c.vout, [first, second], 0, size, outs);
    BodyRoundTrip(curve, c, size, ReadMask([first, second], n, mask).value.0, rest);
  }

  /** The header code of a transaction's outputs fits 32 bits. */
  lemma CodeFits(vout: seq<TxOut>, size: nat, coinBase: bool, first: bool, second: bool)
    requires OutsOk(vout) && IsMaskSize(vout, size) && (first || second || NonZero(vout, 0, size) > 0)
    ensures Code(coinBase, first, second, NonZero(vout, 0, size)) < TWO_32
  {
    hide MaskByte, NonZero;
    NonZeroAtMost(vout, 0, size);
    if size > 0 {
      MaskByteZero(vout, size - 1);
      var i :| 2 + (size - 1) * 8 <= i < 10 + (size - 1) * 8 && Avail(vout, i);
    }
  }

  lemma {:induction false} NonZeroAtMost(vout: seq<TxOut>, b: nat, size: nat)
    requires b <= size
    ensures NonZero(vout, b, size) <= size - b
    decreases size - b
  {
    hide MaskByte;
    if b < size {
      NonZeroAtMost(vout, b + 1, size);
    }
  }

  lemma BodyRoundTrip(curve: Curve, c: Coins, size: nat, avail: seq<bool>, rest: seq<Byte>)
    requires Sound(curve) && OutsOk(c.vout) && IsMaskSize(c.vout, size)
    requires |avail| == 2 + size * 8 && Flagged(c.vout, avail)
    ensures ReadBody(curve, Back(c.version), c.coinBase, avail, Outs(curve, c.vout, 0) + (Written(c.height) + rest))
         == Some((Loaded(c), rest))
  {
    hide Sound, ReadFrom, Read, VarInt.VarInt, Written, Outs, ReadOuts, MaskByte, OutsOk, StoredAll;
    NothingRead(c.vout);
    OutsRoundTrip(curve, c.vout, [], avail, Written(c.height) + rest);
    SignedRoundTrip(c.height, rest);
    forall i: nat | i >= |avail| ensures !Avail(StoredAll(c.vout), i) {
      StoredAt(c.vout, i);
    }
    var tail := Outs(curve, c.vout, 0) + (Written(c.height) + rest);
    TrimSame(StoredAll(c.vout), ReadOuts(curve, [], avail, tail).value.0);
  }

  lemma NothingRead(vout: seq<TxOut>)
    ensures Agrees(StoredAll(vout), [])
  {
  }

  /** One byte of the mask. */
  method WriteMaskByte(vout: seq<TxOut>, b: nat) returns (ch: Byte)
    ensures ch == MaskByte(vout, b)
  {
    hide Avail, Pow;
    var sum: nat := 0;
    ghost var p := 2 + b * 8;
    PowSmall();
    for i := 0 to 8
      invariant sum + Pow(2, i) * Flags(vout, p + i, 8 - i) == Flags(vout, p, 8)
    {
      FlagStep(vout, p + i, 8 - i, i);
      if 2 + b * 8 + i < |vout| {
        if !vout[2 + b * 8 + i].Null? {
          sum := sum + Pow(2, i);
        }
      }
      AvailIs(vout, p + i);
    }
    assert Pow(2, 8) * 0 == 0;
    ch := sum;
  }

  lemma PowSmall()
    ensures Pow(2, 0) == 1 && Pow(2, 8) == 256
  {
  }

  lemma AvailIs(vout: seq<TxOut>, i: nat)
    ensures Avail(vout, i) <==> i < |vout| && !vout[i].Null?
  {
  }

  lemma FlagStep(vout: seq<TxOut>, p: nat, k: nat, i: nat)
    requires k > 0
    ensures Pow(2, i) * Flags(vout, p, k) == Pow(2, i) * One(Avail(vout, p)) + Pow(2, i + 1) * Flags(vout, p + 1, k - 1)
  {
    hide Pow, Avail;
    PowNext(2, i);
    var w, o, f := Pow(2, i), One(Avail(vout, p)), Flags(vout, p + 1, k - 1);
    assert w * (o + 2 * f) == w * o + 2 * w * f;
  }

  /** Only a record with an unspent output can be written. */
  method Serialize(curve: Curve, c: Coins) returns (s: seq<Byte>)
    requires !IsPruned(c)
    ensures IsRecord(curve, c, s)
  {
    hide VarInt.VarInt, Written, MaskByte, Mask, NonZero, Outs, Pow;
    var size, nonZero := CalcMaskSize(c.vout);
    var first := |c.vout| > 0 && !c.vout[0].Null?;
    var second := |c.vout| > 1 && !c.vout[1].Null?;
    SomethingAvailable(c, size);
    assert first || second || nonZero > 0;
    var code := Code(c.coinBase, first, second, nonZero) % TWO_32;
    Widths();
    WrittenPositive(code);
    var version := WriteVarInt(32, c.version);
    var header := WriteVarInt(32, code);
    var mask := WriteMask(c.vout, size);
    var outs := WriteOuts(curve, c.vout);
    var height := WriteVarInt(32, c.height);
    s := version + (header + (mask + (outs + height)));
    assert s == Record(curve, c, size);
  }

  lemma WrittenPositive(n: nat)
    ensures Written(n) == VarInt.VarInt(n)
  {
  }

  method WriteMask(vout: seq<TxOut>, size: nat) returns (mask: seq<Byte>)
    ensures mask == Mask(vout, 0, size)
  {
    hide MaskByte;
    mask := [];
    for b := 0 to size
      invariant mask + Mask(vout, b, size) == Mask(vout, 0, size)
    {
      var ch := WriteMaskByte(vout, b);
      assert mask + Mask(vout, b, size) == mask + [ch] + Mask(vout, b + 1, size);
      mask := mask + [ch];
    }
  }

  method WriteOuts(curve: Curve, vout: seq<TxOut>) returns (outs: seq<Byte>)
    ensures outs == Outs(curve, vout, 0)
  {
    hide WriteOut;
    outs := [];
    for i := 0 to |vout|
      invariant outs + Outs(curve, vout, i) == Outs(curve, vout, 0)
    {
      if !vout[i].Null? {
        assert outs + Outs(curve, vout, i) == outs + WriteOut(curve, vout[i]) + Outs(curve, vout, i + 1);
        outs := outs + WriteOut(curve, vout[i]);
      }
    }
  }

  /** The size announced is the number of bytes written. */
  method GetSerializeSize(curve: Curve, c: Coins) returns (n: nat)
    requires !IsPruned(c)
    ensures forall s | IsRecord(curve, c, s) :: |s| == n
  {
    hide VarInt.VarInt, Written, MaskByte, NonZero, WriteOut;
    var size, nonZero := CalcMaskSize(c.vout);
    var first := |c.vout| > 0 && !c.vout[0].Null?;
    var second := |c.vout| > 1 && !c.vout[1].Null?;
    SomethingAvailable(c, size);
    var code := Code(c.coinBase, first, second, nonZero) % TWO_32;
    WrittenPositive(code);
    var a := GetSizeOfVarInt(c.version);
    var b := GetSizeOfVarInt(code);
    var outs := SizeOuts(curve, c.vout);
    var h := GetSizeOfVarInt(c.height);
    n := a + b + size + outs + h;
    MaskLength(c.vout, 0, size);
    forall s | IsRecord(curve, c, s) ensures |s| == n {
      var size' :| IsMaskSize(c.vout, size') && s == Record(curve, c, size');
      MaskSizeUnique(c.vout, size, size');
    }
  }

  method SizeOuts(curve: Curve, vout: seq<TxOut>) returns (n: nat)
    ensures n == |Outs(curve, vout, 0)|
  {
    hide WriteOut;
    n := 0;
    for i := 0 to |vout|
      invariant n + |Outs(curve, vout, i)| == |Outs(curve, vout, 0)|
    {
      if !vout[i].Null? {
        var m := OutSize(curve, vout[i]);
        n := n + m;
      }
    }
  }

  lemma {:induction false} MaskLength(vout: seq<TxOut>, b: nat, size: nat)
    requires b <= size
    ensures |Mask(vout, b, size)| == size - b
    decreases size - b
  {
    hide MaskByte;
    if b < size {
      MaskLength(vout, b + 1, size);
    }
  }

  lemma MaskSizeUnique(vout: seq<TxOut>, m: nat, n: nat)
    requires IsMaskSize(vout, m) && IsMaskSize(vout, n)
    ensures m == n
  {
    hide MaskByte, Avail;
    if m > 0 {
      MaskByteZero(vout, m - 1);
    }
    if n > 0 {
      MaskByteZero(vout, n - 1);
    }
  }

  /** Read a record; the loop over the mask ends with its last byte that is not zero. */
  method Unserialize(curve: Curve, s: seq<Byte>) returns (r: Option<(Coins, seq<Byte>)>)
    ensures r == ReadRecord(curve, s)
  {
    hide ReadMask, ReadOuts, MaskCode;
    var v := ReadVarInt(32, s);
    if v.None? {
      return None;
    }
    var n := ReadVarInt(32, v.value.1);
    if n.None? {
      return None;
    }
    var code := n.value.0;
    var avail := UnserializeMask([code / 2 % 2 == 1, code / 4 % 2 == 1], MaskCode(code), n.value.1);
    if avail.None? {
      return None;
    }
    var vout := UnserializeOuts(curve, avail.value.0, avail.value.1);
    if vout.None? {
      return None;
    }
    var h := ReadVarInt(32, vout.value.1);
    if h.None? {
      return None;
    }
    var c := Cleanup(Coins(code % 2 == 1, vout.value.0, ToInt32(h.value.0), ToInt32(v.value.0)));
    return Some((c, h.value.1));
  }

  method UnserializeMask(avail0: seq<bool>, n0: nat, s: seq<Byte>) returns (r: Option<(seq<bool>, seq<Byte>)>)
    ensures r == ReadMask(avail0, n0, s)
  {
    hide Bit;
    var avail, n, t := avail0, n0, s;
    while n > 0
      invariant ReadMask(avail, n, t) == ReadMask(avail0, n0, s)
      decreases |t|
    {
      if t == [] {
        return None;
      }
      var ch := t[0];
      ghost var before := avail;
      for p := 0 to 8
        invariant avail == before + ByteBits(ch)[..p]
      {
        avail := avail + [Bit(ch, p)];
      }
      assert ByteBits(ch)[..8] == ByteBits(ch);
      if ch != 0 {
        n := n - 1;
      }
      t := t[1..];
    }
    return Some((avail, t));
  }

  method UnserializeOuts(curve: Curve, avail: seq<bool>, s: seq<Byte>) returns (r: Option<(seq<TxOut>, seq<Byte>)>)
    ensures r == ReadOuts(curve, [], avail, s)
  {
    hide ReadOut;
    var vout: seq<TxOut> := [];
    var t := s;
    for i := 0 to |avail|
      invariant |vout| == i && ReadOuts(curve, vout, avail, t) == ReadOuts(curve, [], avail, s)
    {
      if avail[i] {
        var o := ReadOut(curve, t);
        if o.None? {
          return None;
        }
        vout, t := vout + [o.value.0], o.value.1;
      } else {
        vout := vout + [Null];
      }
    }
    return Some((vout, t));
  }

  /** Written to the database and read again. */
  method StoreAndLoad(curve: Curve, c: Coins) returns (r: Option<(Coins, seq<Byte>)>)
    requires !IsPruned(c) && OutsOk(c.vout) && Sound(curve)
    ensures r == Some((Loaded(c), []))
  {
    hide IsRecord, ReadRecord, Sound, OutsOk, Loaded;
    var s := Serialize(curve, c);
    RecordRoundTrip(curve, c, s, []);
    assert s + [] == s;
    r := Unserialize(curve, s);
  }

  /** A record of version -1 with one empty output comes back with version 127. */
  method LoadedVersion(curve: Curve, height: Int32) returns (r: Option<(Coins, seq<Byte>)>)
    requires Sound(curve) && height >= 0
    ensures r == Some((Coins(false, [Out(0, [])], height, 127), []))
  {
    hide Sound;
    var c := Coins(false, [Out(0, [])], height, -1);
    assert StoredAll(c.vout) == c.vout;
    assert c.vout[0].Out?;
    assert Compressed(0) == 0;
    r := StoreAndLoad(curve, c);
  }
}
