/**
  The rolling Bloom filter: three generations of entries kept in two bit planes.
  The hash function is arbitrary; the number of hash functions and of words, which
  the original computes in floating point, are parameters.
 */
module RollingBloom {

  import opened Basics
  import opened Digits

  type Key = seq<nat>

  /** A 32-bit hash value. */
  type HashValue = n: nat | n < TWO_32

  type Hasher = (nat, nat, Key) -> HashValue

  predicate Bit(w: bv64, b: bv6) {
    (w >> b) & 1 == 1
  }

  // The word operations, and what they do to single bits.

  function Plane(on: bool): bv64 {
    if on then 1 else 0
  }

  function Flip(w: bv64, on: bool): bv64 {
    w ^ (0 - Plane(on))
  }

  function Either(a: bv64, b: bv64): bv64 {
    a | b
  }

  /** Ones wherever the cell does not hold the generation given by its two plane bits. */
  function Others(p1: bv64, p2: bv64, low: bool, high: bool): bv64 {
    Either(Flip(p1, low), Flip(p2, high))
  }

  function Masked(w: bv64, mask: bv64): bv64 {
    w & mask
  }

  function Put(w: bv64, on: bool, b: bv6): bv64 {
    (w & !(1 << b)) | (Plane(on) << b)
  }

  lemma FlipBit(w: bv64, on: bool, b: bv6)
    ensures Bit(Flip(w, on), b) == (Bit(w, b) != on)
  {
  }

  lemma MaskedBit(w: bv64, mask: bv64, b: bv6)
    ensures Bit(Masked(w, mask), b) == (Bit(w, b) && Bit(mask, b))
  {
  }

  lemma OthersBit(p1: bv64, p2: bv64, low: bool, high: bool, b: bv6)
    ensures Bit(Others(p1, p2, low, high), b) == (Bit(p1, b) != low || Bit(p2, b) != high)
  {
    hide Bit, Flip, Either;
    FlipBit(p1, low, b);
    FlipBit(p2, high, b);
    EitherBit(Flip(p1, low), Flip(p2, high), b);
  }

  lemma PutBit(w: bv64, on: bool, b: bv6, c: bv6)
    ensures Bit(Put(w, on, b), c) == if b == c then on else Bit(w, c)
  {
  }

  lemma NotNeither(p1: bv64, p2: bv64)
    ensures Either(p1, p2) == Flip(Masked(Flip(p1, true), Flip(p2, true)), true)
  {
  }

  lemma EitherBit(p1: bv64, p2: bv64, b: bv6)
    ensures Bit(Either(p1, p2), b) == (Bit(p1, b) || Bit(p2, b))
  {
    hide Bit, Flip, Masked, Either;
    var neither := Masked(Flip(p1, true), Flip(p2, true));
    NotNeither(p1, p2);
    FlipBit(p1, true, b);
    FlipBit(p2, true, b);
    MaskedBit(Flip(p1, true), Flip(p2, true), b);
    FlipBit(neither, true, b);
  }

  /** The generation two plane bits stand for; 0 is unset. */
  function Generation(p1: bv64, p2: bv64, b: bv6): nat {
    (if Bit(p1, b) then 1 else 0) + (if Bit(p2, b) then 2 else 0)
  }

  predicate Low(generation: nat) {
    generation % 2 == 1
  }

  predicate High(generation: nat) {
    generation / 2 == 1
  }

  // Where a hash value points to.

  predicate Paired(words: seq<bv64>) {
    |words| > 0 && |words| % 2 == 0
  }

  /** The first word of the pair; the lowest bit of the position is ignored. */
  function PairOf(words: nat, h: HashValue): (p: nat)
    requires words > 0 && words % 2 == 0
    ensures p % 2 == 0 && p + 1 < words
  {
    var pos := h / 64 % words;
    pos - pos % 2
  }

  function BitOf(h: HashValue): bv6 {
    (h % 64) as bv6
  }

  predicate SameCell(words: nat, g: HashValue, h: HashValue)
    requires words > 0 && words % 2 == 0
  {
    PairOf(words, g) == PairOf(words, h) && BitOf(g) == BitOf(h)
  }

  /**
    A filter of `words` words has 32 * `words` cells.  Hash values modulo 64 * `words`
    point to the same cell exactly if they agree modulo 64 and in which 128 they are.
   */
  lemma SameCellIff(words: nat, g: HashValue, h: HashValue)
    requires words > 0 && words % 2 == 0
    ensures SameCell(words, g, h) <==>
            g % (words * 64) / 128 == h % (words * 64) / 128 && g % 64 == h % 64
  {
    hide PairOf, BitOf;
    PairIs(words, g);
    PairIs(words, h);
    BitIff(g, h);
  }

  lemma PairIs(words: nat, h: HashValue)
    requires words > 0 && words % 2 == 0
    ensures PairOf(words, h) == 2 * (h % (words * 64) / 128)
  {
    RemainderQuotient(h, 64, words);
    DivideTwice(h % (words * 64), 64, 2);
  }

  lemma BitIff(g: HashValue, h: HashValue)
    ensures BitOf(g) == BitOf(h) <==> g % 64 == h % 64
  {
    SameBit(g % 64, h % 64);
  }

  lemma SameBit(x: nat, y: nat)
    requires x < 64 && y < 64
    ensures x as bv6 == y as bv6 <==> x == y
  {
    assert (x as bv6) as nat == x && (y as bv6) as nat == y;
  }

  /** The generation stored in the cell a hash value points to. */
  function At(words: seq<bv64>, h: HashValue): nat
    requires Paired(words)
  {
    var p := PairOf(|words|, h);
    Generation(words[p], words[p + 1], BitOf(h))
  }

  // The generation numbers 1, 2, 3 are used in turn, one per epoch.

  function Number(epoch: nat): (g: nat)
    ensures 1 <= g <= 3
  {
    epoch % 3 + 1
  }

  /** A cell marked in epoch `since` or later, and not wiped since, as seen in `epoch`. */
  ghost predicate Live(generation: nat, since: nat, epoch: nat) {
    || generation == Number(epoch)
    || (since + 1 <= epoch && generation == Number(epoch - 1))
    || (since + 2 <= epoch && generation == Number(epoch - 2))
  }

  /** Reusing the number of the oldest epoch leaves the two younger ones alone. */
  lemma LiveNext(generation: nat, since: nat, epoch: nat)
    requires Live(generation, since, epoch) && since <= epoch <= since + 1
    ensures generation != Number(epoch + 1) && Live(generation, since, epoch + 1)
  {
  }

  /** The masked wipe clears exactly the cells of one generation. */
  lemma WipeWords(p1: bv64, p2: bv64, generation: nat, b: bv6)
    requires 1 <= generation <= 3
    ensures var mask := Others(p1, p2, Low(generation), High(generation));
            Generation(Masked(p1, mask), Masked(p2, mask), b)
              == if Generation(p1, p2, b) == generation then 0 else Generation(p1, p2, b)
  {
    hide Bit, Others, Masked;
    var mask := Others(p1, p2, Low(generation), High(generation));
    OthersBit(p1, p2, Low(generation), High(generation), b);
    MaskedBit(p1, mask, b);
    MaskedBit(p2, mask, b);
  }

  /** Writing one cell. */
  lemma PutWords(p1: bv64, p2: bv64, generation: nat, b: bv6, c: bv6)
    requires 1 <= generation <= 3
    ensures Generation(Put(p1, Low(generation), b), Put(p2, High(generation), b), c)
            == if b == c then generation else Generation(p1, p2, c)
  {
    hide Bit, Put;
    PutBit(p1, Low(generation), b, c);
    PutBit(p2, High(generation), b, c);
  }

  ghost predicate WipedPart(was: seq<bv64>, now: seq<bv64>, generation: nat, p: nat)
    requires Paired(was)
  {
    && |now| == |was|
    && (forall i | 0 <= i < p && i + 1 < |was| && i % 2 == 0 ::
          var mask := Others(was[i], was[i + 1], Low(generation), High(generation));
          now[i] == Masked(was[i], mask) && now[i + 1] == Masked(was[i + 1], mask))
    && forall i | p <= i < |was| :: now[i] == was[i]
  }

  lemma WipedNone(was: seq<bv64>, generation: nat)
    requires Paired(was)
    ensures WipedPart(was, was, generation, 0)
  {
  }

  lemma WipedNext(was: seq<bv64>, now: seq<bv64>, generation: nat, p: nat)
    requires Paired(was) && p < |was| && p % 2 == 0 && WipedPart(was, now, generation, p)
    ensures var mask := Others(now[p], now[p + 1], Low(generation), High(generation));
            WipedPart(was, now[p := Masked(now[p], mask)][p + 1 := Masked(now[p + 1], mask)], generation, p + 2)
  {
    hide Others, Masked;
  }

  lemma WipedAll(was: seq<bv64>, now: seq<bv64>, generation: nat)
    requires Paired(was) && 1 <= generation <= 3 && WipedPart(was, now, generation, |was|)
    ensures forall h :: At(now, h) == if At(was, h) == generation then 0 else At(was, h)
  {
    hide Others, Masked, Generation, PairOf, BitOf;
    forall h ensures At(now, h) == if At(was, h) == generation then 0 else At(was, h) {
      var i := PairOf(|was|, h);
      WipeWords(was[i], was[i + 1], generation, BitOf(h));
    }
  }

  /** The epochs of `count` insertions, `per` to an epoch and `now` in the current one. */
  ghost predicate Dated(count: nat, epochs: seq<nat>, epoch: nat, per: nat, now: nat) {
    && |epochs| == count == epoch * per + now
    && forall k | 0 <= k < count :: epochs[k] <= epoch && epochs[k] * per <= k < epochs[k] * per + per
  }

  /** What has been inserted, and when. */
  datatype Ledger = Ledger(hash: Hasher, tweak: nat, funcs: nat, log: seq<Key>, epochs: seq<nat>, epoch: nat) {
    ghost predicate Recent(k: nat)
      requires |log| == |epochs|
    {
      k < |log| && epochs[k] + 2 >= epoch
    }

    ghost function Probe(k: nat, n: nat): HashValue
      requires k < |log|
    {
      hash(n, tweak, log[k])
    }
  }

  /** No cell of a key from the last three epochs has been lost. */
  ghost predicate AllLive(words: seq<bv64>, l: Ledger)
    requires Paired(words) && |l.log| == |l.epochs|
  {
    forall k: nat, n: nat | l.Recent(k) && 0 <= n < l.funcs :: Live(At(words, l.Probe(k, n)), l.epochs[k], l.epoch)
  }

  /** A key of the last three epochs has marked the cell with this generation. */
  ghost predicate Owned(words: nat, l: Ledger, h: HashValue, generation: nat)
    requires words > 0 && words % 2 == 0 && |l.log| == |l.epochs|
  {
    exists k: nat, n: nat ::
      l.Recent(k) && 0 <= n < l.funcs && SameCell(words, h, l.Probe(k, n)) && generation == Number(l.epochs[k])
  }

  /** Nothing else is marked. */
  ghost predicate AllOwned(words: seq<bv64>, l: Ledger)
    requires Paired(words) && |l.log| == |l.epochs|
  {
    forall h | At(words, h) != 0 :: Owned(|words|, l, h, At(words, h))
  }

  lemma DatedNext(count: nat, epochs: seq<nat>, epoch: nat, per: nat, now: nat)
    requires Dated(count, epochs, epoch, per, now) && now < per
    ensures |epochs| == count && Dated(count + 1, epochs + [epoch], epoch, per, now + 1)
  {
  }

  /** The next epoch reuses the number of the oldest, whose cells are wiped. */
  lemma Rolled(was: seq<bv64>, now: seq<bv64>, l: Ledger)
    requires Paired(was) && |now| == |was| && |l.log| == |l.epochs| && AllLive(was, l) && AllOwned(was, l)
    requires forall k | 0 <= k < |l.log| :: l.epochs[k] <= l.epoch
    requires forall h :: At(now, h) == if At(was, h) == Number(l.epoch + 1) then 0 else At(was, h)
    ensures AllLive(now, l.(epoch := l.epoch + 1)) && AllOwned(now, l.(epoch := l.epoch + 1))
  {
    hide At, Live, Number, SameCell;
    var next := l.(epoch := l.epoch + 1);
    forall k: nat, n: nat | next.Recent(k) && 0 <= n < l.funcs
      ensures Live(At(now, next.Probe(k, n)), l.epochs[k], next.epoch)
    {
      assert l.Recent(k) && next.Probe(k, n) == l.Probe(k, n);
      LiveNext(At(was, l.Probe(k, n)), l.epochs[k], l.epoch);
    }
    forall h | At(now, h) != 0 ensures Owned(|now|, next, h, At(now, h)) {
      var k: nat, n: nat :| l.Recent(k) && 0 <= n < l.funcs && SameCell(|was|, h, l.Probe(k, n))
                  && At(was, h) == Number(l.epochs[k]);
      Oldest(l.epochs[k], l.epoch);
      assert next.Recent(k) && next.Probe(k, n) == l.Probe(k, n);
    }
  }

  lemma Oldest(since: nat, epoch: nat)
    ensures since <= epoch <= since + 2 && Number(since) != Number(epoch + 1) ==> since + 2 >= epoch + 1
  {
  }

  /** Marked by the first `n` probes of `key`, and otherwise as before. */
  ghost predicate MarkedBy(was: seq<bv64>, now: seq<bv64>, l: Ledger, key: Key, n: nat)
    requires Paired(was) && Paired(now)
  {
    forall h :: At(now, h) == At(was, h) || (At(now, h) == Number(l.epoch) && ProbedBy(|was|, l, key, n, h))
  }

  ghost predicate ProbedBy(words: nat, l: Ledger, key: Key, n: nat, h: HashValue)
    requires words > 0 && words % 2 == 0
  {
    exists m: nat :: m < n && SameCell(words, h, l.hash(m, l.tweak, key))
  }

  /** Recording the key once all its cells are marked. */
  lemma Recorded(was: seq<bv64>, now: seq<bv64>, l: Ledger, key: Key)
    requires Paired(was) && |now| == |was| && |l.log| == |l.epochs| && AllLive(was, l) && AllOwned(was, l)
    requires MarkedBy(was, now, l, key, l.funcs)
    requires forall n: nat | n < l.funcs :: At(now, l.hash(n, l.tweak, key)) == Number(l.epoch)
    ensures var next := l.(log := l.log + [key], epochs := l.epochs + [l.epoch]);
            AllLive(now, next) && AllOwned(now, next)
  {
    hide At, Number, SameCell;
    var next := l.(log := l.log + [key], epochs := l.epochs + [l.epoch]);
    forall k: nat, n: nat | next.Recent(k) && 0 <= n < l.funcs
      ensures Live(At(now, next.Probe(k, n)), next.epochs[k], l.epoch)
    {
      assert k < |l.log| ==> l.Recent(k) && next.Probe(k, n) == l.Probe(k, n);
    }
    forall h | At(now, h) != 0 ensures Owned(|now|, next, h, At(now, h)) {
      StillOwned(was, now, l, key, h);
    }
  }

  lemma StillOwned(was: seq<bv64>, now: seq<bv64>, l: Ledger, key: Key, h: HashValue)
    requires Paired(was) && |now| == |was| && |l.log| == |l.epochs| && AllOwned(was, l) && At(now, h) != 0
    requires MarkedBy(was, now, l, key, l.funcs)
    ensures Owned(|now|, l.(log := l.log + [key], epochs := l.epochs + [l.epoch]), h, At(now, h))
  {
    hide At, Number, SameCell;
    var next := l.(log := l.log + [key], epochs := l.epochs + [l.epoch]);
    if At(now, h) == At(was, h) {
      var k: nat, n: nat :| l.Recent(k) && 0 <= n < l.funcs && SameCell(|was|, h, l.Probe(k, n))
                  && At(was, h) == Number(l.epochs[k]);
      assert next.Recent(k) && next.Probe(k, n) == l.Probe(k, n);
    } else {
      var m: nat :| m < l.funcs && SameCell(|was|, h, l.hash(m, l.tweak, key));
      assert next.Recent(|l.log|) && next.Probe(|l.log|, m) == l.hash(m, l.tweak, key);
    }
  }

  class RollingBloomFilter {
    const hash: Hasher
    const nEntriesPerGeneration: nat
    const nHashFuncs: nat
    var nEntriesThisGeneration: nat
    var nGeneration: nat
    var nTweak: nat
    const data: array<bv64>

    /** The keys inserted since the last reset, and the epoch of each. */
    ghost var log: seq<Key>
    ghost var epochs: seq<nat>
    ghost var epoch: nat

    ghost predicate Valid()
      reads this, data
    {
      Core() && nEntriesThisGeneration <= nEntriesPerGeneration
    }

    ghost predicate Core()
      reads this, data
    {
      && nEntriesPerGeneration > 0 && nHashFuncs > 0 && Paired(data[..])
      && nGeneration == Number(epoch)
      && Dated(|log|, epochs, epoch, nEntriesPerGeneration, nEntriesThisGeneration)
      && AllLive(data[..], Inserted()) && AllOwned(data[..], Inserted())
    }

    ghost function Inserted(): Ledger
      reads this
    {
      Ledger(hash, nTweak, nHashFuncs, log, epochs, epoch)
    }

    /** How many of the latest keys are certain to be found. */
    function Remembered(): nat
      reads this
    {
      2 * nEntriesPerGeneration + nEntriesThisGeneration
    }

    constructor (hash: Hasher, nElements: nat, nHashFuncs: nat, pairs: nat, tweak: nat)
      requires nElements > 0 && nHashFuncs > 0 && pairs > 0
      ensures Valid() && log == [] && fresh(data) && nTweak == tweak
      ensures this.hash == hash && this.nHashFuncs == nHashFuncs
      ensures nElements <= 2 * nEntriesPerGeneration <= nElements + 1 && data.Length == 2 * pairs
    {
      this.hash, this.nHashFuncs := hash, nHashFuncs;
      nEntriesPerGeneration := (nElements + 1) / 2;
      data := new bv64[2 * pairs];
      new;
      Reset(tweak);
    }

    method Reset(tweak: nat)
      requires nEntriesPerGeneration > 0 && nHashFuncs > 0 && data.Length > 0 && data.Length % 2 == 0
      modifies this, data
      ensures Valid() && log == [] && nTweak == tweak
      ensures forall i | 0 <= i < data.Length :: data[i] == 0
    {
      hide AllOwned;
      nTweak, nEntriesThisGeneration, nGeneration := tweak, 0, 1;
      log, epochs, epoch := [], [], 0;
      for i := 0 to data.Length
        invariant nTweak == tweak && nEntriesThisGeneration == 0 && nGeneration == 1
        invariant log == [] && epochs == [] && epoch == 0
        invariant forall k | 0 <= k < i :: data[k] == 0
      {
        data[i] := 0;
      }
      AllClear(data[..], Inserted());
    }

    /** Clear every cell of one generation. */
    method Wipe(generation: nat)
      requires Paired(data[..]) && 1 <= generation <= 3
      modifies data
      ensures forall h :: At(data[..], h) == if At(old(data[..]), h) == generation then 0 else At(old(data[..]), h)
    {
      hide Others, Masked, At, WipedPart;
      ghost var was := data[..];
      WipedNone(was, generation);
      var p := 0;
      while p < data.Length
        invariant p % 2 == 0 && p <= data.Length && WipedPart(was, data[..], generation, p)
      {
        WipedNext(was, data[..], generation, p);
        var p1, p2 := data[p], data[p + 1];
        var mask := Others(p1, p2, Low(generation), High(generation));
        data[p] := Masked(p1, mask);
        data[p + 1] := Masked(p2, mask);
        p := p + 2;
      }
      WipedAll(was, data[..], generation);
    }

    /** Mark one cell. */
    method Mark(h: HashValue)
      requires Paired(data[..]) && 1 <= nGeneration <= 3
      modifies data
      ensures forall g :: At(data[..], g) == if SameCell(data.Length, g, h) then nGeneration else At(old(data[..]), g)
    {
      hide Put, Generation, PairOf, BitOf;
      ghost var was := data[..];
      var p, b := PairOf(data.Length, h), BitOf(h);
      data[p] := Put(data[p], Low(nGeneration), b);
      data[p + 1] := Put(data[p + 1], High(nGeneration), b);
      forall g ensures At(data[..], g) == if SameCell(data.Length, g, h) then nGeneration else At(was, g) {
        if PairOf(data.Length, g) == p {
          PutWords(was[p], was[p + 1], nGeneration, b, BitOf(g));
        }
      }
    }

    /** Begin a new epoch: reuse the oldest generation number, wiping its cells. */
    method Roll()
      requires Valid() && nEntriesThisGeneration == nEntriesPerGeneration
      modifies this`nEntriesThisGeneration, this`nGeneration, this`epoch, data
      ensures nEntriesThisGeneration == 0 && epoch == old(epoch) + 1 && Core()
    {
      hide At, Number, AllLive, AllOwned;
      OneMore(epoch, nEntriesPerGeneration);
      NextNumber(epoch);
      nEntriesThisGeneration := 0;
      nGeneration := nGeneration + 1;
      if nGeneration == 4 {
        nGeneration := 1;
      }
      ghost var was := data[..];
      Wipe(nGeneration);
      Rolled(was, data[..], Inserted());
      epoch := epoch + 1;
    }

    method Insert(key: Key)
      requires Valid()
      modifies this`nEntriesThisGeneration, this`nGeneration, this`log, this`epochs, this`epoch, data
      ensures Valid() && log == old(log) + [key]
    {
      hide At, Number, Dated, AllLive, AllOwned, MarkedBy, PairOf, BitOf;
      if nEntriesThisGeneration == nEntriesPerGeneration {
        Roll();
      }
      DatedNext(|log|, epochs, epoch, nEntriesPerGeneration, nEntriesThisGeneration);
      nEntriesThisGeneration := nEntriesThisGeneration + 1;
      ghost var before, l := data[..], Inserted();
      MarkedNone(before, l, key);
      for n := 0 to nHashFuncs
        invariant forall m: nat | m < n :: At(data[..], l.hash(m, l.tweak, key)) == Number(l.epoch)
        invariant MarkedBy(before, data[..], l, key, n)
        modifies data
      {
        ghost var was := data[..];
        Mark(hash(n, nTweak, key));
        MarkedNext(before, was, data[..], l, key, n);
      }
      Recorded(before, data[..], l, key);
      log, epochs := log + [key], epochs + [epoch];
    }

    /**
      Found exactly if every cell of the key is shared with one of the remembered
      keys; in particular the remembered keys themselves are always found.
     */
    method Contains(key: Key) returns (found: bool)
      requires Valid()
      ensures found <==> forall n | 0 <= n < nHashFuncs :: Shared(hash(n, nTweak, key))
      ensures forall k | 0 <= k < |log| && k + Remembered() >= |log| && log[k] == key :: found
    {
      hide Bit, AllLive, AllOwned, Dated, SameCell;
      for n := 0 to nHashFuncs
        invariant forall m | 0 <= m < n :: Shared(hash(m, nTweak, key))
      {
        var h := hash(n, nTweak, key);
        var p := PairOf(data.Length, h);
        EitherBit(data[p], data[p + 1], BitOf(h));
        SetIffShared(h);
        if !Bit(Either(data[p], data[p + 1]), BitOf(h)) {
          OwnCells(key, n);
          return false;
        }
      }
      return true;
    }

    /** Some remembered key points to the same cell. */
    ghost predicate Shared(h: HashValue)
      requires data.Length > 0 && data.Length % 2 == 0
      reads this
    {
      exists k: nat, n: nat :: k < |log| && k + Remembered() >= |log| && 0 <= n < nHashFuncs
                     && SameCell(data.Length, h, hash(n, nTweak, log[k]))
    }

    lemma OwnCells(key: Key, n: nat)
      requires Valid() && n < nHashFuncs
      ensures forall k | 0 <= k < |log| && k + Remembered() >= |log| && log[k] == key :: Shared(hash(n, nTweak, key))
    {
      hide AllLive, AllOwned, Dated;
    }

    lemma SetShared(h: HashValue)
      requires Valid() && At(data[..], h) != 0
      ensures Shared(h)
    {
      hide At, SameCell, Number, AllLive;
      var l := Inserted();
      var k: nat, n: nat :| l.Recent(k) && 0 <= n < l.funcs && SameCell(data.Length, h, l.Probe(k, n));
      RecentEpoch(epochs[k], epoch, k, nEntriesPerGeneration);
      assert hash(n, nTweak, log[k]) == l.Probe(k, n);
    }

    lemma SharedSet(h: HashValue)
      requires Valid() && Shared(h)
      ensures At(data[..], h) != 0
    {
      hide At, SameCell, Number, AllOwned;
      var l := Inserted();
      var k: nat, n: nat :| k < |log| && k + Remembered() >= |log| && 0 <= n < nHashFuncs
                   && SameCell(data.Length, h, hash(n, nTweak, log[k]));
      RecentEpoch(epochs[k], epoch, k, nEntriesPerGeneration);
      assert l.Recent(k) && hash(n, nTweak, log[k]) == l.Probe(k, n);
      SameAt(data[..], h, l.Probe(k, n));
    }

    lemma SetIffShared(h: HashValue)
      requires Valid()
      ensures At(data[..], h) != 0 <==> Shared(h)
    {
      hide At, AllLive, AllOwned, Dated, RollingBloomFilter.Shared;
      if At(data[..], h) != 0 {
        SetShared(h);
      }
      if Shared(h) {
        SharedSet(h);
      }
    }
  }

  lemma AllClear(words: seq<bv64>, l: Ledger)
    requires Paired(words) && (forall i | 0 <= i < |words| :: words[i] == 0) && l.log == [] && l.epochs == []
    ensures AllOwned(words, l)
  {
    forall h ensures At(words, h) == 0 {
      ZeroBit(BitOf(h));
    }
  }

  lemma ZeroBit(b: bv6)
    ensures !Bit(0, b)
  {
  }

  lemma SameAt(words: seq<bv64>, g: HashValue, h: HashValue)
    requires Paired(words) && SameCell(|words|, g, h)
    ensures At(words, g) == At(words, h)
  {
  }

  lemma MarkedNone(words: seq<bv64>, l: Ledger, key: Key)
    requires Paired(words)
    ensures MarkedBy(words, words, l, key, 0)
  {
    hide At;
  }

  lemma MarkedNext(before: seq<bv64>, was: seq<bv64>, now: seq<bv64>, l: Ledger, key: Key, n: nat)
    requires Paired(before) && |was| == |before| && |now| == |before| && MarkedBy(before, was, l, key, n)
    requires forall g ::
               At(now, g) == if SameCell(|was|, g, l.hash(n, l.tweak, key)) then Number(l.epoch) else At(was, g)
    ensures MarkedBy(before, now, l, key, n + 1)
  {
    hide At, SameCell, Number;
    forall h
      ensures At(now, h) == At(before, h) || (At(now, h) == Number(l.epoch) && ProbedBy(|before|, l, key, n + 1, h))
    {
      if ProbedBy(|before|, l, key, n, h) {
        var m: nat :| m < n && SameCell(|before|, h, l.hash(m, l.tweak, key));
        assert m < n + 1;
      }
    }
  }

  lemma OneMore(epoch: nat, per: nat)
    ensures (epoch + 1) * per == epoch * per + per
  {
  }

  lemma RecentEpoch(since: nat, epoch: nat, k: nat, per: nat)
    requires since * per <= k < since * per + per
    ensures since + 2 >= epoch <==> k >= epoch * per - 2 * per
  {
    assert since + 1 <= epoch - 2 ==> (since + 1) * per <= (epoch - 2) * per;
    assert since >= epoch - 2 ==> since * per >= (epoch - 2) * per;
  }

  lemma NextNumber(epoch: nat)
    ensures Number(epoch + 1) == if Number(epoch) == 3 then 1 else Number(epoch) + 1
  {
  }

  /** Over a whole run, the last `nElements` keys inserted are found. */
  method Recall(hash: Hasher, nElements: nat, nHashFuncs: nat, pairs: nat, tweak: nat, keys: seq<Key>, probe: Key)
    returns (found: bool)
    requires nElements > 0 && nHashFuncs > 0 && pairs > 0
    ensures (exists k :: 0 <= k < |keys| && k + nElements >= |keys| && keys[k] == probe) ==> found
  {
    hide RollingBloomFilter.Core;
    var filter := new RollingBloomFilter(hash, nElements, nHashFuncs, pairs, tweak);
    for i := 0 to |keys|
      invariant filter.Valid() && filter.log == keys[..i] && fresh(filter) && fresh(filter.data)
    {
      filter.Insert(keys[i]);
    }
    assert keys[..|keys|] == keys;
    found := filter.Contains(probe);
  }

  /** After one key has been inserted, another is found exactly if it points to the same cell. */
  method Distinguish(hash: Hasher, pairs: nat, tweak: nat, key: Key, other: Key) returns (found: bool)
    requires 0 < pairs && hash(0, tweak, key) < 128 * pairs && hash(0, tweak, other) < 128 * pairs
    ensures found <==> hash(0, tweak, key) / 128 == hash(0, tweak, other) / 128
                       && hash(0, tweak, key) % 64 == hash(0, tweak, other) % 64
  {
    hide RollingBloomFilter.Core, SameCell;
    var filter := new RollingBloomFilter(hash, 1, 1, pairs, tweak);
    filter.Insert(key);
    found := filter.Contains(other);
    SmallCells(pairs, hash(0, tweak, other), hash(0, tweak, key));
    assert filter.log == [key];
    if SameCell(2 * pairs, hash(0, tweak, other), hash(0, tweak, key)) {
      assert 0 + filter.Remembered() >= |filter.log| && filter.log[0] == key;
      assert filter.Shared(hash(0, tweak, other));
    }
    assert found <==> filter.Shared(hash(0, filter.nTweak, other));
  }

  lemma SmallCells(pairs: nat, g: HashValue, h: HashValue)
    requires pairs > 0 && g < 128 * pairs && h < 128 * pairs
    ensures SameCell(2 * pairs, g, h) <==> g / 128 == h / 128 && g % 64 == h % 64
  {
    hide SameCell;
    SameCellIff(2 * pairs, g, h);
    assert 2 * pairs * 64 == 128 * pairs;
    SmallRemainder(g, 128 * pairs);
    SmallRemainder(h, 128 * pairs);
  }
}
