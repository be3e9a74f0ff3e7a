/**
  Partial Merkle trees: a block's transaction ids and a mask are turned into flag
  bits and hashes from which the root and the selected ids can be recovered.
 */
module PartialMerkle {

  import opened Basics
  import opened Digits
  import opened MerkleTree

  // The leaves below a node.

  function First(h: nat, pos: nat): nat {
    pos * Pow(2, h)
  }

  function Beyond(n: nat, h: nat, pos: nat): nat {
    if (pos + 1) * Pow(2, h) < n then (pos + 1) * Pow(2, h) else n
  }

  ghost predicate AnyMatch(mask: seq<bool>, lo: nat, hi: nat) {
    exists p :: lo <= p < hi && p < |mask| && mask[p]
  }

  /** The partial tree for a mask: everything below an unmatched node is cut off. */
  ghost function TreeOf(f: PairHash, txids: seq<Hash>, mask: seq<bool>, h: nat, pos: nat): Tree
    requires |mask| == |txids| && pos < Width(|txids|, h)
    decreases h
  {
    if h == 0 then
      NodeExists(|txids|, 0, pos);
      Leaf(txids[pos], mask[pos])
    else if !AnyMatch(mask, First(h, pos), Beyond(|txids|, h, pos)) then
      Stub(CalcHash(f, txids, h, pos))
    else
      Split(|txids|, h, pos);
      var left := TreeOf(f, txids, mask, h - 1, 2 * pos);
      if HasRight(|txids|, h, pos) then Fork(left, TreeOf(f, txids, mask, h - 1, 2 * pos + 1)) else Only(left)
  }

  /** The encoding of a node's tree in terms of its children's. */
  lemma TreeCases(f: PairHash, txids: seq<Hash>, mask: seq<bool>, h: nat, pos: nat)
    requires |mask| == |txids| && pos < Width(|txids|, h)
    ensures var t := TreeOf(f, txids, mask, h, pos);
            var any := AnyMatch(mask, First(h, pos), Beyond(|txids|, h, pos));
            if h == 0 || !any then
              Bits(t) == [any] && Hashes(t) == [CalcHash(f, txids, h, pos)]
            else
              && 2 * pos < Width(|txids|, h - 1)
              && var l := TreeOf(f, txids, mask, h - 1, 2 * pos);
                 if HasRight(|txids|, h, pos) then
                   var r := TreeOf(f, txids, mask, h - 1, 2 * pos + 1);
                   Bits(t) == [true] + Bits(l) + Bits(r) && Hashes(t) == Hashes(l) + Hashes(r)
                 else
                   Bits(t) == [true] + Bits(l) && Hashes(t) == Hashes(l)
  {
    hide Width, First, Beyond;
    if h == 0 {
      LeafSpan(|txids|, pos);
    } else {
      Split(|txids|, h, pos);
    }
  }

  /** The selected ids from place `lo` up to `hi`, in order. */
  ghost function Selected(txids: seq<Hash>, mask: seq<bool>, lo: nat, hi: nat): seq<Hash>
    requires |mask| == |txids| && hi <= |txids|
    decreases hi - lo
  {
    if lo >= hi then []
    else (if mask[lo] then [txids[lo]] else []) + Selected(txids, mask, lo + 1, hi)
  }

  ghost function SelectedPlaces(mask: seq<bool>, lo: nat, hi: nat): seq<nat>
    requires hi <= |mask|
    decreases hi - lo
  {
    if lo >= hi then []
    else (if mask[lo] then [lo] else []) + SelectedPlaces(mask, lo + 1, hi)
  }

  lemma {:induction false} SelectedJoin(txids: seq<Hash>, mask: seq<bool>, lo: nat, mid: nat, hi: nat)
    requires |mask| == |txids| && lo <= mid <= hi <= |txids|
    ensures Selected(txids, mask, lo, hi) == Selected(txids, mask, lo, mid) + Selected(txids, mask, mid, hi)
    ensures SelectedPlaces(mask, lo, hi) == SelectedPlaces(mask, lo, mid) + SelectedPlaces(mask, mid, hi)
    decreases mid - lo
  {
    if lo < mid {
      SelectedJoin(txids, mask, lo + 1, mid, hi);
    }
  }

  lemma {:induction false} NoneSelected(txids: seq<Hash>, mask: seq<bool>, lo: nat, hi: nat)
    requires |mask| == |txids| && hi <= |txids| && !AnyMatch(mask, lo, hi)
    ensures Selected(txids, mask, lo, hi) == [] && SelectedPlaces(mask, lo, hi) == []
    decreases hi - lo
  {
    if lo < hi {
      assert !mask[lo];
      NoneSelected(txids, mask, lo + 1, hi);
    }
  }

  /** How the leaves of a node are shared out among its children. */
  lemma Halves(n: nat, h: nat, pos: nat)
    requires h > 0 && pos < Width(n, h)
    ensures 2 * pos < Width(n, h - 1) && First(h, pos) == First(h - 1, 2 * pos)
    ensures HasRight(n, h, pos) ==>
              && 2 * pos + 1 < Width(n, h - 1)
              && Beyond(n, h - 1, 2 * pos) == First(h - 1, 2 * pos + 1)
              && Beyond(n, h, pos) == Beyond(n, h - 1, 2 * pos + 1)
    ensures !HasRight(n, h, pos) ==> Beyond(n, h, pos) == Beyond(n, h - 1, 2 * pos)
    ensures First(h, pos) < Beyond(n, h, pos) <= n
  {
    hide Width;
    Split(n, h, pos);
    NodeExists(n, h, pos);
  }

  lemma LeafSpan(n: nat, pos: nat)
    requires pos < Width(n, 0)
    ensures First(0, pos) == pos && Beyond(n, 0, pos) == pos + 1 <= n
  {
    NodeExists(n, 0, pos);
  }

  /**
    The tree for a mask has the shape and the root of the full tree, and reports
    exactly the selected ids with their places.
   */
  lemma {:induction false} TreeOfFacts(f: PairHash, txids: seq<Hash>, mask: seq<bool>, h: nat, pos: nat)
    requires |mask| == |txids| && pos < Width(|txids|, h)
    ensures First(h, pos) < Beyond(|txids|, h, pos) <= |txids|
    ensures var t := TreeOf(f, txids, mask, h, pos);
            && Shaped(t, |txids|, h, pos)
            && Root(f, t) == CalcHash(f, txids, h, pos)
            && Ids(t) == Selected(txids, mask, First(h, pos), Beyond(|txids|, h, pos))
            && Places(t, pos) == SelectedPlaces(mask, First(h, pos), Beyond(|txids|, h, pos))
            && |Hashes(t)| <= Beyond(|txids|, h, pos) - First(h, pos)
    decreases h
  {
    hide Width, First, Beyond;
    var n := |txids|;
    if h == 0 {
      LeafSpan(n, pos);
    } else {
      Halves(n, h, pos);
      if !AnyMatch(mask, First(h, pos), Beyond(n, h, pos)) {
        NoneSelected(txids, mask, First(h, pos), Beyond(n, h, pos));
      } else {
        TreeOfFacts(f, txids, mask, h - 1, 2 * pos);
        if HasRight(n, h, pos) {
          TreeOfFacts(f, txids, mask, h - 1, 2 * pos + 1);
          SelectedJoin(txids, mask, First(h, pos), First(h - 1, 2 * pos + 1), Beyond(n, h, pos));
        }
      }
    }
  }

  /** No more than one hash, plus one per selected id and level. */
  lemma {:induction false} HashBound(f: PairHash, txids: seq<Hash>, mask: seq<bool>, h: nat, pos: nat)
    requires |mask| == |txids| && pos < Width(|txids|, h)
    ensures var t := TreeOf(f, txids, mask, h, pos);
            |Hashes(t)| <= 1 + |Ids(t)| * h && (t.Only? || t.Fork? ==> |Ids(t)| >= 1)
    decreases h
  {
    hide Width, First, Beyond, AnyMatch;
    var n := |txids|;
    var t := TreeOf(f, txids, mask, h, pos);
    if t.Only? || t.Fork? {
      Halves(n, h, pos);
      SomeSelected(f, txids, mask, h, pos);
      HashBound(f, txids, mask, h - 1, 2 * pos);
      if t.Fork? {
        HashBound(f, txids, mask, h - 1, 2 * pos + 1);
        OneMoreLevel(|Ids(t.left)|, |Ids(t.right)|, h);
      } else {
        OneMoreLevel(|Ids(t)|, 0, h);
      }
    }
  }

  lemma OneMoreLevel(a: nat, b: nat, h: nat)
    ensures (a + b) * h == a * (h - 1) + b * (h - 1) + (a + b)
  {
  }

  lemma SomeSelected(f: PairHash, txids: seq<Hash>, mask: seq<bool>, h: nat, pos: nat)
    requires |mask| == |txids| && pos < Width(|txids|, h)
    requires AnyMatch(mask, First(h, pos), Beyond(|txids|, h, pos))
    ensures |Ids(TreeOf(f, txids, mask, h, pos))| >= 1
  {
    hide Width, First, Beyond, TreeOf;
    TreeOfFacts(f, txids, mask, h, pos);
    var p :| First(h, pos) <= p < Beyond(|txids|, h, pos) && p < |mask| && mask[p];
    SelectedJoin(txids, mask, First(h, pos), p, Beyond(|txids|, h, pos));
  }

  // How many flag bits and bytes the encoding takes, from the number of transactions and the mask.

  /** The last node at height `h` has a single child, and something selected below it. */
  ghost predicate SingleAt(mask: seq<bool>, n: nat, h: nat)
    requires 0 < h && 0 < n
  {
    Width(n, h - 1) % 2 == 1 && AnyMatch(mask, First(h, Last(n, h)), n)
  }

  /** The last node at height `h`. */
  function Last(n: nat, h: nat): nat
    requires n > 0
  {
    LastExists(n, h);
    Width(n, h) - 1
  }

  lemma LastExists(n: nat, h: nat)
    requires n > 0
    ensures Width(n, h) > 0
  {
    NodeExists(n, h, 0);
  }

  /** At how many heights up to `h` that is so. */
  ghost function SinglesUpTo(mask: seq<bool>, n: nat, h: nat): nat
    requires n > 0
  {
    if h == 0 then 0 else (if SingleAt(mask, n, h) then 1 else 0) + SinglesUpTo(mask, n, h - 1)
  }

  /** A node on the way down from the last node at `h` is the last one too. */
  lemma LastBelow(n: nat, h: nat, pos: nat)
    requires n > 0 && h > 0 && pos < Width(n, h)
    ensures HasRight(n, h, pos) ==> (pos == Last(n, h) <==> 2 * pos + 1 == Last(n, h - 1)) && 2 * pos != Last(n, h - 1)
    ensures HasRight(n, h, pos) && pos == Last(n, h) ==> Width(n, h - 1) % 2 == 0
    ensures !HasRight(n, h, pos) ==> pos == Last(n, h) && 2 * pos == Last(n, h - 1) && Width(n, h - 1) % 2 == 1
    ensures First(h, Last(n, h)) <= First(h - 1, Last(n, h - 1)) && Beyond(n, h, Last(n, h)) == n
  {
    hide Width, First, Beyond;
    WidthStep(n, h - 1);
    LastExists(n, h - 1);
    Split(n, h, pos);
    LastSpan(n, h);
  }

  lemma LastSpan(n: nat, h: nat)
    requires n > 0 && h > 0
    ensures First(h, Last(n, h)) <= First(h - 1, Last(n, h - 1)) && Beyond(n, h, Last(n, h)) == n
  {
    hide Width;
    WidthStep(n, h - 1);
    LastExists(n, h - 1);
    Split(n, h, Last(n, h));
    NodeExists(n, h, Last(n, h) + 1);
    TimesMonotone(2 * Last(n, h), Last(n, h - 1), Pow(2, h - 1), Pow(2, h - 1));
  }

  lemma {:induction false} NoneBelow(mask: seq<bool>, n: nat, h: nat)
    requires n > 0 && !AnyMatch(mask, First(h, Last(n, h)), n)
    ensures SinglesUpTo(mask, n, h) == 0
  {
    hide Width, First;
    if h > 0 {
      LastSpan(n, h);
      assert !AnyMatch(mask, First(h - 1, Last(n, h - 1)), n);
      NoneBelow(mask, n, h - 1);
    }
  }

  /** Single-child nodes occur only on the path to the last leaf, at the heights that the mask and the count say. */
  lemma {:induction false} SinglesCounted(f: PairHash, txids: seq<Hash>, mask: seq<bool>, h: nat, pos: nat)
    requires |mask| == |txids| > 0 && pos < Width(|txids|, h)
    ensures Singles(TreeOf(f, txids, mask, h, pos))
         == if pos == Last(|txids|, h) then SinglesUpTo(mask, |txids|, h) else 0
    decreases h
  {
    hide Width, First, Beyond, AnyMatch, HasRight, Last;
    var n := |txids|;
    if h > 0 {
      Halves(n, h, pos);
      LastBelow(n, h, pos);
      if AnyMatch(mask, First(h, pos), Beyond(n, h, pos)) {
        SinglesCounted(f, txids, mask, h - 1, 2 * pos);
        if HasRight(n, h, pos) {
          SinglesCounted(f, txids, mask, h - 1, 2 * pos + 1);
        }
      } else if pos == Last(n, h) {
        NoneBelow(mask, n, h);
      }
    }
  }

  /**
    The exact number of flag bits, and when the documented bound of twice the hashes
    less one holds: no level below the root with an odd number of nodes has anything
    selected below the parent of its last node.
   */
  lemma BitBoundIff(f: PairHash, txids: seq<Hash>, mask: seq<bool>, h: nat)
    requires |mask| == |txids| > 0 && Width(|txids|, h) == 1
    ensures var t := TreeOf(f, txids, mask, h, 0);
            && |Bits(t)| == 2 * |Hashes(t)| - 1 + SinglesUpTo(mask, |txids|, h)
            && (|Bits(t)| <= 2 * |Hashes(t)| - 1 <==>
                forall k | 0 < k <= h && Width(|txids|, k - 1) % 2 == 1 ::
                  !AnyMatch(mask, First(k, Last(|txids|, k)), |txids|))
  {
    hide Width, First, AnyMatch, TreeOf;
    SinglesCounted(f, txids, mask, h, 0);
    BitCount(TreeOf(f, txids, mask, h, 0));
    NoSingles(mask, |txids|, h);
  }

  lemma {:induction false} NoSingles(mask: seq<bool>, n: nat, h: nat)
    requires n > 0
    ensures SinglesUpTo(mask, n, h) == 0 <==>
            forall k | 0 < k <= h && Width(n, k - 1) % 2 == 1 :: !AnyMatch(mask, First(k, Last(n, k)), n)
  {
    hide Width, First, AnyMatch, Last;
    if h > 0 {
      NoSingles(mask, n, h - 1);
    }
  }

  // The encoded size: count, hashes and flag bytes, the latter two with their number in front.

  /** The number of bytes of a list's length. */
  function Prefix(n: nat): nat {
    if n < 253 then 1 else if n <= 0xffff then 3 else if n <= 0xffff_ffff then 5 else 9
  }

  function EncodedSize(t: Tree): nat {
    var bytes := (|Bits(t)| + 7) / 8;
    4 + Prefix(|Hashes(t)|) + 32 * |Hashes(t)| + Prefix(bytes) + bytes
  }

  /** The documented guarantee: 10 + ceil(32.25 * N) bytes for N hashes. */
  function Guarantee(hashes: nat): nat {
    10 + 32 * hashes + (hashes + 3) / 4
  }

  /**
    When the documented size guarantee holds: the flag bytes number at most a quarter
    of the hashes, rounded up, or the lists are short enough for their lengths to
    leave room.
   */
  lemma SizeBoundIff(f: PairHash, txids: seq<Hash>, mask: seq<bool>, h: nat)
    requires |mask| == |txids| > 0 && Width(|txids|, h) == 1
    ensures var t := TreeOf(f, txids, mask, h, 0);
            var n := |Hashes(t)|;
            var bytes := (2 * n + 6 + SinglesUpTo(mask, |txids|, h)) / 8;
            EncodedSize(t) <= Guarantee(n) <==>
              && n <= 0xffff
              && (bytes <= (n + 3) / 4 || (bytes <= 252 && bytes <= (n + 3) / 4 + if n < 253 then 4 else 2))
  {
    hide Width, TreeOf, SinglesUpTo;
    BitBoundIff(f, txids, mask, h);
    HashesSome(TreeOf(f, txids, mask, h, 0));
  }

  lemma HashesSome(t: Tree)
    ensures |Hashes(t)| >= 1
  {
    BitCount(t);
  }

  lemma {:induction false} AllHashes(f: PairHash, txids: seq<Hash>, mask: seq<bool>, h: nat, pos: nat)
    requires |mask| == |txids| && pos < Width(|txids|, h) && forall i | 0 <= i < |mask| :: mask[i]
    ensures |Hashes(TreeOf(f, txids, mask, h, pos))| == Beyond(|txids|, h, pos) - First(h, pos)
    decreases h
  {
    hide Width, First, Beyond;
    var n := |txids|;
    if h == 0 {
      LeafSpan(n, pos);
    } else {
      Halves(n, h, pos);
      assert mask[First(h, pos)];
      AllHashes(f, txids, mask, h - 1, 2 * pos);
      if HasRight(n, h, pos) {
        AllHashes(f, txids, mask, h - 1, 2 * pos + 1);
      }
    }
  }

  /** Three transactions with the last one selected take four bits for two hashes. */
  lemma FourBitsForTwoHashes(f: PairHash)
    ensures var t := TreeOf(f, [1, 2, 3], [false, false, true], 2, 0);
            |Hashes(t)| == 2 && |Bits(t)| == 4
  {
    var txids, mask: seq<bool> := [1, 2, 3], [false, false, true];
    assert Pow(2, 1) == 2 && Pow(2, 2) == 4;
    assert mask[2] && First(2, 0) == 0 && Beyond(3, 2, 0) == 3;
    assert AnyMatch(mask, 0, 3);
    assert First(1, 0) == 0 && Beyond(3, 1, 0) == 2 && !AnyMatch(mask, 0, 2);
    assert First(1, 1) == 2 && Beyond(3, 1, 1) == 3 && AnyMatch(mask, 2, 3);
    assert TreeOf(f, txids, mask, 1, 0) == Stub(CalcHash(f, txids, 1, 0));
    assert TreeOf(f, txids, mask, 1, 1) == Only(Leaf(3, true));
  }

  lemma SomeWidths(n: nat)
    requires n == 1012
    ensures Width(n, 0) == 1012 && Width(n, 1) == 506 && Width(n, 2) == 253 && Width(n, 3) == 127 && Width(n, 4) == 64
    ensures Width(n, 5) == 32 && Width(n, 6) == 16 && Width(n, 7) == 8 && Width(n, 8) == 4 && Width(n, 9) == 2
    ensures Width(n, 10) == 1
  {
    NoLevels(n);
    hide Width;
    forall h: nat | h < 10 ensures Width(n, h + 1) == (Width(n, h) + 1) / 2 {
      WidthStep(n, h);
    }
    assert Width(n, 0 + 1) == 506 && Width(n, 1 + 1) == 253 && Width(n, 2 + 1) == 127 && Width(n, 3 + 1) == 64;
    assert Width(n, 4 + 1) == 32 && Width(n, 5 + 1) == 16 && Width(n, 6 + 1) == 8 && Width(n, 7 + 1) == 4;
    assert Width(n, 8 + 1) == 2 && Width(n, 9 + 1) == 1;
  }

  lemma NoLevels(n: nat)
    ensures Width(n, 0) == n
  {
  }

  lemma {:induction false} AllSingles(mask: seq<bool>, n: nat, h: nat)
    requires |mask| == n > 0 && (forall i | 0 <= i < n :: mask[i]) && h > 0
    ensures SingleAt(mask, n, h) <==> Width(n, h - 1) % 2 == 1
  {
    hide Width;
    LastExists(n, h);
    NodeExists(n, h, Last(n, h));
    assert mask[First(h, Last(n, h))];
  }

  lemma TwoSingles(mask: seq<bool>, n: nat)
    requires |mask| == n == 1012 && forall i | 0 <= i < n :: mask[i]
    ensures SinglesUpTo(mask, n, 10) == 2
  {
    hide Width, SingleAt;
    SomeWidths(n);
    forall h: nat | 0 < h <= 10 ensures SingleAt(mask, n, h) <==> Width(n, h - 1) % 2 == 1 {
      AllSingles(mask, n, h);
    }
    assert SinglesUpTo(mask, n, 1) == 0;
    assert SinglesUpTo(mask, n, 3) == 1;
    assert SinglesUpTo(mask, n, 4) == 2;
    assert SinglesUpTo(mask, n, 6) == 2;
    assert SinglesUpTo(mask, n, 8) == 2;
  }

  /** A block of 1012 transactions, all selected, takes one byte more than is guaranteed. */
  lemma OneByteTooMany(f: PairHash, txids: seq<Hash>)
    requires |txids| == 1012
    ensures var t := TreeOf(f, txids, seq(1012, _ => true), 10, 0);
            Width(1012, 10) == 1 && |Hashes(t)| == 1012 && EncodedSize(t) == Guarantee(1012) + 1
  {
    hide Width, TreeOf, SinglesUpTo;
    var mask := seq(1012, _ => true);
    SomeWidths(1012);
    AllHashes(f, txids, mask, 10, 0);
    TwoSingles(mask, 1012);
    BitBoundIff(f, txids, mask, 10);
  }

  // Flag bits packed eight to a byte, least significant bit first.

  type Octet = bv8

  function Mask(k: nat): Octet
    requires k < 8
  {
    if k == 0 then 1 else if k == 1 then 2 else if k == 2 then 4 else if k == 3 then 8
    else if k == 4 then 16 else if k == 5 then 32 else if k == 6 then 64 else 128
  }

  /** The first flag of a byte is its lowest bit. */
  lemma MaskIs(k: nat)
    requires k < 8
    ensures Mask(k) as int == Pow(2, k)
  {
    PowersOfTwo();
  }

  lemma PowersOfTwo()
    ensures Pow(2, 0) == 1 && Pow(2, 1) == 2 && Pow(2, 2) == 4 && Pow(2, 3) == 8
    ensures Pow(2, 4) == 16 && Pow(2, 5) == 32 && Pow(2, 6) == 64 && Pow(2, 7) == 128
  {
  }

  predicate Bit(bytes: seq<Octet>, p: nat)
    requires p < 8 * |bytes|
  {
    bytes[p / 8] & Mask(p % 8) != 0
  }

  lemma SetMask(b: Octet, j: nat, k: nat)
    requires j < 8 && k < 8
    ensures (b | Mask(j)) & Mask(k) != 0 <==> j == k || b & Mask(k) != 0
  {
  }

  lemma SetBit(bytes: seq<Octet>, p: nat, k: nat)
    requires p < 8 * |bytes| && k < 8 * |bytes|
    ensures Bit(bytes[p / 8 := bytes[p / 8] | Mask(p % 8)], k) <==> k == p || Bit(bytes, k)
  {
    hide Mask;
    if p / 8 == k / 8 {
      SetMask(bytes[p / 8], p % 8, k % 8);
    }
  }

  method PackBits(bits: seq<bool>) returns (bytes: seq<Octet>)
    ensures |bytes| == (|bits| + 7) / 8
    ensures forall p | 0 <= p < 8 * |bytes| :: Bit(bytes, p) <==> p < |bits| && bits[p]
  {
    hide Mask, Bit;
    bytes := seq((|bits| + 7) / 8, _ => 0);
    forall p | 0 <= p < 8 * |bytes| ensures !Bit(bytes, p) {
      ClearBit(bytes, p);
    }
    for p := 0 to |bits|
      invariant |bytes| == (|bits| + 7) / 8
      invariant forall k | 0 <= k < 8 * |bytes| :: Bit(bytes, k) <==> k < p && bits[k]
    {
      assert p / 8 < |bytes|;
      if bits[p] {
        var next := bytes[p / 8 := bytes[p / 8] | Mask(p % 8)];
        forall k | 0 <= k < 8 * |bytes| ensures Bit(next, k) <==> k < p + 1 && bits[k] {
          SetBit(bytes, p, k);
        }
        bytes := next;
      }
    }
  }

  lemma ClearBit(bytes: seq<Octet>, p: nat)
    requires p < 8 * |bytes| && bytes[p / 8] == 0
    ensures !Bit(bytes, p)
  {
  }

  method UnpackBits(bytes: seq<Octet>) returns (bits: seq<bool>)
    ensures |bits| == 8 * |bytes| && forall p | 0 <= p < |bits| :: bits[p] <==> Bit(bytes, p)
  {
    hide Mask, Bit;
    bits := [];
    for p := 0 to 8 * |bytes|
      invariant |bits| == p && forall k | 0 <= k < p :: bits[k] <==> Bit(bytes, k)
    {
      bits := bits + [Bit(bytes, p)];
    }
  }

  datatype Wire = Wire(nTransactions: nat, hashes: seq<Hash>, bytes: seq<Octet>)

  /** The height at which a single node is left. */
  function HeightFrom(n: nat, h: nat): (top: nat)
    ensures top >= h && (n > 0 ==> Width(n, top) == 1)
    decreases Width(n, h)
  {
    WidthStep(n, h);
    NodeExists(n, h, 0);
    if Width(n, h) > 1 then HeightFrom(n, h + 1) else h
  }

  function Height(n: nat): nat {
    HeightFrom(n, 0)
  }

  method TreeHeight(n: nat) returns (h: nat)
    ensures h == Height(n)
  {
    h := 0;
    while Width(n, h) > 1
      invariant HeightFrom(n, h) == Height(n)
      decreases Width(n, h)
    {
      WidthStep(n, h);
      h := h + 1;
    }
  }

  /** The Merkle root of a block. */
  function MerkleRoot(f: PairHash, txids: seq<Hash>): Hash
    requires |txids| > 0
  {
    CalcHash(f, txids, Height(|txids|), 0)
  }

  ghost function BlockTree(f: PairHash, txids: seq<Hash>, mask: seq<bool>): Tree
    requires |mask| == |txids| > 0
  {
    TreeOf(f, txids, mask, Height(|txids|), 0)
  }

  /** All sibling nodes of the full tree have different hashes. */
  ghost predicate SiblingsDiffer(f: PairHash, txids: seq<Hash>) {
    forall h: nat, pos: nat | h > 0 && HasRight(|txids|, h, pos) && 2 * pos < Width(|txids|, h - 1) ::
      CalcHash(f, txids, h - 1, 2 * pos) != CalcHash(f, txids, h - 1, 2 * pos + 1)
  }

  lemma {:induction false} NoTwins(f: PairHash, txids: seq<Hash>, mask: seq<bool>, h: nat, pos: nat)
    requires |mask| == |txids| && pos < Width(|txids|, h) && SiblingsDiffer(f, txids)
    ensures !Twins(f, TreeOf(f, txids, mask, h, pos))
    decreases h
  {
    hide Width, First, Beyond, AnyMatch;
    var t := TreeOf(f, txids, mask, h, pos);
    if t.Only? || t.Fork? {
      Halves(|txids|, h, pos);
      NoTwins(f, txids, mask, h - 1, 2 * pos);
      if t.Fork? {
        NoTwins(f, txids, mask, h - 1, 2 * pos + 1);
        TreeOfFacts(f, txids, mask, h - 1, 2 * pos);
        TreeOfFacts(f, txids, mask, h - 1, 2 * pos + 1);
      }
    }
  }

  /** The tests a partial tree has to pass. */
  ghost predicate Accepts(f: PairHash, n: nat, bits: seq<bool>, hashes: seq<Hash>) {
    && 0 < n <= MAX_BLOCK_BASE_SIZE / 60
    && |hashes| <= n && |hashes| <= |bits|
    && var p := Parse(n, bits, hashes, Height(n), 0);
       && p.Got? && !Twins(f, p.tree)
       && (|bits| - |p.bits| + 7) / 8 == (|bits| + 7) / 8
       && p.hashes == []
  }

  lemma EncodingParsed(f: PairHash, txids: seq<Hash>, mask: seq<bool>, bits: seq<bool>)
    requires 0 < |txids| == |mask| && Bits(BlockTree(f, txids, mask)) <= bits
    ensures var t := BlockTree(f, txids, mask);
            && Parse(|txids|, bits, Hashes(t), Height(|txids|), 0) == Got(t, bits[|Bits(t)|..], [])
            && |Hashes(t)| <= |txids| && |Hashes(t)| <= |Bits(t)|
  {
    hide Width, First, Beyond, TreeOf, HeightFrom, Parse, Bits, Hashes;
    var n, h := |txids|, Height(|txids|);
    var t := TreeOf(f, txids, mask, h, 0);
    TreeOfFacts(f, txids, mask, h, 0);
    BitCount(t);
    ParseComplete(t, n, h, 0, bits[|Bits(t)|..], []);
    assert Bits(t) + bits[|Bits(t)|..] == bits && Hashes(t) + [] == Hashes(t);
  }

  /** The encoding of a block's tree, padded to whole bytes, is accepted unless it has twins. */
  lemma AcceptsEncoding(f: PairHash, txids: seq<Hash>, mask: seq<bool>, bits: seq<bool>)
    requires 0 < |txids| == |mask|
    requires var t := BlockTree(f, txids, mask);
             Bits(t) <= bits && |bits| == (|Bits(t)| + 7) / 8 * 8
    ensures var t := BlockTree(f, txids, mask);
            Accepts(f, |txids|, bits, Hashes(t)) <==> |txids| <= MAX_BLOCK_BASE_SIZE / 60 && !Twins(f, t)
  {
    hide BlockTree, Height, Parse, Twins, Bits, Hashes;
    EncodingParsed(f, txids, mask, bits);
  }

  /** The reported ids are the block's transactions at the reported places. */
  ghost predicate Members(txids: seq<Hash>, ids: seq<Hash>, places: seq<nat>) {
    |ids| == |places| && forall i | 0 <= i < |ids| :: places[i] < |txids| && txids[places[i]] == ids[i]
  }

  class PartialMerkleTree {
    const f: PairHash
    var nTransactions: nat
    var vBits: seq<bool>
    var vHash: seq<Hash>
    var fBad: bool

    constructor (f: PairHash, txids: seq<Hash>, mask: seq<bool>)
      requires |mask| == |txids| > 0
      ensures this.f == f && nTransactions == |txids| && !fBad
      ensures vBits == Bits(BlockTree(f, txids, mask)) && vHash == Hashes(BlockTree(f, txids, mask))
    {
      this.f, nTransactions, fBad, vBits, vHash := f, |txids|, false, [], [];
      new;
      var h := TreeHeight(nTransactions);
      TraverseAndBuild(h, 0, txids, mask);
    }

    constructor Unserialize(f: PairHash, w: Wire)
      ensures this.f == f && nTransactions == w.nTransactions && vHash == w.hashes && !fBad
      ensures |vBits| == 8 * |w.bytes| && forall p | 0 <= p < |vBits| :: vBits[p] <==> Bit(w.bytes, p)
    {
      this.f, nTransactions, vHash, fBad := f, w.nTransactions, w.hashes, false;
      var bits := UnpackBits(w.bytes);
      vBits := bits;
    }

    method Serialize() returns (w: Wire)
      ensures w.nTransactions == nTransactions && w.hashes == vHash && |w.bytes| == (|vBits| + 7) / 8
      ensures forall p | 0 <= p < 8 * |w.bytes| :: Bit(w.bytes, p) <==> p < |vBits| && vBits[p]
    {
      var bytes := PackBits(vBits);
      w := Wire(nTransactions, vHash, bytes);
    }

    method TraverseAndBuild(height: nat, pos: nat, txids: seq<Hash>, mask: seq<bool>)
      requires nTransactions == |txids| == |mask| && pos < Width(|txids|, height)
      modifies this`vBits, this`vHash
      ensures vBits == old(vBits) + Bits(TreeOf(f, txids, mask, height, pos))
      ensures vHash == old(vHash) + Hashes(TreeOf(f, txids, mask, height, pos))
      decreases height
    {
      hide Width, First, Beyond, AnyMatch, TreeOf, Bits, Hashes;
      var any := ParentOfMatch(height, pos, mask);
      TreeCases(f, txids, mask, height, pos);
      vBits := vBits + [any];
      if height == 0 || !any {
        vHash := vHash + [CalcHash(f, txids, height, pos)];
        if height == 0 {
          LeafSpan(|txids|, pos);
        }
      } else {
        Halves(|txids|, height, pos);
        TraverseAndBuild(height - 1, 2 * pos, txids, mask);
        if 2 * pos + 1 < Width(nTransactions, height - 1) {
          TraverseAndBuild(height - 1, 2 * pos + 1, txids, mask);
        }
      }
    }

    /** Whether some leaf below the node is selected. */
    method ParentOfMatch(height: nat, pos: nat, mask: seq<bool>) returns (any: bool)
      requires nTransactions == |mask|
      ensures any <==> AnyMatch(mask, First(height, pos), Beyond(nTransactions, height, pos))
    {
      any := false;
      var p := pos * Pow(2, height);
      assert (pos + 1) * Pow(2, height) == p + Pow(2, height);
      while p < (pos + 1) * Pow(2, height) && p < nTransactions
        invariant First(height, pos) <= p <= (pos + 1) * Pow(2, height)
        invariant any <==> exists q :: First(height, pos) <= q < p && q < |mask| && mask[q]
        decreases nTransactions - p
      {
        any := any || mask[p];
        p := p + 1;
      }
    }

    /**
      Read a node: the bits and hashes taken are exactly the encoding of a tree,
      whose root and matches are returned, or there is no such tree and the data is bad.
     */
    method TraverseAndExtract(height: nat, pos: nat, bitsUsed: nat, hashUsed: nat, ids: seq<Hash>, places: seq<nat>)
      returns (hash: Hash, bitsUsed': nat, hashUsed': nat, ids': seq<Hash>, places': seq<nat>)
      requires bitsUsed <= |vBits| && hashUsed <= |vHash|
      modifies this`fBad
      ensures bitsUsed' <= |vBits| && hashUsed' <= |vHash|
      ensures old(fBad) ==> fBad
      ensures match Parse(nTransactions, vBits[bitsUsed..], vHash[hashUsed..], height, pos)
              case Overflow => fBad
              case Got(t, b, q) =>
                && fBad == (old(fBad) || Twins(f, t)) && hash == Root(f, t)
                && vBits[bitsUsed'..] == b && vHash[hashUsed'..] == q
                && ids' == ids + Ids(t) && places' == places + Places(t, pos)
      decreases height
    {
      hide Width;
      bitsUsed', hashUsed', ids', places' := bitsUsed, hashUsed, ids, places;
      if bitsUsed' >= |vBits| {
        fBad := true;
        return NULL_HASH, bitsUsed', hashUsed', ids', places';
      }
      var parentOfMatch := vBits[bitsUsed'];
      bitsUsed' := bitsUsed' + 1;
      if height == 0 || !parentOfMatch {
        if hashUsed' >= |vHash| {
          fBad := true;
          return NULL_HASH, bitsUsed', hashUsed', ids', places';
        }
        hash := vHash[hashUsed'];
        hashUsed' := hashUsed' + 1;
        assert vBits[bitsUsed..][1..] == vBits[bitsUsed'..] && vHash[hashUsed..][1..] == vHash[hashUsed'..];
        if height == 0 && parentOfMatch {
          ids', places' := ids' + [hash], places' + [pos];
        }
      } else {
        assert vBits[bitsUsed..][1..] == vBits[bitsUsed'..];
        hash, bitsUsed', hashUsed', ids', places' :=
          ExtractChildren(height, pos, bitsUsed', hashUsed', ids', places');
      }
    }

    method ExtractChildren(height: nat, pos: nat, bitsUsed: nat, hashUsed: nat, ids: seq<Hash>, places: seq<nat>)
      returns (hash: Hash, bitsUsed': nat, hashUsed': nat, ids': seq<Hash>, places': seq<nat>)
      requires height > 0 && bitsUsed <= |vBits| && hashUsed <= |vHash|
      modifies this`fBad
      ensures bitsUsed' <= |vBits| && hashUsed' <= |vHash|
      ensures old(fBad) ==> fBad
      ensures match ParseChildren(nTransactions, vBits[bitsUsed..], vHash[hashUsed..], height, pos)
              case Overflow => fBad
              case Got(t, b, q) =>
                && fBad == (old(fBad) || Twins(f, t)) && hash == Root(f, t)
                && vBits[bitsUsed'..] == b && vHash[hashUsed'..] == q
                && ids' == ids + Ids(t) && places' == places + Places(t, pos)
      decreases height, 0
    {
      hide Width, Parse;
      var left, right;
      left, bitsUsed', hashUsed', ids', places' :=
        TraverseAndExtract(height - 1, 2 * pos, bitsUsed, hashUsed, ids, places);
      if 2 * pos + 1 < Width(nTransactions, height - 1) {
        right, bitsUsed', hashUsed', ids', places' :=
          TraverseAndExtract(height - 1, 2 * pos + 1, bitsUsed', hashUsed', ids', places');
        if right == left {
          fBad := true;
        }
      } else {
        right := left;
      }
      hash := f(left, right);
    }

    /**
      The root and the matches of an acceptable tree, or the null hash.  Under an
      injective pair hash nobody can make it return the root of a block together
      with an id that is not the block's transaction at that place.
     */
    method ExtractMatches(index: seq<nat>) returns (root: Hash, ids: seq<Hash>, places: seq<nat>)
      modifies this`fBad
      ensures if !old(fBad) && Accepts(f, nTransactions, vBits, vHash) then
                var t := Parse(nTransactions, vBits, vHash, Height(nTransactions), 0).tree;
                root == Root(f, t) && ids == Ids(t) && places == index + Places(t, 0)
              else
                root == NULL_HASH
      ensures forall txids: seq<Hash> | |txids| == nTransactions > 0 && Injective(f) && root != NULL_HASH
                && MerkleRoot(f, txids) == root :: |index| <= |places| && Members(txids, ids, places[|index|..])
    {
      hide Width, HeightFrom, Parse, Twins, CalcHash, Injective, Members;
      root, ids, places := NULL_HASH, [], index;
      if nTransactions == 0 {
        return;
      }
      if nTransactions > MAX_BLOCK_BASE_SIZE / 60 {
        return;
      }
      if |vHash| > nTransactions {
        return;
      }
      if |vBits| < |vHash| {
        return;
      }
      var h := TreeHeight(nTransactions);
      var hash, bitsUsed, hashUsed;
      assert vBits[0..] == vBits && vHash[0..] == vHash;
      hash, bitsUsed, hashUsed, ids, places := TraverseAndExtract(h, 0, 0, 0, ids, places);
      if fBad {
        return;
      }
      if (bitsUsed + 7) / 8 != (|vBits| + 7) / 8 {
        return;
      }
      if hashUsed != |vHash| {
        return;
      }
      root := hash;
      assert places[|index|..] == Places(Parse(nTransactions, vBits, vHash, h, 0).tree, 0);
      Unforgeable(f, nTransactions, vBits, vHash);
    }
  }

  lemma Unforgeable(f: PairHash, n: nat, bits: seq<bool>, hashes: seq<Hash>)
    requires n > 0 && Parse(n, bits, hashes, Height(n), 0).Got?
    ensures var t := Parse(n, bits, hashes, Height(n), 0).tree;
            forall txids: seq<Hash> | |txids| == n && Injective(f) && MerkleRoot(f, txids) == Root(f, t) ::
              Members(txids, Ids(t), Places(t, 0))
  {
    hide Parse;
    var t := Parse(n, bits, hashes, Height(n), 0).tree;
    ParseSound(n, bits, hashes, Height(n), 0);
    forall txids: seq<Hash> | |txids| == n && Injective(f) && MerkleRoot(f, txids) == Root(f, t)
      ensures Members(txids, Ids(t), Places(t, 0))
    {
      Authentic(f, txids, t, Height(n), 0);
    }
  }

  /**
    Build, serialize, unserialize and extract: the Merkle root of the block comes
    back with exactly the selected ids and places, unless the block is too large
    or two compared siblings have the same hash; then the answer is the null hash.
   */
  method RoundTrip(f: PairHash, txids: seq<Hash>, mask: seq<bool>)
    returns (root: Hash, ids: seq<Hash>, places: seq<nat>)
    requires |mask| == |txids| > 0
    ensures if |txids| <= MAX_BLOCK_BASE_SIZE / 60 && !Twins(f, BlockTree(f, txids, mask)) then
              && root == MerkleRoot(f, txids)
              && ids == Selected(txids, mask, 0, |txids|)
              && places == SelectedPlaces(mask, 0, |txids|)
            else
              root == NULL_HASH
  {
    hide Width, HeightFrom, Parse, Twins, CalcHash, TreeOf, Bit, Bits, Hashes, Selected, SelectedPlaces;
    var sender := new PartialMerkleTree(f, txids, mask);
    var w := sender.Serialize();
    var receiver := new PartialMerkleTree.Unserialize(f, w);
    assert Bits(BlockTree(f, txids, mask)) <= receiver.vBits;
    EncodingParsed(f, txids, mask, receiver.vBits);
    AcceptsEncoding(f, txids, mask, receiver.vBits);
    TopSpan(txids);
    TreeOfFacts(f, txids, mask, Height(|txids|), 0);
    root, ids, places := receiver.ExtractMatches([]);
  }

  lemma TopSpan(txids: seq<Hash>)
    requires |txids| > 0
    ensures First(Height(|txids|), 0) == 0 && Beyond(|txids|, Height(|txids|), 0) == |txids|
  {
    NodeExists(|txids|, Height(|txids|), 1);
  }
}
