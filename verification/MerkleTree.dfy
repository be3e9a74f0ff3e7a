/**
  Merkle trees over a list of transaction ids, and the partial trees that
  authenticate some of them.  The hash of two nodes is an arbitrary function.
 */
module MerkleTree {

  import opened Digits

  type Hash = nat

  type PairHash = (Hash, Hash) -> Hash

  const NULL_HASH: Hash := 0

  /** The number of nodes at height `h` above `n` leaves. */
  function Width(n: nat, h: nat): nat {
    (n + Pow(2, h) - 1) / Pow(2, h)
  }

  /** Whether the node at (`h`, `pos`) has a right child; otherwise its left child stands in. */
  predicate HasRight(n: nat, h: nat, pos: nat)
    requires h > 0
  {
    2 * pos + 1 < Width(n, h - 1)
  }

  lemma QuotientAbove(a: nat, p: nat, k: nat)
    requires p > 0
    ensures k < (a + p - 1) / p <==> k * p < a
  {
    var q := (a + p - 1) / p;
    assert q * p <= a + p - 1 < (q + 1) * p by {
      assert a + p - 1 == q * p + (a + p - 1) % p;
    }
    if k < q {
      assert (k + 1) * p <= q * p;
    } else {
      assert q * p <= k * p;
    }
  }

  /** A node exists exactly if its first leaf does. */
  lemma NodeExists(n: nat, h: nat, pos: nat)
    ensures pos < Width(n, h) <==> pos * Pow(2, h) < n
  {
    QuotientAbove(n, Pow(2, h), pos);
  }

  lemma Spread(pos: nat, p: nat)
    ensures pos * (2 * p) == 2 * pos * p
    ensures (2 * pos + 1) * p == 2 * pos * p + p
    ensures (pos + 1) * (2 * p) == (2 * pos + 2) * p == 2 * pos * p + 2 * p
  {
  }

  /** The leaves below a node are those below its children. */
  lemma Split(n: nat, h: nat, pos: nat)
    requires h > 0
    ensures pos * Pow(2, h) == 2 * pos * Pow(2, h - 1)
    ensures (2 * pos + 1) * Pow(2, h - 1) == 2 * pos * Pow(2, h - 1) + Pow(2, h - 1)
    ensures (pos + 1) * Pow(2, h) == (2 * pos + 2) * Pow(2, h - 1) == 2 * pos * Pow(2, h - 1) + 2 * Pow(2, h - 1)
    ensures HasRight(n, h, pos) <==> (2 * pos + 1) * Pow(2, h - 1) < n
    ensures pos < Width(n, h) ==> 2 * pos < Width(n, h - 1)
  {
    hide Width;
    Spread(pos, Pow(2, h - 1));
    NodeExists(n, h - 1, 2 * pos + 1);
    NodeExists(n, h - 1, 2 * pos);
    NodeExists(n, h, pos);
  }

  lemma QuotientUnique(a: nat, p: nat, q: nat)
    requires p > 0 && q * p - p < a <= q * p
    ensures (a + p - 1) / p == q
  {
    QuotientAbove(a, p, q);
    if q > 0 {
      QuotientAbove(a, p, q - 1);
      assert (q - 1) * p == q * p - p;
    }
  }

  lemma HalfQuotient(n: nat, p: nat)
    requires p > 0
    ensures (n + 2 * p - 1) / (2 * p) == ((n + p - 1) / p + 1) / 2
  {
    var w := (n + p - 1) / p;
    var v := (w + 1) / 2;
    QuotientAbove(n, p, w);
    if w > 0 {
      QuotientAbove(n, p, w - 1);
      assert (w - 1) * p == w * p - p;
    }
    Spread(v, p);
    if w % 2 == 0 {
      assert w == 2 * v;
    } else {
      Spread(v - 1, p);
      assert w == 2 * (v - 1) + 1;
    }
    QuotientUnique(n, 2 * p, v);
  }

  lemma WidthStep(n: nat, h: nat)
    ensures Width(n, h + 1) == (Width(n, h) + 1) / 2
  {
    HalfQuotient(n, Pow(2, h));
  }

  /** The hash of a node: the root of the tree below it. */
  function CalcHash(f: PairHash, txids: seq<Hash>, h: nat, pos: nat): Hash
    requires pos < Width(|txids|, h)
    decreases h
  {
    if h == 0 then
      txids[pos]
    else
      Split(|txids|, h, pos);
      var left := CalcHash(f, txids, h - 1, 2 * pos);
      var right := if HasRight(|txids|, h, pos) then CalcHash(f, txids, h - 1, 2 * pos + 1) else left;
      f(left, right)
  }

  /** One level up: pair the nodes, repeating the last one if it has no partner. */
  function NextLevel(f: PairHash, level: seq<Hash>): seq<Hash> {
    seq((|level| + 1) / 2, i requires 0 <= i < (|level| + 1) / 2 =>
      f(level[2 * i], level[if 2 * i + 1 < |level| then 2 * i + 1 else 2 * i]))
  }

  function Level(f: PairHash, txids: seq<Hash>, h: nat): seq<Hash> {
    if h == 0 then txids else NextLevel(f, Level(f, txids, h - 1))
  }

  /** The recursive hash of every node agrees with the level by level construction. */
  lemma {:induction false} CalcHashIsLevel(f: PairHash, txids: seq<Hash>, h: nat, pos: nat)
    requires pos < Width(|txids|, h)
    ensures |Level(f, txids, h)| == Width(|txids|, h) && CalcHash(f, txids, h, pos) == Level(f, txids, h)[pos]
    decreases h
  {
    hide Width, NextLevel;
    LevelWidth(f, txids, h);
    if h > 0 {
      Split(|txids|, h, pos);
      LevelWidth(f, txids, h - 1);
      NextLevelAt(f, Level(f, txids, h - 1), pos);
      CalcHashIsLevel(f, txids, h - 1, 2 * pos);
      if HasRight(|txids|, h, pos) {
        CalcHashIsLevel(f, txids, h - 1, 2 * pos + 1);
      }
    }
  }

  lemma NextLevelAt(f: PairHash, level: seq<Hash>, i: nat)
    requires i == 0 || 2 * i < |level|
    ensures |NextLevel(f, level)| == (|level| + 1) / 2
    ensures level != [] ==>
              NextLevel(f, level)[i] == f(level[2 * i], level[if 2 * i + 1 < |level| then 2 * i + 1 else 2 * i])
  {
  }

  lemma {:induction false} LevelWidth(f: PairHash, txids: seq<Hash>, h: nat)
    ensures |Level(f, txids, h)| == Width(|txids|, h)
  {
    hide NextLevel;
    if h > 0 {
      LevelWidth(f, txids, h - 1);
      WidthStep(|txids|, h - 1);
      NextLevelAt(f, Level(f, txids, h - 1), 0);
    }
  }

  /** What the depth-first encoding describes. */
  datatype Tree =
    | Leaf(id: Hash, matched: bool)
    | Stub(id: Hash)
    | Only(child: Tree)
    | Fork(left: Tree, right: Tree)

  /** The tree fits the node at (`h`, `pos`) above `n` leaves. */
  predicate Shaped(t: Tree, n: nat, h: nat, pos: nat) {
    match t
    case Leaf(_, _) => h == 0
    case Stub(_) => h > 0
    case Only(c) => h > 0 && !HasRight(n, h, pos) && Shaped(c, n, h - 1, 2 * pos)
    case Fork(l, r) =>
      h > 0 && HasRight(n, h, pos) && Shaped(l, n, h - 1, 2 * pos) && Shaped(r, n, h - 1, 2 * pos + 1)
  }

  function Bits(t: Tree): seq<bool> {
    match t
    case Leaf(_, m) => [m]
    case Stub(_) => [false]
    case Only(c) => [true] + Bits(c)
    case Fork(l, r) => [true] + Bits(l) + Bits(r)
  }

  function Hashes(t: Tree): seq<Hash> {
    match t
    case Leaf(id, _) => [id]
    case Stub(id) => [id]
    case Only(c) => Hashes(c)
    case Fork(l, r) => Hashes(l) + Hashes(r)
  }

  function Root(f: PairHash, t: Tree): Hash {
    match t
    case Leaf(id, _) => id
    case Stub(id) => id
    case Only(c) => f(Root(f, c), Root(f, c))
    case Fork(l, r) => f(Root(f, l), Root(f, r))
  }

  /** The matched ids, left to right. */
  function Ids(t: Tree): seq<Hash> {
    match t
    case Leaf(id, m) => if m then [id] else []
    case Stub(_) => []
    case Only(c) => Ids(c)
    case Fork(l, r) => Ids(l) + Ids(r)
  }

  /** Their places among the leaves. */
  function Places(t: Tree, pos: nat): seq<nat> {
    match t
    case Leaf(_, m) => if m then [pos] else []
    case Stub(_) => []
    case Only(c) => Places(c, 2 * pos)
    case Fork(l, r) => Places(l, 2 * pos) + Places(r, 2 * pos + 1)
  }

  /** Some node has two children with the same hash. */
  predicate Twins(f: PairHash, t: Tree) {
    match t
    case Leaf(_, _) => false
    case Stub(_) => false
    case Only(c) => Twins(f, c)
    case Fork(l, r) => Root(f, l) == Root(f, r) || Twins(f, l) || Twins(f, r)
  }

  datatype Parsed = Overflow | Got(tree: Tree, bits: seq<bool>, hashes: seq<Hash>)

  /** Read a tree off the front of the bits and hashes. */
  function Parse(n: nat, bits: seq<bool>, hashes: seq<Hash>, h: nat, pos: nat): Parsed
    decreases h
  {
    if bits == [] then
      Overflow
    else if h == 0 || !bits[0] then
      if hashes == [] then Overflow
      else Got(if h == 0 then Leaf(hashes[0], bits[0]) else Stub(hashes[0]), bits[1..], hashes[1..])
    else
      ParseChildren(n, bits[1..], hashes, h, pos)
  }

  function ParseChildren(n: nat, bits: seq<bool>, hashes: seq<Hash>, h: nat, pos: nat): Parsed
    requires h > 0
    decreases h, 0
  {
    match Parse(n, bits, hashes, h - 1, 2 * pos)
    case Overflow => Overflow
    case Got(l, b, q) =>
      if !HasRight(n, h, pos) then Got(Only(l), b, q)
      else
        match Parse(n, b, q, h - 1, 2 * pos + 1)
        case Overflow => Overflow
        case Got(r, b', q') => Got(Fork(l, r), b', q')
  }

  /** Reading undoes writing: exactly the encoding of the tree is taken off the front. */
  lemma {:induction false} ParseSound(n: nat, bits: seq<bool>, hashes: seq<Hash>, h: nat, pos: nat)
    requires Parse(n, bits, hashes, h, pos).Got?
    ensures var p := Parse(n, bits, hashes, h, pos);
            Shaped(p.tree, n, h, pos) && bits == Bits(p.tree) + p.bits && hashes == Hashes(p.tree) + p.hashes
    decreases h
  {
    hide HasRight;
    if h > 0 && bits[0] {
      ParseSound(n, bits[1..], hashes, h - 1, 2 * pos);
      var left := Parse(n, bits[1..], hashes, h - 1, 2 * pos);
      if HasRight(n, h, pos) {
        ParseSound(n, left.bits, left.hashes, h - 1, 2 * pos + 1);
      }
    }
  }

  /** Every encoding of a tree of the right shape is read, whatever follows. */
  lemma {:induction false} ParseComplete(t: Tree, n: nat, h: nat, pos: nat, bits: seq<bool>, hashes: seq<Hash>)
    requires Shaped(t, n, h, pos)
    ensures Parse(n, Bits(t) + bits, Hashes(t) + hashes, h, pos) == Got(t, bits, hashes)
    decreases h
  {
    hide HasRight;
    match t
    case Leaf(_, _) =>
    case Stub(_) =>
    case Only(c) =>
      ParseComplete(c, n, h - 1, 2 * pos, bits, hashes);
      assert (Bits(t) + bits)[1..] == Bits(c) + bits;
    case Fork(l, r) =>
      ParseComplete(l, n, h - 1, 2 * pos, Bits(r) + bits, Hashes(r) + hashes);
      ParseComplete(r, n, h - 1, 2 * pos + 1, bits, hashes);
      ParseFork(l, r, n, h, pos, bits, hashes);
  }

  lemma ForkFlat(l: Tree, r: Tree, bits: seq<bool>, hashes: seq<Hash>)
    ensures var b := Bits(Fork(l, r)) + bits;
            |b| > 0 && b[0] && b[1..] == Bits(l) + (Bits(r) + bits)
    ensures Hashes(Fork(l, r)) + hashes == Hashes(l) + (Hashes(r) + hashes)
  {
    Regroup(true, Bits(l), Bits(r), bits);
    Regroup(0, Hashes(l), Hashes(r), hashes);
  }

  lemma Regroup<T>(x: T, a: seq<T>, b: seq<T>, c: seq<T>)
    ensures a + b + c == a + (b + c)
    ensures var s := [x] + a + b + c;
            |s| > 0 && s[0] == x && s[1..] == a + (b + c)
  {
  }

  lemma ParseFork(l: Tree, r: Tree, n: nat, h: nat, pos: nat, bits: seq<bool>, hashes: seq<Hash>)
    requires h > 0 && HasRight(n, h, pos)
    requires Parse(n, Bits(l) + (Bits(r) + bits), Hashes(l) + (Hashes(r) + hashes), h - 1, 2 * pos)
             == Got(l, Bits(r) + bits, Hashes(r) + hashes)
    requires Parse(n, Bits(r) + bits, Hashes(r) + hashes, h - 1, 2 * pos + 1) == Got(r, bits, hashes)
    ensures Parse(n, Bits(Fork(l, r)) + bits, Hashes(Fork(l, r)) + hashes, h, pos) == Got(Fork(l, r), bits, hashes)
  {
    hide HasRight, Bits, Hashes;
    ForkFlat(l, r, bits, hashes);
  }

  ghost predicate Injective(f: PairHash) {
    forall a, b, c, d :: f(a, b) == f(c, d) ==> a == c && b == d
  }

  /**
    No forgery: a tree of the right shape with the root of a block proves
    membership of every id it reports, at the place it reports.
   */
  lemma {:induction false} Authentic(f: PairHash, txids: seq<Hash>, t: Tree, h: nat, pos: nat)
    requires Injective(f) && pos < Width(|txids|, h) && Shaped(t, |txids|, h, pos)
    requires Root(f, t) == CalcHash(f, txids, h, pos)
    ensures |Ids(t)| == |Places(t, pos)|
    ensures forall i | 0 <= i < |Ids(t)| :: Places(t, pos)[i] < |txids| && txids[Places(t, pos)[i]] == Ids(t)[i]
    decreases h
  {
    hide Width;
    if h > 0 {
      Split(|txids|, h, pos);
    }
    match t
    case Leaf(_, _) =>
      NodeExists(|txids|, 0, pos);
      assert Pow(2, 0) == 1;
    case Stub(_) =>
    case Only(c) =>
      Authentic(f, txids, c, h - 1, 2 * pos);
    case Fork(l, r) =>
      Authentic(f, txids, l, h - 1, 2 * pos);
      Authentic(f, txids, r, h - 1, 2 * pos + 1);
  }

  /** How many inner nodes have a single child. */
  function Singles(t: Tree): nat {
    match t
    case Leaf(_, _) => 0
    case Stub(_) => 0
    case Only(c) => 1 + Singles(c)
    case Fork(l, r) => Singles(l) + Singles(r)
  }

  /** The exact number of flag bits: twice the hashes less one, and one more per single-child node. */
  lemma {:induction false} BitCount(t: Tree)
    ensures |Hashes(t)| >= 1 && |Bits(t)| == 2 * |Hashes(t)| - 1 + Singles(t)
  {
    match t
    case Leaf(_, _) =>
    case Stub(_) =>
    case Only(c) => BitCount(c);
    case Fork(l, r) => BitCount(l); BitCount(r);
  }
}
