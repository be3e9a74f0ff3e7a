/**
  The block tree with its skip links, and the active chain.  Every block carries,
  for specification only, the path from the genesis block to itself.
 */
module Chain {

  import opened Digits
  import opened SkipList

  ghost function Before(path: seq<BlockIndex>, i: nat): BlockIndex?
    requires i < |path|
  {
    if i == 0 then null else path[i - 1]
  }

  /** The block at place `i` of a path. */
  ghost predicate Fits(path: seq<BlockIndex>, i: nat)
    requires i < |path|
  {
    path[i].path == path[..i + 1] && path[i].nHeight == i && path[i].pprev == Before(path, i)
  }

  lemma FitsPrefix(long: seq<BlockIndex>, short: seq<BlockIndex>, i: nat)
    requires i < |short| <= |long| && long[..|short|] == short
    ensures Fits(long, i) == Fits(short, i)
  {
    assert forall k | 0 <= k < |short| :: long[k] == short[k];
    assert long[..i + 1] == short[..i + 1];
  }

  class BlockIndex {
    const hash: nat
    const nBits: nat
    const nTime: int
    const pprev: BlockIndex?
    const nHeight: nat
    const nChainWork: nat
    var pskip: BlockIndex?
    ghost const path: seq<BlockIndex>

    /** The links and heights along the path fit together. */
    ghost predicate InTree() {
      && |path| == nHeight + 1 && path[nHeight] == this
      && forall i | 0 <= i <= nHeight :: Fits(path, i)
    }

    /** Every skip link along the path is null or as built. */
    ghost predicate SkipsOk()
      requires InTree()
      reads path
    {
      forall i | 0 <= i <= nHeight :: path[i].pskip == null || path[i].pskip == path[GetSkipHeight(i)]
    }

    /** Every block along the path but the first has its skip link. */
    ghost predicate AllBuilt()
      requires InTree()
      reads path
    {
      forall i | 0 < i <= nHeight :: path[i].pskip != null
    }

    constructor (hash: nat, nBits: nat, nTime: int, pprev: BlockIndex?, proof: nat)
      requires pprev != null ==> pprev.InTree() && pprev.SkipsOk()
      ensures this.hash == hash && this.nBits == nBits && this.nTime == nTime && this.pprev == pprev
      ensures InTree() && SkipsOk() && pskip == null
      ensures path == (if pprev == null then [] else pprev.path) + [this]
      ensures nChainWork == ((if pprev == null then 0 else pprev.nChainWork) + proof) % Pow(2, 256)
    {
      this.hash, this.nBits, this.nTime, this.pprev, this.pskip := hash, nBits, nTime, pprev, null;
      this.nHeight := if pprev == null then 0 else pprev.nHeight + 1;
      this.nChainWork := ((if pprev == null then 0 else pprev.nChainWork) + proof) % Pow(2, 256);
      this.path := (if pprev == null then [] else pprev.path) + [this];
      new;
      Extended();
    }

    /**
      A block that names itself as its predecessor.  When it is linked it is known, with
      height 0 and no work, and walking back from it never leaves it.
     */
    constructor Looped(hash: nat, nBits: nat, nTime: int, proof: nat)
      ensures this.hash == hash && this.nBits == nBits && this.nTime == nTime && nHeight == 1
      ensures pprev == this && pskip == this && nChainWork == proof % Pow(2, 256)
      ensures !InTree()
    {
      this.hash, this.nBits, this.nTime, this.pprev, this.pskip := hash, nBits, nTime, this, this;
      this.nHeight := 1;
      this.nChainWork := proof % Pow(2, 256);
      this.path := [this, this];
      new;
      assert !Fits(path, 0);
    }

    lemma Extended()
      requires pskip == null && path == (if pprev == null then [] else pprev.path) + [this]
      requires nHeight == if pprev == null then 0 else pprev.nHeight + 1
      requires pprev != null ==> pprev.InTree() && pprev.SkipsOk()
      ensures InTree() && SkipsOk()
    {
      assert path[..nHeight + 1] == path;
      if pprev != null {
        assert path[..nHeight] == pprev.path;
        hide Fits;
        forall i | 0 <= i < nHeight ensures Fits(path, i) {
          FitsPrefix(path, pprev.path, i);
        }
        forall i | 0 <= i < nHeight ensures path[i] == pprev.path[i] {
        }
        LastFits();
      }
    }

    lemma LastFits()
      requires pprev != null && pprev.InTree() && path == pprev.path + [this] && nHeight == pprev.nHeight + 1
      ensures Fits(path, nHeight)
    {
      hide BlockIndex.InTree;
      pprev.Place(pprev.nHeight);
      assert path[..nHeight + 1] == path;
    }

    lemma OnPath(i: nat)
      requires InTree() && i <= nHeight
      ensures path[i].InTree() && (SkipsOk() ==> path[i].SkipsOk())
    {
      hide Fits;
      Prefix(i);
      Place(i);
      var b := path[i];
      forall k | 0 <= k <= i ensures Fits(b.path, k) {
        FitsPrefix(path, b.path, k);
      }
    }

    lemma Place(i: nat)
      requires InTree() && i <= nHeight
      ensures |path| == nHeight + 1 && path[nHeight] == this
      ensures path[i].nHeight == i && path[i].pprev == Before(path, i)
    {
      assert Fits(path, i);
    }

    lemma Prefix(i: nat)
      requires InTree() && i <= nHeight
      ensures |path| == nHeight + 1 && path[i].path == path[..i + 1]
    {
      assert Fits(path, i);
    }

    lemma Links(i: nat)
      requires InTree() && SkipsOk() && i <= nHeight
      ensures |path| == nHeight + 1 && path[nHeight] == this
      ensures i > 0 ==> path[i].pprev == path[i - 1]
      ensures path[i].pskip == null || path[i].pskip == path[GetSkipHeight(i)]
    {
      assert Fits(path, i);
    }

    /** The same block as walking back one by one, whichever skip links exist. */
    method GetAncestor(height: int) returns (r: BlockIndex?, ghost steps: nat)
      requires InTree() && SkipsOk()
      ensures r == if 0 <= height <= nHeight then path[height] else null
      ensures 0 <= height <= nHeight && AllBuilt() ==> FewSteps(steps, nHeight)
    {
      hide BlockIndex.InTree, BlockIndex.SkipsOk, GetSkipHeight, FewSteps, Hops;
      steps := 0;
      Links(nHeight);
      if height > nHeight || height < 0 {
        return null, 0;
      }
      var walk: BlockIndex := this;
      var heightWalk := nHeight;
      while heightWalk > height
        invariant height <= heightWalk <= nHeight && walk == path[heightWalk]
        invariant AllBuilt() ==> steps + Hops(heightWalk, height) == Hops(nHeight, height)
      {
        Links(heightWalk);
        HopsNext(heightWalk, height);
        var heightSkip := GetSkipHeight(heightWalk);
        var heightSkipPrev := GetSkipHeight(heightWalk - 1);
        if walk.pskip != null &&
           (heightSkip == height ||
            (heightSkip > height && !(heightSkipPrev < heightSkip - 2 && heightSkipPrev >= height))) {
          walk := walk.pskip;
          heightWalk := heightSkip;
        } else {
          walk := walk.pprev;
          heightWalk := heightWalk - 1;
        }
        steps := steps + 1;
      }
      HopsNone(height);
      FewHops(nHeight, height);
      return walk, steps;
    }

    method BuildSkip()
      requires InTree() && SkipsOk()
      modifies this`pskip
      ensures SkipsOk() && (nHeight > 0 ==> pskip == path[GetSkipHeight(nHeight)])
      ensures (pprev != null ==> pprev.InTree() && pprev.AllBuilt()) ==> AllBuilt()
    {
      hide BlockIndex.InTree, FewSteps, GetSkipHeight;
      Place(nHeight);
      if pprev != null {
        OnPath(nHeight - 1);
        Place(nHeight - 1);
        Prefix(nHeight - 1);
        forall i | 0 <= i < nHeight ensures path[i] != this {
          Place(i);
        }
        ghost var steps;
        pskip, steps := pprev.GetAncestor(GetSkipHeight(nHeight));
        assert pskip == path[GetSkipHeight(nHeight)];
        assert forall i | 0 <= i < nHeight :: path[i] == pprev.path[i];
      }
    }
  }

  function Resized(chain: seq<BlockIndex?>, n: nat): (r: seq<BlockIndex?>)
    ensures |r| == n && forall i | 0 <= i < n :: r[i] == if i < |chain| then chain[i] else null
  {
    if n <= |chain| then chain[..n] else chain + seq(n - |chain|, _ => null)
  }

  class ActiveChain {
    var vChain: seq<BlockIndex?>

    constructor ()
      ensures vChain == [] && Valid()
    {
      vChain := [];
    }

    /** The chain is the path to its tip. */
    ghost predicate Valid()
      reads this
    {
      vChain != [] ==>
        vChain[|vChain| - 1] != null && vChain[|vChain| - 1].InTree() && vChain == vChain[|vChain| - 1].path
    }

    function Height(): int
      reads this
    {
      |vChain| - 1
    }

    function At(height: int): BlockIndex?
      reads this
    {
      if height < 0 || height >= |vChain| then null else vChain[height]
    }

    function Tip(): BlockIndex?
      reads this
    {
      if |vChain| > 0 then vChain[|vChain| - 1] else null
    }

    predicate Contains(b: BlockIndex)
      reads this
    {
      At(b.nHeight) == b
    }

    /** A block of the tree is in the chain exactly if the chain begins with its path. */
    lemma ContainsPath(b: BlockIndex)
      requires Valid() && b.InTree()
      ensures Contains(b) <==> |b.path| <= |vChain| && forall i | 0 <= i < |b.path| :: vChain[i] == b.path[i]
    {
      hide BlockIndex.InTree;
      b.Place(b.nHeight);
      if Contains(b) {
        SharedPrefix(vChain, b, b.nHeight);
      }
    }

    /** Stopping at the first agreeing entry still leaves the whole path to the new tip. */
    method SetTip(pindex: BlockIndex?)
      requires Valid() && (pindex != null ==> pindex.InTree())
      modifies this
      ensures Valid() && vChain == if pindex == null then [] else pindex.path
    {
      if pindex == null {
        vChain := [];
        return;
      }
      hide BlockIndex.InTree;
      var tail := Resized(vChain, pindex.nHeight + 1);
      vChain := WriteBack(vChain, tail, pindex);
      pindex.Place(pindex.nHeight);
    }

    /** The highest block that is both in the chain and an ancestor of `pindex`. */
    method FindFork(pindex: BlockIndex?) returns (fork: BlockIndex?)
      requires Valid() && (pindex != null ==> pindex.InTree() && pindex.SkipsOk())
      ensures fork != null ==> pindex != null && fork in pindex.path && fork in vChain
      ensures pindex != null ==> forall b | b in pindex.path && b in vChain :: fork != null && b.nHeight <= fork.nHeight
    {
      if pindex == null {
        return null;
      }
      hide BlockIndex.InTree, BlockIndex.SkipsOk, ActiveChain.Valid;
      ChainHeights();
      var walk: BlockIndex? := pindex;
      ghost var h := pindex.nHeight;
      pindex.Place(h);
      PathHeights(pindex);
      if pindex.nHeight > Height() {
        ghost var steps;
        walk, steps := pindex.GetAncestor(Height());
        h := Height();
      }
      while walk != null && !Contains(walk)
        invariant -1 <= h <= pindex.nHeight && walk == (if h < 0 then null else pindex.path[h])
        invariant forall b | b in pindex.path && b in vChain :: b.nHeight <= h
        decreases h
      {
        pindex.Place(h);
        walk := walk.pprev;
        h := h - 1;
      }
      return walk;
    }

    /**
      Blocks going back from `pindex` (or the tip): the first steps by one, then in
      doubling steps, ending with the genesis block.
     */
    method GetLocator(pindex: BlockIndex?) returns (have: seq<nat>, ghost blocks: seq<BlockIndex>)
      requires Valid() && (pindex != null ==> pindex.InTree() && pindex.SkipsOk())
      ensures pindex == null && vChain == [] ==> have == []
      ensures pindex != null || vChain != [] ==>
                var start := if pindex != null then pindex else vChain[|vChain| - 1];
                Locates(start, have, blocks) && |have| <= 12 + Log2(start.nHeight + 1)
    {
      hide BlockIndex.InTree, BlockIndex.SkipsOk, Locates, Log2, Pow, Back, BlockIndex.AllBuilt, FewSteps;
      have, blocks := [], [];
      var walk := pindex;
      if walk == null {
        walk := Tip();
      }
      if walk == null {
        ChainHeights();
        return;
      }
      ghost var start := walk;
      ghost var h, c := start.nHeight, start.nHeight;
      start.Place(h);
      LocatesNone(start);
      if pindex == null {
        ChainHeights();
        assert Contains(start);
      }
      var step := 1;
      while walk != null
        invariant walk != null ==> 0 <= c <= h && walk == start.path[c] && walk.nHeight == c
        invariant walk != null ==> Contains(walk) || start == pindex
        invariant walk != null ==> LocatesPart(start, have, blocks) && (have == [] || h > Back(|have| - 1))
        invariant walk != null ==> c == Clamp(h - Back(|have|)) && step == Step(|have|)
        invariant walk == null ==> Locates(start, have, blocks) && |have| <= 12 + Log2(h + 1)
        decreases if walk == null then 0 else c + 1
      {
        LocatesNext(start, have, blocks, walk);
        Bounded(|have|, h);
        have, blocks := have + [walk.hash], blocks + [walk];
        if walk.nHeight == 0 {
          LocatesAll(start, have, blocks);
          break;
        }
        BackNext(|have| - 1);
        var height := if walk.nHeight - step > 0 then walk.nHeight - step else 0;
        if Contains(walk) {
          InChain(start, c);
          walk := At(height);
        } else {
          start.OnPath(c);
          start.Prefix(c);
          ghost var steps;
          walk, steps := walk.GetAncestor(height);
        }
        start.Place(height);
        c := height;
        if |have| > 10 {
          step := step * 2;
        }
      }
    }

    lemma InChain(start: BlockIndex, c: nat)
      requires Valid() && start.InTree() && c <= start.nHeight && Contains(start.path[c]) && start.path[c].nHeight == c
      ensures forall i | 0 <= i <= c :: At(i) == start.path[i] && start.path[i].nHeight == i && Contains(start.path[i])
    {
      hide BlockIndex.InTree;
      start.Place(start.nHeight);
      PathHeights(start);
      SharedPrefix(vChain, start, c);
    }

    lemma ChainHeights()
      requires Valid()
      ensures forall i | 0 <= i < |vChain| :: vChain[i] != null && vChain[i].nHeight == i
    {
      if vChain != [] {
        PathHeights(vChain[|vChain| - 1]);
      }
    }
  }

  lemma PathHeights(b: BlockIndex)
    requires b.InTree()
    ensures |b.path| == b.nHeight + 1 && forall i | 0 <= i < |b.path| :: b.path[i].nHeight == i
  {
    hide BlockIndex.InTree;
    b.Place(b.nHeight);
    forall i | 0 <= i < |b.path| ensures b.path[i].nHeight == i {
      b.Place(i);
    }
  }

  /** Walk back from the new tip, overwriting entries up to the first one that agrees. */
  method WriteBack(ghost was: seq<BlockIndex?>, tail: seq<BlockIndex?>, pindex: BlockIndex)
    returns (chain: seq<BlockIndex?>)
    requires was != [] ==> was[|was| - 1] != null && was[|was| - 1].InTree() && was == was[|was| - 1].path
    requires pindex.InTree() && |tail| == pindex.nHeight + 1
    requires forall i | 0 <= i < |tail| :: tail[i] == if i < |was| then was[i] else null
    ensures chain == pindex.path
  {
    hide BlockIndex.InTree;
    pindex.Place(pindex.nHeight);
    chain := tail;
    var walk: BlockIndex? := pindex;
    ghost var h := pindex.nHeight;
    while walk != null && chain[walk.nHeight] != walk
      invariant -1 <= h < |tail| == |chain| && walk == (if h < 0 then null else pindex.path[h])
      invariant walk != null ==> walk.nHeight == h
      invariant forall i | h < i < |tail| :: chain[i] == pindex.path[i]
      invariant forall i | 0 <= i <= h :: chain[i] == tail[i]
      decreases h
    {
      pindex.Place(h);
      chain := chain[walk.nHeight := walk];
      walk := walk.pprev;
      h := h - 1;
      if walk != null {
        pindex.Place(h);
      }
    }
    if walk != null {
      SharedPrefix(was, pindex, h);
    }
  }

  lemma SharedPrefix(was: seq<BlockIndex?>, b: BlockIndex, h: nat)
    requires was != [] ==> was[|was| - 1] != null && was[|was| - 1].InTree() && was == was[|was| - 1].path
    requires b.InTree() && h < |b.path| && h < |was| && was[h] == b.path[h]
    ensures forall i | 0 <= i <= h :: was[i] == b.path[i]
  {
    hide BlockIndex.InTree;
    var tip := was[|was| - 1];
    tip.Place(tip.nHeight);
    tip.Prefix(h);
    b.Place(b.nHeight);
    b.Prefix(h);
    forall i | 0 <= i <= h ensures was[i] == b.path[i] {
      assert tip.path[..h + 1][i] == b.path[..h + 1][i];
    }
  }

  /** The integer part of the binary logarithm. */
  function Log2(n: nat): nat {
    if n < 2 then 0 else 1 + Log2(n / 2)
  }

  lemma {:induction false} Log2Bound(k: nat, n: nat)
    requires Pow(2, k) <= n
    ensures k <= Log2(n)
  {
    if k > 0 {
      Log2Bound(k - 1, n / 2);
    }
  }

  function Clamp(x: int): nat {
    if x > 0 then x else 0
  }

  /** How far below the start the `k`-th entry of a locator is. */
  function Back(k: nat): nat {
    if k <= 10 then k else 9 + Pow(2, k - 10)
  }

  function Step(k: nat): nat {
    if k <= 10 then 1 else Pow(2, k - 10)
  }

  lemma BackNext(k: nat)
    ensures Back(k + 1) == Back(k) + Step(k) && Step(k + 1) == if k + 1 > 10 then 2 * Step(k) else Step(k)
  {
    assert Pow(2, 0) == 1 && Pow(2, 1) == 2;
  }

  lemma Bounded(k: nat, h: nat)
    requires k == 0 || h > Back(k - 1)
    ensures k + 1 <= 12 + Log2(h + 1)
  {
    if k >= 11 {
      assert Pow(2, 0) == 1;
      Log2Bound(k - 11, h + 1);
    }
  }

  /** The entries so far are ancestors of the start at the prescribed heights. */
  ghost predicate LocatesPart(start: BlockIndex, have: seq<nat>, blocks: seq<BlockIndex>) {
    && |have| == |blocks|
    && forall k | 0 <= k < |have| ::
         && have[k] == blocks[k].hash && blocks[k] in start.path
         && blocks[k].nHeight == Clamp(start.nHeight - Back(k))
         && (k + 1 < |have| ==> blocks[k].nHeight > 0)
  }

  ghost predicate Locates(start: BlockIndex, have: seq<nat>, blocks: seq<BlockIndex>) {
    && LocatesPart(start, have, blocks)
    && |blocks| > 0 && blocks[0] == start && blocks[|blocks| - 1].nHeight == 0
    && forall i, j | 0 <= i < j < |blocks| :: blocks[i].nHeight > blocks[j].nHeight
  }

  lemma LocatesNone(start: BlockIndex)
    ensures LocatesPart(start, [], []) && Back(0) == 0 && Step(0) == 1
  {
  }

  lemma LocatesNext(start: BlockIndex, have: seq<nat>, blocks: seq<BlockIndex>, b: BlockIndex)
    requires LocatesPart(start, have, blocks) && (have == [] || start.nHeight > Back(|have| - 1))
    requires b in start.path && b.nHeight == Clamp(start.nHeight - Back(|have|))
    ensures LocatesPart(start, have + [b.hash], blocks + [b])
  {
    hide Back;
  }

  lemma {:induction false} BackAscends(i: nat, j: nat)
    requires i < j
    ensures Back(i) < Back(j)
    decreases j
  {
    hide Back, Step;
    BackNext(j - 1);
    StepPositive(j - 1);
    if i < j - 1 {
      BackAscends(i, j - 1);
    }
  }

  lemma StepPositive(k: nat)
    ensures Step(k) > 0
  {
  }

  lemma LocatesAll(start: BlockIndex, have: seq<nat>, blocks: seq<BlockIndex>)
    requires start.InTree() && LocatesPart(start, have, blocks) && |blocks| > 0 && blocks[|blocks| - 1].nHeight == 0
    ensures Locates(start, have, blocks)
  {
    hide BlockIndex.InTree, Pow;
    PathHeights(start);
    start.Place(start.nHeight);
    assert blocks[0].nHeight == start.nHeight;
    var k :| 0 <= k < |start.path| && start.path[k] == blocks[0];
    forall i, j | 0 <= i < j < |blocks| ensures blocks[i].nHeight > blocks[j].nHeight {
      BackAscends(i, j);
    }
  }

  /** A tree of blocks with all ancestors present and every skip link built. */
  ghost predicate TreeOk(tree: set<BlockIndex>)
    reads tree
  {
    forall b | b in tree :: b.InTree() && (forall a | a in b.path :: a in tree) && b.SkipsOk() && b.AllBuilt()
  }

  /** The sum of the proofs along a path. */
  ghost function Work(proof: nat -> nat, path: seq<BlockIndex>): nat {
    if path == [] then 0 else Work(proof, path[..|path| - 1]) + proof(path[|path| - 1].nBits)
  }

  /** All known blocks by their hashes, and the one with the most work. */
  class BlockTree {
    const proof: nat -> nat            // the work that a compact target stands for
    var mapBlockIndex: map<nat, BlockIndex>
    var pindexBestHeader: BlockIndex?

    /** Hashes are those of the blocks, ancestors are present, work is summed up and the best block is the best. */
    ghost predicate Valid()
      reads this, mapBlockIndex.Values
    {
      && (forall h | h in mapBlockIndex :: mapBlockIndex[h].hash == h)
      && TreeOk(mapBlockIndex.Values)
      && (forall b | b in mapBlockIndex.Values :: b.nChainWork == Work(proof, b.path) % Pow(2, 256))
      && (pindexBestHeader == null ==> mapBlockIndex == map[])
      && (pindexBestHeader != null ==>
            pindexBestHeader in mapBlockIndex.Values
            && forall b | b in mapBlockIndex.Values :: b.nChainWork <= pindexBestHeader.nChainWork)
    }

    constructor (proof: nat -> nat)
      ensures Valid() && mapBlockIndex == map[] && this.proof == proof
    {
      this.proof, mapBlockIndex, pindexBestHeader := proof, map[], null;
    }

    /**
      Take note of a header.  A known one is returned as it is.  A new one is put on
      its predecessor if that is known; its skip link is built, its work added up, and
      it becomes the best header exactly if it has more work than the best so far.
      The tree stays one exactly if a new header does not name itself as predecessor.
     */
    method AddToBlockIndex(hash: nat, hashPrev: nat, nBits: nat, nTime: int) returns (b: BlockIndex)
      requires Valid()
      modifies this
      ensures Valid() <==> hash in old(mapBlockIndex) || hash != hashPrev
      ensures hash in mapBlockIndex && b == mapBlockIndex[hash]
      ensures hash in old(mapBlockIndex) ==>
                mapBlockIndex == old(mapBlockIndex) && pindexBestHeader == old(pindexBestHeader)
      ensures hash !in old(mapBlockIndex) ==>
                && fresh(b) && mapBlockIndex == old(mapBlockIndex)[hash := b]
                && b.pprev == (if hashPrev in mapBlockIndex then mapBlockIndex[hashPrev] else null)
                && b.nBits == nBits && b.nTime == nTime
                && (hash != hashPrev && b.nHeight > 0 ==>
                      GetSkipHeight(b.nHeight) < |b.path| && b.pskip == b.path[GetSkipHeight(b.nHeight)])
                && pindexBestHeader == (if old(pindexBestHeader) == null
                                           || old(pindexBestHeader).nChainWork < b.nChainWork then b
                                        else old(pindexBestHeader))
    {
      hide BlockIndex.InTree, BlockIndex.SkipsOk, Pow, Work;
      if hash in mapBlockIndex {
        return mapBlockIndex[hash];
      }
      if hashPrev == hash {
        b := AddLooped(hash, nBits, nTime);
      } else {
        b := AddLinked(hash, hashPrev, nBits, nTime);
      }
      if pindexBestHeader == null || pindexBestHeader.nChainWork < b.nChainWork {
        pindexBestHeader := b;
      }
    }

    /** The part of adding a header that puts it into the tree. */
    method AddLinked(hash: nat, hashPrev: nat, nBits: nat, nTime: int) returns (b: BlockIndex)
      requires Valid() && hash !in mapBlockIndex && hash != hashPrev
      modifies this`mapBlockIndex
      ensures fresh(b) && mapBlockIndex == old(mapBlockIndex)[hash := b]
      ensures mapBlockIndex.Values == old(mapBlockIndex.Values) + {b} && TreeOk(mapBlockIndex.Values)
      ensures b.hash == hash && b.nBits == nBits && b.nTime == nTime
      ensures b.pprev == if hashPrev in mapBlockIndex then mapBlockIndex[hashPrev] else null
      ensures b.nHeight > 0 ==>
                GetSkipHeight(b.nHeight) < |b.path| && b.pskip == b.path[GetSkipHeight(b.nHeight)]
      ensures b.nChainWork == Work(proof, b.path) % Pow(2, 256)
    {
      hide BlockIndex.InTree, BlockIndex.SkipsOk, Pow, Work;
      var pprev: BlockIndex? := null;
      if hashPrev in mapBlockIndex {
        pprev := mapBlockIndex[hashPrev];
      }
      b := AddBlock(mapBlockIndex.Values, hash, nBits, nTime, pprev, proof(nBits));
      ValuesWith(mapBlockIndex, hash, b);
      WorkNext(proof, b);
      mapBlockIndex := mapBlockIndex[hash := b];
    }

    /** A block that is its own predecessor has no place in any tree. */
    method AddLooped(hash: nat, nBits: nat, nTime: int) returns (b: BlockIndex)
      requires hash !in mapBlockIndex
      modifies this`mapBlockIndex
      ensures fresh(b) && mapBlockIndex == old(mapBlockIndex)[hash := b]
      ensures b in mapBlockIndex.Values && !TreeOk(mapBlockIndex.Values)
      ensures b.hash == hash && b.nBits == nBits && b.nTime == nTime && b.pprev == b
    {
      hide BlockIndex.InTree, Pow;
      b := new BlockIndex.Looped(hash, nBits, nTime, proof(nBits));
      ValuesWith(mapBlockIndex, hash, b);
      mapBlockIndex := mapBlockIndex[hash := b];
    }
  }

  lemma ValuesWith(m: map<nat, BlockIndex>, h: nat, b: BlockIndex)
    requires h !in m
    ensures m[h := b].Values == m.Values + {b}
  {
    var n := m[h := b];
    assert n[h] == b;
    forall x | x in m.Values ensures x in n.Values {
      var k :| k in m && m[k] == x;
      assert n[k] == x;
    }
  }

  /** The work of a block is that of its predecessor and its own. */
  lemma WorkNext(proof: nat -> nat, b: BlockIndex)
    requires b.path == (if b.pprev == null then [] else b.pprev.path) + [b]
    requires b.nChainWork == ((if b.pprev == null then 0 else b.pprev.nChainWork) + proof(b.nBits)) % Pow(2, 256)
    requires b.pprev != null ==> b.pprev.nChainWork == Work(proof, b.pprev.path) % Pow(2, 256)
    ensures b.nChainWork == Work(proof, b.path) % Pow(2, 256)
  {
    hide Pow;
    var before := if b.pprev == null then [] else b.pprev.path;
    assert b.path[..|b.path| - 1] == before;
    if b.pprev != null {
      StepModulo(Work(proof, before), 1, proof(b.nBits), Pow(2, 256));
    }
  }

  /** Adding a block keeps every other block's skip links right. */
  method AddBlock(ghost tree: set<BlockIndex>, hash: nat, nBits: nat, nTime: int, pprev: BlockIndex?, proof: nat)
    returns (b: BlockIndex)
    requires TreeOk(tree) && (pprev != null ==> pprev in tree)
    ensures fresh(b) && b.hash == hash && b.nBits == nBits && b.nTime == nTime && b.pprev == pprev && TreeOk(tree + {b})
    ensures b.path == (if pprev == null then [] else pprev.path) + [b]
    ensures b.nChainWork == ((if pprev == null then 0 else pprev.nChainWork) + proof) % Pow(2, 256)
    ensures b.nHeight > 0 ==> GetSkipHeight(b.nHeight) < |b.path| && b.pskip == b.path[GetSkipHeight(b.nHeight)]
  {
    hide BlockIndex.InTree, Pow;
    b := new BlockIndex(hash, nBits, nTime, pprev, proof);
    b.BuildSkip();
  }
}
