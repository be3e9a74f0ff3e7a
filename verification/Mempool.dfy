/**
  The memory pool as the block assembler sees it: a finite acyclic graph of
  transactions with exact cached sums over each transaction and its ancestors, and
  the side table that corrects those sums as transactions enter the block.
 */
module Mempool {
  import opened SetSums

  type Tx = nat

  /** Totals over a transaction and its ancestors. */
  datatype Mod = Mod(size: int, fees: int, sigops: int)

  datatype TxData = TxData(
    parents: set<Tx>,
    size: nat,       // virtual size
    weight: nat,
    sigops: nat,
    bytes: nat,      // serialized size
    fee: int,
    modFee: int,     // fee with the operator's adjustment
    isFinal: bool,
    hasWitness: bool,
    cached: Mod,     // totals with ancestors, kept by the pool
    count: nat)      // number of ancestors, with itself

  /** `anc` gives the ancestors of a transaction that are in the pool, without itself. */
  datatype Pool = Pool(txs: set<Tx>, data: Tx -> TxData, anc: Tx -> set<Tx>)

  ghost predicate WellFormed(p: Pool) {
    forall t | t in p.txs ::
      && p.anc(t) <= p.txs && t !in p.anc(t)
      && p.data(t).parents <= p.anc(t)
      && (forall a | a in p.anc(t) :: p.anc(a) <= p.anc(t))
      && (forall a | a in p.anc(t) :: a in p.data(t).parents || exists q :: q in p.data(t).parents && a in p.anc(q))
      && p.data(t).size > 0 && p.data(t).weight <= 4 * p.data(t).size
      && p.data(t).cached == Cached(p, t) && p.data(t).count == |p.anc(t)| + 1
  }

  function Family(p: Pool, t: Tx): set<Tx> {
    p.anc(t) + {t}
  }

  ghost function Members(xs: seq<Tx>): set<Tx> {
    set t | t in xs
  }

  function Descendants(p: Pool, t: Tx): set<Tx> {
    set d | d in p.txs && t in p.anc(d)
  }

  ghost function Sizes(p: Pool): Tx -> int { (t: Tx) => p.data(t).size }
  ghost function Weights(p: Pool): Tx -> int { (t: Tx) => p.data(t).weight }
  ghost function SigOps(p: Pool): Tx -> int { (t: Tx) => p.data(t).sigops }
  ghost function Bytes(p: Pool): Tx -> int { (t: Tx) => p.data(t).bytes }
  ghost function Fees(p: Pool): Tx -> int { (t: Tx) => p.data(t).fee }
  ghost function ModFees(p: Pool): Tx -> int { (t: Tx) => p.data(t).modFee }
  ghost function Deltas(p: Pool): Tx -> int { (t: Tx) => p.data(t).modFee - p.data(t).fee }

  /** The totals of a set of transactions. */
  ghost function Totals(p: Pool, s: set<Tx>): Mod {
    Mod(SetSum(s, Sizes(p)), SetSum(s, ModFees(p)), SetSum(s, SigOps(p)))
  }

  /** The exact totals. */
  ghost function Cached(p: Pool, t: Tx): Mod {
    Totals(p, Family(p, t))
  }

  /** The operator has adjusted no fee. */
  ghost predicate NoDeltas(p: Pool) {
    forall t | t in p.txs :: p.data(t).modFee == p.data(t).fee
  }

  /** Everything a member depends on is a member. */
  ghost predicate Closed(p: Pool, s: set<Tx>) {
    s <= p.txs && forall t | t in s :: p.anc(t) <= s
  }

  lemma TxFacts(p: Pool, t: Tx)
    requires WellFormed(p) && t in p.txs
    ensures p.anc(t) <= p.txs && t !in p.anc(t) && p.data(t).parents <= p.anc(t)
    ensures p.data(t).cached == Cached(p, t) && p.data(t).count == |p.anc(t)| + 1
    ensures p.data(t).size > 0 && p.data(t).weight <= 4 * p.data(t).size
  {
  }

  /** A transaction all of whose parents are in a closed set has all its ancestors there. */
  lemma ParentsSuffice(p: Pool, s: set<Tx>, t: Tx)
    requires WellFormed(p) && Closed(p, s) && t in p.txs && p.data(t).parents <= s
    ensures p.anc(t) <= s
  {
    forall a | a in p.anc(t) ensures a in s {
      if a !in p.data(t).parents {
        var q :| q in p.data(t).parents && a in p.anc(q);
        assert p.anc(q) <= s;
      }
    }
  }

  lemma FamilyClosed(p: Pool, t: Tx, u: Tx)
    requires WellFormed(p) && t in p.txs && u in Family(p, t)
    ensures u in p.txs && p.anc(u) <= Family(p, t)
  {
  }

  lemma PackageClosed(p: Pool, inBlock: set<Tx>, package: set<Tx>, t: Tx)
    requires WellFormed(p) && Closed(p, inBlock) && t in p.txs && package == Family(p, t) - inBlock
    ensures Closed(p, inBlock + package)
  {
    hide WellFormed;
    TxFacts(p, t);
    forall u | u in inBlock + package ensures p.anc(u) <= inBlock + package {
      if u in package {
        FamilyClosed(p, t, u);
      }
    }
  }

  /** An ancestor has fewer ancestors. */
  lemma FewerAncestors(p: Pool, a: Tx, t: Tx)
    requires WellFormed(p) && t in p.txs && a in p.anc(t)
    ensures |p.anc(a)| < |p.anc(t)|
  {
    hide Cached;
    assert p.anc(a) + {a} <= p.anc(t) && a in p.txs;
    assert p.anc(t) == (p.anc(a) + {a}) + (p.anc(t) - (p.anc(a) + {a}));
    assert |p.anc(a) + {a}| == |p.anc(a)| + 1;
  }

  // ----- the side table

  /** What is still thought to be the total of a transaction and its ancestors outside the block. */
  type Modified = map<Tx, Mod>

  /** `m` does not underestimate what adding `t` and its missing ancestors takes. */
  ghost predicate Covers(p: Pool, m: Mod, t: Tx, inBlock: set<Tx>) {
    && m.size >= SetSum(Family(p, t) - inBlock, Sizes(p))
    && m.sigops >= SetSum(Family(p, t) - inBlock, SigOps(p))
  }

  /** How far the fee total of `m` is above the adjusted fees of `t` and its missing ancestors. */
  ghost function FeeError(p: Pool, m: Mod, t: Tx, inBlock: set<Tx>): int {
    m.fees - SetSum(Family(p, t) - inBlock, ModFees(p))
  }

  /** The fee total is too high by the adjustments of the ancestors in the block but `f`. */
  ghost predicate DriftedFrom(p: Pool, m: Mod, t: Tx, inBlock: set<Tx>, f: Tx) {
    f in p.anc(t) * inBlock && FeeError(p, m, t, inBlock) == SetSum(p.anc(t) * inBlock - {f}, Deltas(p))
  }

  /**
    Size and cost are just what adding `t` and its missing ancestors takes.  So are the
    fees, but for the adjustments of all ancestors in the block except one.
   */
  ghost predicate Exact(p: Pool, m: Mod, t: Tx, inBlock: set<Tx>) {
    && m.size == SetSum(Family(p, t) - inBlock, Sizes(p))
    && m.sigops == SetSum(Family(p, t) - inBlock, SigOps(p))
    && if p.anc(t) * inBlock == {} then FeeError(p, m, t, inBlock) == 0
       else exists f :: DriftedFrom(p, m, t, inBlock, f)
  }

  ghost predicate Tracked(p: Pool, inBlock: set<Tx>, modified: Modified, failed: set<Tx>) {
    && Closed(p, inBlock)
    && modified.Keys <= p.txs && modified.Keys !! inBlock
    && (forall t | t in modified :: Covers(p, modified[t], t, inBlock) && p.anc(t) * inBlock != {})
    && (forall t | t in modified && t !in failed :: Exact(p, modified[t], t, inBlock))
    && (forall t | t in p.txs && t !in inBlock && t !in modified && t !in failed :: p.anc(t) !! inBlock)
  }

  /** The entry an update starts from: the present one, or the cached totals. */
  ghost function Start(p: Pool, before: Modified, d: Tx): Mod {
    if d in before then before[d] else Cached(p, d)
  }

  /** `m` is `base` with the transactions of `out` taken out, but adjusted fees only for those of `spared`. */
  ghost predicate Less(p: Pool, m: Mod, base: Mod, out: set<Tx>, spared: set<Tx>) {
    && m.size == base.size - SetSum(out, Sizes(p))
    && m.sigops == base.sigops - SetSum(out, SigOps(p))
    && m.fees == base.fees - SetSum(out, ModFees(p)) + SetSum(out - spared, Deltas(p))
  }

  /** The adjusted fee is taken out of an entry only when it is made: of one transaction, the first. */
  ghost predicate Taken(p: Pool, m: Mod, before: Modified, d: Tx, out: set<Tx>) {
    if d in before || out == {} then Less(p, m, Start(p, before, d), out, {})
    else exists f :: f in out && Less(p, m, Start(p, before, d), out, {f})
  }

  /** `after` is `before` with the transactions of `added` taken out of the totals of their descendants. */
  ghost predicate Updated(p: Pool, before: Modified, after: Modified, added: set<Tx>) {
    && (forall d :: d in after <==> d in before || (d in p.txs && d !in added && p.anc(d) * added != {}))
    && (forall d | d in after && d !in added :: Taken(p, after[d], before, d, p.anc(d) * added))
  }

  /** A cached total of a candidate with no ancestor in the block is exact. */
  lemma CachedExact(p: Pool, t: Tx, inBlock: set<Tx>)
    requires p.anc(t) !! inBlock && t !in inBlock
    ensures Family(p, t) - inBlock == Family(p, t)
    ensures Covers(p, Cached(p, t), t, inBlock) && Exact(p, Cached(p, t), t, inBlock)
  {
    assert Family(p, t) - inBlock == Family(p, t);
  }

  /** The cached totals never underestimate. */
  lemma CachedCovers(p: Pool, t: Tx, inBlock: set<Tx>)
    ensures Covers(p, Cached(p, t), t, inBlock)
  {
    SumSubset(Family(p, t) - inBlock, Family(p, t), Sizes(p));
    SumSubset(Family(p, t) - inBlock, Family(p, t), SigOps(p));
  }

  /** Taking the added ancestors out of a total that covers `t` leaves one that covers it. */
  lemma CoversLess(p: Pool, base: Mod, m: Mod, t: Tx, inBlock: set<Tx>, added: set<Tx>, spared: set<Tx>)
    requires Less(p, m, base, p.anc(t) * added, spared) && added !! inBlock && t !in added && t !in inBlock
    ensures Covers(p, base, t, inBlock) ==> Covers(p, m, t, inBlock + added)
    ensures m.size - SetSum(Family(p, t) - (inBlock + added), Sizes(p))
         == base.size - SetSum(Family(p, t) - inBlock, Sizes(p))
    ensures m.sigops - SetSum(Family(p, t) - (inBlock + added), SigOps(p))
         == base.sigops - SetSum(Family(p, t) - inBlock, SigOps(p))
    ensures FeeError(p, m, t, inBlock + added)
         == FeeError(p, base, t, inBlock) + SetSum(p.anc(t) * added - spared, Deltas(p))
  {
    hide SetSum;
    var out := p.anc(t) * added;
    var left := Family(p, t) - (inBlock + added);
    assert Family(p, t) - inBlock == left + out;
    SumUnion(left, out, Sizes(p));
    SumUnion(left, out, SigOps(p));
    SumUnion(left, out, ModFees(p));
  }

  /** Which of the transactions taken out were taken with their adjusted fee. */
  ghost predicate Spares(before: Modified, d: Tx, out: set<Tx>, spared: set<Tx>) {
    if d in before || out == {} then spared == {} else exists f :: f in out && spared == {f}
  }

  /**
    What an update does to the fee total of any entry: the old error stays, and the
    adjustments of the transactions taken out are added to it, except that of the first
    one if the entry is new.  So the total is right afterwards exactly if these cancel.
   */
  lemma FeesExactIff(p: Pool, before: Modified, after: Modified, inBlock: set<Tx>, added: set<Tx>, d: Tx)
    requires Updated(p, before, after, added) && d in after && d !in added && d !in inBlock && added !! inBlock
    ensures exists spared | Spares(before, d, p.anc(d) * added, spared) ::
              var error := FeeError(p, Start(p, before, d), d, inBlock)
                           + SetSum(p.anc(d) * added - spared, Deltas(p));
              && FeeError(p, after[d], d, inBlock + added) == error
              && (after[d].fees == SetSum(Family(p, d) - (inBlock + added), ModFees(p)) <==> error == 0)
  {
    hide SetSum, Start;
    var base, out := Start(p, before, d), p.anc(d) * added;
    assert Taken(p, after[d], before, d, out);
    if d in before || out == {} {
      CoversLess(p, base, after[d], d, inBlock, added, {});
      assert Spares(before, d, out, {});
    } else {
      var f :| f in out && Less(p, after[d], base, out, {f});
      CoversLess(p, base, after[d], d, inBlock, added, {f});
      assert Spares(before, d, out, {f});
    }
  }

  /** An exact entry stays exact: the one spared ancestor remains the same. */
  lemma ExactTaken(p: Pool, before: Modified, m: Mod, t: Tx, inBlock: set<Tx>, added: set<Tx>)
    requires Taken(p, m, before, t, p.anc(t) * added) && added !! inBlock && t !in added && t !in inBlock
    requires if t in before then p.anc(t) * inBlock != {} else p.anc(t) * inBlock == {}
    requires Exact(p, Start(p, before, t), t, inBlock)
    ensures Exact(p, m, t, inBlock + added)
  {
    hide SetSum, Start, FeeError;
    var base, out := Start(p, before, t), p.anc(t) * added;
    assert p.anc(t) * (inBlock + added) == p.anc(t) * inBlock + out;
    if t in before {
      CoversLess(p, base, m, t, inBlock, added, {});
      var f :| DriftedFrom(p, base, t, inBlock, f);
      assert p.anc(t) * (inBlock + added) - {f} == (p.anc(t) * inBlock - {f}) + (out - {});
      SumUnion(p.anc(t) * inBlock - {f}, out - {}, Deltas(p));
      assert DriftedFrom(p, m, t, inBlock + added, f);
    } else if out == {} {
      CoversLess(p, base, m, t, inBlock, added, {});
      SumNothing(out - {}, Deltas(p));
    } else {
      var f :| f in out && Less(p, m, base, out, {f});
      CoversLess(p, base, m, t, inBlock, added, {f});
      assert p.anc(t) * (inBlock + added) - {f} == out - {f};
      assert DriftedFrom(p, m, t, inBlock + added, f);
    }
  }

  /** With no adjusted fee, or a single ancestor in the block, an exact entry has exact fees too. */
  lemma ExactFees(p: Pool, m: Mod, t: Tx, inBlock: set<Tx>)
    requires Exact(p, m, t, inBlock) && inBlock <= p.txs
    ensures NoDeltas(p) || |p.anc(t) * inBlock| <= 1 ==> FeeError(p, m, t, inBlock) == 0
  {
    hide SetSum, FeeError;
    var out := p.anc(t) * inBlock;
    if out != {} {
      var f :| DriftedFrom(p, m, t, inBlock, f);
      if |out| <= 1 {
        assert out == (out - {f}) + {f};
        assert |out - {f}| == 0;
        SumNothing(out - {f}, Deltas(p));
      }
      if NoDeltas(p) {
        SumZero(out - {f}, Deltas(p));
      }
    }
  }

  lemma CoversTaken(p: Pool, before: Modified, m: Mod, t: Tx, inBlock: set<Tx>, added: set<Tx>)
    requires Taken(p, m, before, t, p.anc(t) * added) && added !! inBlock && t !in added && t !in inBlock
    requires Covers(p, Start(p, before, t), t, inBlock)
    ensures Covers(p, m, t, inBlock + added)
  {
    hide SetSum, Start, FeeError, Covers;
    var base, out := Start(p, before, t), p.anc(t) * added;
    if t in before || out == {} {
      CoversLess(p, base, m, t, inBlock, added, {});
    } else {
      var f :| f in out && Less(p, m, base, out, {f});
      CoversLess(p, base, m, t, inBlock, added, {f});
    }
  }

  lemma AddedEntry(p: Pool, inBlock: set<Tx>, modified: Modified, failed: set<Tx>, added: set<Tx>, after: Modified,
                   t: Tx)
    requires Tracked(p, inBlock, modified, failed) && added !! inBlock && t in after && t !in inBlock && t !in added
    requires Updated(p, modified - added, after, added)
    ensures p.anc(t) * (inBlock + added) != {} && Covers(p, after[t], t, inBlock + added)
    ensures t !in failed ==> Exact(p, after[t], t, inBlock + added)
  {
    hide SetSum, Covers, Exact, Taken, Closed;
    CachedCovers(p, t, inBlock);
    assert p.anc(t) * (inBlock + added) == p.anc(t) * inBlock + p.anc(t) * added;
    CoversTaken(p, modified - added, after[t], t, inBlock, added);
    if t !in failed {
      if t !in modified {
        CachedExact(p, t, inBlock);
      }
      ExactTaken(p, modified - added, after[t], t, inBlock, added);
    }
  }

  /** Adding a package and updating the side table keeps every total an over-approximation. */
  lemma AddedTracked(p: Pool, inBlock: set<Tx>, modified: Modified, failed: set<Tx>, added: set<Tx>, after: Modified)
    requires WellFormed(p) && Tracked(p, inBlock, modified, failed)
    requires added !! inBlock && Closed(p, inBlock + added)
    requires Updated(p, modified - added, after, added)
    ensures Tracked(p, inBlock + added, after, failed)
  {
    hide SetSum, Covers, Exact, Taken;
    forall t | t in inBlock ensures t !in after {
      assert p.anc(t) <= inBlock;
      assert p.anc(t) * added == {};
    }
    forall t | t in after
      ensures t in p.txs && t !in inBlock + added && p.anc(t) * (inBlock + added) != {}
      ensures Covers(p, after[t], t, inBlock + added)
      ensures t !in failed ==> Exact(p, after[t], t, inBlock + added)
    {
      AddedEntry(p, inBlock, modified, failed, added, after, t);
    }
    forall t | t in p.txs && t !in inBlock + added && t !in after && t !in failed ensures p.anc(t) !! inBlock + added {
      assert t !in modified && p.anc(t) * added == {};
      assert p.anc(t) !! inBlock;
      assert forall a | a in p.anc(t) :: a !in p.anc(t) * added;
    }
  }

  // ----- one pass of the update

  /** The members of `added` that have been taken out of the totals of `d` so far. */
  ghost function TakenOut(done: set<Tx>, it: Tx, descDone: set<Tx>, d: Tx): set<Tx> {
    if d in descDone then done + {it} else done
  }

  /** The update after all of `done`, and after `it` for the descendants in `descDone`. */
  ghost predicate Underway(p: Pool, before: Modified, now: Modified, added: set<Tx>, done: set<Tx>,
                           it: Tx, descDone: set<Tx>)
  {
    && (forall d :: d in now <==>
          d in before || (d in p.txs && d !in added && p.anc(d) * TakenOut(done, it, descDone, d) != {}))
    && (forall d | d in now && d !in added ::
          Taken(p, now[d], before, d, p.anc(d) * TakenOut(done, it, descDone, d)))
  }

  lemma UnderwayStart(p: Pool, before: Modified, added: set<Tx>, it: Tx)
    requires before.Keys !! added
    ensures Underway(p, before, before, added, {}, it, {})
  {
    hide SetSum;
    SumNothing({}, Sizes(p));
    SumNothing({}, SigOps(p));
    SumNothing({}, ModFees(p));
    SumNothing({} - {}, Deltas(p));
    forall d ensures p.anc(d) * TakenOut({}, it, {}, d) == {} {
    }
  }

  /** The entry for `d` after taking out `it`: a new entry loses the adjusted fee, an old one the plain fee. */
  ghost predicate Reduced(p: Pool, now: Modified, d: Tx, it: Tx, m: Mod) {
    var was := if d in now then now[d] else Cached(p, d);
    m == Mod(was.size - p.data(it).size,
             was.fees - (if d in now then p.data(it).fee else p.data(it).modFee),
             was.sigops - p.data(it).sigops)
  }

  lemma UnderwayEntry(p: Pool, before: Modified, now: Modified, added: set<Tx>, done: set<Tx>,
                      it: Tx, descDone: set<Tx>, d: Tx, m: Mod)
    requires Underway(p, before, now, added, done, it, descDone)
    requires it !in done && it in p.anc(d) && d in p.txs && d !in descDone
    requires d !in added && it in p.txs && Reduced(p, now, d, it, m)
    ensures Taken(p, m, before, d, p.anc(d) * (done + {it}))
  {
    hide SetSum, Cached, Less;
    var out, base := p.anc(d) * done, Start(p, before, d);
    assert p.anc(d) * (done + {it}) == out + {it};
    if d !in now {
      assert d !in before && out == {};
      LessFirst(p, base, m, it);
      assert out + {it} == {it};
    } else if d in before {
      LessMore(p, base, now[d], m, out, {}, it);
    } else {
      var f :| f in out && Less(p, now[d], base, out, {f});
      LessMore(p, base, now[d], m, out, {f}, it);
    }
  }

  /** The first transaction taken out of a new entry. */
  lemma LessFirst(p: Pool, base: Mod, m: Mod, it: Tx)
    requires m == Mod(base.size - p.data(it).size, base.fees - p.data(it).modFee, base.sigops - p.data(it).sigops)
    ensures Less(p, m, base, {it}, {it})
  {
    hide SetSum;
    SumOne(it, Sizes(p));
    SumOne(it, SigOps(p));
    SumOne(it, ModFees(p));
    SumNothing({it} - {it}, Deltas(p));
  }

  /** One more transaction taken out of an entry. */
  lemma LessMore(p: Pool, base: Mod, was: Mod, m: Mod, out: set<Tx>, spared: set<Tx>, it: Tx)
    requires Less(p, was, base, out, spared) && it !in out && spared <= out
    requires m == Mod(was.size - p.data(it).size, was.fees - p.data(it).fee, was.sigops - p.data(it).sigops)
    ensures Less(p, m, base, out + {it}, spared)
  {
    hide SetSum;
    SumInsert(out, Sizes(p), it);
    SumInsert(out, SigOps(p), it);
    SumInsert(out, ModFees(p), it);
    assert out + {it} - spared == (out - spared) + {it};
    SumInsert(out - spared, Deltas(p), it);
  }

  lemma SumOne(x: Tx, w: Tx -> int)
    ensures SetSum({x}, w) == w(x)
  {
    SumInsert({}, w, x);
    assert {} + {x} == {x};
  }

  lemma UnderwayStep(p: Pool, before: Modified, now: Modified, added: set<Tx>, done: set<Tx>,
                     it: Tx, descDone: set<Tx>, d: Tx, m: Mod)
    requires Underway(p, before, now, added, done, it, descDone)
    requires it !in done && it in p.anc(d) && d in p.txs && d !in descDone
    requires d !in added && it in p.txs && Reduced(p, now, d, it, m)
    ensures Underway(p, before, now[d := m], added, done, it, descDone + {d})
  {
    hide SetSum, Start, Reduced, Taken;
    UnderwayEntry(p, before, now, added, done, it, descDone, d, m);
    forall x | x != d ensures TakenOut(done, it, descDone + {d}, x) == TakenOut(done, it, descDone, x) {
    }
    assert it in p.anc(d) * TakenOut(done, it, descDone + {d}, d);
  }

  lemma SumNothing(s: set<Tx>, w: Tx -> int)
    requires s == {}
    ensures SetSum(s, w) == 0
  {
  }

  /** A descendant that is itself added needs no entry. */
  lemma UnderwaySkip(p: Pool, before: Modified, now: Modified, added: set<Tx>, done: set<Tx>,
                     it: Tx, descDone: set<Tx>, d: Tx)
    requires Underway(p, before, now, added, done, it, descDone) && d in added
    ensures Underway(p, before, now, added, done, it, descDone + {d})
  {
    hide SetSum, Taken;
    forall x | x != d ensures TakenOut(done, it, descDone + {d}, x) == TakenOut(done, it, descDone, x) {
    }
  }

  lemma UnderwayNext(p: Pool, before: Modified, now: Modified, added: set<Tx>, done: set<Tx>, it: Tx, next: Tx)
    requires Underway(p, before, now, added, done, it, Descendants(p, it))
    requires before.Keys <= p.txs
    ensures Underway(p, before, now, added, done + {it}, next, {})
  {
    hide SetSum, Taken;
    forall d | d in p.txs
      ensures p.anc(d) * TakenOut(done, it, Descendants(p, it), d) == p.anc(d) * TakenOut(done + {it}, next, {}, d)
    {
    }
  }

  lemma UnderwayAny(p: Pool, before: Modified, now: Modified, added: set<Tx>, done: set<Tx>, it: Tx, next: Tx)
    requires Underway(p, before, now, added, done, it, {})
    ensures Underway(p, before, now, added, done, next, {})
  {
  }

  lemma UnderwayDone(p: Pool, before: Modified, now: Modified, added: set<Tx>, it: Tx)
    requires Underway(p, before, now, added, added, it, {})
    ensures Updated(p, before, now, added)
  {
  }

  /** The totals are at least the transaction's own share, so the unsigned counters of the table never wrap. */
  lemma NoWrap(p: Pool, m: Mod, t: Tx, inBlock: set<Tx>)
    requires Covers(p, m, t, inBlock) && t !in inBlock
    ensures m.size >= p.data(t).size && m.sigops >= p.data(t).sigops
  {
    var left := Family(p, t) - inBlock;
    SumRemove(left, Sizes(p), t);
    SumRemove(left, SigOps(p), t);
    SumNonNegative(left - {t}, Sizes(p));
    SumNonNegative(left - {t}, SigOps(p));
  }

  lemma TrackedFacts(p: Pool, inBlock: set<Tx>, modified: Modified, failed: set<Tx>, t: Tx)
    requires Tracked(p, inBlock, modified, failed)
    ensures inBlock <= p.txs && Closed(p, inBlock)
    ensures t in modified ==>
              && t in p.txs && t !in inBlock && p.anc(t) * inBlock != {}
              && Covers(p, modified[t], t, inBlock) && (t !in failed ==> Exact(p, modified[t], t, inBlock))
    ensures t in p.txs && t !in inBlock && t !in modified && t !in failed ==> p.anc(t) !! inBlock
  {
    hide Covers, Exact;
  }

  lemma FailTracked(p: Pool, inBlock: set<Tx>, modified: Modified, failed: set<Tx>, t: Tx)
    requires Tracked(p, inBlock, modified, failed) && t in modified
    ensures Tracked(p, inBlock, modified - {t}, failed + {t}) && |modified - {t}| < |modified|
  {
    hide Covers, Exact;
  }

  /**
    Whichever table a candidate comes from, it is not in the block and its totals do
    not underestimate; they are exact unless the candidate failed before.
   */
  lemma CandidateFacts(p: Pool, inBlock: set<Tx>, modified: Modified, failed: set<Tx>, t: Tx, m: Mod)
    requires WellFormed(p) && Tracked(p, inBlock, modified, failed)
    requires (t in modified && m == modified[t])
             || (t in p.txs && t !in modified && t !in inBlock && t !in failed && m == p.data(t).cached)
    ensures t in p.txs && t !in inBlock && Covers(p, m, t, inBlock) && m.size > 0
    ensures t !in failed ==> Exact(p, m, t, inBlock)
  {
    hide SetSum, Exact, WellFormed, Cached, Tracked, Covers;
    TrackedFacts(p, inBlock, modified, failed, t);
    TxFacts(p, t);
    if t !in modified {
      CachedExact(p, t, inBlock);
    }
    NoWrap(p, m, t, inBlock);
  }

  /** The fees of such a candidate are exact too if none is adjusted, or one ancestor at most is in the block. */
  lemma CandidateFees(p: Pool, inBlock: set<Tx>, modified: Modified, failed: set<Tx>, t: Tx, m: Mod)
    requires WellFormed(p) && Tracked(p, inBlock, modified, failed) && t !in failed
    requires (t in modified && m == modified[t])
             || (t in p.txs && t !in modified && t !in inBlock && m == p.data(t).cached)
    requires NoDeltas(p) || |p.anc(t) * inBlock| <= 1
    ensures m.fees == SetSum(Family(p, t) - inBlock, ModFees(p))
  {
    hide SetSum, Exact, WellFormed, Cached, Tracked, Covers, NoDeltas;
    TrackedFacts(p, inBlock, modified, failed, t);
    CandidateFacts(p, inBlock, modified, failed, t, m);
    ExactFees(p, m, t, inBlock);
  }
}
