/**
  Block assembly: transactions are put in the block first by priority and then by
  packages of a transaction with its missing ancestors, best fee for the size first.
  Scores are compared exactly, and which of two equal ones comes first is arbitrary.
 */
module Miner {
  import opened Basics
  import opened SetSums
  import opened Mempool
  import opened FeeRates
  import opened Selection
  import opened Priority

  const MAX_BLOCK_SERIALIZED_SIZE: nat := 4000000
  const MAX_BLOCK_WEIGHT: nat := 4000000
  const WITNESS_SCALE_FACTOR: nat := 4
  const DEFAULT_BLOCK_MAX_SIZE: nat := 750000
  const DEFAULT_BLOCK_MAX_WEIGHT: nat := 3000000

  ghost predicate Distinct(xs: seq<Tx>) {
    forall i, j | 0 <= i < j < |xs| :: xs[i] != xs[j]
  }

  lemma MembersEnds(xs: seq<Tx>)
    ensures Members(xs[..0]) == {} && Members(xs[..|xs|]) == Members(xs)
  {
    assert xs[..|xs|] == xs;
  }

  lemma MembersNext(xs: seq<Tx>, i: nat)
    requires i < |xs|
    ensures Members(xs[..i + 1]) == Members(xs[..i]) + {xs[i]}
  {
    assert xs[..i + 1] == xs[..i] + [xs[i]];
    MembersMore(xs[..i], xs[i]);
  }

  /** Every transaction comes after its ancestors. */
  ghost predicate Ordered(p: Pool, xs: seq<Tx>) {
    forall i | 0 <= i < |xs| :: p.anc(xs[i]) <= Members(xs[..i])
  }

  /** Fewer ancestors come first. */
  ghost predicate Ascending(p: Pool, xs: seq<Tx>) {
    forall i, j | 0 <= i < j < |xs| :: p.data(xs[i]).count <= p.data(xs[j]).count
  }

  lemma OrderedAppend(p: Pool, xs: seq<Tx>, t: Tx)
    requires Ordered(p, xs) && p.anc(t) <= Members(xs)
    ensures Ordered(p, xs + [t])
  {
    var ys := xs + [t];
    forall i | 0 <= i < |ys| ensures p.anc(ys[i]) <= Members(ys[..i]) {
      if i < |xs| {
        assert ys[..i] == xs[..i];
      } else {
        assert ys[..i] == xs;
      }
    }
  }

  class BlockAssembler {
    const pool: Pool
    const minRelayRate: nat          // fee for a thousand bytes
    const maxWeight: nat
    const maxSize: nat
    const accountSize: bool          // whether byte usage is limited too

    var needSizeAccounting: bool
    var includeWitness: bool
    var vtx: seq<Tx>                 // the block after the coinbase
    var inBlock: set<Tx>
    var nBlockWeight: int
    var nBlockSize: int
    var nBlockTx: int
    var nBlockSigOpsCost: int
    var nFees: int
    var lastFewTxs: int
    var blockFinished: bool

    ghost var sized: set<Tx>         // the transactions whose bytes were counted

    /** Limits asked for by the operator, unsigned 32-bit integers, are brought into a sane range. */
    static method Limits(weightArg: Option<Int64>, sizeArg: Option<Int64>) returns (weight: nat, size: nat)
      ensures 4000 <= weight <= MAX_BLOCK_WEIGHT - 4000
      ensures 1000 <= size <= MAX_BLOCK_SERIALIZED_SIZE - 1000
      ensures weightArg.Some? && 4000 <= weightArg.value <= MAX_BLOCK_WEIGHT - 4000 ==> weight == weightArg.value
      ensures sizeArg.Some? && 1000 <= sizeArg.value <= MAX_BLOCK_SERIALIZED_SIZE - 1000 ==> size == sizeArg.value
      ensures weightArg.Some? && sizeArg.None? ==> size == MAX_BLOCK_SERIALIZED_SIZE - 1000
      ensures weightArg.None? && sizeArg.Some? && 1000 <= sizeArg.value <= 999000 ==> weight == 4 * sizeArg.value
      ensures weightArg.None? && sizeArg.None? ==> weight == 3000000 && size == 750000
    {
      weight, size := DEFAULT_BLOCK_MAX_WEIGHT, DEFAULT_BLOCK_MAX_SIZE;
      if weightArg.Some? {
        weight, size := weightArg.value % TWO_32, MAX_BLOCK_SERIALIZED_SIZE;
      }
      if sizeArg.Some? {
        size := sizeArg.value % TWO_32;
        if weightArg.None? {
          weight := size * WITNESS_SCALE_FACTOR % TWO_32;
        }
      }
      weight := Max(4000, Min(MAX_BLOCK_WEIGHT - 4000, weight));
      size := Max(1000, Min(MAX_BLOCK_SERIALIZED_SIZE - 1000, size));
    }

    constructor (pool: Pool, minRelayRate: nat, weightArg: Option<Int64>, sizeArg: Option<Int64>)
      requires WellFormed(pool)
      ensures this.pool == pool && this.minRelayRate == minRelayRate
      ensures 4000 <= maxWeight <= MAX_BLOCK_WEIGHT - 4000
      ensures 1000 <= maxSize <= MAX_BLOCK_SERIALIZED_SIZE - 1000
      ensures weightArg.Some? && 4000 <= weightArg.value <= MAX_BLOCK_WEIGHT - 4000 ==> maxWeight == weightArg.value
      ensures sizeArg.Some? && 1000 <= sizeArg.value <= MAX_BLOCK_SERIALIZED_SIZE - 1000 ==> maxSize == sizeArg.value
      ensures weightArg.Some? && sizeArg.None? ==> !accountSize
      ensures weightArg.None? && sizeArg.Some? && 1000 <= sizeArg.value <= 999000 ==> maxWeight == 4 * sizeArg.value
      ensures weightArg.None? && sizeArg.None? ==> maxWeight == 3000000 && maxSize == 750000
      ensures accountSize <==> maxSize < MAX_BLOCK_SERIALIZED_SIZE - 1000
      ensures Sound() && Limited() && vtx == [] && needSizeAccounting == accountSize
    {
      var weight, size := Limits(weightArg, sizeArg);
      this.pool, this.minRelayRate, maxWeight, maxSize := pool, minRelayRate, weight, size;
      accountSize := size < MAX_BLOCK_SERIALIZED_SIZE - 1000;
      needSizeAccounting := size < MAX_BLOCK_SERIALIZED_SIZE - 1000;
      new;
      hide WellFormed, BlockAssembler.Sound;
      ResetBlock();
    }

    /** Start over with space reserved for the coinbase. */
    method ResetBlock()
      requires WellFormed(pool) && (accountSize ==> needSizeAccounting) && maxWeight >= 4000 && maxSize >= 1000
      modifies this
      ensures Sound() && Limited() && vtx == []
      ensures needSizeAccounting == old(needSizeAccounting) && !blockFinished && lastFewTxs == 0
    {
      hide SetSum, WellFormed;
      inBlock, vtx, sized := {}, [], {};
      nBlockSize := 1000;
      nBlockWeight := 4000;
      nBlockSigOpsCost := 400;
      includeWitness := false;
      nBlockTx := 0;
      nFees := 0;
      lastFewTxs := 0;
      blockFinished := false;
      SumNothing(inBlock, Weights(pool));
      SumNothing(inBlock, SigOps(pool));
      SumNothing(inBlock, Fees(pool));
      SumNothing(inBlock, Bytes(pool));
    }

    /** The block is a duplicate-free, ancestor-closed list in a valid order, and the counters are exact. */
    ghost predicate Sound()
      reads this`vtx, this`inBlock, this`sized, this`nBlockTx, this`nBlockWeight, this`nBlockSigOpsCost
      reads this`nFees, this`nBlockSize, this`needSizeAccounting
    {
      && WellFormed(pool)
      && Distinct(vtx) && inBlock == Members(vtx) && Closed(pool, inBlock) && Ordered(pool, vtx)
      && sized <= inBlock && (accountSize ==> sized == inBlock)
      && nBlockTx == |vtx|
      && nBlockWeight == 4000 + SetSum(inBlock, Weights(pool))
      && nBlockSigOpsCost == 400 + SetSum(inBlock, SigOps(pool))
      && nFees == SetSum(inBlock, Fees(pool))
      && nBlockSize == 1000 + SetSum(sized, Bytes(pool))
      && (accountSize ==> needSizeAccounting)
    }

    lemma SoundFacts()
      requires Sound()
      ensures WellFormed(pool) && Closed(pool, inBlock)
      ensures Distinct(vtx) && Ordered(pool, vtx) && inBlock == Members(vtx)
    {
    }

    lemma StartFacts()
      requires Sound() && vtx == []
      ensures inBlock == {} && sized == {}
    {
    }

    /** The counter tells whether the filling goes on. */
    lemma GoesOnIs(priority: Tx -> real, prioritySize: nat)
      requires Sound() && sized == inBlock && vtx != []
      ensures GoesOn(pool, priority, prioritySize, vtx) <==>
                nBlockSize < prioritySize && AllowFree(priority(vtx[|vtx| - 1]))
    {
      hide WellFormed, SetSum;
    }

    /** The counters tell whether a transaction has room, and whether the block is close to its limits. */
    lemma RoomFacts(t: Tx)
      requires Sound() && sized == inBlock && t in pool.txs && t !in inBlock
      ensures Room(pool, Rules(), t, inBlock) <==>
                && (includeWitness || !pool.data(t).hasWitness)
                && nBlockWeight + pool.data(t).weight < maxWeight && nBlockSize + pool.data(t).bytes < maxSize
                && nBlockSigOpsCost + pool.data(t).sigops < MAX_BLOCK_SIGOPS_COST && pool.data(t).isFinal
      ensures Room(pool, Rules(), t, inBlock) && pool.anc(t) <= inBlock ==> Eligible(pool, Rules(), t, inBlock)
      ensures NearFull(pool, Rules(), inBlock) <==>
                || nBlockWeight > maxWeight - 4000 || nBlockSize > maxSize - 1000
                || nBlockSigOpsCost > MAX_BLOCK_SIGOPS_COST - 8
    {
      hide WellFormed, SetSum;
    }

    /** The block stays within its limits. */
    ghost predicate Limited()
      reads this
    {
      && nBlockWeight <= maxWeight
      && nBlockSigOpsCost <= MAX_BLOCK_SIGOPS_COST
      && (accountSize ==> nBlockSize <= maxSize)
    }

    ghost function Rules(): Policy
      reads this`includeWitness
    {
      Policy(maxWeight, maxSize, accountSize, includeWitness, minRelayRate)
    }

    method AddToBlock(t: Tx)
      requires Sound() && t in pool.txs && t !in inBlock && pool.anc(t) <= inBlock
      modifies this`vtx, this`inBlock, this`sized, this`nBlockSize, this`nBlockWeight, this`nBlockTx
      modifies this`nBlockSigOpsCost, this`nFees
      ensures Sound()
      ensures vtx == old(vtx) + [t] && inBlock == old(inBlock) + {t}
      ensures nBlockWeight == old(nBlockWeight) + pool.data(t).weight
      ensures nBlockSigOpsCost == old(nBlockSigOpsCost) + pool.data(t).sigops
      ensures nBlockSize == old(nBlockSize) + if needSizeAccounting then pool.data(t).bytes else 0
      ensures sized == old(sized) + if needSizeAccounting then {t} else {}
    {
      hide SetSum, WellFormed, Ordered;
      SumInsert(inBlock, Weights(pool), t);
      SumInsert(inBlock, SigOps(pool), t);
      SumInsert(inBlock, Fees(pool), t);
      MembersMore(vtx, t);
      OrderedAppend(pool, vtx, t);
      vtx := vtx + [t];
      if needSizeAccounting {
        SumInsert(sized, Bytes(pool), t);
        nBlockSize := nBlockSize + pool.data(t).bytes;
        sized := sized + {t};
      }
      nBlockWeight := nBlockWeight + pool.data(t).weight;
      nBlockTx := nBlockTx + 1;
      nBlockSigOpsCost := nBlockSigOpsCost + pool.data(t).sigops;
      nFees := nFees + pool.data(t).fee;
      inBlock := inBlock + {t};
    }

    /** Some parent in the pool is not in the block yet. */
    method IsStillDependent(t: Tx) returns (dependent: bool)
      requires Sound() && t in pool.txs
      ensures dependent <==> !(pool.anc(t) <= inBlock)
    {
      dependent := !(pool.data(t).parents <= inBlock);
      if !dependent {
        ParentsSuffice(pool, inBlock, t);
      }
    }

    method TestPackage(packageSize: int, packageSigOpsCost: int) returns (fits: bool)
      ensures fits <==> nBlockWeight + WITNESS_SCALE_FACTOR * packageSize < maxWeight
                        && nBlockSigOpsCost + packageSigOpsCost < MAX_BLOCK_SIGOPS_COST
    {
      if nBlockWeight + WITNESS_SCALE_FACTOR * packageSize >= maxWeight {
        return false;
      }
      if nBlockSigOpsCost + packageSigOpsCost >= MAX_BLOCK_SIGOPS_COST {
        return false;
      }
      return true;
    }

    /** The checks on the single transactions of a package, in any order. */
    method TestPackageTransactions(package: set<Tx>) returns (ok: bool)
      requires package != {}
      ensures ok <==>
                && (forall t | t in package :: pool.data(t).isFinal && (includeWitness || !pool.data(t).hasWitness))
                && (needSizeAccounting ==> nBlockSize + SetSum(package, Bytes(pool)) < maxSize)
    {
      hide SetSum;
      var potential := nBlockSize;
      var todo := package;
      SumNothing(package - todo, Bytes(pool));
      while todo != {}
        invariant todo <= package
        invariant needSizeAccounting ==> potential == nBlockSize + SetSum(package - todo, Bytes(pool))
        invariant forall t | t in package - todo :: pool.data(t).isFinal && (includeWitness || !pool.data(t).hasWitness)
        invariant needSizeAccounting && todo != package ==> potential < maxSize
        decreases todo
      {
        Inhabited(todo);
        var t :| t in todo;
        if !pool.data(t).isFinal {
          return false;
        }
        if !includeWitness && pool.data(t).hasWitness {
          return false;
        }
        if needSizeAccounting {
          assert package - (todo - {t}) == (package - todo) + {t};
          SumInsert(package - todo, Bytes(pool), t);
          if potential + pool.data(t).bytes >= maxSize {
            SumSubset(package - (todo - {t}), package, Bytes(pool));
            return false;
          }
          potential := potential + pool.data(t).bytes;
        }
        todo := todo - {t};
      }
      assert package - todo == package;
      ok := true;
    }

    /** Whether one more transaction fits; also decides when to stop looking. */
    method TestForBlock(t: Tx) returns (fits: bool)
      requires t in pool.txs
      modifies this`blockFinished, this`lastFewTxs
      ensures fits <==> nBlockWeight + pool.data(t).weight < maxWeight
                        && (needSizeAccounting ==> nBlockSize + pool.data(t).bytes < maxSize)
                        && nBlockSigOpsCost + pool.data(t).sigops < MAX_BLOCK_SIGOPS_COST
                        && pool.data(t).isFinal
      ensures fits ==> blockFinished == old(blockFinished) && lastFewTxs == old(lastFewTxs)
      ensures old(blockFinished) ==> blockFinished
      ensures blockFinished && !old(blockFinished) ==>
                || nBlockWeight > maxWeight - 400 || nBlockSize > maxSize - 100
                || nBlockSigOpsCost > MAX_BLOCK_SIGOPS_COST - 8 || old(lastFewTxs) > 50
      ensures old(lastFewTxs) <= lastFewTxs <= old(lastFewTxs) + 1
      ensures lastFewTxs > old(lastFewTxs) ==> nBlockWeight > maxWeight - 4000 || nBlockSize > maxSize - 1000
    {
      if nBlockWeight + pool.data(t).weight >= maxWeight {
        if nBlockWeight > maxWeight - 400 || lastFewTxs > 50 {
          blockFinished := true;
          return false;
        }
        if nBlockWeight > maxWeight - 4000 {
          lastFewTxs := lastFewTxs + 1;
        }
        return false;
      }
      if needSizeAccounting {
        if nBlockSize + pool.data(t).bytes >= maxSize {
          if nBlockSize > maxSize - 100 || lastFewTxs > 50 {
            blockFinished := true;
            return false;
          }
          if nBlockSize > maxSize - 1000 {
            lastFewTxs := lastFewTxs + 1;
          }
          return false;
        }
      }
      if nBlockSigOpsCost + pool.data(t).sigops >= MAX_BLOCK_SIGOPS_COST {
        if nBlockSigOpsCost > MAX_BLOCK_SIGOPS_COST - 8 {
          blockFinished := true;
          return false;
        }
        return false;
      }
      return pool.data(t).isFinal;
    }

    /** Take the transactions of `added` out of the totals of all their descendants. */
    method UpdatePackagesForAdded(added: set<Tx>, before: Modified) returns (modified: Modified)
      requires WellFormed(pool) && added <= pool.txs && before.Keys <= pool.txs && before.Keys !! added
      ensures Updated(pool, before, modified, added)
    {
      hide SetSum, Underway, Updated, WellFormed;
      modified := before;
      var todo := added;
      UnderwayStart(pool, before, added, 0);
      assert added - todo == {};
      while todo != {}
        invariant todo <= added
        invariant Underway(pool, before, modified, added, added - todo, 0, {})
        decreases todo
      {
        Inhabited(todo);
        var it :| it in todo;
        UnderwayAny(pool, before, modified, added, added - todo, 0, it);
        modified := UpdateDescendants(added, before, modified, added - todo, it);
        UnderwayNext(pool, before, modified, added, added - todo, it, 0);
        assert added - todo + {it} == added - (todo - {it});
        todo := todo - {it};
      }
      assert added - todo == added;
      UnderwayDone(pool, before, modified, added, 0);
    }

    /** The part of the update that is due to one added transaction. */
    method UpdateDescendants(added: set<Tx>, ghost before: Modified, now: Modified, ghost done: set<Tx>, it: Tx)
      returns (modified: Modified)
      requires WellFormed(pool) && it in added && it in pool.txs && it !in done && done <= added
      requires Underway(pool, before, now, added, done, it, {})
      ensures Underway(pool, before, modified, added, done, it, Descendants(pool, it))
    {
      hide SetSum, Underway, WellFormed, Cached;
      modified := now;
      var descendants := Descendants(pool, it);
      var todo := descendants;
      assert descendants - todo == {};
      while todo != {}
        invariant todo <= descendants
        invariant Underway(pool, before, modified, added, done, it, descendants - todo)
        decreases todo
      {
        Inhabited(todo);
        var d :| d in todo;
        assert descendants - (todo - {d}) == (descendants - todo) + {d};
        TxFacts(pool, d);
        if d in added {
          UnderwaySkip(pool, before, modified, added, done, it, descendants - todo, d);
        } else if d !in modified {
          var e := pool.data(d).cached;
          e := Mod(e.size - pool.data(it).size, e.fees - pool.data(it).modFee, e.sigops - pool.data(it).sigops);
          UnderwayStep(pool, before, modified, added, done, it, descendants - todo, d, e);
          modified := modified[d := e];
        } else {
          var e := modified[d];
          e := Mod(e.size - pool.data(it).size, e.fees - pool.data(it).fee, e.sigops - pool.data(it).sigops);
          UnderwayStep(pool, before, modified, added, done, it, descendants - todo, d, e);
          modified := modified[d := e];
        }
        todo := todo - {d};
      }
      assert descendants - todo == descendants;
    }

    /** A member of least ancestor count. */
    method Least(s: set<Tx>) returns (t: Tx)
      requires s != {}
      ensures t in s && forall u | u in s :: pool.data(t).count <= pool.data(u).count
    {
      Inhabited(s);
      t :| t in s;
      var todo := s - {t};
      while todo != {}
        invariant t in s && todo <= s
        invariant forall u | u in s && u !in todo :: pool.data(t).count <= pool.data(u).count
        decreases todo
      {
        Inhabited(todo);
        var u :| u in todo;
        if pool.data(u).count < pool.data(t).count {
          t := u;
        }
        todo := todo - {u};
      }
    }

    /** The package by ascending ancestor count. */
    method SortForBlock(package: set<Tx>) returns (sorted: seq<Tx>)
      ensures Distinct(sorted) && Members(sorted) == package && Ascending(pool, sorted)
    {
      sorted := [];
      var todo := package;
      while todo != {}
        invariant todo <= package && Distinct(sorted) && Members(sorted) == package - todo
        invariant Ascending(pool, sorted)
        invariant forall i, u | 0 <= i < |sorted| && u in todo :: pool.data(sorted[i]).count <= pool.data(u).count
        decreases todo
      {
        var t := Least(todo);
        MembersMore(sorted, t);
        assert t !in Members(sorted);
        sorted := sorted + [t];
        todo := todo - {t};
        assert Members(sorted) == package - todo;
      }
    }

    /** Put a package of missing ancestors in the block, in a valid order. */
    method AddPackage(t: Tx, package: set<Tx>, before: Modified) returns (modified: Modified)
      requires Sound() && t in pool.txs && t !in inBlock
      requires package == Family(pool, t) - inBlock
      modifies this`vtx, this`inBlock, this`sized, this`nBlockSize, this`nBlockWeight, this`nBlockTx
      modifies this`nBlockSigOpsCost, this`nFees
      ensures Sound() && inBlock == old(inBlock) + package
      ensures old(vtx) <= vtx
      ensures modified == before - package
      ensures nBlockWeight == old(nBlockWeight) + SetSum(package, Weights(pool))
      ensures nBlockSigOpsCost == old(nBlockSigOpsCost) + SetSum(package, SigOps(pool))
      ensures nBlockSize == old(nBlockSize) + if needSizeAccounting then SetSum(package, Bytes(pool)) else 0
    {
      hide SetSum, WellFormed, Ordered, Closed, Distinct, Ascending, Members, Family, BlockAssembler.Sound;
      SoundFacts();
      modified := before;
      var sorted := SortForBlock(package);
      MembersEnds(sorted);
      ghost var was := inBlock;
      ghost var done: set<Tx> := {};
      SumNothing(done, Weights(pool));
      SumNothing(done, SigOps(pool));
      SumNothing(done, Bytes(pool));
      for i := 0 to |sorted|
        invariant Sound() && done == Members(sorted[..i]) && inBlock == was + done && old(vtx) <= vtx
        invariant modified == before - done
        invariant nBlockWeight == old(nBlockWeight) + SetSum(done, Weights(pool))
        invariant nBlockSigOpsCost == old(nBlockSigOpsCost) + SetSum(done, SigOps(pool))
        invariant nBlockSize == old(nBlockSize) + if needSizeAccounting then SetSum(done, Bytes(pool)) else 0
      {
        PackageOrder(t, was, package, sorted, i);
        var u := sorted[i];
        MembersNext(sorted, i);
        SumInsert(done, Weights(pool), u);
        SumInsert(done, SigOps(pool), u);
        SumInsert(done, Bytes(pool), u);
        OneMore(was, done, before, u);
        AddToBlock(u);
        modified := modified - {u};
        done := done + {u};
      }
    }

    /** In a sorted package all missing ancestors of a member come before it. */
    lemma PackageOrder(t: Tx, was: set<Tx>, package: set<Tx>, sorted: seq<Tx>, i: nat)
      requires WellFormed(pool) && Closed(pool, was) && t in pool.txs && t !in was && package == Family(pool, t) - was
      requires Distinct(sorted) && Members(sorted) == package && Ascending(pool, sorted) && i < |sorted|
      ensures var u := sorted[i];
              u in pool.txs && u !in was && u !in Members(sorted[..i]) && pool.anc(u) <= was + Members(sorted[..i])
    {
      hide WellFormed, Closed;
      var u := sorted[i];
      assert u in Members(sorted);
      FamilyClosed(pool, t, u);
      TxFacts(pool, u);
      forall a | a in pool.anc(u) ensures a in was + Members(sorted[..i]) {
        if a !in was {
          assert a in Members(sorted);
          var j :| 0 <= j < |sorted| && sorted[j] == a;
          FewerAncestors(pool, a, u);
          TxFacts(pool, a);
          assert j < i;
          assert sorted[..i][j] == a;
        }
      }
    }

    /** Test a package and, if it passes, put it in the block and update the side table. */
    method TryPackage(t: Tx, total: Mod, before: Modified, ghost failed: set<Tx>)
      returns (added: bool, modified: Modified)
      requires Sound() && Limited() && needSizeAccounting == accountSize
      requires Tracked(pool, inBlock, before, failed) && t in pool.txs && t !in inBlock
      requires Covers(pool, total, t, inBlock)
      modifies this`vtx, this`inBlock, this`sized, this`nBlockSize, this`nBlockWeight, this`nBlockTx
      modifies this`nBlockSigOpsCost, this`nFees
      ensures Sound() && Limited() && Tracked(pool, inBlock, modified, failed) && old(vtx) <= vtx
      ensures added <==> Fits(pool, Rules(), total, t, old(inBlock))
      ensures var package := Family(pool, t) - old(inBlock);
              added ==> inBlock == old(inBlock) + package && Updated(pool, before - package, modified, package)
      ensures !added ==> modified == before && inBlock == old(inBlock)
    {
      hide SetSum, WellFormed, Ordered, Closed, Distinct, Tracked, Updated;
      modified, added := before, false;
      var fits := TestPackage(total.size, total.sigops);
      if !fits {
        return;
      }
      var ancestors := pool.anc(t) - inBlock;
      var package := ancestors + {t};
      assert package == Family(pool, t) - inBlock;
      var ok := TestPackageTransactions(package);
      if !ok {
        return;
      }
      PackageWeight(pool, package, t);
      PackageFacts(pool, inBlock, t, before, failed);
      modified := AddPackage(t, package, before);
      modified := UpdatePackagesForAdded(package, modified);
      PackageTracked(pool, old(inBlock), before, failed, package, modified, t);
      added := true;
    }

    /** Add a package, or refuse it and, if it came from the side table, drop it there. */
    method TakePackage(t: Tx, total: Mod, before: Modified, failedBefore: set<Tx>, usingModified: bool,
                       ghost start: set<Tx>, ghost log: Log, ghost left: seq<Tx>, ghost rest: seq<Tx>)
      returns (modified: Modified, failed: set<Tx>)
      requires Sound() && Limited() && needSizeAccounting == accountSize
      requires Selecting(pool, Rules(), start, log, inBlock, before, failedBefore, left)
      requires Candidate(pool, before, failedBefore, left, inBlock, t, total) && usingModified == (t in before)
      requires total.fees >= GetFee(minRelayRate, total.size)
      requires Consumed(left, t, rest)
      modifies this`vtx, this`inBlock, this`sized, this`nBlockSize, this`nBlockWeight, this`nBlockTx
      modifies this`nBlockSigOpsCost, this`nFees
      ensures Sound() && Limited() && old(vtx) <= vtx
      ensures var e := Decide(pool, Rules(), t, total, old(inBlock));
              Selecting(pool, Rules(), start, log + [e], inBlock, modified, failed, rest)
      ensures || Missing(pool, inBlock) < Missing(pool, old(inBlock))
              || (inBlock == old(inBlock) && |modified| == |before| - if usingModified then 1 else 0)
    {
      hide SetSum, WellFormed, Ordered, Closed, Distinct, Tracked, Updated, Covers, Exact, Family, Members;
      hide BlockAssembler.Sound, BlockAssembler.Limited, Selecting, Candidate, Fits, GetFee, Missing;
      failed := failedBefore;
      ghost var rules, block := Rules(), inBlock;
      SoundFacts();
      SelectingFacts(pool, rules, start, log, block, before, failed, left);
      CandidateIs(pool, before, failed, left, block, t, total);
      var added;
      added, modified := TryPackage(t, total, before, failed);
      if added {
        SelectingAdded(pool, rules, start, log, block, before, failed, left, t, total, modified, rest);
        AddedMore(pool, block, t);
      } else {
        SelectingRefused(pool, rules, start, log, block, before, failed, left, t, total, rest);
        if usingModified {
          Fewer(modified, t);
          modified := modified - {t};
          failed := failed + {t};
        }
      }
    }

    /** Look at the best candidate; `low` if it does not pay enough to go on. */
    method NextPackage(order: seq<Tx>, i: nat, before: Modified, failedBefore: set<Tx>,
                       ghost start: set<Tx>, ghost log: Log)
      returns (low: bool, mi: nat, modified: Modified, failed: set<Tx>, ghost e: Event)
      requires Sound() && Limited() && needSizeAccounting == accountSize && Ranked(pool, order)
      requires i <= |order| && (i == |order| ==> before != map[])
      requires Selecting(pool, Rules(), start, log, inBlock, before, failedBefore, Ahead(order, i))
      requires i < |order| ==> order[i] !in before && order[i] !in inBlock && order[i] !in failedBefore
      modifies this`vtx, this`inBlock, this`sized, this`nBlockSize, this`nBlockWeight, this`nBlockTx
      modifies this`nBlockSigOpsCost, this`nFees
      ensures Sound() && Limited() && old(vtx) <= vtx && i <= mi <= |order|
      ensures low ==> History(pool, Rules(), start, log + [e], inBlock) && Complete(pool, Rules(), log + [e], inBlock)
      ensures !low ==> Selecting(pool, Rules(), start, log + [e], inBlock, modified, failed, Ahead(order, mi))
      ensures !low ==> || Missing(pool, inBlock) < Missing(pool, old(inBlock))
                       || (inBlock == old(inBlock) && |order| - mi + |modified| < |order| - i + |before|)
    {
      hide SetSum, WellFormed, Ordered, Closed, Distinct, Tracked, Updated, Covers, Exact, BlockAssembler.Sound;
      hide Selecting, Candidate, Fits, History, Complete, GetFee, Ranked, Family, Members, Consumed, Ahead, Missing;
      hide BlockAssembler.Limited;
      mi, modified, failed := i, before, failedBefore;
      ghost var rules, left := Rules(), Ahead(order, i);
      SoundFacts();
      SelectingFacts(pool, rules, start, log, inBlock, modified, failed, left);
      var iter, package, usingModified;
      iter, package, usingModified := NextCandidate(order, mi, modified, failed);
      e := Decide(pool, rules, iter, package, inBlock);
      if !usingModified {
        mi := mi + 1;
      }
      LeftAfter(order, i, mi, iter);
      low := package.fees < GetFee(minRelayRate, package.size);
      if low {
        SelectingUnpaid(pool, rules, start, log, inBlock, modified, failed, left, iter, package);
      } else {
        modified, failed := TakePackage(iter, package, modified, failed, usingModified,
                                        start, log, left, Ahead(order, mi));
      }
    }

    /**
      Select packages, best first, until no candidate is left or the fee is too low.
      `order` is the pool by descending score.
     */
    method AddPackageTxs(order: seq<Tx>) returns (ghost log: Log)
      requires Sound() && Limited() && needSizeAccounting == accountSize && Ranked(pool, order)
      modifies this`vtx, this`inBlock, this`sized, this`nBlockSize, this`nBlockWeight, this`nBlockTx
      modifies this`nBlockSigOpsCost, this`nFees
      ensures Sound() && Limited() && old(vtx) <= vtx
      ensures History(pool, Rules(), old(inBlock), log, inBlock) && Complete(pool, Rules(), log, inBlock)
    {
      hide SetSum, WellFormed, Ordered, Closed, Distinct, Tracked, Updated, Covers, Exact, BlockAssembler.Sound;
      hide Selecting, Candidate, Fits, History, Complete, GetFee, Ranked, Sensible, Over, Next, Family, Members;
      hide BlockAssembler.Limited, Consumed, Ahead, Missing;
      ghost var rules, start := Rules(), inBlock;
      log := [];
      SoundFacts();
      var none: Modified := map[];
      BlockKnown(pool, inBlock);
      var modified := UpdatePackagesForAdded(inBlock, none);
      var failed: set<Tx> := {};
      var mi := 0;
      StartSelecting(pool, rules, inBlock, modified, order);
      while mi < |order| || modified != map[]
        invariant 0 <= mi <= |order| && Sound() && Limited() && old(vtx) <= vtx
        invariant Selecting(pool, rules, start, log, inBlock, modified, failed, Ahead(order, mi))
        decreases Missing(pool, inBlock), |order| - mi + |modified|
      {
        if mi < |order| && (order[mi] in modified || order[mi] in inBlock || order[mi] in failed) {
          SelectingSkip(pool, rules, start, log, inBlock, modified, failed, order, mi);
          mi := mi + 1;
        } else {
          var low;
          ghost var e;
          low, mi, modified, failed, e := NextPackage(order, mi, modified, failed, start, log);
          log := log + [e];
          if low {
            return;
          }
        }
      }
      NothingLeft(pool, rules, start, log, inBlock, failed, order);
    }

    /** The better of the next pool entry and the best entry of the side table. */
    method NextCandidate(order: seq<Tx>, mi: nat, modified: Modified, failed: set<Tx>)
      returns (iter: Tx, package: Mod, usingModified: bool)
      requires Sound() && Tracked(pool, inBlock, modified, failed) && Ranked(pool, order)
      requires mi <= |order| && (mi == |order| ==> modified != map[])
      requires mi < |order| ==> order[mi] !in modified && order[mi] !in inBlock && order[mi] !in failed
      ensures if usingModified then iter in modified else mi < |order| && iter == order[mi] && iter !in modified
      ensures Candidate(pool, modified, failed, Ahead(order, mi), inBlock, iter, package)
    {
      hide SetSum, WellFormed, Ordered, Closed, Distinct, Tracked, Covers, Exact, Better, BlockAssembler.Sound;
      SoundFacts();
      SizesPositive(pool, inBlock, modified, failed);
      usingModified := mi == |order|;
      assert usingModified ==> Ahead(order, mi) == [];
      if modified != map[] {
        iter := PickModified(modified);
        package := modified[iter];
        if !usingModified {
          var next := pool.data(order[mi]).cached;
          usingModified := Better(package, next);
          CachedPositive(pool, order[mi]);
          RankedRest(pool, order, mi, package);
          if !usingModified {
            forall t | t in modified ensures !Better(modified[t], next) {
              NoBetterTransitive(next, package, modified[t]);
            }
          }
        }
      }
      if !usingModified {
        iter := order[mi];
        CachedPositive(pool, iter);
        RankedRest(pool, order, mi, pool.data(iter).cached);
        package := pool.data(iter).cached;
      }
      CandidateFacts(pool, inBlock, modified, failed, iter, package);
    }

    /** An entry of the side table that no other one is better than. */
    method PickModified(modified: Modified) returns (t: Tx)
      requires modified != map[] && forall u | u in modified :: modified[u].size > 0
      ensures t in modified && forall u | u in modified :: !Better(modified[u], modified[t])
    {
      hide Better;
      assert modified.Keys != {};
      Inhabited(modified.Keys);
      t :| t in modified.Keys;
      var todo := modified.Keys - {t};
      Irreflexive(modified[t]);
      while todo != {}
        invariant t in modified && todo <= modified.Keys
        invariant forall u | u in modified && u !in todo :: !Better(modified[u], modified[t])
        decreases todo
      {
        Inhabited(todo);
        var u :| u in todo;
        if Better(modified[u], modified[t]) {
          forall v | v in modified && v !in todo ensures !Better(modified[v], modified[u]) {
            Asymmetric(modified[u], modified[t]);
            NoBetterTransitive(modified[u], modified[t], modified[v]);
          }
          Irreflexive(modified[u]);
          t := u;
        }
        todo := todo - {u};
      }
    }

    /** Fill part of the block by priority. */
    method AddPriorityTxs(prioritySizeArg: Int64, priority: Tx -> real)
      requires Sound() && Limited() && vtx == [] && !blockFinished && lastFewTxs == 0
      modifies this`vtx, this`inBlock, this`sized, this`nBlockSize, this`nBlockWeight, this`nBlockTx
      modifies this`nBlockSigOpsCost, this`nFees, this`needSizeAccounting, this`blockFinished, this`lastFewTxs
      ensures Sound() && Limited() && needSizeAccounting == old(needSizeAccounting)
      ensures PriorityPart(pool, Rules(), priority, Min(maxSize, prioritySizeArg % TWO_32), vtx)
    {
      hide SetSum, WellFormed, Ordered, Closed, Distinct, EachHighest, EachGoesOn, GoesOn, Eligible, NearFull;
      var prioritySize := Min(maxSize, prioritySizeArg % TWO_32);
      if prioritySize == 0 {
        return;
      }
      var sizeAccounting := needSizeAccounting;
      needSizeAccounting := true;
      FillByPriority(prioritySize, priority);
      needSizeAccounting := sizeAccounting;
    }

    /** A member of highest priority. */
    method Top(s: set<Tx>, priority: Tx -> real) returns (t: Tx)
      requires s != {}
      ensures t in s && forall u | u in s :: priority(u) <= priority(t)
    {
      Inhabited(s);
      t :| t in s;
      var todo := s - {t};
      while todo != {}
        invariant t in s && todo <= s
        invariant forall u | u in s && u !in todo :: priority(u) <= priority(t)
        decreases todo
      {
        Inhabited(todo);
        var u :| u in todo;
        if priority(u) > priority(t) {
          t := u;
        }
        todo := todo - {u};
      }
    }

    /** The queue always gives up an entry of highest priority; none that is already in the block is met again. */
    method FillByPriority(prioritySize: nat, priority: Tx -> real)
      requires Sound() && Limited() && needSizeAccounting && vtx == [] && !blockFinished && lastFewTxs == 0
      requires prioritySize > 0
      modifies this`vtx, this`inBlock, this`sized, this`nBlockSize, this`nBlockWeight, this`nBlockTx
      modifies this`nBlockSigOpsCost, this`nFees, this`blockFinished, this`lastFewTxs
      ensures Sound() && Limited()
      ensures PriorityPart(pool, Rules(), priority, prioritySize, vtx)
    {
      hide BlockAssembler.Sound, BlockAssembler.Limited, Filling, PriorityPart, NearFull, Missing, SetSum;
      ghost var rules := Rules();
      StartFacts();
      FillingStart(pool, rules, priority, prioritySize);
      var queued, waiting: set<Tx> := pool.txs, {};
      while queued != {} && !blockFinished
        invariant Sound() && Limited() && needSizeAccounting && sized == inBlock
        invariant Filling(pool, rules, priority, prioritySize, vtx, queued, waiting)
        invariant blockFinished || lastFewTxs > 0 ==> NearFull(pool, rules, Members(vtx))
        decreases Missing(pool, inBlock), |queued|
      {
        var iter := Top(queued, priority);
        var stop;
        stop, queued, waiting := TakeByPriority(iter, queued, waiting, prioritySize, priority);
        if stop {
          return;
        }
      }
      FillingEnd(pool, rules, priority, prioritySize, vtx, queued, waiting);
    }

    /** Look at a queued transaction of highest priority; `stop` if it went in as the last one. */
    method TakeByPriority(iter: Tx, were: set<Tx>, waited: set<Tx>, prioritySize: nat, priority: Tx -> real)
      returns (stop: bool, queued: set<Tx>, waiting: set<Tx>)
      requires Sound() && Limited() && needSizeAccounting && sized == inBlock && prioritySize > 0
      requires Filling(pool, Rules(), priority, prioritySize, vtx, were, waited)
      requires lastFewTxs > 0 ==> NearFull(pool, Rules(), Members(vtx))
      requires !blockFinished && iter in were && forall u | u in were :: priority(u) <= priority(iter)
      modifies this`vtx, this`inBlock, this`sized, this`nBlockSize, this`nBlockWeight, this`nBlockTx
      modifies this`nBlockSigOpsCost, this`nFees, this`blockFinished, this`lastFewTxs
      ensures Sound() && Limited() && sized == inBlock
      ensures if stop then PriorityPart(pool, Rules(), priority, prioritySize, vtx)
              else Filling(pool, Rules(), priority, prioritySize, vtx, queued, waiting)
      ensures !stop && (blockFinished || lastFewTxs > 0) ==> NearFull(pool, Rules(), Members(vtx))
      ensures || Missing(pool, inBlock) < Missing(pool, old(inBlock))
              || (inBlock == old(inBlock) && |queued| < |were|)
    {
      hide BlockAssembler.Sound, Filling, PriorityPart, NearFull, Missing, SetSum, WellFormed, Closed, Members;
      hide GoesOn, Room, Eligible, Distinct, Ordered, AllowFree;
      stop := false;
      queued, waiting := were - {iter}, waited;
      SoundFacts();
      FillingFacts(pool, Rules(), priority, prioritySize, vtx, were, waited, iter);
      if !includeWitness && pool.data(iter).hasWitness {
        FillingDrop(pool, Rules(), priority, prioritySize, vtx, were, waited, iter);
        return;
      }
      var dependent := IsStillDependent(iter);
      if dependent {
        FillingWait(pool, Rules(), priority, prioritySize, vtx, were, waited, iter);
        waiting := waiting + {iter};
        return;
      }
      RoomFacts(iter);
      var fits := TestForBlock(iter);
      if !fits {
        FillingDrop(pool, Rules(), priority, prioritySize, vtx, were, waited, iter);
        return;
      }
      stop, queued, waiting := AddByPriority(iter, were, waited, prioritySize, priority);
    }

    /** Put a transaction of highest priority in and queue what waited for it, unless it was the last one. */
    method AddByPriority(iter: Tx, were: set<Tx>, waited: set<Tx>, prioritySize: nat, priority: Tx -> real)
      returns (stop: bool, queued: set<Tx>, waiting: set<Tx>)
      requires Sound() && Limited() && needSizeAccounting && sized == inBlock && prioritySize > 0
      requires Filling(pool, Rules(), priority, prioritySize, vtx, were, waited)
      requires lastFewTxs > 0 ==> NearFull(pool, Rules(), Members(vtx))
      requires iter in were && forall u | u in were :: priority(u) <= priority(iter)
      requires Eligible(pool, Rules(), iter, inBlock)
      modifies this`vtx, this`inBlock, this`sized, this`nBlockSize, this`nBlockWeight, this`nBlockTx
      modifies this`nBlockSigOpsCost, this`nFees
      ensures Sound() && Limited() && sized == inBlock
      ensures if stop then PriorityPart(pool, Rules(), priority, prioritySize, vtx)
              else Filling(pool, Rules(), priority, prioritySize, vtx, queued, waiting)
      ensures lastFewTxs > 0 ==> NearFull(pool, Rules(), Members(vtx))
      ensures Missing(pool, inBlock) < Missing(pool, old(inBlock))
    {
      hide BlockAssembler.Sound, Filling, PriorityPart, NearFull, Missing, SetSum, WellFormed, Closed, Members;
      hide GoesOn, Distinct, Ordered, AllowFree, Room;
      queued, waiting := were - {iter}, waited;
      var children := set c | c in waiting && iter in pool.data(c).parents;
      SoundFacts();
      FillingAdd(pool, Rules(), priority, prioritySize, vtx, were, waited, iter, children);
      if lastFewTxs > 0 {
        NearFullMore(pool, Rules(), inBlock, iter);
      }
      OneLess(pool, inBlock, iter);
      RoomFacts(iter);
      AddToBlock(iter);
      SoundFacts();
      GoesOnIs(priority, prioritySize);
      stop := nBlockSize >= prioritySize || !AllowFree(priority(iter));
      if !stop {
        queued := queued + children;
        waiting := waiting - children;
      }
    }

    /**
      A whole run, up to the coinbase.  The block has no duplicates, lists every
      transaction after everything it depends on, and its true weight, signature
      operations and (if limited) size stay within the limits.  Its first part is
      chosen by priority, the rest by fees, and nothing is left out for no reason.
     */
    method CreateNewBlock(witnessEnabled: bool, prioritySizeArg: Int64, priority: Tx -> real, order: seq<Tx>)
      returns (ghost first: nat, ghost log: Log)
      requires WellFormed(pool) && needSizeAccounting == accountSize && maxWeight >= 4000 && maxSize >= 1000
      requires Ranked(pool, order)
      modifies this
      ensures first <= |vtx| && includeWitness == witnessEnabled
      ensures forall i, j | 0 <= i < j < |vtx| :: vtx[i] != vtx[j]
      ensures forall i, a | 0 <= i < |vtx| && a in pool.data(vtx[i]).parents :: a in vtx[..i]
      ensures 4000 + SetSum(Members(vtx), Weights(pool)) <= maxWeight
      ensures 400 + SetSum(Members(vtx), SigOps(pool)) <= MAX_BLOCK_SIGOPS_COST
      ensures accountSize ==> 1000 + SetSum(Members(vtx), Bytes(pool)) <= maxSize
      ensures Allowed(pool, Rules(), Members(vtx))
      ensures PriorityPart(pool, Rules(), priority, Min(maxSize, prioritySizeArg % TWO_32), vtx[..first])
      ensures History(pool, Rules(), Members(vtx[..first]), log, Members(vtx))
      ensures forall t | t in pool.txs && t !in Members(vtx) ::
                Settled(pool, Rules(), log, Members(vtx), t) || TooCheap(pool, Rules(), log, Members(vtx), t)
      ensures Plenty(pool, Rules()) ==> pool.txs <= Members(vtx)
      ensures Sound() && Limited()
    {
      hide SetSum, WellFormed, Ordered, Distinct, History, Complete, Plenty, PriorityPart, Settled, TooCheap;
      ResetBlock();
      includeWitness := witnessEnabled;
      AddPriorityTxs(prioritySizeArg, priority);
      first := |vtx|;
      ghost var xs := vtx;
      log := AddPackageTxs(order);
      assert vtx[..first] == xs;
      BlockFacts(pool, vtx);
      SelectionFacts(pool, Rules(), priority, Min(maxSize, prioritySizeArg % TWO_32), xs, log, inBlock);
    }
  }

  lemma OneMore(was: set<Tx>, done: set<Tx>, before: Modified, u: Tx)
    ensures was + done + {u} == was + (done + {u})
    ensures before - done - {u} == before - (done + {u})
  {
  }

  lemma PackageWeight(p: Pool, package: set<Tx>, t: Tx)
    requires WellFormed(p) && t in p.txs && package <= Family(p, t)
    ensures SetSum(package, Weights(p)) <= 4 * SetSum(package, Sizes(p))
  {
    TxFacts(p, t);
    SumScaled(package, Weights(p), Sizes(p), 4);
  }

  lemma PackageFacts(p: Pool, inBlock: set<Tx>, t: Tx, modified: Modified, failed: set<Tx>)
    requires WellFormed(p) && t in p.txs && Tracked(p, inBlock, modified, failed)
    ensures Family(p, t) - inBlock <= p.txs
    ensures modified.Keys <= p.txs
  {
    TxFacts(p, t);
  }

  lemma PackageTracked(p: Pool, inBlock: set<Tx>, modified: Modified, failed: set<Tx>, package: set<Tx>,
                       after: Modified, t: Tx)
    requires WellFormed(p) && Tracked(p, inBlock, modified, failed) && t in p.txs
    requires package == Family(p, t) - inBlock && Updated(p, modified - package, after, package)
    ensures Tracked(p, inBlock + package, after, failed)
  {
    hide WellFormed, Updated, Covers, Exact;
    PackageClosed(p, inBlock, package, t);
    AddedTracked(p, inBlock, modified, failed, package, after);
  }

  lemma BlockKnown(p: Pool, inBlock: set<Tx>)
    requires Closed(p, inBlock)
    ensures inBlock <= p.txs
  {
  }

  lemma StartTracked(p: Pool, inBlock: set<Tx>, modified: Modified)
    requires WellFormed(p) && Closed(p, inBlock) && Updated(p, map[], modified, inBlock)
    ensures Tracked(p, inBlock, modified, {})
  {
    var none: Modified := map[];
    assert Tracked(p, {}, none, {});
    assert none - inBlock == none && {} + inBlock == inBlock;
    AddedTracked(p, {}, none, {}, inBlock, modified);
  }

  lemma SizesPositive(p: Pool, inBlock: set<Tx>, modified: Modified, failed: set<Tx>)
    requires WellFormed(p) && Tracked(p, inBlock, modified, failed)
    ensures forall t | t in modified :: modified[t].size > 0
  {
    hide WellFormed, Tracked, Covers, Exact;
    forall t | t in modified ensures modified[t].size > 0 {
      CandidateFacts(p, inBlock, modified, failed, t, modified[t]);
    }
  }

  lemma StartSelecting(p: Pool, policy: Policy, inBlock: set<Tx>, modified: Modified, order: seq<Tx>)
    requires WellFormed(p) && Closed(p, inBlock) && Updated(p, map[], modified, inBlock) && Ranked(p, order)
    ensures Selecting(p, policy, inBlock, [], inBlock, modified, {}, Ahead(order, 0))
  {
    hide WellFormed, Closed, Updated, Tracked, Pending, Better;
    assert Ahead(order, 0) == order;
    StartTracked(p, inBlock, modified);
    PendingStart(p, policy, inBlock, modified, order);
    HistoryStart(p, policy, inBlock);
  }

  lemma SelectingFacts(p: Pool, policy: Policy, start: set<Tx>, log: Log, block: set<Tx>, modified: Modified,
                      failed: set<Tx>, left: seq<Tx>)
    requires Selecting(p, policy, start, log, block, modified, failed, left)
    ensures Tracked(p, block, modified, failed)
  {
  }

  lemma CandidateIs(p: Pool, modified: Modified, failed: set<Tx>, left: seq<Tx>, block: set<Tx>, t: Tx, m: Mod)
    requires Candidate(p, modified, failed, left, block, t, m)
    ensures t in p.txs && t !in block && Covers(p, m, t, block)
  {
  }

  lemma LeftAfter(order: seq<Tx>, at: nat, next: nat, t: Tx)
    requires at <= |order| && (next == at || (at < |order| && next == at + 1 && order[at] == t))
    ensures Consumed(Ahead(order, at), t, Ahead(order, next))
  {
    if next != at {
      assert order[at..] == [order[at]] + order[next..];
    }
  }

  ghost function Missing(p: Pool, block: set<Tx>): nat {
    |p.txs - block|
  }

  lemma OneLess(p: Pool, block: set<Tx>, t: Tx)
    requires t in p.txs && t !in block
    ensures Missing(p, block + {t}) < Missing(p, block)
  {
    assert p.txs - block == (p.txs - (block + {t})) + {t};
  }

  lemma AddedMore(p: Pool, block: set<Tx>, t: Tx)
    requires t in p.txs && t !in block
    ensures Missing(p, block + (Family(p, t) - block)) < Missing(p, block)
  {
    var less := p.txs - (block + (Family(p, t) - block));
    assert p.txs - block == less + (p.txs - block - less) && t in p.txs - block - less;
  }

  lemma Fewer(modified: Modified, t: Tx)
    requires t in modified
    ensures |modified - {t}| == |modified| - 1
  {
    assert modified.Keys == (modified - {t}).Keys + {t};
  }

  lemma NothingLeft(p: Pool, policy: Policy, start: set<Tx>, log: Log, block: set<Tx>, failed: set<Tx>, order: seq<Tx>)
    requires Selecting(p, policy, start, log, block, map[], failed, Ahead(order, |order|))
    ensures History(p, policy, start, log, block) && Complete(p, policy, log, block)
  {
    hide Pending, History, Tracked;
    assert Ahead(order, |order|) == [];
    PendingNothing(p, policy, log, block, failed);
  }

  /** What both parts of the selection promise for the block as a whole. */
  lemma SelectionFacts(p: Pool, policy: Policy, priority: Tx -> real, prioritySize: nat, xs: seq<Tx>, log: Log,
                       block: set<Tx>)
    requires WellFormed(p) && PriorityPart(p, policy, priority, prioritySize, xs) && Closed(p, Members(xs))
    requires History(p, policy, Members(xs), log, block) && Complete(p, policy, log, block)
    ensures Allowed(p, policy, block)
    ensures forall t | t in p.txs && t !in block ::
              Settled(p, policy, log, block, t) || TooCheap(p, policy, log, block, t)
    ensures Plenty(p, policy) ==> p.txs <= block
  {
    hide WellFormed, Closed, History, Complete, Settled, TooCheap, Plenty, Eligible, NearFull, GoesOn;
    assert EachHighest(p, policy, priority, xs);
    PriorityAllowed(p, policy, priority, xs);
    Grown(p, policy, Members(xs), log, block);
    forall t | t in p.txs && t !in block
      ensures Settled(p, policy, log, block, t) || TooCheap(p, policy, log, block, t)
    {
      LeftOut(p, policy, Members(xs), log, block, t);
    }
    if Plenty(p, policy) {
      TakesAll(p, policy, Members(xs), log, block);
    }
  }

  lemma BlockFacts(p: Pool, vtx: seq<Tx>)
    requires WellFormed(p) && Distinct(vtx) && Ordered(p, vtx) && Members(vtx) <= p.txs
    ensures forall i, j | 0 <= i < j < |vtx| :: vtx[i] != vtx[j]
    ensures forall i, a | 0 <= i < |vtx| && a in p.data(vtx[i]).parents :: a in vtx[..i]
  {
    forall i, a | 0 <= i < |vtx| && a in p.data(vtx[i]).parents ensures a in vtx[..i] {
      assert vtx[i] in Members(vtx);
      TxFacts(p, vtx[i]);
      assert a in Members(vtx[..i]);
    }
  }

  // ----- fee totals that are off

  /** Two parents whose fees the operator raised from 1000 to 2000, and their child, which pays 500. */
  function RaisedPool(): Pool {
    var parent := TxData({}, 100, 400, 0, 100, 1000, 2000, true, false, Mod(100, 2000, 0), 1);
    var child := TxData({1, 2}, 100, 400, 0, 100, 500, 500, true, false, Mod(300, 4500, 0), 3);
    Pool({1, 2, 3}, (t: Tx) => if t == 3 then child else parent, (t: Tx) => if t == 3 then {1, 2} else {})
  }

  lemma RaisedSums(w: Tx -> int, both: set<Tx>, all: set<Tx>)
    requires both == {1, 2} && all == {1, 2, 3}
    ensures SetSum(both, w) == w(1) + w(2) && SetSum(all, w) == w(1) + w(2) + w(3)
    ensures forall f | f in both :: SetSum(both - {f}, w) == w(3 - f)
    ensures SetSum(all - both, w) == w(3)
  {
    hide SetSum;
    SumRemove(all, w, 3);
    assert all - {3} == both;
    SumUnion(both, all - both, w);
    assert both + (all - both) == all;
    SumRemove(both, w, 1);
    SumRemove(both, w, 2);
    assert both - {1} - {2} == {};
    SumRemove(both - {1}, w, 2);
    SumNothing(both - {1} - {2}, w);
    assert forall f | f in both :: f == 1 || f == 2;
  }

  lemma RaisedWellFormed()
    ensures WellFormed(RaisedPool())
  {
    hide SetSum, Cached;
    var p := RaisedPool();
    RaisedChild();
    RaisedParent(1);
    RaisedParent(2);
    assert forall t | t in p.txs :: t == 1 || t == 2 || t == 3;
  }

  lemma RaisedChild()
    ensures RaisedPool().data(3).cached == Cached(RaisedPool(), 3)
    ensures RaisedPool().data(3).count == |RaisedPool().anc(3)| + 1
  {
    hide SetSum;
    var p := RaisedPool();
    var both, all := p.anc(3), Family(p, 3);
    assert both == {1, 2} && all == {1, 2, 3};
    RaisedSums(Sizes(p), both, all);
    RaisedSums(SigOps(p), both, all);
    RaisedSums(ModFees(p), both, all);
    assert |both| == 2;
  }

  lemma RaisedParent(t: Tx)
    requires t != 3
    ensures RaisedPool().data(t).cached == Cached(RaisedPool(), t)
    ensures RaisedPool().data(t).count == |RaisedPool().anc(t)| + 1
  {
    hide SetSum;
    var p := RaisedPool();
    assert Family(p, t) == {t};
    SumOne(t, Sizes(p));
    SumOne(t, SigOps(p));
    SumOne(t, ModFees(p));
  }

  /** Once both parents are in the block the child counts as paying 1500, whichever was taken out first. */
  method FeesOff() returns (modified: Modified)
    ensures 3 in modified && modified[3].fees == 1500
    ensures SetSum(Family(RaisedPool(), 3) - {1, 2}, ModFees(RaisedPool())) == 500
  {
    hide SetSum, WellFormed;
    var p := RaisedPool();
    RaisedWellFormed();
    var assembler := new BlockAssembler(p, 0, None, None);
    modified := assembler.UpdatePackagesForAdded({1, 2}, map[]);
    RaisedOff(modified);
  }

  lemma RaisedOff(modified: Modified)
    requires Updated(RaisedPool(), map[], modified, {1, 2})
    ensures 3 in modified && modified[3].fees == 1500
    ensures SetSum(Family(RaisedPool(), 3) - {1, 2}, ModFees(RaisedPool())) == 500
  {
    hide SetSum;
    var p := RaisedPool();
    var both, all := p.anc(3), Family(p, 3);
    assert both * {1, 2} == both;
    RaisedSums(ModFees(p), both, all);
    RaisedSums(Deltas(p), both, all);
    assert Taken(p, modified[3], map[], 3, both);
    var f :| f in both && Less(p, modified[3], Cached(p, 3), both, {f});
  }
}
