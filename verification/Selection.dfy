/**
  What the selection of packages for a block promises, told by the history of the
  candidates it looked at: which were added, which were refused, and why nothing
  that is left out could have been added instead.
 */
module Selection {
  import opened SetSums
  import opened Mempool
  import opened FeeRates

  const MAX_BLOCK_SIGOPS_COST: nat := 80000

  datatype Policy = Policy(maxWeight: nat, maxSize: nat, accountSize: bool, includeWitness: bool, minRelayRate: nat)

  ghost predicate Allowed(p: Pool, policy: Policy, s: set<Tx>) {
    forall t | t in s :: p.data(t).isFinal && (policy.includeWitness || !p.data(t).hasWitness)
  }

  /** A package with totals `m` can go into the block: it has room for them, and all members are allowed. */
  ghost predicate Fits(p: Pool, policy: Policy, m: Mod, t: Tx, block: set<Tx>) {
    var missing := Family(p, t) - block;
    && 4000 + SetSum(block, Weights(p)) + 4 * m.size < policy.maxWeight
    && 400 + SetSum(block, SigOps(p)) + m.sigops < MAX_BLOCK_SIGOPS_COST
    && Allowed(p, policy, missing)
    && (policy.accountSize ==> 1000 + SetSum(block, Bytes(p)) + SetSum(missing, Bytes(p)) < policy.maxSize)
  }

  datatype Outcome = Added | Refused | Unpaid

  /** A candidate that was looked at when the block was `block`. */
  datatype Event = Event(tx: Tx, total: Mod, block: set<Tx>, outcome: Outcome)

  type Log = seq<Event>

  /** The block after an event. */
  ghost function Next(p: Pool, e: Event): set<Tx> {
    if e.outcome.Added? then e.block + (Family(p, e.tx) - e.block) else e.block
  }

  /** The transaction was refused before, when some of its ancestors were in the block. */
  ghost predicate Stale(p: Pool, log: Log, t: Tx) {
    exists e | e in log :: e.tx == t && e.outcome.Refused? && p.anc(t) * e.block != {}
  }

  /** `m` is what the selection goes by for `t`: never too low, and exact unless stale. */
  ghost predicate Known(p: Pool, log: Log, m: Mod, t: Tx, block: set<Tx>) {
    Covers(p, m, t, block) && (Stale(p, log, t) || Exact(p, m, t, block))
  }

  /** `t` was refused, and would be for the same totals with this block. */
  ghost predicate Settled(p: Pool, policy: Policy, log: Log, block: set<Tx>, t: Tx) {
    exists i | 0 <= i < |log| ::
      && log[i].tx == t && log[i].outcome.Refused?
      && Known(p, log[..i], log[i].total, t, block) && !Fits(p, policy, log[i].total, t, block)
  }

  /** `t` does not pay more for its size than `best`. */
  ghost predicate Behind(p: Pool, log: Log, block: set<Tx>, t: Tx, best: Mod) {
    exists m :: Known(p, log, m, t, block) && m.size > 0 && !Better(m, best)
  }

  /** Nothing outside the block pays more than `best`, but for what was refused. */
  ghost predicate Best(p: Pool, policy: Policy, log: Log, block: set<Tx>, best: Mod) {
    forall u | u in p.txs - block :: Settled(p, policy, log, block, u) || Behind(p, log, block, u, best)
  }

  /** The candidate is a best one, and what becomes of it follows from its totals. */
  ghost predicate Sensible(p: Pool, policy: Policy, log: Log, e: Event) {
    && Closed(p, e.block) && e.tx in p.txs - e.block && e.total.size > 0
    && Known(p, log, e.total, e.tx, e.block)
    && Best(p, policy, log, e.block, e.total)
    && match e.outcome {
         case Unpaid => e.total.fees < GetFee(policy.minRelayRate, e.total.size)
         case Added => e.total.fees >= GetFee(policy.minRelayRate, e.total.size)
                       && Fits(p, policy, e.total, e.tx, e.block)
         case Refused => e.total.fees >= GetFee(policy.minRelayRate, e.total.size)
                         && !Fits(p, policy, e.total, e.tx, e.block)
       }
  }

  /** A history that leads from one block to another; it ends where the fee is too low. */
  ghost predicate History(p: Pool, policy: Policy, start: set<Tx>, log: Log, block: set<Tx>)
    decreases |log|
  {
    if log == [] then block == start
    else
      var past, e := log[..|log| - 1], log[|log| - 1];
      && History(p, policy, start, past, e.block) && !Over(past)
      && Sensible(p, policy, past, e) && block == Next(p, e)
  }

  ghost predicate Over(log: Log) {
    log != [] && log[|log| - 1].outcome.Unpaid?
  }

  /** Nothing is left out that was not refused, unless the fees became too low. */
  ghost predicate Complete(p: Pool, policy: Policy, log: Log, block: set<Tx>) {
    Over(log) || forall t | t in p.txs - block :: Settled(p, policy, log, block, t)
  }

  lemma HistoryStart(p: Pool, policy: Policy, start: set<Tx>)
    ensures History(p, policy, start, [], start) && !Over([])
  {
  }

  lemma HistoryNext(p: Pool, policy: Policy, start: set<Tx>, log: Log, e: Event)
    requires History(p, policy, start, log, e.block) && !Over(log) && Sensible(p, policy, log, e)
    ensures History(p, policy, start, log + [e], Next(p, e))
    ensures Over(log + [e]) <==> e.outcome.Unpaid?
  {
    hide Sensible, Next;
    assert (log + [e])[..|log|] == log;
  }

  // ----- how refusals last

  lemma StaleMore(p: Pool, log: Log, e: Event, t: Tx)
    ensures Stale(p, log, t) ==> Stale(p, log + [e], t)
    ensures e.tx == t && e.outcome.Refused? && p.anc(t) * e.block != {} ==> Stale(p, log + [e], t)
  {
    if e.tx == t && e.outcome.Refused? && p.anc(t) * e.block != {} {
      assert e in log + [e];
    }
    if Stale(p, log, t) {
      var d :| d in log && d.tx == t && d.outcome.Refused? && p.anc(t) * d.block != {};
      assert d in log + [e];
    }
  }

  lemma KnownMore(p: Pool, log: Log, e: Event, m: Mod, t: Tx, block: set<Tx>)
    requires Known(p, log, m, t, block)
    ensures Known(p, log + [e], m, t, block)
  {
    hide Stale, Covers, Exact;
    StaleMore(p, log, e, t);
  }

  lemma SettledMore(p: Pool, policy: Policy, log: Log, e: Event, block: set<Tx>, t: Tx)
    requires Settled(p, policy, log, block, t)
    ensures Settled(p, policy, log + [e], block, t)
  {
    hide Known, Fits;
    var i :| 0 <= i < |log| && log[i].tx == t && log[i].outcome.Refused?
             && Known(p, log[..i], log[i].total, t, block) && !Fits(p, policy, log[i].total, t, block);
    assert (log + [e])[..i] == log[..i] && (log + [e])[i] == log[i];
  }

  lemma SettledNow(p: Pool, policy: Policy, log: Log, e: Event)
    requires e.outcome.Refused? && Known(p, log, e.total, e.tx, e.block)
    requires !Fits(p, policy, e.total, e.tx, e.block)
    ensures Settled(p, policy, log + [e], e.block, e.tx)
  {
    hide Known, Fits;
    assert (log + [e])[..|log|] == log && (log + [e])[|log|] == e;
  }

  /** Adding transactions that `t` does not depend on makes no room for it. */
  lemma FitsLess(p: Pool, policy: Policy, m: Mod, t: Tx, block: set<Tx>, added: set<Tx>)
    requires Family(p, t) - (block + added) == Family(p, t) - block
    requires Fits(p, policy, m, t, block + added)
    ensures Fits(p, policy, m, t, block)
  {
    SumSubset(block, block + added, Weights(p));
    SumSubset(block, block + added, SigOps(p));
    SumSubset(block, block + added, Bytes(p));
  }

  lemma ExactUnaffected(p: Pool, m: Mod, t: Tx, block: set<Tx>, added: set<Tx>)
    requires Exact(p, m, t, block) && p.anc(t) !! added && t !in added
    ensures Exact(p, m, t, block + added)
  {
    hide SetSum;
    assert Family(p, t) - (block + added) == Family(p, t) - block;
    assert p.anc(t) * (block + added) == p.anc(t) * block;
    if p.anc(t) * block != {} {
      var f :| DriftedFrom(p, m, t, block, f);
      assert DriftedFrom(p, m, t, block + added, f);
    }
  }

  /** A refusal lasts while nothing that `t` depends on is added. */
  lemma SettledLasts(p: Pool, policy: Policy, log: Log, block: set<Tx>, added: set<Tx>, t: Tx)
    requires Settled(p, policy, log, block, t) && p.anc(t) !! added && t !in added
    ensures Settled(p, policy, log, block + added, t)
  {
    hide Fits, Exact, SetSum, Stale;
    var i :| 0 <= i < |log| && log[i].tx == t && log[i].outcome.Refused?
             && Known(p, log[..i], log[i].total, t, block) && !Fits(p, policy, log[i].total, t, block);
    assert Family(p, t) - (block + added) == Family(p, t) - block;
    if Fits(p, policy, log[i].total, t, block + added) {
      FitsLess(p, policy, log[i].total, t, block, added);
    }
    if !Stale(p, log[..i], t) {
      ExactUnaffected(p, log[i].total, t, block, added);
    }
  }

  // ----- what is still to come

  /** The pool by descending score. */
  ghost predicate Ranked(p: Pool, order: seq<Tx>) {
    && (forall t :: t in order <==> t in p.txs)
    && (forall i, j | 0 <= i < j < |order| :: !Better(p.data(order[j]).cached, p.data(order[i]).cached))
  }

  ghost function Ahead(order: seq<Tx>, mi: nat): seq<Tx>
    requires mi <= |order|
  {
    order[mi..]
  }

  /** What is no worse than the next entry is no worse than those after it. */
  lemma RankedRest(p: Pool, order: seq<Tx>, mi: nat, best: Mod)
    requires WellFormed(p) && Ranked(p, order) && mi < |order| && best.size > 0
    ensures var next := p.data(order[mi]).cached;
            best == next || Better(best, next) ==> forall t | t in order[mi..] :: !Better(p.data(t).cached, best)
  {
    hide WellFormed, Better;
    var next := p.data(order[mi]).cached;
    if best == next || Better(best, next) {
      forall t | t in order[mi..] ensures !Better(p.data(t).cached, best) {
        var j :| mi <= j < |order| && order[j] == t;
        CachedPositive(p, order[mi]);
        CachedPositive(p, t);
        Irreflexive(next);
        if best != next {
          Asymmetric(best, next);
          NoBetterTransitive(best, next, p.data(t).cached);
        }
      }
    }
  }

  lemma CachedPositive(p: Pool, t: Tx)
    requires WellFormed(p) && t in p.txs
    ensures p.data(t).cached.size > 0
  {
    TxFacts(p, t);
    CachedCovers(p, t, {});
    NoWrap(p, Cached(p, t), t, {});
  }

  /** What is outside the block is in the side table, was refused, or is still ahead. */
  ghost predicate Pending(p: Pool, policy: Policy, log: Log, block: set<Tx>, modified: Modified, failed: set<Tx>,
                          left: seq<Tx>)
  {
    && (forall t | t in failed :: Stale(p, log, t))
    && (forall t | t in p.txs - block ::
          t in modified || Settled(p, policy, log, block, t) || (t !in failed && t in left))
  }

  lemma PendingStart(p: Pool, policy: Policy, block: set<Tx>, modified: Modified, order: seq<Tx>)
    requires forall t | t in p.txs :: t in order
    ensures Pending(p, policy, [], block, modified, {}, order)
  {
  }

  lemma PendingSkip(p: Pool, policy: Policy, log: Log, block: set<Tx>, modified: Modified, failed: set<Tx>,
                    left: seq<Tx>)
    requires Pending(p, policy, log, block, modified, failed, left) && left != []
    requires left[0] in modified || left[0] in block || left[0] in failed
    ensures Pending(p, policy, log, block, modified, failed, left[1..])
  {
    hide Settled, Stale;
  }

  /** Nothing is better than a candidate that is no worse than the side table and what is ahead. */
  lemma CandidateBest(p: Pool, policy: Policy, log: Log, block: set<Tx>, modified: Modified, failed: set<Tx>,
                      left: seq<Tx>, best: Mod)
    requires WellFormed(p) && Tracked(p, block, modified, failed)
    requires Pending(p, policy, log, block, modified, failed, left)
    requires forall t | t in modified :: !Better(modified[t], best)
    requires forall t | t in left :: !Better(p.data(t).cached, best)
    ensures Best(p, policy, log, block, best)
  {
    hide WellFormed, Tracked, Settled, Stale, Better, Covers, Exact;
    forall t | t in p.txs - block && !Settled(p, policy, log, block, t) ensures Behind(p, log, block, t, best) {
      var m := if t in modified then modified[t] else p.data(t).cached;
      CandidateFacts(p, block, modified, failed, t, m);
      assert Known(p, log, m, t, block) && !Better(m, best);
    }
  }

  /** A candidate that was added. */
  lemma PendingAdded(p: Pool, policy: Policy, log: Log, e: Event, modified: Modified, failed: set<Tx>,
                     left: seq<Tx>, after: Modified, rest: seq<Tx>)
    requires Pending(p, policy, log, e.block, modified, failed, left) && e.outcome.Added?
    requires e.tx !in e.block
    requires var package := Family(p, e.tx) - e.block; Updated(p, modified - package, after, package)
    requires Consumed(left, e.tx, rest)
    ensures Pending(p, policy, log + [e], Next(p, e), after, failed, rest)
  {
    hide Settled, Stale, Taken;
    var package := Family(p, e.tx) - e.block;
    forall t | t in failed ensures Stale(p, log + [e], t) {
      StaleMore(p, log, e, t);
    }
    forall t | t in p.txs - (e.block + package) && t !in after && !(t !in failed && t in rest)
      ensures Settled(p, policy, log + [e], e.block + package, t)
    {
      assert t in p.txs - e.block && t !in modified - package;
      assert p.anc(t) * package == {};
      assert forall a | a in p.anc(t) :: a !in p.anc(t) * package;
      SettledLasts(p, policy, log, e.block, package, t);
      SettledMore(p, policy, log, e, e.block + package, t);
    }
  }

  /** A candidate that was refused; one from the side table is dropped from it. */
  lemma PendingRefused(p: Pool, policy: Policy, log: Log, e: Event, modified: Modified, failed: set<Tx>,
                       left: seq<Tx>, fromTable: bool, rest: seq<Tx>)
    requires Pending(p, policy, log, e.block, modified, failed, left) && e.outcome.Refused?
    requires Known(p, log, e.total, e.tx, e.block) && !Fits(p, policy, e.total, e.tx, e.block)
    requires Consumed(left, e.tx, rest)
    requires fromTable ==> p.anc(e.tx) * e.block != {}
    ensures fromTable ==> Pending(p, policy, log + [e], e.block, modified - {e.tx}, failed + {e.tx}, rest)
    ensures !fromTable ==> Pending(p, policy, log + [e], e.block, modified, failed, rest)
  {
    hide Settled, Stale, Known, Fits;
    SettledNow(p, policy, log, e);
    forall t | t in failed || (fromTable && t == e.tx) ensures Stale(p, log + [e], t) {
      StaleMore(p, log, e, t);
    }
    forall t | Settled(p, policy, log, e.block, t) ensures Settled(p, policy, log + [e], e.block, t) {
      SettledMore(p, policy, log, e, e.block, t);
    }
  }

  /** With nothing ahead and an empty side table all that is left out was refused. */
  lemma PendingNothing(p: Pool, policy: Policy, log: Log, block: set<Tx>, failed: set<Tx>)
    requires Pending(p, policy, log, block, map[], failed, [])
    ensures Complete(p, policy, log, block)
  {
    hide Settled, Stale;
  }

  // ----- one step of the selection

  /** All that holds whenever the next candidate is looked for. */
  ghost predicate Selecting(p: Pool, policy: Policy, start: set<Tx>, log: Log, block: set<Tx>, modified: Modified,
                           failed: set<Tx>, left: seq<Tx>)
  {
    && Tracked(p, block, modified, failed) && Pending(p, policy, log, block, modified, failed, left)
    && History(p, policy, start, log, block) && !Over(log)
  }

  /** `rest` is still ahead after `t`. */
  ghost predicate Consumed(left: seq<Tx>, t: Tx, rest: seq<Tx>) {
    forall u | u in left :: u == t || u in rest
  }

  /** A candidate no worse than the side table and what is ahead. */
  ghost predicate Candidate(p: Pool, modified: Modified, failed: set<Tx>, left: seq<Tx>, block: set<Tx>, t: Tx, m: Mod)
  {
    && t in p.txs && t !in block && m.size > 0
    && Covers(p, m, t, block) && (t !in failed ==> Exact(p, m, t, block))
    && (forall u | u in modified :: !Better(modified[u], m))
    && (forall u | u in left :: !Better(p.data(u).cached, m))
  }

  /** What becomes of a candidate. */
  ghost function Decide(p: Pool, policy: Policy, t: Tx, m: Mod, block: set<Tx>): Event {
    Event(t, m, block,
          if m.fees < GetFee(policy.minRelayRate, m.size) then Unpaid
          else if Fits(p, policy, m, t, block) then Added
          else Refused)
  }

  lemma Decided(p: Pool, policy: Policy, start: set<Tx>, log: Log, block: set<Tx>, modified: Modified,
                failed: set<Tx>, left: seq<Tx>, t: Tx, m: Mod)
    requires WellFormed(p) && Selecting(p, policy, start, log, block, modified, failed, left)
    requires Candidate(p, modified, failed, left, block, t, m)
    ensures var e := Decide(p, policy, t, m, block);
            && Sensible(p, policy, log, e)
            && History(p, policy, start, log + [e], Next(p, e)) && (Over(log + [e]) <==> e.outcome.Unpaid?)
  {
    hide WellFormed, Tracked, Best, Covers, Exact, Fits, Settled, Stale, History, Over, GetFee, Better, Next;
    TrackedFacts(p, block, modified, failed, t);
    CandidateBest(p, policy, log, block, modified, failed, left, m);
    HistoryNext(p, policy, start, log, Decide(p, policy, t, m, block));
  }

  lemma SelectingSkip(p: Pool, policy: Policy, start: set<Tx>, log: Log, block: set<Tx>, modified: Modified,
                     failed: set<Tx>, order: seq<Tx>, mi: nat)
    requires mi < |order| && Selecting(p, policy, start, log, block, modified, failed, Ahead(order, mi))
    requires order[mi] in modified || order[mi] in block || order[mi] in failed
    ensures Selecting(p, policy, start, log, block, modified, failed, Ahead(order, mi + 1))
  {
    hide Tracked, Pending, History, Over;
    assert order[mi..][1..] == order[mi + 1..];
    PendingSkip(p, policy, log, block, modified, failed, Ahead(order, mi));
  }

  /** A candidate that does not pay ends the selection. */
  lemma SelectingUnpaid(p: Pool, policy: Policy, start: set<Tx>, log: Log, block: set<Tx>, modified: Modified,
                        failed: set<Tx>, left: seq<Tx>, t: Tx, m: Mod)
    requires WellFormed(p) && Selecting(p, policy, start, log, block, modified, failed, left)
    requires Candidate(p, modified, failed, left, block, t, m) && Decide(p, policy, t, m, block).outcome.Unpaid?
    ensures var log' := log + [Decide(p, policy, t, m, block)];
            History(p, policy, start, log', block) && Complete(p, policy, log', block)
  {
    hide WellFormed, Selecting, Candidate, History, Over, Sensible, GetFee, Fits;
    Decided(p, policy, start, log, block, modified, failed, left, t, m);
  }

  lemma SelectingAdded(p: Pool, policy: Policy, start: set<Tx>, log: Log, block: set<Tx>, modified: Modified,
                      failed: set<Tx>, left: seq<Tx>, t: Tx, m: Mod, after: Modified, rest: seq<Tx>)
    requires WellFormed(p) && Selecting(p, policy, start, log, block, modified, failed, left)
    requires Candidate(p, modified, failed, left, block, t, m) && Decide(p, policy, t, m, block).outcome.Added?
    requires var package := Family(p, t) - block;
             && Updated(p, modified - package, after, package)
             && Tracked(p, block + package, after, failed)
    requires Consumed(left, t, rest)
    ensures Selecting(p, policy, start, log + [Decide(p, policy, t, m, block)], block + (Family(p, t) - block), after,
                     failed, rest)
  {
    hide WellFormed, Tracked, Pending, History, Over, Sensible, Updated, Fits, GetFee, Covers, Exact, Better;
    var e := Decide(p, policy, t, m, block);
    Decided(p, policy, start, log, block, modified, failed, left, t, m);
    PendingAdded(p, policy, log, e, modified, failed, left, after, rest);
  }

  lemma SelectingRefused(p: Pool, policy: Policy, start: set<Tx>, log: Log, block: set<Tx>, modified: Modified,
                        failed: set<Tx>, left: seq<Tx>, t: Tx, m: Mod, rest: seq<Tx>)
    requires WellFormed(p) && Selecting(p, policy, start, log, block, modified, failed, left)
    requires Candidate(p, modified, failed, left, block, t, m) && Decide(p, policy, t, m, block).outcome.Refused?
    requires Consumed(left, t, rest)
    ensures var log' := log + [Decide(p, policy, t, m, block)];
            if t in modified then Selecting(p, policy, start, log', block, modified - {t}, failed + {t}, rest)
            else Selecting(p, policy, start, log', block, modified, failed, rest)
  {
    hide WellFormed, Tracked, Pending, History, Over, Fits, GetFee, Covers, Exact, Best, Better, Known, Closed;
    var e := Decide(p, policy, t, m, block);
    Decided(p, policy, start, log, block, modified, failed, left, t, m);
    TrackedFacts(p, block, modified, failed, t);
    PendingRefused(p, policy, log, e, modified, failed, left, t in modified, rest);
    if t in modified {
      FailTracked(p, block, modified, failed, t);
    }
  }

  // ----- what follows for the whole selection

  /** The selection went by totals for `t` that pay less for their size than the minimum rate. */
  ghost predicate TooCheap(p: Pool, policy: Policy, log: Log, block: set<Tx>, t: Tx) {
    exists m :: Known(p, log, m, t, block) && BelowRate(m, policy.minRelayRate)
  }

  /** What is left out was refused, or pays less for its size than the minimum rate. */
  lemma LeftOut(p: Pool, policy: Policy, start: set<Tx>, log: Log, block: set<Tx>, t: Tx)
    requires History(p, policy, start, log, block) && Complete(p, policy, log, block) && t in p.txs - block
    ensures Settled(p, policy, log, block, t) || TooCheap(p, policy, log, block, t)
  {
    hide Known, Settled, BelowRate, Better, GetFee;
    if !Settled(p, policy, log, block, t) {
      var past, e := log[..|log| - 1], log[|log| - 1];
      assert past + [e] == log;
      if !Settled(p, policy, past, block, t) {
        assert Behind(p, past, block, t, e.total);
        var m :| Known(p, past, m, t, block) && m.size > 0 && !Better(m, e.total);
        UnpaidBelow(e.total, policy.minRelayRate);
        NoBetterBelow(e.total, m, policy.minRelayRate);
        KnownMore(p, past, e, m, t, block);
      } else {
        SettledMore(p, policy, past, e, block, t);
      }
    }
  }

  /** The block grows by allowed transactions only, and stays closed. */
  lemma {:induction false} Grown(p: Pool, policy: Policy, start: set<Tx>, log: Log, block: set<Tx>)
    requires WellFormed(p) && Closed(p, start) && History(p, policy, start, log, block)
    ensures start <= block && Closed(p, block) && Allowed(p, policy, block - start)
    decreases |log|
  {
    hide WellFormed, Closed, Best, Known, GetFee;
    if log != [] {
      var e := log[|log| - 1];
      Grown(p, policy, start, log[..|log| - 1], e.block);
      if e.outcome.Added? {
        PackageClosed(p, e.block, Family(p, e.tx) - e.block, e.tx);
      }
    }
  }

  /** Without fee adjustments, a package that is added pays the minimum fee for its true size. */
  lemma AddedPays(p: Pool, policy: Policy, log: Log, e: Event)
    requires Sensible(p, policy, log, e) && e.outcome.Added? && NoDeltas(p) && !Stale(p, log, e.tx)
    ensures var missing := Family(p, e.tx) - e.block;
            SetSum(missing, ModFees(p)) >= GetFee(policy.minRelayRate, SetSum(missing, Sizes(p)))
  {
    hide Best, Stale, SetSum, GetFee, NoDeltas;
    ExactFees(p, e.total, e.tx, e.block);
  }

  /** All of the pool is allowed and fits, and every package pays the minimum fee, whatever comes before it. */
  ghost predicate Plenty(p: Pool, policy: Policy) {
    && NoDeltas(p) && Allowed(p, policy, p.txs)
    && 4000 + 4 * SetSum(p.txs, Sizes(p)) < policy.maxWeight
    && 400 + SetSum(p.txs, SigOps(p)) < MAX_BLOCK_SIGOPS_COST
    && (policy.accountSize ==> 1000 + SetSum(p.txs, Bytes(p)) < policy.maxSize)
    && forall b, t | Closed(p, b) && t in p.txs - b ::
         SetSum(Family(p, t) - b, ModFees(p)) >= GetFee(policy.minRelayRate, SetSum(Family(p, t) - b, Sizes(p)))
  }

  lemma PlentyFits(p: Pool, policy: Policy, m: Mod, t: Tx, block: set<Tx>)
    requires WellFormed(p) && Plenty(p, policy) && Closed(p, block) && t in p.txs - block && Exact(p, m, t, block)
    ensures Fits(p, policy, m, t, block)
  {
    hide SetSum, WellFormed, GetFee, NoDeltas;
    var missing := Family(p, t) - block;
    TxFacts(p, t);
    SumScaled(block, Weights(p), Sizes(p), 4) by {
      forall u | u in block ensures Weights(p)(u) <= 4 * Sizes(p)(u) {
        TxFacts(p, u);
      }
    }
    SumUnion(block, missing, Sizes(p));
    SumUnion(block, missing, SigOps(p));
    SumUnion(block, missing, Bytes(p));
    SumSubset(block + missing, p.txs, Sizes(p));
    SumSubset(block + missing, p.txs, SigOps(p));
    SumSubset(block + missing, p.txs, Bytes(p));
  }

  lemma {:induction false} PlentyAdds(p: Pool, policy: Policy, start: set<Tx>, log: Log, block: set<Tx>)
    requires WellFormed(p) && Plenty(p, policy) && History(p, policy, start, log, block)
    ensures forall e | e in log :: e.outcome.Added?
    decreases |log|
  {
    hide SetSum, WellFormed, Fits, Best, GetFee, Closed, NoDeltas, Exact;
    if log != [] {
      var past, e := log[..|log| - 1], log[|log| - 1];
      assert log == past + [e];
      PlentyAdds(p, policy, start, past, e.block);
      assert !Stale(p, past, e.tx);
      PlentyFits(p, policy, e.total, e.tx, e.block);
      PlentyPays(p, policy, e.total, e.tx, e.block);
    }
  }

  lemma PlentyPays(p: Pool, policy: Policy, m: Mod, t: Tx, block: set<Tx>)
    requires Plenty(p, policy) && Closed(p, block) && t in p.txs - block && Exact(p, m, t, block) && m.size > 0
    ensures m.fees >= GetFee(policy.minRelayRate, m.size)
  {
    hide SetSum, GetFee, NoDeltas;
    ExactFees(p, m, t, block);
  }

  /** When there is plenty of room and every package pays, the whole pool goes into the block. */
  lemma TakesAll(p: Pool, policy: Policy, start: set<Tx>, log: Log, block: set<Tx>)
    requires WellFormed(p) && Plenty(p, policy)
    requires History(p, policy, start, log, block) && Complete(p, policy, log, block)
    ensures p.txs <= block
  {
    hide Plenty, WellFormed, Known, Fits, History;
    PlentyAdds(p, policy, start, log, block);
    assert forall i | 0 <= i < |log| :: log[i] in log && log[i].outcome.Added?;
    forall t | t in p.txs ensures t in block {
      assert !Settled(p, policy, log, block, t);
      assert t !in p.txs - block;
    }
  }
}
