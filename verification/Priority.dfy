/** What the first part of a block promises, which is filled by priority whatever the fees. */
module Priority {
  import opened SetSums
  import opened Mempool
  import opened Selection

  const ALLOW_FREE_THRESHOLD: real := 57600000.0

  predicate AllowFree(priority: real) {
    priority > ALLOW_FREE_THRESHOLD
  }

  /** Free is what has more than one coin that is a day old for every 250 bytes. */
  lemma CoinDay(priority: real)
    ensures AllowFree(priority) <==> priority * 250.0 > 100000000.0 * 144.0
  {
  }

  /** `t` is allowed and fits into the block. */
  ghost predicate Room(p: Pool, policy: Policy, t: Tx, block: set<Tx>) {
    && Allowed(p, policy, {t})
    && 4000 + SetSum(block, Weights(p)) + p.data(t).weight < policy.maxWeight
    && 400 + SetSum(block, SigOps(p)) + p.data(t).sigops < MAX_BLOCK_SIGOPS_COST
    && 1000 + SetSum(block, Bytes(p)) + p.data(t).bytes < policy.maxSize
  }

  /** `t` could go into the block next. */
  ghost predicate Eligible(p: Pool, policy: Policy, t: Tx, block: set<Tx>) {
    t in p.txs - block && p.anc(t) <= block && Room(p, policy, t, block)
  }

  /** Little room is left in the block. */
  ghost predicate NearFull(p: Pool, policy: Policy, block: set<Tx>) {
    || 4000 + SetSum(block, Weights(p)) > policy.maxWeight - 4000
    || 400 + SetSum(block, SigOps(p)) > MAX_BLOCK_SIGOPS_COST - 8
    || 1000 + SetSum(block, Bytes(p)) > policy.maxSize - 1000
  }

  /** `t` could go in next, and nothing else that could has a higher priority. */
  ghost predicate Highest(p: Pool, policy: Policy, priority: Tx -> real, t: Tx, block: set<Tx>) {
    Eligible(p, policy, t, block) && forall u | Eligible(p, policy, u, block) :: priority(u) <= priority(t)
  }

  ghost predicate EachHighest(p: Pool, policy: Policy, priority: Tx -> real, xs: seq<Tx>) {
    forall i | 0 <= i < |xs| :: Highest(p, policy, priority, xs[i], Members(xs[..i]))
  }

  /** After `xs` there is space left for priority, and the last priority was high. */
  ghost predicate GoesOn(p: Pool, priority: Tx -> real, prioritySize: nat, xs: seq<Tx>) {
    xs != [] ==>
      AllowFree(priority(xs[|xs| - 1])) && 1000 + SetSum(Members(xs), Bytes(p)) < prioritySize
  }

  ghost predicate EachGoesOn(p: Pool, priority: Tx -> real, prioritySize: nat, xs: seq<Tx>, n: nat) {
    forall i | 0 <= i < n && i <= |xs| :: GoesOn(p, priority, prioritySize, xs[..i])
  }

  /**
    Each transaction was the one of highest priority that could go in; the filling
    went on as long as space and priority asked for, and stopped only then, with
    nothing left that could go in, or close to the limits of the block.
   */
  ghost predicate PriorityPart(p: Pool, policy: Policy, priority: Tx -> real, prioritySize: nat, xs: seq<Tx>) {
    if prioritySize == 0 then xs == []
    else
      && EachHighest(p, policy, priority, xs) && EachGoesOn(p, priority, prioritySize, xs, |xs|)
      && (|| !GoesOn(p, priority, prioritySize, xs)
          || (forall t :: !Eligible(p, policy, t, Members(xs)))
          || NearFull(p, policy, Members(xs)))
  }

  lemma RoomLess(p: Pool, policy: Policy, t: Tx, block: set<Tx>, u: Tx)
    requires u !in block && Room(p, policy, t, block + {u})
    ensures Room(p, policy, t, block)
  {
    SumSubset(block, block + {u}, Weights(p));
    SumSubset(block, block + {u}, SigOps(p));
    SumSubset(block, block + {u}, Bytes(p));
  }

  lemma NearFullMore(p: Pool, policy: Policy, block: set<Tx>, u: Tx)
    requires u !in block && NearFull(p, policy, block)
    ensures NearFull(p, policy, block + {u})
  {
    SumSubset(block, block + {u}, Weights(p));
    SumSubset(block, block + {u}, SigOps(p));
    SumSubset(block, block + {u}, Bytes(p));
  }

  /** One more transaction, the best of those that could go in. */
  lemma HighestNext(p: Pool, policy: Policy, priority: Tx -> real, prioritySize: nat, xs: seq<Tx>, t: Tx)
    requires EachHighest(p, policy, priority, xs) && Highest(p, policy, priority, t, Members(xs))
    requires EachGoesOn(p, priority, prioritySize, xs, |xs| + 1)
    ensures EachHighest(p, policy, priority, xs + [t])
    ensures EachGoesOn(p, priority, prioritySize, xs + [t], |xs + [t]|)
  {
    hide Highest, GoesOn, Members;
    var ys := xs + [t];
    assert ys[..|xs|] == xs && xs[..|xs|] == xs;
    forall i | 0 <= i <= |xs| ensures ys[..i] == xs[..i] {
    }
  }

  // ----- the queue

  /** What is outside the block is queued, waits for an ancestor, or has no room. */
  ghost predicate Awaited(p: Pool, policy: Policy, block: set<Tx>, queued: set<Tx>, waiting: set<Tx>) {
    && (forall t | t in waiting :: !(p.anc(t) <= block))
    && (forall t | t in p.txs - block :: t in queued || t in waiting || !Room(p, policy, t, block))
  }

  /** The queued transaction of highest priority is the best that could go in. */
  lemma AwaitedHighest(p: Pool, policy: Policy, priority: Tx -> real, block: set<Tx>, queued: set<Tx>,
                       waiting: set<Tx>, t: Tx)
    requires Awaited(p, policy, block, queued, waiting) && Eligible(p, policy, t, block)
    requires forall u | u in queued :: priority(u) <= priority(t)
    ensures Highest(p, policy, priority, t, block)
  {
    hide Room;
  }

  /** When a transaction goes in, what waits for a parent that is still missing goes on waiting. */
  lemma AwaitedAdded(p: Pool, policy: Policy, block: set<Tx>, queued: set<Tx>, waiting: set<Tx>, t: Tx,
                     children: set<Tx>)
    requires WellFormed(p) && Closed(p, block) && Awaited(p, policy, block, queued + {t}, waiting)
    requires t !in block && waiting <= p.txs
    requires children == set c | c in waiting && t in p.data(c).parents
    ensures Awaited(p, policy, block + {t}, queued + children, waiting - children)
  {
    hide Room, WellFormed;
    forall c | c in waiting - children ensures !(p.anc(c) <= block + {t}) {
      TxFacts(p, c);
      if p.anc(c) <= block + {t} {
        ParentsSuffice(p, block, c);
      }
    }
    forall u | u in p.txs - (block + {t}) && u !in queued + children && u !in waiting - children
      ensures !Room(p, policy, u, block + {t})
    {
      assert u in p.txs - block;
      if Room(p, policy, u, block + {t}) {
        RoomLess(p, policy, u, block, t);
      }
    }
  }

  // ----- one step of the filling

  /** All that holds whenever the next entry is taken from the queue. */
  ghost predicate Filling(p: Pool, policy: Policy, priority: Tx -> real, prioritySize: nat, xs: seq<Tx>,
                          queued: set<Tx>, waiting: set<Tx>)
  {
    && queued <= p.txs && waiting <= p.txs && queued !! Members(xs) && waiting !! Members(xs) && queued !! waiting
    && Awaited(p, policy, Members(xs), queued, waiting)
    && EachHighest(p, policy, priority, xs) && EachGoesOn(p, priority, prioritySize, xs, |xs| + 1)
  }

  lemma FillingStart(p: Pool, policy: Policy, priority: Tx -> real, prioritySize: nat)
    ensures Filling(p, policy, priority, prioritySize, [], p.txs, {})
  {
    hide Room;
  }

  lemma FillingFacts(p: Pool, policy: Policy, priority: Tx -> real, prioritySize: nat, xs: seq<Tx>, queued: set<Tx>,
                     waiting: set<Tx>, t: Tx)
    requires Filling(p, policy, priority, prioritySize, xs, queued, waiting) && t in queued
    ensures t in p.txs && t !in Members(xs)
  {
  }

  /** An entry without room is dropped. */
  lemma FillingDrop(p: Pool, policy: Policy, priority: Tx -> real, prioritySize: nat, xs: seq<Tx>, queued: set<Tx>,
                    waiting: set<Tx>, t: Tx)
    requires Filling(p, policy, priority, prioritySize, xs, queued, waiting)
    requires !Room(p, policy, t, Members(xs)) || (!policy.includeWitness && p.data(t).hasWitness)
    ensures Filling(p, policy, priority, prioritySize, xs, queued - {t}, waiting)
  {
    hide EachHighest, EachGoesOn, SetSum;
    assert t in {t};
  }

  /** An entry with a missing ancestor waits. */
  lemma FillingWait(p: Pool, policy: Policy, priority: Tx -> real, prioritySize: nat, xs: seq<Tx>, queued: set<Tx>,
                    waiting: set<Tx>, t: Tx)
    requires Filling(p, policy, priority, prioritySize, xs, queued, waiting)
    requires t in queued && !(p.anc(t) <= Members(xs))
    ensures Filling(p, policy, priority, prioritySize, xs, queued - {t}, waiting + {t})
  {
    hide EachHighest, EachGoesOn, Room;
  }

  /** An entry that goes in; if that does not end the filling, its waiting children are queued again. */
  lemma FillingAdd(p: Pool, policy: Policy, priority: Tx -> real, prioritySize: nat, xs: seq<Tx>, queued: set<Tx>,
                   waiting: set<Tx>, t: Tx, children: set<Tx>)
    requires WellFormed(p) && Closed(p, Members(xs)) && prioritySize > 0
    requires Filling(p, policy, priority, prioritySize, xs, queued, waiting)
    requires t in queued && Eligible(p, policy, t, Members(xs))
    requires forall u | u in queued :: priority(u) <= priority(t)
    requires children == set c | c in waiting && t in p.data(c).parents
    ensures if GoesOn(p, priority, prioritySize, xs + [t])
            then Filling(p, policy, priority, prioritySize, xs + [t], queued - {t} + children, waiting - children)
            else PriorityPart(p, policy, priority, prioritySize, xs + [t])
  {
    hide WellFormed, Closed, Room, Eligible, Awaited, EachHighest, EachGoesOn, GoesOn, Highest, NearFull;
    MembersMore(xs, t);
    AwaitedHighest(p, policy, priority, Members(xs), queued, waiting, t);
    HighestNext(p, policy, priority, prioritySize, xs, t);
    assert queued - {t} + {t} == queued;
    AwaitedAdded(p, policy, Members(xs), queued - {t}, waiting, t, children);
    LastGoesOn(p, priority, prioritySize, xs + [t]);
  }

  lemma MembersMore(xs: seq<Tx>, t: Tx)
    ensures Members(xs + [t]) == Members(xs) + {t}
  {
  }

  lemma LastGoesOn(p: Pool, priority: Tx -> real, prioritySize: nat, xs: seq<Tx>)
    requires EachGoesOn(p, priority, prioritySize, xs, |xs|)
    ensures GoesOn(p, priority, prioritySize, xs) ==> EachGoesOn(p, priority, prioritySize, xs, |xs| + 1)
  {
    hide GoesOn;
    assert xs[..|xs|] == xs;
  }

  /** The queue is empty, or the block is close to its limits. */
  lemma FillingEnd(p: Pool, policy: Policy, priority: Tx -> real, prioritySize: nat, xs: seq<Tx>, queued: set<Tx>,
                   waiting: set<Tx>)
    requires Filling(p, policy, priority, prioritySize, xs, queued, waiting) && prioritySize > 0
    requires queued == {} || NearFull(p, policy, Members(xs))
    ensures PriorityPart(p, policy, priority, prioritySize, xs)
  {
    hide EachHighest, Room, NearFull, GoesOn;
    if queued == {} {
      assert forall t :: !Eligible(p, policy, t, Members(xs));
    }
  }

  lemma {:induction false} PriorityAllowed(p: Pool, policy: Policy, priority: Tx -> real, xs: seq<Tx>)
    requires EachHighest(p, policy, priority, xs)
    ensures Allowed(p, policy, Members(xs))
  {
    forall t | t in Members(xs) ensures Allowed(p, policy, {t}) {
      var i :| 0 <= i < |xs| && xs[i] == t;
      assert Highest(p, policy, priority, xs[i], Members(xs[..i]));
    }
    assert forall t | t in Members(xs) :: t in {t};
  }
}
