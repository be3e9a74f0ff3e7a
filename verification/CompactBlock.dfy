/**
  Compact block relay: a block is announced as short transaction ids and a few
  full transactions, and rebuilt from the receiver's pool and one request for
  whatever is missing.  Short ids are an arbitrary function of the hash.
 */
module CompactBlock {

  import opened Basics

  type Hash = nat
  type ShortId = nat

  datatype Transaction = Transaction(txid: Hash, wtxid: Hash, isNull: bool)

  datatype Prefilled = Prefilled(index: nat, tx: Transaction)

  datatype Message = Message(headerIsNull: bool, shortIds: seq<ShortId>, prefilled: seq<Prefilled>) {
    function BlockTxCount(): nat {
      |shortIds| + |prefilled|
    }
  }

  datatype ReadStatus = Ok | Invalid | Failed | CheckBlockFailed

  datatype PoolEntry = PoolEntry(hash: Hash, tx: Transaction)

  type Slots = seq<Option<Transaction>>

  const MAX_UINT16 := 65535
  const MIN_TRANSACTION_BASE_SIZE := 10

  // Slots.

  /** How many of the slots are empty. */
  function Empties(slots: Slots): nat {
    if slots == [] then 0 else Empties(slots[..|slots| - 1]) + if slots[|slots| - 1].None? then 1 else 0
  }

  lemma EmptiesNext(slots: Slots, n: nat)
    requires n < |slots|
    ensures Empties(slots[..n + 1]) == Empties(slots[..n]) + if slots[n].None? then 1 else 0
  {
    assert slots[..n + 1][..n] == slots[..n];
  }

  lemma {:induction false} EmptiesMonotone(slots: Slots, m: nat, n: nat)
    requires m <= n <= |slots|
    ensures Empties(slots[..m]) <= Empties(slots[..n])
    decreases n - m
  {
    if m < n {
      EmptiesNext(slots, m);
      EmptiesMonotone(slots, m + 1, n);
    }
  }

  lemma {:induction false} EmptiesFill(slots: Slots, p: nat, tx: Transaction)
    requires p < |slots| && slots[p].None?
    ensures Empties(slots[p := Some(tx)]) == Empties(slots) - 1
  {
    var last := |slots| - 1;
    if p == last {
      assert slots[p := Some(tx)][..last] == slots[..last];
    } else {
      assert slots[p := Some(tx)][..last] == slots[..last][p := Some(tx)];
      EmptiesFill(slots[..last], p, tx);
    }
  }

  lemma {:induction false} EmptiesNone(n: nat)
    ensures Empties(seq(n, _ => None)) == n
  {
    if n > 0 {
      EmptiesNone(n - 1);
      var s: Slots := seq(n, _ => None);
      assert s[..n - 1] == seq(n - 1, _ => None);
    }
  }

  /** `p` is the place of the `i`-th empty slot. */
  ghost predicate Vacant(slots: Slots, i: nat, p: nat) {
    p < |slots| && slots[p].None? && Empties(slots[..p]) == i
  }

  lemma VacantUnique(slots: Slots, i: nat, p: nat, j: nat, q: nat)
    requires Vacant(slots, i, p) && Vacant(slots, j, q)
    ensures i == j <==> p == q
    ensures i < j <==> p < q
  {
    if p < q {
      EmptiesNext(slots, p);
      EmptiesMonotone(slots, p + 1, q);
    } else if q < p {
      EmptiesNext(slots, q);
      EmptiesMonotone(slots, q + 1, p);
    }
  }

  // The differential encoding of a list of positions.

  /** Each index is written as its distance from the one before, in unsigned 64-bit arithmetic. */
  function Difference(indexes: seq<nat>, i: nat): nat
    requires i < |indexes| && forall k | 0 <= k < |indexes| :: indexes[k] <= MAX_UINT16
  {
    var d: int := if i == 0 then indexes[0] else indexes[i] as int - (indexes[i - 1] + 1);
    if d < 0 then TWO_64 + d else d
  }

  method EncodeIndexes(indexes: seq<nat>) returns (diffs: seq<nat>)
    requires forall k | 0 <= k < |indexes| :: indexes[k] <= MAX_UINT16
    ensures |diffs| == |indexes| && forall i | 0 <= i < |diffs| :: diffs[i] == Difference(indexes, i)
  {
    diffs := [];
    for i := 0 to |indexes|
      invariant |diffs| == i && forall k | 0 <= k < i :: diffs[k] == Difference(indexes, k)
    {
      var index: int := indexes[i] as int - if i == 0 then 0 else indexes[i - 1] + 1;
      diffs := diffs + [if index < 0 then TWO_64 + index else index];
    }
  }

  ghost predicate Ascending(xs: seq<nat>) {
    forall i | 0 < i < |xs| :: xs[i - 1] < xs[i]
  }

  /** The index after `prev` (a 16-bit offset, so nothing is added after 65535). */
  function Offset(prev: nat): nat {
    (prev + 1) % (MAX_UINT16 + 1)
  }

  lemma OffsetNext(prev: nat)
    requires prev < MAX_UINT16
    ensures Offset(prev) == prev + 1
  {
  }

  function Base(xs: seq<nat>, i: nat): nat
    requires i <= |xs|
  {
    if i == 0 then 0 else Offset(xs[i - 1])
  }

  /** The list the differences stand for. */
  ghost predicate Decodes(diffs: seq<nat>, xs: seq<nat>) {
    && |xs| == |diffs|
    && (forall i | 0 <= i < |xs| :: diffs[i] <= MAX_UINT16 && xs[i] <= MAX_UINT16)
    && (forall i | 0 <= i < |xs| :: xs[i] == diffs[i] + Base(xs, i))
  }

  method DecodeIndexes(diffs: seq<nat>) returns (indexes: Option<seq<nat>>)
    ensures indexes.Some? ==> Decodes(diffs, indexes.value)
    ensures indexes.None? ==> forall xs :: !Decodes(diffs, xs)
  {
    hide Offset, Decodes;
    for i := 0 to |diffs|
      invariant forall k | 0 <= k < i :: diffs[k] <= MAX_UINT16
    {
      if diffs[i] > MAX_UINT16 {
        TooLarge(diffs, i);
        return None;
      }
    }
    var xs: seq<nat> := diffs;
    DecodesNothing(diffs, xs);
    var offset: nat := 0;
    for i := 0 to |xs|
      invariant |xs| == |diffs| && forall k | i <= k < |xs| :: xs[k] == diffs[k]
      invariant Decodes(diffs[..i], xs[..i]) && offset == Base(xs, i)
    {
      if xs[i] + offset > MAX_UINT16 {
        NotDecoded(diffs, xs[..i], i);
        return None;
      }
      DecodesNext(diffs, xs[..i], i);
      xs := xs[i := xs[i] + offset];
      offset := Offset(xs[i]);
      assert xs[..i + 1] == xs[..i] + [xs[i]];
    }
    assert diffs[..|xs|] == diffs && xs[..|xs|] == xs;
    return Some(xs);
  }

  lemma TooLarge(diffs: seq<nat>, i: nat)
    requires i < |diffs| && diffs[i] > MAX_UINT16
    ensures forall xs :: !Decodes(diffs, xs)
  {
  }

  lemma DecodesNothing(diffs: seq<nat>, xs: seq<nat>)
    ensures Decodes(diffs[..0], xs[..0])
  {
  }

  lemma DecodesNext(diffs: seq<nat>, xs: seq<nat>, i: nat)
    requires i == |xs| < |diffs| && Decodes(diffs[..i], xs)
    requires diffs[i] <= MAX_UINT16 && diffs[i] + Base(xs, i) <= MAX_UINT16
    ensures Decodes(diffs[..i + 1], xs + [diffs[i] + Base(xs, i)])
  {
    hide Offset;
    var ys := xs + [diffs[i] + Base(xs, i)];
    forall k | 0 <= k < |ys| ensures ys[k] == diffs[..i + 1][k] + Base(ys, k) {
      assert k < i ==> xs[k] == diffs[..i][k] + Base(xs, k);
    }
  }

  lemma {:induction false} DecodesUnique(diffs: seq<nat>, xs: seq<nat>, ys: seq<nat>, i: nat)
    requires |xs| <= |ys| == |diffs| && Decodes(diffs[..|xs|], xs) && Decodes(diffs, ys) && i < |xs|
    ensures xs[i] == ys[i]
  {
    hide Offset;
    assert xs[i] == diffs[..|xs|][i] + Base(xs, i) && ys[i] == diffs[i] + Base(ys, i);
    if i > 0 {
      DecodesUnique(diffs, xs, ys, i - 1);
    }
  }

  lemma NotDecoded(diffs: seq<nat>, xs: seq<nat>, i: nat)
    requires i == |xs| < |diffs| && Decodes(diffs[..i], xs)
    requires diffs[i] + Base(xs, i) > MAX_UINT16
    ensures forall ys :: !Decodes(diffs, ys)
  {
    hide Offset;
    forall ys ensures !Decodes(diffs, ys) {
      if Decodes(diffs, ys) && i > 0 {
        DecodesUnique(diffs, xs, ys, i - 1);
      }
    }
  }

  /** A list of positions survives exactly if it is strictly increasing. */
  lemma RequestRoundTrip(indexes: seq<nat>, diffs: seq<nat>)
    requires forall k | 0 <= k < |indexes| :: indexes[k] <= MAX_UINT16
    requires |diffs| == |indexes| && forall i | 0 <= i < |diffs| :: diffs[i] == Difference(indexes, i)
    ensures Decodes(diffs, indexes) <==> Ascending(indexes)
  {
    if Decodes(diffs, indexes) {
      forall i | 0 < i < |indexes| ensures indexes[i - 1] < indexes[i] {
        assert diffs[i] <= MAX_UINT16;
      }
    }
  }

  /** How far the first `n` differences reach. */
  function Reach(diffs: seq<nat>, n: nat): nat
    requires n <= |diffs|
  {
    if n == 0 then 0 else Reach(diffs, n - 1) + diffs[n - 1] + 1
  }

  /** A proper part of the differences reaches just past position 65535. */
  ghost predicate StartsOver(diffs: seq<nat>) {
    exists i | 0 < i < |diffs| :: Reach(diffs, i) == MAX_UINT16 + 1
  }

  /** Position 65535 occurs before the end. */
  ghost predicate EndsEarly(indexes: seq<nat>) {
    exists i | 0 <= i < |indexes| - 1 :: indexes[i] == MAX_UINT16
  }

  lemma {:induction false} ReachIsBase(diffs: seq<nat>, xs: seq<nat>, n: nat)
    requires Decodes(diffs, xs) && n <= |xs| && forall i | 0 <= i < n :: xs[i] != MAX_UINT16
    ensures Reach(diffs, n) == Base(xs, n) && (n < |xs| ==> Reach(diffs, n + 1) == xs[n] + 1)
  {
    hide Offset;
    if n > 0 {
      ReachIsBase(diffs, xs, n - 1);
      OffsetNext(xs[n - 1]);
    }
  }

  /** Nothing follows position 65535. */
  lemma {:induction false} NothingFollows(diffs: seq<nat>, xs: seq<nat>, n: nat)
    requires Decodes(diffs, xs) && n < |xs| && forall i | 0 < i <= n :: Reach(diffs, i) != MAX_UINT16 + 1
    ensures forall i | 0 <= i < n :: xs[i] != MAX_UINT16
  {
    if n > 0 {
      NothingFollows(diffs, xs, n - 1);
      ReachIsBase(diffs, xs, n - 1);
    }
  }

  /**
    An accepted request is written back as it came exactly if no proper part of its
    differences reaches just past position 65535.
   */
  lemma RequestCanonical(diffs: seq<nat>, indexes: seq<nat>)
    requires Decodes(diffs, indexes)
    ensures (forall i | 0 <= i < |diffs| :: diffs[i] == Difference(indexes, i)) <==> !StartsOver(diffs)
  {
    hide StartsOver, EndsEarly, Difference, Base;
    LastIsLast(diffs, indexes);
    ReachIff(diffs, indexes);
  }

  lemma ReachIff(diffs: seq<nat>, indexes: seq<nat>)
    requires Decodes(diffs, indexes)
    ensures EndsEarly(indexes) <==> StartsOver(diffs)
  {
    hide Base;
    if !StartsOver(diffs) && |diffs| > 0 {
      NothingFollows(diffs, indexes, |diffs| - 1);
    }
    if !EndsEarly(indexes) {
      forall i | 0 < i < |diffs| ensures Reach(diffs, i) != MAX_UINT16 + 1 {
        ReachIsBase(diffs, indexes, i - 1);
      }
    }
  }

  lemma LastIsLast(diffs: seq<nat>, indexes: seq<nat>)
    requires Decodes(diffs, indexes)
    ensures (forall i | 0 <= i < |diffs| :: diffs[i] == Difference(indexes, i)) <==> !EndsEarly(indexes)
  {
    if !EndsEarly(indexes) {
      forall i | 0 <= i < |diffs| ensures diffs[i] == Difference(indexes, i) {
        if i > 0 {
          assert indexes[i - 1] != MAX_UINT16;
        }
      }
    }
    if forall i | 0 <= i < |diffs| :: diffs[i] == Difference(indexes, i) {
      forall i | 0 <= i < |indexes| - 1 ensures indexes[i] != MAX_UINT16 {
        assert diffs[i + 1] == Difference(indexes, i + 1);
      }
    }
  }

  /** Such a request exists: after position 65535 the 16-bit offset starts over. */
  lemma OffsetWraps()
    ensures Decodes([65535, 5], [65535, 5]) && Difference([65535, 5], 1) != 5
  {
  }

  // Matching short ids against the pool.

  type Hasher = Hash -> ShortId

  /** How many entries have the short id. */
  ghost function Hits(sip: Hasher, entries: seq<PoolEntry>, id: ShortId): nat {
    if entries == [] then 0
    else Hits(sip, entries[..|entries| - 1], id) + if sip(entries[|entries| - 1].hash) == id then 1 else 0
  }

  /** The transaction with the short id, provided there is exactly one. */
  ghost function Match(sip: Hasher, entries: seq<PoolEntry>, id: ShortId): Option<Transaction> {
    if entries == [] then None
    else
      var before, last := entries[..|entries| - 1], entries[|entries| - 1];
      if sip(last.hash) != id then Match(sip, before, id)
      else if Hits(sip, before, id) == 0 then Some(last.tx) else None
  }

  lemma {:induction false} MatchMeans(sip: Hasher, entries: seq<PoolEntry>, id: ShortId)
    ensures Match(sip, entries, id).Some? <==> Hits(sip, entries, id) == 1
    ensures Match(sip, entries, id).Some? ==>
              exists e :: e in entries && sip(e.hash) == id && e.tx == Match(sip, entries, id).value
  {
    if entries != [] {
      var before, last := entries[..|entries| - 1], entries[|entries| - 1];
      MatchMeans(sip, before, id);
      if sip(last.hash) == id {
        assert last in entries;
      } else if Match(sip, before, id).Some? {
        var e :| e in before && sip(e.hash) == id && e.tx == Match(sip, before, id).value;
        assert e in entries;
      }
    }
  }

  lemma HitsNext(sip: Hasher, entries: seq<PoolEntry>, n: nat, id: ShortId)
    requires n < |entries|
    ensures Hits(sip, entries[..n + 1], id)
         == Hits(sip, entries[..n], id) + if sip(entries[n].hash) == id then 1 else 0
    ensures Match(sip, entries[..n + 1], id)
         == if sip(entries[n].hash) != id then Match(sip, entries[..n], id)
            else if Hits(sip, entries[..n], id) == 0 then Some(entries[n].tx) else None
  {
    assert entries[..n + 1][..n] == entries[..n];
  }

  ghost predicate Distinct(ids: seq<ShortId>) {
    forall i, j | 0 <= i < j < |ids| :: ids[i] != ids[j]
  }

  ghost function Elements(ids: seq<ShortId>): set<ShortId> {
    set x | x in ids
  }

  /** As many different ids as positions means no collision. */
  lemma {:induction false} CountDistinct(ids: seq<ShortId>)
    ensures |Elements(ids)| <= |ids|
    ensures |Elements(ids)| == |ids| <==> Distinct(ids)
  {
    if ids != [] {
      var before, last := ids[..|ids| - 1], ids[|ids| - 1];
      CountDistinct(before);
      assert Elements(ids) == Elements(before) + {last};
      if last in before {
        assert Elements(ids) == Elements(before);
        var k :| 0 <= k < |before| && before[k] == last;
        assert ids[k] == ids[|ids| - 1];
      } else {
        assert Distinct(before) ==> Distinct(ids);
        assert forall i | 0 <= i < |before| :: before[i] == ids[i];
      }
    }
  }

  /** How many of the short ids have been matched. */
  ghost function Matched(sip: Hasher, entries: seq<PoolEntry>, ids: seq<ShortId>): nat {
    if ids == [] then 0
    else Matched(sip, entries, ids[..|ids| - 1]) + if Hits(sip, entries, ids[|ids| - 1]) == 1 then 1 else 0
  }

  /** Every short id is that of exactly one entry. */
  ghost predicate EachOnce(sip: Hasher, entries: seq<PoolEntry>, ids: seq<ShortId>) {
    forall id | id in ids :: Hits(sip, entries, id) == 1
  }

  lemma {:induction false} MatchedBound(sip: Hasher, entries: seq<PoolEntry>, ids: seq<ShortId>)
    ensures Matched(sip, entries, ids) <= |ids|
    ensures Matched(sip, entries, ids) == |ids| <==> EachOnce(sip, entries, ids)
  {
    if ids != [] {
      MatchedBound(sip, entries, ids[..|ids| - 1]);
      assert forall id | id in ids :: id in ids[..|ids| - 1] || id == ids[|ids| - 1];
    }
  }

  ghost function Weight(hits: nat): nat {
    if hits == 1 then 1 else 0
  }

  lemma {:induction false} MatchedNext(sip: Hasher, entries: seq<PoolEntry>, n: nat, ids: seq<ShortId>)
    requires n < |entries| && Distinct(ids)
    ensures var id := sip(entries[n].hash);
            Matched(sip, entries[..n + 1], ids) == Matched(sip, entries[..n], ids)
              + if id in ids then Weight(Hits(sip, entries[..n], id) + 1) - Weight(Hits(sip, entries[..n], id)) else 0
  {
    if ids != [] {
      var id, last := sip(entries[n].hash), ids[|ids| - 1];
      MatchedNext(sip, entries, n, ids[..|ids| - 1]);
      HitsNext(sip, entries, n, last);
      assert id in ids <==> id in ids[..|ids| - 1] || id == last;
    }
  }

  lemma {:induction false} MatchedNone(sip: Hasher, ids: seq<ShortId>)
    ensures Matched(sip, [], ids) == 0
  {
    if ids != [] {
      MatchedNone(sip, ids[..|ids| - 1]);
    }
  }
}
