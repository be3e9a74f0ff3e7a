/**
  What the receiver of a compact block makes of an announcement before it looks at its
  pool: where the prefilled transactions go, which places are left for the short ids,
  and the table from short ids to places, which keeps only sixteen bits of a place.
 */
module ShortIdIndex {
  import opened Basics
  import opened CompactBlock

  // Where the prefilled transactions go.

  /** The place of the `i`-th prefilled transaction: indexes are distances from the one before. */
  function Position(prefilled: seq<Prefilled>, i: nat): nat
    requires i < |prefilled|
  {
    prefilled[i].index + if i == 0 then 0 else Position(prefilled, i - 1) + 1
  }

  ghost predicate PrefilledOk(msg: Message, n: nat)
    requires n <= |msg.prefilled|
  {
    forall i | 0 <= i < n ::
      && !msg.prefilled[i].tx.isNull
      && Position(msg.prefilled, i) <= MAX_UINT16
      && Position(msg.prefilled, i) <= |msg.shortIds| + i
  }

  lemma {:induction false} PositionsAscend(prefilled: seq<Prefilled>, i: nat, j: nat)
    requires i < j < |prefilled|
    ensures Position(prefilled, i) < Position(prefilled, j)
  {
    if i < j - 1 {
      PositionsAscend(prefilled, i, j - 1);
    }
  }

  /** One of the first `n` prefilled transactions belongs at `p`. */
  ghost predicate Fixed(prefilled: seq<Prefilled>, n: nat, p: nat)
    requires n <= |prefilled|
  {
    exists i | 0 <= i < n :: Position(prefilled, i) == p
  }

  /** The first `n` prefilled transactions are in place and nothing else is. */
  ghost predicate Placed(msg: Message, slots: Slots, n: nat)
    requires n <= |msg.prefilled|
  {
    && |slots| == msg.BlockTxCount() && Empties(slots) == |slots| - n
    && PrefilledOk(msg, n)
    && (forall i | 0 <= i < n :: Position(msg.prefilled, i) < |slots|
          && slots[Position(msg.prefilled, i)] == Some(msg.prefilled[i].tx))
    && (forall p | 0 <= p < |slots| && slots[p].Some? :: Fixed(msg.prefilled, n, p))
  }

  lemma PlacedNone(msg: Message)
    ensures Placed(msg, seq(msg.BlockTxCount(), _ => None), 0)
  {
    EmptiesNone(msg.BlockTxCount());
  }

  lemma PlacedNext(msg: Message, slots: Slots, n: nat)
    requires n < |msg.prefilled| && Placed(msg, slots, n) && PrefilledOk(msg, n + 1)
    ensures var p := Position(msg.prefilled, n);
            p < |slots| && Placed(msg, slots[p := Some(msg.prefilled[n].tx)], n + 1)
  {
    hide Empties, Fixed;
    var p := Position(msg.prefilled, n);
    assert p < |slots|;
    forall i | 0 <= i < n ensures Position(msg.prefilled, i) < p {
      PositionsAscend(msg.prefilled, i, n);
    }
    FixedNext(msg.prefilled, n);
    assert slots[p].None?;
    EmptiesFill(slots, p, msg.prefilled[n].tx);
  }

  /** One more prefilled transaction goes to a place of its own. */
  lemma FixedNext(prefilled: seq<Prefilled>, n: nat)
    requires n < |prefilled|
    ensures forall p: nat :: Fixed(prefilled, n + 1, p) <==> Fixed(prefilled, n, p) || p == Position(prefilled, n)
    ensures !Fixed(prefilled, n, Position(prefilled, n))
  {
    forall i | 0 <= i < n ensures Position(prefilled, i) < Position(prefilled, n) {
      PositionsAscend(prefilled, i, n);
    }
    forall p: nat ensures Fixed(prefilled, n + 1, p) <==> Fixed(prefilled, n, p) || p == Position(prefilled, n) {
      FixedEither(prefilled, n, p);
    }
  }

  lemma FixedEither(prefilled: seq<Prefilled>, n: nat, p: nat)
    requires n < |prefilled|
    ensures Fixed(prefilled, n + 1, p) <==> Fixed(prefilled, n, p) || p == Position(prefilled, n)
  {
    if Fixed(prefilled, n, p) {
      var i :| 0 <= i < n && Position(prefilled, i) == p;
      assert i < n + 1;
    } else if p == Position(prefilled, n) {
      assert 0 <= n < n + 1;
    }
  }

  /** The short ids stand for the remaining places, in order. */
  ghost predicate Spread(slots: Slots, places: seq<nat>) {
    forall i | 0 <= i < |places| :: Vacant(slots, i, places[i])
  }

  lemma SpreadDistinct(slots: Slots, places: seq<nat>, i: nat, j: nat)
    requires Spread(slots, places) && i < |places| && j < |places|
    ensures i == j <==> places[i] == places[j]
  {
    VacantUnique(slots, i, places[i], j, places[j]);
  }

  lemma InRange(slots: Slots, q: nat)
    requires q <= |slots| && Empties(slots[..q]) < Empties(slots)
    ensures q < |slots|
  {
    assert slots[..|slots|] == slots;
  }

  /** Sixteen bits of a place. */
  function Short(p: nat): (r: nat)
    ensures r <= MAX_UINT16
  {
    p % (MAX_UINT16 + 1)
  }

  /** The index maps every short id to sixteen bits of its place, as long as no two are the same. */
  ghost predicate Indexes(ids: seq<ShortId>, places: seq<nat>, index: map<ShortId, nat>) {
    && |places| == |ids| && index.Keys == Elements(ids)
    && (forall id | id in index :: exists i :: 0 <= i < |ids| && index[id] == Short(places[i]))
    && (Distinct(ids) ==> forall i | 0 <= i < |ids| :: index[ids[i]] == Short(places[i]))
  }

  lemma IndexesNext(ids: seq<ShortId>, places: seq<nat>, index: map<ShortId, nat>, i: nat, p: nat)
    requires i < |ids| && Indexes(ids[..i], places, index)
    ensures Indexes(ids[..i + 1], places + [p], index[ids[i] := Short(p)])
  {
    hide Short;
    var index', places' := index[ids[i] := Short(p)], places + [p];
    forall id | id in index' ensures exists k :: 0 <= k < i + 1 && index'[id] == Short(places'[k]) {
      if id == ids[i] {
        assert index'[id] == Short(places'[i]);
      } else {
        var k :| 0 <= k < i && index[id] == Short(places[k]);
        assert index'[id] == Short(places'[k]);
      }
    }
    var now := ids[..i + 1];
    assert now == ids[..i] + [ids[i]];
    assert Elements(now) == Elements(ids[..i]) + {ids[i]};
    if Distinct(now) {
      forall k | 0 <= k < i ensures ids[..i][k] == now[k] && now[k] != ids[i] {
        assert now[k] != now[i];
      }
      assert Distinct(ids[..i]);
    }
  }

  lemma ShortFits(p: nat)
    ensures Short(p) <= p && (p <= MAX_UINT16 ==> Short(p) == p)
  {
  }

  lemma IndexesNone(ids: seq<ShortId>, bucket: ShortId -> nat)
    ensures Indexes(ids[..0], [], map[]) && !Crowded(ids[..0], bucket)
  {
  }

  lemma IndexKeys(ids: seq<ShortId>, places: seq<nat>, index: map<ShortId, nat>)
    requires Indexes(ids, places, index)
    ensures |places| == |ids| && index.Keys == Elements(ids) && forall id :: id in index <==> id in ids
  {
  }

  /** No place in the index is out of range. */
  lemma IndexPlaces(ids: seq<ShortId>, slots: Slots, places: seq<nat>, index: map<ShortId, nat>)
    requires Indexes(ids, places, index) && Spread(slots, places)
    ensures forall id | id in index :: index[id] < |slots|
  {
    hide Short, Empties, Distinct;
    forall k | 0 <= k < |places| ensures places[k] < |slots| {
      assert Vacant(slots, k, places[k]);
    }
    forall id | id in index ensures index[id] < |slots| {
      var k :| 0 <= k < |ids| && index[id] == Short(places[k]);
      ShortFits(places[k]);
    }
  }

  lemma IndexOf(ids: seq<ShortId>, places: seq<nat>, index: map<ShortId, nat>, id: ShortId) returns (k: nat)
    requires Indexes(ids, places, index) && Distinct(ids) && id in index
    ensures k < |ids| == |places| && ids[k] == id && index[id] == Short(places[k])
  {
    hide Short;
    k :| 0 <= k < |ids| && ids[k] == id;
  }

  lemma IndexSize(ids: seq<ShortId>, places: seq<nat>, index: map<ShortId, nat>)
    requires Indexes(ids, places, index)
    ensures |index| == |ids| <==> Distinct(ids)
  {
    CountDistinct(ids);
    assert |index| == |index.Keys|;
  }

  // The search for an empty place, with an offset of sixteen bits.

  /** The offset after `k` steps. */
  function OffsetAfter(from: nat, k: nat): nat {
    (from + k) % (MAX_UINT16 + 1)
  }

  /** However long the search for the `i`-th empty place goes on, it meets filled places. */
  ghost predicate Endless(slots: Slots, i: nat, from: nat) {
    forall k: nat :: FilledAt(slots, i, OffsetAfter(from, k))
  }

  predicate FilledAt(slots: Slots, i: nat, offset: nat) {
    i + offset < |slots| && slots[i + offset].Some?
  }

  predicate EmptyAt(slots: Slots, i: nat, offset: nat) {
    i + offset < |slots| && slots[i + offset].None?
  }

  /** Every offset leads to a filled place. */
  ghost predicate Packed(slots: Slots, i: nat) {
    forall o: nat | o <= MAX_UINT16 :: FilledAt(slots, i, o)
  }

  /** Some offset from `from` on leads to an empty place. */
  ghost predicate Reachable(slots: Slots, i: nat, from: nat) {
    exists o: nat :: from <= o <= MAX_UINT16 && EmptyAt(slots, i, o)
  }

  /** The search has no end exactly if every offset leads to a filled place. */
  lemma EndlessIff(slots: Slots, i: nat, from: nat)
    requires from <= MAX_UINT16
    ensures Endless(slots, i, from) <==> Packed(slots, i)
  {
    hide FilledAt;
    if Endless(slots, i, from) {
      forall o: nat | o <= MAX_UINT16 ensures FilledAt(slots, i, o) {
        var k := if o >= from then o - from else o + MAX_UINT16 + 1 - from;
        assert OffsetAfter(from, k) == o;
      }
    }
    if Packed(slots, i) {
      forall k: nat ensures FilledAt(slots, i, OffsetAfter(from, k)) {
        assert OffsetAfter(from, k) <= MAX_UINT16;
      }
    }
  }

  lemma {:induction false} PositionsSpaced(prefilled: seq<Prefilled>, i: nat, j: nat)
    requires i <= j < |prefilled|
    ensures i <= Position(prefilled, i) && Position(prefilled, i) + (j - i) <= Position(prefilled, j)
    decreases i + j
  {
    if i < j {
      PositionsSpaced(prefilled, i, j - 1);
    } else if i > 0 {
      PositionsSpaced(prefilled, i - 1, i - 1);
    }
  }

  /** More than 65535 prefilled transactions fill all places that an offset can reach. */
  lemma PackedPrefill(msg: Message, slots: Slots)
    requires Placed(msg, slots, |msg.prefilled|) && |msg.prefilled| > MAX_UINT16
    ensures |msg.prefilled| == MAX_UINT16 + 1 && Packed(slots, 0)
  {
    hide Empties, Fixed;
    var last := |msg.prefilled| - 1;
    PositionsSpaced(msg.prefilled, last, last);
    forall o: nat | o <= MAX_UINT16 ensures FilledAt(slots, 0, o) {
      PositionsSpaced(msg.prefilled, o, last);
      assert Position(msg.prefilled, o) == o;
    }
  }

  lemma FullsMonotone(slots: Slots, q: nat)
    requires q <= |slots|
    ensures q - Empties(slots[..q]) <= |slots| - Empties(slots)
    decreases |slots| - q
  {
    if q < |slots| {
      EmptiesNext(slots, q);
      FullsMonotone(slots, q + 1);
    } else {
      assert slots[..q] == slots;
    }
  }

  /** With fewer filled places the next empty one is within reach. */
  lemma {:induction false} EmptyWithinReach(slots: Slots, i: nat, from: nat)
    requires i + from <= |slots| && Empties(slots[..i + from]) == i < Empties(slots)
    requires |slots| - Empties(slots) <= MAX_UINT16
    ensures from <= MAX_UINT16 && Reachable(slots, i, from)
    decreases |slots| - from
  {
    hide Empties;
    InRange(slots, i + from);
    FullsMonotone(slots, i + from);
    if slots[i + from].Some? {
      EmptiesNext(slots, i + from);
      EmptyWithinReach(slots, i, from + 1);
      var o: nat :| from + 1 <= o <= MAX_UINT16 && EmptyAt(slots, i, o);
    } else {
      assert EmptyAt(slots, i, from);
    }
  }

  /** Passing filled places passes no empty one. */
  lemma {:induction false} EmptiesSkip(slots: Slots, p: nat, q: nat)
    requires p <= q <= |slots| && forall k | p <= k < q :: slots[k].Some?
    ensures Empties(slots[..q]) == Empties(slots[..p])
    decreases q - p
  {
    hide Empties;
    if p < q {
      EmptiesNext(slots, q - 1);
      EmptiesSkip(slots, p, q - 1);
    }
  }

  lemma EmptiesStart(slots: Slots)
    ensures Empties(slots[..0]) == 0
  {
  }

  /** A search ends unless all places within reach are prefilled, which shows with the first short id. */
  lemma SearchEnds(msg: Message, slots: Slots, i: nat, from: nat)
    requires Placed(msg, slots, |msg.prefilled|) && i < |msg.shortIds| && from <= MAX_UINT16
    requires i + from <= |slots| && Empties(slots[..i + from]) == i
    requires if i == 0 then from == 0 else |msg.prefilled| <= MAX_UINT16
    ensures Reachable(slots, i, from) || Packed(slots, i)
    ensures Endless(slots, i, from) <==> |msg.prefilled| > MAX_UINT16
  {
    hide Empties, Endless, PrefilledOk, Fixed;
    EndlessIff(slots, i, from);
    if |msg.prefilled| > MAX_UINT16 {
      PackedPrefill(msg, slots);
    } else {
      EmptyWithinReach(slots, i, from);
      var o: nat :| from <= o <= MAX_UINT16 && EmptyAt(slots, i, o);
      assert !FilledAt(slots, i, o);
    }
  }

  // The buckets of the hash table.

  const MAX_PER_BUCKET := 12

  /** How many keys share a bucket with `id`. */
  function BucketSize(keys: set<ShortId>, bucket: ShortId -> nat, id: ShortId): nat {
    |set k | k in keys && bucket(k) == bucket(id)|
  }

  /** Some bucket has too many different ids. */
  ghost predicate Crowded(ids: seq<ShortId>, bucket: ShortId -> nat) {
    exists id :: id in ids && BucketSize(Elements(ids), bucket, id) > 12
  }

  lemma BucketGrows(keys: set<ShortId>, more: set<ShortId>, bucket: ShortId -> nat, id: ShortId)
    requires keys <= more
    ensures BucketSize(keys, bucket, id) <= BucketSize(more, bucket, id)
  {
    var a, b := set k | k in keys && bucket(k) == bucket(id), set k | k in more && bucket(k) == bucket(id);
    Inside(a, b);
  }

  lemma {:induction false} Inside(a: set<ShortId>, b: set<ShortId>)
    requires a <= b
    ensures |a| <= |b|
    decreases a
  {
    Inhabited(a);
    if a != {} {
      var x :| x in a;
      Inside(a - {x}, b - {x});
    }
  }

  /** Looking at the bucket of each new id finds a crowded bucket exactly if there is one. */
  lemma CrowdedNext(ids: seq<ShortId>, bucket: ShortId -> nat, i: nat)
    requires i < |ids| && !Crowded(ids[..i], bucket)
    ensures Crowded(ids[..i + 1], bucket) <==> BucketSize(Elements(ids[..i + 1]), bucket, ids[i]) > MAX_PER_BUCKET
  {
    var was, now := ids[..i], ids[..i + 1];
    assert now == was + [ids[i]];
    assert ids[i] in now;
    forall id | id in now && bucket(id) != bucket(ids[i])
      ensures BucketSize(Elements(now), bucket, id) <= MAX_PER_BUCKET
    {
      assert (set k | k in Elements(now) && bucket(k) == bucket(id))
          == (set k | k in Elements(was) && bucket(k) == bucket(id));
      assert id in was;
    }
  }

  lemma CrowdedStays(ids: seq<ShortId>, bucket: ShortId -> nat, i: nat)
    requires i <= |ids| && Crowded(ids[..i], bucket)
    ensures Crowded(ids, bucket)
  {
    var id :| id in ids[..i] && BucketSize(Elements(ids[..i]), bucket, id) > MAX_PER_BUCKET;
    BucketGrows(Elements(ids[..i]), Elements(ids), bucket, id);
  }
}
