/**
  What looking through the pool does to the places of a partially known block: place
  by place for every announcement, and short id by short id as long as places fit
  sixteen bits.
 */
module PoolScan {
  import opened Basics
  import opened CompactBlock
  import opened ShortIdIndex

  /** Every free place holds the pool's only match for its short id; the others are as they were. */
  ghost predicate Scanned(msg: Message, sip: Hasher, entries: seq<PoolEntry>,
                          start: Slots, places: seq<nat>, slots: Slots)
  {
    && |slots| == |start| && |places| == |msg.shortIds| && Spread(start, places)
    && (forall p | 0 <= p < |start| && p !in places :: slots[p] == start[p])
    && (forall i | 0 <= i < |places| :: slots[places[i]] == Match(sip, entries, msg.shortIds[i]))
  }

  /** The index sends the entry to place `p`. */
  ghost predicate Goes(ids: seq<ShortId>, places: seq<nat>, sip: Hasher, e: PoolEntry, p: nat) {
    |places| == |ids| && exists k :: 0 <= k < |ids| && ids[k] == sip(e.hash) && Short(places[k]) == p
  }

  /** How many entries are sent to place `p`. */
  ghost function HitsAt(ids: seq<ShortId>, places: seq<nat>, sip: Hasher, entries: seq<PoolEntry>, p: nat): nat {
    if entries == [] then 0
    else
      HitsAt(ids, places, sip, entries[..|entries| - 1], p)
      + if Goes(ids, places, sip, entries[|entries| - 1], p) then 1 else 0
  }

  /** The entry sent to place `p`, provided there is exactly one. */
  ghost function MatchAt(ids: seq<ShortId>, places: seq<nat>, sip: Hasher, entries: seq<PoolEntry>, p: nat)
    : Option<Transaction>
  {
    if entries == [] then None
    else
      var before, last := entries[..|entries| - 1], entries[|entries| - 1];
      if !Goes(ids, places, sip, last, p) then MatchAt(ids, places, sip, before, p)
      else if HitsAt(ids, places, sip, before, p) == 0 then Some(last.tx) else None
  }

  lemma HitsAtNext(ids: seq<ShortId>, places: seq<nat>, sip: Hasher, entries: seq<PoolEntry>, n: nat, p: nat)
    requires n < |entries|
    ensures HitsAt(ids, places, sip, entries[..n + 1], p)
         == HitsAt(ids, places, sip, entries[..n], p) + if Goes(ids, places, sip, entries[n], p) then 1 else 0
    ensures MatchAt(ids, places, sip, entries[..n + 1], p)
         == if !Goes(ids, places, sip, entries[n], p) then MatchAt(ids, places, sip, entries[..n], p)
            else if HitsAt(ids, places, sip, entries[..n], p) == 0 then Some(entries[n].tx) else None
  {
    assert entries[..n + 1][..n] == entries[..n];
  }

  lemma {:induction false} MatchAtMeans(ids: seq<ShortId>, places: seq<nat>, sip: Hasher, entries: seq<PoolEntry>,
                                        p: nat)
    ensures MatchAt(ids, places, sip, entries, p).Some? <==> HitsAt(ids, places, sip, entries, p) == 1
  {
    hide Goes;
    if entries != [] {
      MatchAtMeans(ids, places, sip, entries[..|entries| - 1], p);
    }
  }

  /** Every place holds the only entry sent to it, nothing if there were more, and what it held if there was none. */
  ghost predicate Filled(ids: seq<ShortId>, places: seq<nat>, sip: Hasher, entries: seq<PoolEntry>,
                         start: Slots, slots: Slots)
  {
    |slots| == |start| && forall p: nat | p < |start| ::
      slots[p] == if HitsAt(ids, places, sip, entries, p) == 0 then start[p] else MatchAt(ids, places, sip, entries, p)
  }

  ghost predicate Flagged(ids: seq<ShortId>, places: seq<nat>, sip: Hasher, entries: seq<PoolEntry>, have: seq<bool>) {
    forall p: nat | p < |have| :: have[p] <==> HitsAt(ids, places, sip, entries, p) > 0
  }

  lemma FilledNone(ids: seq<ShortId>, places: seq<nat>, sip: Hasher, start: Slots)
    ensures Filled(ids, places, sip, [], start, start)
    ensures Flagged(ids, places, sip, [], seq(|start|, _ => false))
  {
  }

  /** With no two short ids the same, the index says where an entry goes. */
  lemma GoesByIndex(ids: seq<ShortId>, places: seq<nat>, index: map<ShortId, nat>, sip: Hasher, e: PoolEntry, p: nat)
    requires Indexes(ids, places, index) && Distinct(ids)
    ensures Goes(ids, places, sip, e, p) <==> sip(e.hash) in index && index[sip(e.hash)] == p
  {
    hide Short, Distinct;
    if sip(e.hash) in index {
      var k := IndexOf(ids, places, index, sip(e.hash));
      if index[sip(e.hash)] == p {
        assert Short(places[k]) == p;
      }
    }
  }

  /** What one pool entry changes. */
  lemma FilledNext(ids: seq<ShortId>, places: seq<nat>, index: map<ShortId, nat>, sip: Hasher, pool: seq<PoolEntry>,
                   n: nat, start: Slots, slots: Slots, have: seq<bool>)
    requires n < |pool| && Indexes(ids, places, index) && Distinct(ids) && |have| == |start|
    requires Filled(ids, places, sip, pool[..n], start, slots) && Flagged(ids, places, sip, pool[..n], have)
    ensures var id := sip(pool[n].hash);
            if id !in index then
              Filled(ids, places, sip, pool[..n + 1], start, slots) && Flagged(ids, places, sip, pool[..n + 1], have)
            else index[id] < |start| ==>
              var p := index[id];
              && Filled(ids, places, sip, pool[..n + 1], start, slots[p := if have[p] then None else Some(pool[n].tx)])
              && Flagged(ids, places, sip, pool[..n + 1], have[p := true])
  {
    hide HitsAt, MatchAt, Goes, Indexes, Distinct;
    forall p: nat | p < |start|
      ensures HitsAt(ids, places, sip, pool[..n + 1], p)
           == HitsAt(ids, places, sip, pool[..n], p) + if Goes(ids, places, sip, pool[n], p) then 1 else 0
      ensures MatchAt(ids, places, sip, pool[..n + 1], p)
           == if !Goes(ids, places, sip, pool[n], p) then MatchAt(ids, places, sip, pool[..n], p)
              else if HitsAt(ids, places, sip, pool[..n], p) == 0 then Some(pool[n].tx) else None
      ensures Goes(ids, places, sip, pool[n], p) <==> sip(pool[n].hash) in index && index[sip(pool[n].hash)] == p
    {
      HitsAtNext(ids, places, sip, pool, n, p);
      GoesByIndex(ids, places, index, sip, pool[n], p);
    }
  }

  /** The short ids that the entries have are those of places that fit sixteen bits. */
  ghost predicate WithinReach(ids: seq<ShortId>, places: seq<nat>, sip: Hasher, entries: seq<PoolEntry>) {
    && |places| == |ids|
    && forall e, i | e in entries && 0 <= i < |ids| && ids[i] == sip(e.hash) :: places[i] <= MAX_UINT16
  }

  lemma SmallWithinReach(ids: seq<ShortId>, start: Slots, places: seq<nat>, sip: Hasher, entries: seq<PoolEntry>)
    requires |places| == |ids| && Spread(start, places) && |start| <= MAX_UINT16 + 1
    ensures WithinReach(ids, places, sip, entries)
  {
    hide Empties;
    forall i | 0 <= i < |places| ensures places[i] <= MAX_UINT16 {
      assert Vacant(start, i, places[i]);
    }
  }

  lemma ReachBefore(ids: seq<ShortId>, places: seq<nat>, sip: Hasher, pool: seq<PoolEntry>, n: nat)
    requires n < |pool| && WithinReach(ids, places, sip, pool[..n + 1])
    ensures WithinReach(ids, places, sip, pool[..n])
  {
    assert pool[..n + 1] == pool[..n] + [pool[n]];
  }

  /** No entry is sent to place `p` because its own place does not fit. */
  ghost predicate Undisturbed(ids: seq<ShortId>, places: seq<nat>, sip: Hasher, entries: seq<PoolEntry>, p: nat) {
    && |places| == |ids|
    && forall e, k | e in entries && 0 <= k < |ids| && ids[k] == sip(e.hash) && Short(places[k]) == p ::
         places[k] <= MAX_UINT16
  }

  lemma ReachUndisturbed(ids: seq<ShortId>, places: seq<nat>, sip: Hasher, entries: seq<PoolEntry>, p: nat)
    requires WithinReach(ids, places, sip, entries)
    ensures Undisturbed(ids, places, sip, entries, p)
  {
  }

  lemma UndisturbedBefore(ids: seq<ShortId>, places: seq<nat>, sip: Hasher, entries: seq<PoolEntry>, p: nat)
    requires entries != [] && Undisturbed(ids, places, sip, entries, p)
    ensures Undisturbed(ids, places, sip, entries[..|entries| - 1], p)
  {
  }

  /** The entries sent to an undisturbed place are those that have its short id. */
  lemma {:induction false} SameHits(ids: seq<ShortId>, start: Slots, places: seq<nat>, sip: Hasher,
                                    entries: seq<PoolEntry>, i: nat)
    requires Spread(start, places) && Distinct(ids) && |places| == |ids| && i < |ids| && places[i] <= MAX_UINT16
    requires Undisturbed(ids, places, sip, entries, places[i])
    ensures HitsAt(ids, places, sip, entries, places[i]) == Hits(sip, entries, ids[i])
    ensures MatchAt(ids, places, sip, entries, places[i]) == Match(sip, entries, ids[i])
  {
    hide Spread, Distinct, Short, Goes, Undisturbed;
    if entries != [] {
      UndisturbedBefore(ids, places, sip, entries, places[i]);
      SameHits(ids, start, places, sip, entries[..|entries| - 1], i);
      GoesIff(ids, start, places, sip, entries, i);
    }
  }

  lemma GoesIff(ids: seq<ShortId>, start: Slots, places: seq<nat>, sip: Hasher, entries: seq<PoolEntry>, i: nat)
    requires Spread(start, places) && Distinct(ids) && |places| == |ids| && i < |ids| && places[i] <= MAX_UINT16
    requires entries != [] && Undisturbed(ids, places, sip, entries, places[i])
    ensures var e := entries[|entries| - 1];
            Goes(ids, places, sip, e, places[i]) <==> sip(e.hash) == ids[i]
  {
    hide Spread;
    var e := entries[|entries| - 1];
    if Goes(ids, places, sip, e, places[i]) {
      var k :| 0 <= k < |ids| && ids[k] == sip(e.hash) && Short(places[k]) == places[i];
      assert e in entries;
      SpreadDistinct(start, places, k, i);
    }
    if sip(e.hash) == ids[i] {
      assert Short(places[i]) == places[i];
    }
  }

  lemma {:induction false} NoneElsewhere(ids: seq<ShortId>, places: seq<nat>, sip: Hasher, entries: seq<PoolEntry>,
                                         p: nat)
    requires Undisturbed(ids, places, sip, entries, p) && p !in places
    ensures HitsAt(ids, places, sip, entries, p) == 0
  {
    if entries != [] {
      var n := |entries| - 1;
      UndisturbedBefore(ids, places, sip, entries, p);
      NoneElsewhere(ids, places, sip, entries[..n], p);
      assert entries[n] in entries;
      forall k | 0 <= k < |ids| && ids[k] == sip(entries[n].hash) ensures Short(places[k]) != p {
        assert places[k] in places;
      }
    }
  }

  /** An undisturbed place is as it should be, if its short id has no hits in case it does not fit. */
  lemma UndisturbedRight(msg: Message, sip: Hasher, entries: seq<PoolEntry>, start: Slots, places: seq<nat>,
                         slots: Slots, i: nat)
    requires Filled(msg.shortIds, places, sip, entries, start, slots) && Spread(start, places)
    requires Distinct(msg.shortIds) && |places| == |msg.shortIds| && i < |places|
    requires Undisturbed(msg.shortIds, places, sip, entries, places[i])
    requires places[i] > MAX_UINT16 ==> Hits(sip, entries, msg.shortIds[i]) != 1
    ensures places[i] < |slots| && slots[places[i]] == Match(sip, entries, msg.shortIds[i])
  {
    hide HitsAt, MatchAt, Hits, Match, Distinct, Undisturbed, Empties;
    assert Vacant(start, i, places[i]);
    MatchMeans(sip, entries, msg.shortIds[i]);
    if places[i] <= MAX_UINT16 {
      SameHits(msg.shortIds, start, places, sip, entries, i);
    } else {
      NeverThere(msg.shortIds, places, sip, entries, places[i]);
    }
  }

  /** Within reach every free place holds the pool's only match for its own short id. */
  lemma FilledScanned(msg: Message, sip: Hasher, entries: seq<PoolEntry>, start: Slots, places: seq<nat>, slots: Slots)
    requires Filled(msg.shortIds, places, sip, entries, start, slots) && Spread(start, places)
    requires Distinct(msg.shortIds) && WithinReach(msg.shortIds, places, sip, entries)
    ensures Scanned(msg, sip, entries, start, places, slots)
  {
    hide HitsAt, MatchAt, Hits, Match, Distinct, Empties, Spread, Short;
    forall j | 0 <= j < |places| && places[j] > MAX_UINT16 ensures Hits(sip, entries, msg.shortIds[j]) == 0 {
      if Hits(sip, entries, msg.shortIds[j]) > 0 {
        var e := HitBy(sip, entries, msg.shortIds[j]);
      }
    }
    ScannedIff(msg, sip, entries, start, places, slots);
  }

  /** Nothing belongs at place `p`, neither what it held nor a match for its short id. */
  ghost predicate BelongsEmpty(msg: Message, sip: Hasher, entries: seq<PoolEntry>, start: Slots, places: seq<nat>,
                               p: nat)
    requires p < |start| && |places| == |msg.shortIds|
  {
    && (p !in places ==> start[p].None?)
    && forall i | 0 <= i < |places| && places[i] == p :: Match(sip, entries, msg.shortIds[i]).None?
  }

  /**
    Every place is as it should be exactly if each short id met whose place does not fit
    sixteen bits is met twice, and nothing belongs at the place that is used instead.
   */
  lemma ScannedIff(msg: Message, sip: Hasher, entries: seq<PoolEntry>, start: Slots, places: seq<nat>, slots: Slots)
    requires Filled(msg.shortIds, places, sip, entries, start, slots) && Spread(start, places)
    requires Distinct(msg.shortIds) && |places| == |msg.shortIds|
    ensures Scanned(msg, sip, entries, start, places, slots) <==>
            forall j | 0 <= j < |places| && places[j] > MAX_UINT16 && Hits(sip, entries, msg.shortIds[j]) > 0 ::
              && Hits(sip, entries, msg.shortIds[j]) >= 2 && Short(places[j]) < |start|
              && BelongsEmpty(msg, sip, entries, start, places, Short(places[j]))
  {
    hide HitsAt, MatchAt, Hits, Match, Distinct, Empties, Short, Undisturbed, Vacant, Filled, BelongsEmpty, Spread;
    FilledLength(msg.shortIds, places, sip, entries, start, slots);
    forall j | 0 <= j < |places| ensures places[j] < |start| && Short(places[j]) < |start| && start[places[j]].None? {
      PlaceVacant(start, places, j);
    }
    if Scanned(msg, sip, entries, start, places, slots) {
      forall j | 0 <= j < |places| && places[j] > MAX_UINT16 && Hits(sip, entries, msg.shortIds[j]) > 0
        ensures Hits(sip, entries, msg.shortIds[j]) >= 2
        ensures BelongsEmpty(msg, sip, entries, start, places, Short(places[j]))
      {
        BeyondHit(msg, sip, entries, start, places, slots, j);
        ScannedEmpty(msg, sip, entries, start, places, slots, Short(places[j]));
      }
    }
    if forall j | 0 <= j < |places| && places[j] > MAX_UINT16 && Hits(sip, entries, msg.shortIds[j]) > 0 ::
         && Hits(sip, entries, msg.shortIds[j]) >= 2 && BelongsEmpty(msg, sip, entries, start, places, Short(places[j]))
    {
      forall p: nat | p < |start| ensures PlaceRight(msg, sip, entries, start, places, slots, p) {
        RightAt(msg, sip, entries, start, places, slots, p);
      }
      AllRight(msg, sip, entries, start, places, slots);
    }
  }

  lemma PlaceVacant(start: Slots, places: seq<nat>, j: nat)
    requires Spread(start, places) && j < |places|
    ensures places[j] < |start| && Short(places[j]) < |start| && start[places[j]].None?
  {
    hide Empties;
    assert Vacant(start, j, places[j]);
    ShortFits(places[j]);
  }

  ghost predicate PlaceRight(msg: Message, sip: Hasher, entries: seq<PoolEntry>, start: Slots, places: seq<nat>,
                             slots: Slots, p: nat)
    requires p < |start| == |slots| && |places| == |msg.shortIds|
  {
    && (p !in places ==> slots[p] == start[p])
    && forall i | 0 <= i < |places| && places[i] == p :: slots[p] == Match(sip, entries, msg.shortIds[i])
  }

  lemma AllRight(msg: Message, sip: Hasher, entries: seq<PoolEntry>, start: Slots, places: seq<nat>, slots: Slots)
    requires |slots| == |start| && |places| == |msg.shortIds| && Spread(start, places)
    requires forall p: nat | p < |start| :: PlaceRight(msg, sip, entries, start, places, slots, p)
    ensures Scanned(msg, sip, entries, start, places, slots)
  {
    hide Match, Empties;
    forall i | 0 <= i < |places| ensures slots[places[i]] == Match(sip, entries, msg.shortIds[i]) {
      assert Vacant(start, i, places[i]);
      assert PlaceRight(msg, sip, entries, start, places, slots, places[i]);
    }
    forall p | 0 <= p < |start| && p !in places ensures slots[p] == start[p] {
      assert PlaceRight(msg, sip, entries, start, places, slots, p);
    }
  }

  lemma ScannedEmpty(msg: Message, sip: Hasher, entries: seq<PoolEntry>, start: Slots, places: seq<nat>, slots: Slots,
                     p: nat)
    requires Scanned(msg, sip, entries, start, places, slots) && p < |start| && slots[p].None?
    ensures BelongsEmpty(msg, sip, entries, start, places, p)
  {
    hide Match;
  }

  /** A short id met whose own place does not fit: that place stays empty, and the one used instead ends up empty. */
  lemma BeyondHit(msg: Message, sip: Hasher, entries: seq<PoolEntry>, start: Slots, places: seq<nat>, slots: Slots,
                  j: nat)
    requires Filled(msg.shortIds, places, sip, entries, start, slots) && Spread(start, places)
    requires |places| == |msg.shortIds| && j < |places| && places[j] > MAX_UINT16
    requires Hits(sip, entries, msg.shortIds[j]) > 0
    ensures places[j] < |slots| && slots[places[j]].None? && Short(places[j]) < |slots| == |start|
    ensures Hits(sip, entries, msg.shortIds[j]) >= 2 ==> slots[Short(places[j])].None?
    ensures Match(sip, entries, msg.shortIds[j]).Some? <==> Hits(sip, entries, msg.shortIds[j]) == 1
  {
    hide HitsAt, MatchAt, Hits, Match, Short, Empties;
    PlaceVacant(start, places, j);
    NeverThere(msg.shortIds, places, sip, entries, places[j]);
    AtLeast(msg.shortIds, places, sip, entries, j);
    MatchAtMeans(msg.shortIds, places, sip, entries, Short(places[j]));
    MatchMeans(sip, entries, msg.shortIds[j]);
  }

  /** Entries with a short id go where the index sends it. */
  lemma {:induction false} AtLeast(ids: seq<ShortId>, places: seq<nat>, sip: Hasher, entries: seq<PoolEntry>, j: nat)
    requires |places| == |ids| && j < |ids|
    ensures Hits(sip, entries, ids[j]) <= HitsAt(ids, places, sip, entries, Short(places[j]))
  {
    hide Short;
    if entries != [] {
      AtLeast(ids, places, sip, entries[..|entries| - 1], j);
    }
  }

  lemma RightAt(msg: Message, sip: Hasher, entries: seq<PoolEntry>, start: Slots, places: seq<nat>, slots: Slots,
                p: nat)
    requires Filled(msg.shortIds, places, sip, entries, start, slots) && Spread(start, places)
    requires Distinct(msg.shortIds) && |places| == |msg.shortIds| && p < |start| == |slots|
    requires forall j | 0 <= j < |places| :: Short(places[j]) < |start|
    requires forall j | 0 <= j < |places| && places[j] > MAX_UINT16 && Hits(sip, entries, msg.shortIds[j]) > 0 ::
               && Hits(sip, entries, msg.shortIds[j]) >= 2
               && BelongsEmpty(msg, sip, entries, start, places, Short(places[j]))
    ensures PlaceRight(msg, sip, entries, start, places, slots, p)
  {
    hide HitsAt, MatchAt, Hits, Match, Distinct, Short, Empties, Spread, Filled;
    if Undisturbed(msg.shortIds, places, sip, entries, p) {
      if p !in places {
        NoneElsewhere(msg.shortIds, places, sip, entries, p);
        FilledThere(msg.shortIds, places, sip, entries, start, slots, p);
      }
      forall i | 0 <= i < |places| && places[i] == p ensures slots[p] == Match(sip, entries, msg.shortIds[i]) {
        UndisturbedRight(msg, sip, entries, start, places, slots, i);
      }
    } else {
      var e, k :| e in entries && 0 <= k < |places| && msg.shortIds[k] == sip(e.hash) && Short(places[k]) == p
                  && places[k] > MAX_UINT16;
      HitsIn(sip, entries, e);
      BeyondHit(msg, sip, entries, start, places, slots, k);
    }
  }

  lemma FilledThere(ids: seq<ShortId>, places: seq<nat>, sip: Hasher, entries: seq<PoolEntry>, start: Slots,
                    slots: Slots, p: nat)
    requires Filled(ids, places, sip, entries, start, slots) && p < |start|
    ensures p < |slots|
    ensures HitsAt(ids, places, sip, entries, p) == 0 ==> slots[p] == start[p]
  {
  }

  lemma {:induction false} HitBy(sip: Hasher, entries: seq<PoolEntry>, id: ShortId) returns (e: PoolEntry)
    requires Hits(sip, entries, id) > 0
    ensures e in entries && sip(e.hash) == id
  {
    e := entries[|entries| - 1];
    if sip(e.hash) != id {
      e := HitBy(sip, entries[..|entries| - 1], id);
    }
  }

  lemma {:induction false} HitsIn(sip: Hasher, entries: seq<PoolEntry>, e: PoolEntry)
    requires e in entries
    ensures Hits(sip, entries, sip(e.hash)) > 0
  {
    var n := |entries| - 1;
    if e != entries[n] {
      HitsIn(sip, entries[..n], e);
    }
  }

  lemma {:induction false} NeverThere(ids: seq<ShortId>, places: seq<nat>, sip: Hasher, entries: seq<PoolEntry>, p: nat)
    requires p > MAX_UINT16
    ensures HitsAt(ids, places, sip, entries, p) == 0
  {
    if entries != [] {
      NeverThere(ids, places, sip, entries[..|entries| - 1], p);
    }
  }

  /** The places that were filled from the pool and still are. */
  ghost function Live(slots: Slots, have: seq<bool>): set<nat> {
    set p: nat | p < |slots| && p < |have| && have[p] && slots[p].Some?
  }

  lemma LiveNone(slots: Slots, have: seq<bool>)
    requires forall p | 0 <= p < |have| :: !have[p]
    ensures |Live(slots, have)| == 0
  {
    assert Live(slots, have) == {};
  }

  /** How the number of live places moves. */
  lemma LiveSet(slots: Slots, have: seq<bool>, p: nat, tx: Transaction)
    requires p < |slots| == |have|
    ensures !have[p] ==> |Live(slots[p := Some(tx)], have[p := true])| == |Live(slots, have)| + 1
    ensures have[p] && slots[p].Some? ==> |Live(slots, have)| == |Live(slots[p := None], have)| + 1
  {
    hide Live;
    if !have[p] {
      LiveAlike(slots, have, slots[p := Some(tx)], have[p := true], p);
    } else if slots[p].Some? {
      LiveAlike(slots[p := None], have, slots, have, p);
    }
  }

  /** One more live place. */
  lemma LiveAlike(slots: Slots, have: seq<bool>, slots': Slots, have': seq<bool>, p: nat)
    requires p < |slots| == |have| == |slots'| == |have'|
    requires !(have[p] && slots[p].Some?) && have'[p] && slots'[p].Some?
    requires forall q | 0 <= q < |slots| && q != p :: slots'[q] == slots[q] && have'[q] == have[q]
    ensures |Live(slots', have')| == |Live(slots, have)| + 1
  {
    var a, b := Live(slots, have), Live(slots', have');
    assert p !in a && p in b;
    forall q: nat ensures q in b <==> q in a || q == p {
    }
    assert b == a + {p};
  }

  lemma FilledLength(ids: seq<ShortId>, places: seq<nat>, sip: Hasher, entries: seq<PoolEntry>, start: Slots,
                     slots: Slots)
    requires Filled(ids, places, sip, entries, start, slots)
    ensures |slots| == |start|
  {
  }

  lemma FilledAtPlace(ids: seq<ShortId>, places: seq<nat>, sip: Hasher, entries: seq<PoolEntry>, start: Slots,
                      slots: Slots, have: seq<bool>, p: nat)
    requires Filled(ids, places, sip, entries, start, slots) && Flagged(ids, places, sip, entries, have)
    requires p < |start| == |have|
    ensures p < |slots| && (have[p] <==> HitsAt(ids, places, sip, entries, p) > 0)
    ensures have[p] ==> slots[p] == MatchAt(ids, places, sip, entries, p)
  {
  }

  lemma ReachAt(ids: seq<ShortId>, places: seq<nat>, sip: Hasher, pool: seq<PoolEntry>, n: nat, k: nat)
    requires n < |pool| && WithinReach(ids, places, sip, pool[..n + 1]) && k < |ids| && ids[k] == sip(pool[n].hash)
    ensures k < |places| && Short(places[k]) == places[k] <= MAX_UINT16
  {
    assert pool[n] in pool[..n + 1];
    ShortFits(places[k]);
  }

  /** Within reach the number of matches moves with the state of the place. */
  lemma EntryCounts(ids: seq<ShortId>, places: seq<nat>, index: map<ShortId, nat>, sip: Hasher, pool: seq<PoolEntry>,
                    n: nat, start: Slots, slots: Slots, have: seq<bool>)
    requires n < |pool| && Distinct(ids) && Indexes(ids, places, index) && Spread(start, places)
    requires |have| == |start| && forall id | id in index :: index[id] < |start|
    requires Filled(ids, places, sip, pool[..n], start, slots) && Flagged(ids, places, sip, pool[..n], have)
    ensures WithinReach(ids, places, sip, pool[..n + 1]) ==>
              && WithinReach(ids, places, sip, pool[..n])
              && var id := sip(pool[n].hash);
                 Matched(sip, pool[..n + 1], ids) == Matched(sip, pool[..n], ids)
                   + if id !in index then 0
                     else if !have[index[id]] then 1
                     else if slots[index[id]].Some? then -1 else 0
  {
    hide Spread, Matched, Hits, Match, HitsAt, MatchAt, Distinct, Short, Filled, Flagged, WithinReach, Indexes;
    if WithinReach(ids, places, sip, pool[..n + 1]) {
      var id := sip(pool[n].hash);
      ReachBefore(ids, places, sip, pool, n);
      MatchedNext(sip, pool, n, ids);
      IndexKeys(ids, places, index);
      if id in index {
        var k := IndexOf(ids, places, index, id);
        ReachAt(ids, places, sip, pool, n, k);
        ReachUndisturbed(ids, places, sip, pool[..n], places[k]);
        SameHits(ids, start, places, sip, pool[..n], k);
        FilledAtPlace(ids, places, sip, pool[..n], start, slots, have, places[k]);
        MatchMeans(sip, pool[..n], id);
      }
    }
  }
}
