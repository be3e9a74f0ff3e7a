/** A whole compact block exchange between two nodes. */
module BlockRelay {

  import opened Basics
  import opened CompactBlock
  import opened ShortIdIndex
  import opened PoolScan
  import opened BlockReceiver

  function KeyOf(tx: Transaction, useWtxid: bool): Hash {
    if useWtxid then tx.wtxid else tx.txid
  }

  /** How many places before `p` are left to the short ids. */
  ghost function Rank(msg: Message, p: nat): nat {
    if p == 0 then 0 else Rank(msg, p - 1) + if IsPrefilled(msg, p - 1) then 0 else 1
  }

  ghost predicate IsPrefilled(msg: Message, p: nat) {
    Fixed(msg.prefilled, |msg.prefilled|, p)
  }

  /**
    A message that describes a block, whichever of its transactions are prefilled:
    these are the block's at the places they are given for, and the short ids are
    those of the others in order.
   */
  ghost predicate Describes(msg: Message, block: seq<Transaction>, useWtxid: bool, sip: Hasher) {
    && msg.BlockTxCount() == |block|
    && (forall i | 0 <= i < |msg.prefilled| ::
          Position(msg.prefilled, i) < |block| && msg.prefilled[i].tx == block[Position(msg.prefilled, i)])
    && (forall p | 0 <= p < |block| && !IsPrefilled(msg, p) ::
          Rank(msg, p) < |msg.shortIds| && msg.shortIds[Rank(msg, p)] == sip(KeyOf(block[p], useWtxid)))
  }

  /** The short ids of all transactions but the first. */
  function ShortIds(block: seq<Transaction>, useWtxid: bool, sip: Hasher): seq<ShortId>
    requires |block| > 0
  {
    seq<ShortId>(|block| - 1, i requires 0 <= i < |block| - 1 => sip(KeyOf(block[i + 1], useWtxid)))
  }

  /** Announce a block: the coinbase in full and a short id for every other transaction. */
  method Announce(block: seq<Transaction>, useWtxid: bool, sip: Hasher) returns (msg: Message)
    requires |block| > 0
    ensures Describes(msg, block, useWtxid, sip)
    ensures msg == Message(false, ShortIds(block, useWtxid, sip), [Prefilled(0, block[0])])
  {
    hide Describes;
    var ids: seq<ShortId> := [];
    for i := 1 to |block|
      invariant |ids| == i - 1 && forall k | 0 <= k < |ids| :: ids[k] == sip(KeyOf(block[k + 1], useWtxid))
    {
      ids := ids + [sip(KeyOf(block[i], useWtxid))];
    }
    assert ids == ShortIds(block, useWtxid, sip);
    msg := Message(false, ids, [Prefilled(0, block[0])]);
    AnnounceDescribes(block, useWtxid, sip);
  }

  lemma AnnounceDescribes(block: seq<Transaction>, useWtxid: bool, sip: Hasher)
    requires |block| > 0
    ensures Describes(Message(false, ShortIds(block, useWtxid, sip), [Prefilled(0, block[0])]), block, useWtxid, sip)
  {
    hide IsPrefilled, Rank;
    var msg := Message(false, ShortIds(block, useWtxid, sip), [Prefilled(0, block[0])]);
    forall p: nat ensures IsPrefilled(msg, p) <==> p == 0 {
      OnlyFirst(msg, p);
    }
    forall p | 0 < p < |block| ensures Rank(msg, p) == p - 1 {
      RankFollows(msg, p);
    }
  }

  lemma OnlyFirst(msg: Message, p: nat)
    requires |msg.prefilled| == 1 && msg.prefilled[0].index == 0
    ensures IsPrefilled(msg, p) <==> p == 0
  {
    assert Position(msg.prefilled, 0) == 0;
  }

  lemma {:induction false} RankFollows(msg: Message, p: nat)
    requires 0 < p && forall q: nat :: IsPrefilled(msg, q) <==> q == 0
    ensures Rank(msg, p) == p - 1
  {
    hide IsPrefilled;
    if p > 1 {
      RankFollows(msg, p - 1);
    } else {
      assert Rank(msg, 0) == 0;
    }
  }

  /** The places to ask for. */
  method MissingIndexes(slots: Slots) returns (indexes: seq<nat>)
    ensures |indexes| == Empties(slots) && Ascending(indexes)
    ensures forall k | 0 <= k < |indexes| :: Vacant(slots, k, indexes[k])
  {
    hide Empties;
    indexes := [];
    EmptiesStart(slots);
    for i := 0 to |slots|
      invariant |indexes| == Empties(slots[..i]) && Ascending(indexes)
      invariant forall k | 0 <= k < |indexes| :: Vacant(slots, k, indexes[k]) && indexes[k] < i
    {
      EmptiesNext(slots, i);
      if slots[i].None? {
        indexes := indexes + [i];
      }
    }
    assert slots[..|slots|] == slots;
  }

  /** Answer a request, unless it asks beyond the block. */
  method Serve(block: seq<Transaction>, indexes: seq<nat>) returns (txn: Option<seq<Transaction>>)
    ensures txn.None? <==> exists k :: 0 <= k < |indexes| && indexes[k] >= |block|
    ensures txn.Some? ==> |txn.value| == |indexes|
    ensures txn.Some? ==> forall k | 0 <= k < |indexes| :: indexes[k] < |block| && txn.value[k] == block[indexes[k]]
  {
    var answer := [];
    for i := 0 to |indexes|
      invariant |answer| == i && forall k | 0 <= k < i :: indexes[k] < |block| && answer[k] == block[indexes[k]]
    {
      if indexes[i] >= |block| {
        return None;
      }
      answer := answer + [block[indexes[i]]];
    }
    return Some(answer);
  }

  /** A pool transaction has the short id of a missing one only if it is that one. */
  ghost predicate NoCollision(msg: Message, block: seq<Transaction>, useWtxid: bool, sip: Hasher,
                              pool: seq<PoolEntry>)
  {
    forall e, p | e in pool && 0 <= p < |block| && !IsPrefilled(msg, p)
                  && sip(e.hash) == sip(KeyOf(block[p], useWtxid)) ::
      e.tx == block[p]
  }

  ghost predicate Agrees(slots: Slots, block: seq<Transaction>) {
    |slots| == |block| && forall p | 0 <= p < |slots| && slots[p].Some? :: slots[p].value == block[p]
  }

  /** The empty places before `p` are those left to the short ids. */
  lemma {:induction false} RankIsEmpties(msg: Message, start: Slots, p: nat)
    requires Placed(msg, start, |msg.prefilled|) && p <= |start|
    ensures Empties(start[..p]) == Rank(msg, p)
    ensures p < |start| ==> (start[p].None? <==> !IsPrefilled(msg, p))
  {
    hide Empties;
    EmptiesStart(start);
    if p > 0 {
      EmptiesNext(start, p - 1);
      RankIsEmpties(msg, start, p - 1);
    }
  }

  /** After reading the announcement every filled place holds the right transaction. */
  lemma ReadRight(block: seq<Transaction>, useWtxid: bool, sip: Hasher, pool: seq<PoolEntry>, msg: Message,
                  start: Slots, places: seq<nat>, scanned: nat, slots: Slots)
    requires Describes(msg, block, useWtxid, sip) && NoCollision(msg, block, useWtxid, sip, pool)
    requires Placed(msg, start, |msg.prefilled|)
    requires scanned <= |pool| && Scanned(msg, sip, pool[..scanned], start, places, slots)
    ensures Agrees(slots, block)
  {
    hide Describes, NoCollision, Placed, Scanned;
    Lengths(block, useWtxid, sip, pool, msg, start, places, scanned, slots);
    forall p | 0 <= p < |slots| && slots[p].Some? ensures slots[p].value == block[p] {
      if p in places {
        MatchRight(block, useWtxid, sip, pool, msg, start, places, scanned, slots, p);
      } else {
        PrefilledRight(block, useWtxid, sip, pool, msg, start, places, scanned, slots, p);
      }
    }
  }

  lemma Lengths(block: seq<Transaction>, useWtxid: bool, sip: Hasher, pool: seq<PoolEntry>, msg: Message,
                start: Slots, places: seq<nat>, scanned: nat, slots: Slots)
    requires Describes(msg, block, useWtxid, sip) && Placed(msg, start, |msg.prefilled|)
    requires scanned <= |pool| && Scanned(msg, sip, pool[..scanned], start, places, slots)
    ensures |slots| == |start| == |block|
  {
    hide Empties, Match, Spread;
  }

  /** A place that was filled from the pool. */
  lemma MatchRight(block: seq<Transaction>, useWtxid: bool, sip: Hasher, pool: seq<PoolEntry>, msg: Message,
                   start: Slots, places: seq<nat>, scanned: nat, slots: Slots, p: nat)
    requires Describes(msg, block, useWtxid, sip) && NoCollision(msg, block, useWtxid, sip, pool)
    requires Placed(msg, start, |msg.prefilled|)
    requires scanned <= |pool| && Scanned(msg, sip, pool[..scanned], start, places, slots)
    requires p < |slots| == |block| && p in places && slots[p].Some?
    ensures slots[p].value == block[p]
  {
    hide Empties, Match, Hits, Placed;
    var k :| 0 <= k < |places| && places[k] == p;
    assert Vacant(start, k, p);
    RankIsEmpties(msg, start, p);
    MatchMeans(sip, pool[..scanned], msg.shortIds[k]);
    var e :| e in pool[..scanned] && sip(e.hash) == msg.shortIds[k] && e.tx == slots[p].value;
    assert e in pool;
  }

  /** A place that was filled by the announcement. */
  lemma PrefilledRight(block: seq<Transaction>, useWtxid: bool, sip: Hasher, pool: seq<PoolEntry>, msg: Message,
                       start: Slots, places: seq<nat>, scanned: nat, slots: Slots, p: nat)
    requires Describes(msg, block, useWtxid, sip) && Placed(msg, start, |msg.prefilled|)
    requires scanned <= |pool| && Scanned(msg, sip, pool[..scanned], start, places, slots)
    requires p < |slots| == |block| && p !in places && slots[p].Some?
    ensures slots[p].value == block[p]
  {
    hide Empties, Match, Hits, Spread;
    assert Fixed(msg.prefilled, |msg.prefilled|, p);
  }

  /** A transaction whose short id is that of exactly one pool entry is found, and a prefilled one is there. */
  lemma Found(block: seq<Transaction>, useWtxid: bool, sip: Hasher, pool: seq<PoolEntry>, msg: Message,
              start: Slots, places: seq<nat>, scanned: nat, slots: Slots, p: nat)
    requires Describes(msg, block, useWtxid, sip) && Placed(msg, start, |msg.prefilled|)
    requires scanned <= |pool| && Scanned(msg, sip, pool[..scanned], start, places, slots)
    requires scanned == |pool| || EachOnce(sip, pool[..scanned], msg.shortIds)
    requires p < |slots| == |start| == |block|
    requires IsPrefilled(msg, p) || Hits(sip, pool, sip(KeyOf(block[p], useWtxid))) == 1
    ensures slots[p].Some?
  {
    hide Empties, Match, Hits, Placed, IsPrefilled, Rank;
    RankIsEmpties(msg, start, p);
    if IsPrefilled(msg, p) {
      assert forall k | 0 <= k < |places| :: Vacant(start, k, places[k]);
    } else {
      var k := Rank(msg, p);
      assert Vacant(start, k, places[k]) && Vacant(start, k, p);
      VacantUnique(start, k, places[k], k, p);
      MatchMeans(sip, pool[..scanned], msg.shortIds[k]);
      assert scanned == |pool| ==> pool[..scanned] == pool;
    }
  }

  /** Only what is neither prefilled nor held by exactly one pool entry needs to be asked for. */
  ghost predicate Needed(block: seq<Transaction>, useWtxid: bool, sip: Hasher, pool: seq<PoolEntry>, msg: Message,
                         asked: seq<nat>)
  {
    forall p | p in asked ::
      p < |block| && !IsPrefilled(msg, p) && Hits(sip, pool, sip(KeyOf(block[p], useWtxid))) != 1
  }

  lemma AskedNeeded(block: seq<Transaction>, useWtxid: bool, sip: Hasher, pool: seq<PoolEntry>, msg: Message,
                    start: Slots, places: seq<nat>, scanned: nat, slots: Slots, asked: seq<nat>)
    requires Describes(msg, block, useWtxid, sip) && Placed(msg, start, |msg.prefilled|)
    requires scanned <= |pool| && Scanned(msg, sip, pool[..scanned], start, places, slots)
    requires scanned == |pool| || EachOnce(sip, pool[..scanned], msg.shortIds)
    requires forall k | 0 <= k < |asked| :: Vacant(slots, k, asked[k])
    ensures Needed(block, useWtxid, sip, pool, msg, asked)
  {
    hide Empties, Match, Hits, Placed, IsPrefilled, Describes, Scanned, EachOnce;
    Lengths(block, useWtxid, sip, pool, msg, start, places, scanned, slots);
    forall p | p in asked
      ensures p < |block| && !IsPrefilled(msg, p) && Hits(sip, pool, sip(KeyOf(block[p], useWtxid))) != 1
    {
      var k :| 0 <= k < |asked| && asked[k] == p;
      assert Vacant(slots, k, asked[k]);
      if IsPrefilled(msg, p) || Hits(sip, pool, sip(KeyOf(block[p], useWtxid))) == 1 {
        Found(block, useWtxid, sip, pool, msg, start, places, scanned, slots, p);
      }
    }
  }

  /** The block's own transactions at the missing places complete it. */
  lemma CompletedRight(block: seq<Transaction>, slots: Slots, indexes: seq<nat>,
                       missing: seq<Transaction>, vtx: seq<Transaction>)
    requires Agrees(slots, block) && |missing| == |indexes| == Empties(slots)
    requires forall k | 0 <= k < |indexes| :: Vacant(slots, k, indexes[k]) && missing[k] == block[indexes[k]]
    requires Completes(slots, missing, vtx)
    ensures vtx == block
  {
    hide Empties;
    forall p | 0 <= p < |slots| ensures vtx[p] == block[p] {
      assert Completed(slots, missing, p) == Some(vtx[p]);
      if slots[p].None? {
        var k := Empties(slots[..p]);
        VacantUnique(slots, k, indexes[k], k, p);
      }
    }
  }

  /** A message that describes a block of up to 65536 transactions is readable. */
  lemma DescribesReadable(msg: Message, block: seq<Transaction>, useWtxid: bool, sip: Hasher)
    requires Describes(msg, block, useWtxid, sip) && !msg.headerIsNull && 0 < |block| <= MAX_UINT16 + 1
    requires forall i | 0 <= i < |msg.prefilled| :: !msg.prefilled[i].tx.isNull
    ensures Readable(msg)
  {
    hide Rank, IsPrefilled;
    forall i | 0 <= i < |msg.prefilled| ensures Position(msg.prefilled, i) <= |msg.shortIds| + i {
      PositionsSpaced(msg.prefilled, i, |msg.prefilled| - 1);
    }
  }

  /**
    A whole exchange for any message that describes the block: read it against a
    pool, ask for the rest in the differential encoding, serve the request and fill
    the block.  Unless the announcement is given up because of its short ids, exactly
    the original block comes out.
   */
  method Exchange(block: seq<Transaction>, msg: Message, useWtxid: bool, sip: Hasher, bucket: ShortId -> nat,
                  pool: seq<PoolEntry>, check: seq<Transaction> -> Verdict)
    returns (read: ReadStatus, status: ReadStatus, vtx: seq<Transaction>, asked: seq<nat>)
    requires Describes(msg, block, useWtxid, sip) && !msg.headerIsNull && 0 < |block| <= MAX_UINT16 + 1
    requires forall i | 0 <= i < |msg.prefilled| :: !msg.prefilled[i].tx.isNull
    requires NoCollision(msg, block, useWtxid, sip, pool)
    ensures read == if Crowded(msg.shortIds, bucket) || !Distinct(msg.shortIds) then Failed else Ok
    ensures read == Ok ==> vtx == block && status == Outcome(check(block))
    ensures read == Ok ==> Needed(block, useWtxid, sip, pool, msg, asked)
  {
    hide Needed, EachOnce;
    hide Empties, NoCollision, Scanned, Agrees, Completes, Decodes, Matched, Vacant, Distinct, Spread, Crowded, Placed;
    DescribesReadable(msg, block, useWtxid, sip);
    var receiver := new PartiallyDownloadedBlock(pool);
    ghost var start, places, scanned;
    var ends;
    ends, read, start, places, scanned := receiver.InitData(msg, sip, bucket);
    status, vtx, asked := Failed, [], [];
    if read != Ok {
      return;
    }
    ReadRight(block, useWtxid, sip, pool, msg, start, places, scanned, receiver.txnAvailable);
    var indexes := MissingIndexes(receiver.txnAvailable);
    AskedNeeded(block, useWtxid, sip, pool, msg, start, places, scanned, receiver.txnAvailable, indexes);
    PlacesInBlock(receiver.txnAvailable, block, indexes);
    var diffs := EncodeIndexes(indexes);
    RequestRoundTrip(indexes, diffs);
    var request := DecodeIndexes(diffs);
    SameDecoding(diffs, indexes, request.value);
    asked := request.value;
    var answer := Serve(block, request.value);
    status, vtx := receiver.FillBlock(answer.value, check);
    CompletedRight(block, receiver.txnAvailable, indexes, answer.value, vtx);
  }

  /** The exchange that the original's announcement begins. */
  method Relay(block: seq<Transaction>, useWtxid: bool, sip: Hasher, bucket: ShortId -> nat, pool: seq<PoolEntry>,
               check: seq<Transaction> -> Verdict)
    returns (read: ReadStatus, status: ReadStatus, vtx: seq<Transaction>, asked: seq<nat>)
    requires 0 < |block| <= MAX_UINT16 + 1 && !block[0].isNull
    requires forall e, p | e in pool && 0 < p < |block| && sip(e.hash) == sip(KeyOf(block[p], useWtxid)) ::
               e.tx == block[p]
    ensures var ids := ShortIds(block, useWtxid, sip);
            read == if Crowded(ids, bucket) || !Distinct(ids) then Failed else Ok
    ensures read == Ok ==> vtx == block && status == Outcome(check(block))
    ensures read == Ok ==>
              forall p | p in asked ::
                && 0 < p < |block|
                && Hits(sip, pool, sip(if useWtxid then block[p].wtxid else block[p].txid)) != 1
  {
    hide Crowded, Distinct, Describes, ShortIds, Hits;
    var msg := Announce(block, useWtxid, sip);
    assert Position(msg.prefilled, 0) == 0;
    assert IsPrefilled(msg, 0);
    read, status, vtx, asked := Exchange(block, msg, useWtxid, sip, bucket, pool, check);
  }

  lemma PlacesInBlock(slots: Slots, block: seq<Transaction>, indexes: seq<nat>)
    requires Agrees(slots, block) && forall k | 0 <= k < |indexes| :: Vacant(slots, k, indexes[k])
    ensures forall k | 0 <= k < |indexes| :: indexes[k] < |block|
  {
  }

  lemma SameDecoding(diffs: seq<nat>, xs: seq<nat>, ys: seq<nat>)
    requires Decodes(diffs, xs) && Decodes(diffs, ys)
    ensures xs == ys
  {
    assert diffs[..|xs|] == diffs;
    forall i | 0 <= i < |xs| ensures xs[i] == ys[i] {
      DecodesUnique(diffs, xs, ys, i);
    }
  }
}
