/** The receiving side of compact block relay. */
module BlockReceiver {
  import opened Basics
  import opened CompactBlock
  import opened ShortIdIndex
  import opened PoolScan

  class PartiallyDownloadedBlock {
    const pool: seq<PoolEntry>
    var headerIsNull: bool
    var txnAvailable: Slots
    var prefilledCount: nat
    var mempoolCount: nat

    constructor (pool: seq<PoolEntry>)
      ensures this.pool == pool && headerIsNull && txnAvailable == [] && prefilledCount == 0 && mempoolCount == 0
    {
      this.pool, headerIsNull, txnAvailable, prefilledCount, mempoolCount := pool, true, [], 0, 0;
    }

    /** Put the prefilled transactions in place, or find that they do not fit. */
    method Prefill(msg: Message) returns (ok: bool)
      modifies this`txnAvailable
      ensures ok <==> PrefilledOk(msg, |msg.prefilled|)
      ensures ok ==> Placed(msg, txnAvailable, |msg.prefilled|)
    {
      hide Placed;
      txnAvailable := seq(msg.BlockTxCount(), _ => None);
      PlacedNone(msg);
      var last := -1;
      for i := 0 to |msg.prefilled|
        invariant PrefilledOk(msg, i) && Placed(msg, txnAvailable, i)
        invariant last == if i == 0 then -1 else Position(msg.prefilled, i - 1)
      {
        if msg.prefilled[i].tx.isNull {
          return false;
        }
        last := last + msg.prefilled[i].index + 1;
        if last > MAX_UINT16 {
          return false;
        }
        if last > |msg.shortIds| + i {
          return false;
        }
        PlacedNext(msg, txnAvailable, i);
        txnAvailable := txnAvailable[last := Some(msg.prefilled[i].tx)];
      }
      return true;
    }

    /**
      The next empty place for the `i`-th short id.  When the offset has been round
      once without meeting one, the search has no end.
     */
    method Search(i: nat, from: nat) returns (ends: bool, offset: nat)
      requires from <= MAX_UINT16 && (Reachable(txnAvailable, i, from) || Packed(txnAvailable, i))
      ensures ends <==> !Endless(txnAvailable, i, from)
      ensures ends ==> from <= offset <= MAX_UINT16 && i + offset < |txnAvailable| && txnAvailable[i + offset].None?
      ensures ends ==> forall p | i + from <= p < i + offset :: txnAvailable[p].Some?
    {
      hide Endless;
      EndlessIff(txnAvailable, i, from);
      offset := from;
      var steps := 0;
      while txnAvailable[i + offset].Some?
        invariant offset <= MAX_UINT16 && steps <= MAX_UINT16 + 1
        invariant FilledAt(txnAvailable, i, offset) || EmptyAt(txnAvailable, i, offset)
        invariant !Packed(txnAvailable, i) ==>
                    && from <= offset == from + steps && Reachable(txnAvailable, i, offset)
                    && forall p | i + from <= p < i + offset :: txnAvailable[p].Some?
        decreases MAX_UINT16 + 1 - steps
      {
        if steps == MAX_UINT16 + 1 {
          return false, offset;
        }
        offset := OffsetAfter(offset, 1);
        steps := steps + 1;
      }
      ends := true;
    }

    /**
      Give the short ids the empty places in order.  This has no end exactly if there
      are short ids and more than 65535 prefilled transactions.  Otherwise it fails
      exactly if a bucket of the hash table gets crowded or two short ids are the same.
     */
    method IndexShortIds(msg: Message, bucket: ShortId -> nat)
      returns (ends: bool, index: Option<map<ShortId, nat>>, ghost places: seq<nat>)
      requires Placed(msg, txnAvailable, |msg.prefilled|)
      ensures ends <==> |msg.prefilled| <= MAX_UINT16 || msg.shortIds == []
      ensures !ends ==> Endless(txnAvailable, 0, 0)
      ensures ends ==> (index.None? <==> Crowded(msg.shortIds, bucket) || !Distinct(msg.shortIds))
      ensures ends && index.Some? ==> Spread(txnAvailable, places) && Indexes(msg.shortIds, places, index.value)
    {
      hide Indexes, Distinct, Empties, Short, Crowded, BucketSize, Elements;
      hide Endless, Packed, Reachable, PrefilledOk, Fixed;
      var positions: map<ShortId, nat> := map[];
      places := [];
      var offset: nat := 0;
      IndexesNone(msg.shortIds, bucket);
      EmptiesStart(txnAvailable);
      for i := 0 to |msg.shortIds|
        invariant offset <= MAX_UINT16 && (i > 0 ==> |msg.prefilled| <= MAX_UINT16)
        invariant i + offset <= |txnAvailable| && Empties(txnAvailable[..i + offset]) == i && (i == 0 ==> offset == 0)
        invariant |places| == i && Spread(txnAvailable, places)
        invariant Indexes(msg.shortIds[..i], places, positions)
        invariant !Crowded(msg.shortIds[..i], bucket)
      {
        SearchEnds(msg, txnAvailable, i, offset);
        ghost var from := offset;
        ends, offset := Search(i, offset);
        if !ends {
          return false, None, places;
        }
        EmptiesSkip(txnAvailable, i + from, i + offset);
        EmptiesNext(txnAvailable, i + offset);
        IndexesNext(msg.shortIds, places, positions, i, i + offset);
        positions := positions[msg.shortIds[i] := Short(i + offset)];
        places := places + [i + offset];
        CrowdedNext(msg.shortIds, bucket, i);
        IndexKeys(msg.shortIds[..i + 1], places, positions);
        if BucketSize(positions.Keys, bucket, msg.shortIds[i]) > MAX_PER_BUCKET {
          CrowdedStays(msg.shortIds, bucket, i + 1);
          return true, None, places;
        }
      }
      assert msg.shortIds[..|msg.shortIds|] == msg.shortIds;
      IndexSize(msg.shortIds, places, positions);
      if |positions| != |msg.shortIds| {
        return true, None, places;
      }
      return true, Some(positions), places;
    }

    /** Fill the empty places from the pool, up to the entry after which everything is matched. */
    method ScanPool(msg: Message, sip: Hasher, index: map<ShortId, nat>, ghost places: seq<nat>)
      returns (ghost scanned: nat)
      requires Distinct(msg.shortIds) && Spread(txnAvailable, places) && Indexes(msg.shortIds, places, index)
      requires mempoolCount == 0
      modifies this`txnAvailable, this`mempoolCount
      ensures scanned <= |pool| && mempoolCount <= scanned
      ensures Filled(msg.shortIds, places, sip, pool[..scanned], old(txnAvailable), txnAvailable)
      ensures scanned == |pool| || mempoolCount == |msg.shortIds|
      ensures WithinReach(msg.shortIds, places, sip, pool[..scanned]) ==>
                && Scanned(msg, sip, pool[..scanned], old(txnAvailable), places, txnAvailable)
                && mempoolCount == Matched(sip, pool[..scanned], msg.shortIds) <= |msg.shortIds|
                && (mempoolCount == |msg.shortIds| ==> EachOnce(sip, pool[..scanned], msg.shortIds))
    {
      hide Filled, Flagged, Scanned, Spread, Matched, Hits, Match, Distinct, Indexes, Live, WithinReach;
      var have := seq(|txnAvailable|, _ => false);
      ghost var start := txnAvailable;
      IndexPlaces(msg.shortIds, start, places, index);
      FilledNone(msg.shortIds, places, sip, start);
      MatchedNone(sip, msg.shortIds);
      LiveNone(start, have);
      assert pool[..0] == [];
      scanned := 0;
      for i := 0 to |pool|
        invariant scanned == i && |have| == |start| == |txnAvailable| && mempoolCount <= i
        invariant Tallied(msg, sip, places, i, start, have)
      {
        have := MatchEntry(msg, sip, index, places, i, have, start);
        scanned := i + 1;
        if mempoolCount == |index| {
          IndexSize(msg.shortIds, places, index);
          break;
        }
      }
      MatchedBound(sip, pool[..scanned], msg.shortIds);
      if WithinReach(msg.shortIds, places, sip, pool[..scanned]) {
        FilledScanned(msg, sip, pool[..scanned], start, places, txnAvailable);
      }
    }

    /** The state of the scan after `i` entries. */
    ghost predicate Tallied(msg: Message, sip: Hasher, places: seq<nat>, i: nat, start: Slots, have: seq<bool>)
      requires i <= |pool|
      reads this
    {
      && Filled(msg.shortIds, places, sip, pool[..i], start, txnAvailable)
      && Flagged(msg.shortIds, places, sip, pool[..i], have)
      && mempoolCount == |Live(txnAvailable, have)|
      && (WithinReach(msg.shortIds, places, sip, pool[..i]) ==>
            mempoolCount == Matched(sip, pool[..i], msg.shortIds))
    }

    /** One pool entry: a first match is taken, and a second one for the same place removes it again. */
    method MatchEntry(msg: Message, sip: Hasher, index: map<ShortId, nat>, ghost places: seq<nat>, i: nat,
                      before: seq<bool>, ghost start: Slots)
      returns (have: seq<bool>)
      requires i < |pool| && |before| == |start| == |txnAvailable| && mempoolCount <= i
      requires Distinct(msg.shortIds) && Indexes(msg.shortIds, places, index) && Spread(start, places)
      requires forall id | id in index :: index[id] < |start|
      requires Tallied(msg, sip, places, i, start, before)
      modifies this`txnAvailable, this`mempoolCount
      ensures |have| == |start| == |txnAvailable| && mempoolCount <= i + 1
      ensures Tallied(msg, sip, places, i + 1, start, have)
    {
      hide Filled, Flagged, Spread, Matched, Hits, Match, Distinct, Indexes, Live, WithinReach;
      have := before;
      FilledNext(msg.shortIds, places, index, sip, pool, i, start, txnAvailable, have);
      EntryCounts(msg.shortIds, places, index, sip, pool, i, start, txnAvailable, have);
      var id := sip(pool[i].hash);
      if id in index {
        var p := index[id];
        LiveSet(txnAvailable, have, p, pool[i].tx);
        if !have[p] {
          txnAvailable := txnAvailable[p := Some(pool[i].tx)];
          have := have[p := true];
          mempoolCount := mempoolCount + 1;
        } else {
          assert have[p := true] == have;
          assert txnAvailable[p].None? ==> txnAvailable[p := None] == txnAvailable;
          if txnAvailable[p].Some? {
            txnAvailable := txnAvailable[p := None];
            mempoolCount := mempoolCount - 1;
          }
        }
      }
    }

    /**
      Read an announcement.  This has no end exactly if it is readable, prefills more
      than 65535 transactions and has a short id.  Otherwise it is invalid or given up
      exactly for the listed reasons, and whatever it says no place is out of range.  If it is accepted then the
      prefilled transactions are in place, the short ids stand for the other places
      in order, and these hold the only match among the pool entries looked at, as
      long as places fit sixteen bits.
     */
    method InitData(msg: Message, sip: Hasher, bucket: ShortId -> nat)
      returns (ends: bool, status: ReadStatus, ghost start: Slots, ghost places: seq<nat>, ghost scanned: nat)
      requires headerIsNull && txnAvailable == [] && mempoolCount == 0
      modifies this
      ensures !ends <==> Readable(msg) && |msg.prefilled| > MAX_UINT16 && msg.shortIds != []
      ensures !ends ==> Endless(txnAvailable, 0, 0)
      ensures ends ==> (status == Invalid <==> !Readable(msg))
      ensures ends ==>
                (status == Failed <==> Readable(msg) && (Crowded(msg.shortIds, bucket) || !Distinct(msg.shortIds)))
      ensures ends ==> status != CheckBlockFailed
      ensures ends && status == Ok ==>
                && !headerIsNull && prefilledCount == |msg.prefilled| && |txnAvailable| == msg.BlockTxCount()
                && Placed(msg, start, |msg.prefilled|) && Spread(start, places) && |places| == |msg.shortIds|
                && scanned <= |pool| && mempoolCount <= scanned && (scanned == |pool| || mempoolCount == |msg.shortIds|)
                && Filled(msg.shortIds, places, sip, pool[..scanned], start, txnAvailable)
      ensures ends && status == Ok && WithinReach(msg.shortIds, places, sip, pool[..scanned]) ==>
                && Scanned(msg, sip, pool[..scanned], start, places, txnAvailable)
                && mempoolCount == Matched(sip, pool[..scanned], msg.shortIds) <= |msg.shortIds|
                && (mempoolCount == |msg.shortIds| ==> EachOnce(sip, pool[..scanned], msg.shortIds))
      ensures ends && status == Ok && msg.BlockTxCount() <= MAX_UINT16 + 1 ==>
                WithinReach(msg.shortIds, places, sip, pool[..scanned])
    {
      hide Scanned, Spread, Matched, Indexes, Distinct, PrefilledOk, Crowded, Endless, EachOnce, Filled, WithinReach;
      start, places, scanned := [], [], 0;
      if msg.headerIsNull || (msg.shortIds == [] && msg.prefilled == []) {
        return true, Invalid, start, places, scanned;
      }
      if |msg.shortIds| + |msg.prefilled| > MAX_BLOCK_BASE_SIZE / MIN_TRANSACTION_BASE_SIZE {
        return true, Invalid, start, places, scanned;
      }
      headerIsNull := msg.headerIsNull;
      var ok := Prefill(msg);
      if !ok {
        return true, Invalid, start, places, scanned;
      }
      prefilledCount := |msg.prefilled|;
      start := txnAvailable;
      var index;
      ends, index, places := IndexShortIds(msg, bucket);
      if !ends {
        return false, Failed, start, places, scanned;
      }
      if index.None? {
        return true, Failed, start, places, scanned;
      }
      IndexKeys(msg.shortIds, places, index.value);
      scanned := ScanPool(msg, sip, index.value, places);
      FilledLength(msg.shortIds, places, sip, pool[..scanned], start, txnAvailable);
      if msg.BlockTxCount() <= MAX_UINT16 + 1 {
        SmallWithinReach(msg.shortIds, start, places, sip, pool[..scanned]);
      }
      return true, Ok, start, places, scanned;
    }

    method IsTxAvailable(index: nat) returns (available: bool)
      requires !headerIsNull && index < |txnAvailable|
      ensures available <==> txnAvailable[index].Some?
    {
      available := txnAvailable[index].Some?;
    }

    /** The missing transactions fill the empty places in order; there must be exactly as many. */
    method FillBlock(missing: seq<Transaction>, check: seq<Transaction> -> Verdict)
      returns (status: ReadStatus, vtx: seq<Transaction>)
      requires !headerIsNull
      ensures status == Invalid <==> |missing| != Empties(txnAvailable)
      ensures status != Invalid ==> Completes(txnAvailable, missing, vtx) && status == Outcome(check(vtx))
    {
      hide Empties;
      vtx := [];
      var offset := 0;
      EmptiesStart(txnAvailable);
      assert txnAvailable[..|txnAvailable|] == txnAvailable;
      for i := 0 to |txnAvailable|
        invariant offset == Empties(txnAvailable[..i]) <= |missing|
        invariant |vtx| == i
        invariant forall k | 0 <= k < i :: Completed(txnAvailable, missing, k) == Some(vtx[k])
      {
        EmptiesNext(txnAvailable, i);
        if txnAvailable[i].None? {
          if |missing| <= offset {
            EmptiesMonotone(txnAvailable, i + 1, |txnAvailable|);
            return Invalid, vtx;
          }
          vtx := vtx + [missing[offset]];
          offset := offset + 1;
        } else {
          vtx := vtx + [txnAvailable[i].value];
        }
      }
      if |missing| != offset {
        return Invalid, vtx;
      }
      status := Outcome(check(vtx));
    }
  }

  datatype Verdict = Accepted | CorruptionPossible | Rejected

  function Outcome(v: Verdict): ReadStatus {
    match v
    case Accepted => Ok
    case CorruptionPossible => Failed
    case Rejected => CheckBlockFailed
  }

  /** What belongs at place `k`, if enough missing transactions are given. */
  ghost function Completed(slots: Slots, missing: seq<Transaction>, k: nat): Option<Transaction>
    requires k < |slots|
  {
    if slots[k].Some? then slots[k]
    else if Empties(slots[..k]) < |missing| then Some(missing[Empties(slots[..k])]) else None
  }

  ghost predicate Completes(slots: Slots, missing: seq<Transaction>, vtx: seq<Transaction>) {
    |vtx| == |slots| && forall k | 0 <= k < |slots| :: Completed(slots, missing, k) == Some(vtx[k])
  }

  /** The conditions on an announcement besides its short ids. */
  ghost predicate Readable(msg: Message) {
    && !msg.headerIsNull
    && 0 < msg.BlockTxCount() <= MAX_BLOCK_BASE_SIZE / MIN_TRANSACTION_BASE_SIZE
    && PrefilledOk(msg, |msg.prefilled|)
  }

  /** Only short ids, one more than places that fit sixteen bits. */
  function TooMany(): Message {
    Message(false, seq(MAX_UINT16 + 2, k => k), [])
  }

  /**
    The pool's only entry has the last short id of the announcement.  It ends up at the
    first place, whose short id it does not have, and the last place stays empty.
   */
  method Misplaced(tx: Transaction) returns (receiver: PartiallyDownloadedBlock, sip: Hasher)
    ensures fresh(receiver) && |receiver.txnAvailable| == MAX_UINT16 + 2 && |receiver.pool| == 1
    ensures receiver.txnAvailable[0] == Some(tx) && receiver.txnAvailable[MAX_UINT16 + 1] == None
    ensures sip(receiver.pool[0].hash) == TooMany().shortIds[MAX_UINT16 + 1] != TooMany().shortIds[0]
  {
    hide Crowded, BucketSize, Empties, Endless, PrefilledOk, Readable, Distinct, Filled, Placed, Spread, WithinReach;
    sip := (h: Hash) => h;
    receiver := new PartiallyDownloadedBlock([PoolEntry(MAX_UINT16 + 1, tx)]);
    var msg := TooMany();
    TooManyReadable();
    ghost var start, places, scanned;
    var ends, status;
    ends, status, start, places, scanned := receiver.InitData(msg, sip, OwnBucket);
    assert receiver.pool[..scanned] == [receiver.pool[0]];
    MisplacedSlots(receiver.pool[0], sip, start, places, receiver.txnAvailable);
  }

  function OwnBucket(id: ShortId): nat {
    id
  }

  lemma TooManyReadable()
    ensures Readable(TooMany()) && Distinct(TooMany().shortIds) && !Crowded(TooMany().shortIds, OwnBucket)
  {
    var msg := TooMany();
    forall id | id in msg.shortIds ensures BucketSize(Elements(msg.shortIds), OwnBucket, id) <= 1 {
      var bucket: ShortId -> nat := OwnBucket;
      var alike := set k | k in Elements(msg.shortIds) && bucket(k) == bucket(id);
      assert alike == {id};
    }
  }

  lemma MisplacedSlots(e: PoolEntry, sip: Hasher, start: Slots, places: seq<nat>, slots: Slots)
    requires e.hash == MAX_UINT16 + 1 && sip(e.hash) == e.hash
    requires Placed(TooMany(), start, 0) && Spread(start, places) && |places| == MAX_UINT16 + 2
    requires Filled(TooMany().shortIds, places, sip, [e], start, slots)
    ensures |slots| == MAX_UINT16 + 2 && slots[0] == Some(e.tx) && slots[MAX_UINT16 + 1] == None
  {
    hide Empties;
    var ids := TooMany().shortIds;
    forall p | 0 <= p < |start| ensures start[p].None? {
      assert !Fixed(TooMany().prefilled, 0, p);
    }
    AllVacant(start, MAX_UINT16 + 1, places[MAX_UINT16 + 1]);
    assert Short(places[MAX_UINT16 + 1]) == 0 && ids[MAX_UINT16 + 1] == sip(e.hash);
    assert Goes(ids, places, sip, e, 0);
    assert [e][..0] == [];
    NeverThere(ids, places, sip, [e], MAX_UINT16 + 1);
  }

  lemma AllVacant(start: Slots, i: nat, p: nat)
    requires (forall k | 0 <= k < |start| :: start[k].None?) && Vacant(start, i, p)
    ensures p == i
  {
    hide Empties;
    EmptiesNone(p);
    assert start[..p] == seq(p, _ => None);
  }

  /** A readable announcement whose first search has no end. */
  function AllPrefilled(tx: Transaction, id: ShortId): Message {
    Message(false, [id], seq(MAX_UINT16 + 1, _ => Prefilled(0, tx)))
  }

  lemma AllPrefilledReadable(tx: Transaction, id: ShortId)
    requires !tx.isNull
    ensures var msg := AllPrefilled(tx, id);
            Readable(msg) && |msg.prefilled| > MAX_UINT16 && msg.shortIds != []
  {
    var msg := AllPrefilled(tx, id);
    forall i | 0 <= i < |msg.prefilled| ensures Position(msg.prefilled, i) == i {
      AllPrefilledAt(msg.prefilled, i);
    }
  }

  lemma {:induction false} AllPrefilledAt(prefilled: seq<Prefilled>, i: nat)
    requires i < |prefilled| && forall k | 0 <= k <= i :: prefilled[k].index == 0
    ensures Position(prefilled, i) == i
  {
    if i > 0 {
      AllPrefilledAt(prefilled, i - 1);
    }
  }
}
