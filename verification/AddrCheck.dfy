/**
  The consistency check that the address manager carries for debugging.  On any
  valid state it can only complain about timestamps or a null key.
 */
module AddrCheck {
  import opened Basics
  import opened AddrTypes
  import opened AddrView
  import opened AddrIndex
  import opened AddrMan

  ghost function TriedIds(info: map<int, AddrInfo>): set<int> {
    set id | id in info && info[id].inTried
  }

  ghost function RefCounts(info: map<int, AddrInfo>): map<int, int> {
    map id | id in info && !info[id].inTried :: info[id].refCount
  }

  lemma TableCounts(m: AddrMan)
    requires m.Valid()
    ensures |TriedIds(m.mapInfo)| == m.nTried
    ensures |RefCounts(m.mapInfo)| == m.nNew
    ensures |m.vRandom| == m.nTried + m.nNew
  {
    hide Rep, Mirrors;
    KeyFacts(m.H(), m.State(), m.view);
    RandomCount(m.H(), m.State(), m.view);
    forall a | a in m.view
      ensures a in m.mapAddr && m.mapAddr[a] in m.mapInfo && Matches(a, m.view[a], m.mapInfo[m.mapAddr[a]])
    {
      AddrFacts(m.H(), m.State(), m.view, a);
    }
    forall id | id in m.mapInfo
      ensures m.mapInfo[id].addr in m.view && m.mapAddr[m.mapInfo[id].addr] == id
    {
      IdFacts(m.H(), m.State(), m.view, id);
    }
    SameCount(m.mapAddr, TriedAddrs(m.view), TriedIds(m.mapInfo));
    SameCount(m.mapAddr, NewAddrs(m.view), RefCounts(m.mapInfo).Keys);
    assert m.view.Keys == NewAddrs(m.view) + TriedAddrs(m.view);
    assert NewAddrs(m.view) !! TriedAddrs(m.view);
  }

  lemma InfoFacts(m: AddrMan, id: int)
    requires m.Valid() && id in m.mapInfo
    ensures var i := m.mapInfo[id];
            && i.addr in m.view && i.addr in m.mapAddr && m.mapAddr[i.addr] == id
            && 0 <= i.randomPos < |m.vRandom| && m.vRandom[i.randomPos] == id
            && (i.inTried ==> i.refCount == 0)
            && (!i.inTried ==> 1 <= i.refCount <= NEW_BUCKETS_PER_ADDRESS)
            && (TimeSane(m.view[i.addr]) <==>
                  i.meta.lastTry >= 0 && i.meta.lastSuccess >= 0 && (i.inTried ==> i.meta.lastSuccess != 0))
  {
    hide Rep, Mirrors;
    KeyFacts(m.H(), m.State(), m.view);
    IdFacts(m.H(), m.State(), m.view, id);
  }

  /** The record-by-record part. */
  method ScanInfo(m: AddrMan) returns (err: int, setTried: set<int>, mapNew: map<int, int>)
    requires m.Valid()
    ensures err == 0 <==> TimesSane(m.view)
    ensures err == 0 ==> setTried == TriedIds(m.mapInfo) && mapNew == RefCounts(m.mapInfo)
  {
    hide Rep, Mirrors, AddrMan.Valid, TimeSane;
    err, setTried, mapNew := 0, {}, map[];
    var todo := m.mapInfo.Keys;
    while todo != {} && err == 0
      invariant todo <= m.mapInfo.Keys
      invariant err == 0 ==> setTried == set id | id in m.mapInfo && id !in todo && m.mapInfo[id].inTried
      invariant err == 0 ==>
                  mapNew == map id | id in m.mapInfo && id !in todo && !m.mapInfo[id].inTried :: m.mapInfo[id].refCount
      invariant err == 0 ==> forall id | id in m.mapInfo && id !in todo :: Sane(m, id)
      invariant err != 0 ==> exists id :: id in m.mapInfo && !Sane(m, id)
      decreases todo
    {
      var id := Pick(todo);
      todo := todo - {id};
      InfoFacts(m, id);
      var info := m.mapInfo[id];
      if info.inTried {
        if info.meta.lastSuccess == 0 {
          err := -1;
        } else if info.refCount != 0 {
          err := -2;
        } else {
          setTried := setTried + {id};
        }
      } else if info.refCount < 0 || info.refCount > NEW_BUCKETS_PER_ADDRESS {
        err := -3;
      } else if info.refCount == 0 {
        err := -4;
      } else {
        mapNew := mapNew[id := info.refCount];
      }
      if err == 0 {
        if info.addr !in m.mapAddr || m.mapAddr[info.addr] != id {
          err := -5;
        } else if info.randomPos < 0 || info.randomPos >= |m.vRandom| || m.vRandom[info.randomPos] != id {
          err := -14;
        } else if info.meta.lastTry < 0 {
          err := -6;
        } else if info.meta.lastSuccess < 0 {
          err := -8;
        }
      }
    }
    SaneEverywhere(m);
  }

  ghost predicate Sane(m: AddrMan, id: int)
    reads m
  {
    id in m.mapInfo && m.mapInfo[id].addr in m.view && TimeSane(m.view[m.mapInfo[id].addr])
  }

  lemma SaneEverywhere(m: AddrMan)
    requires m.Valid()
    ensures TimesSane(m.view) <==> forall id | id in m.mapInfo :: Sane(m, id)
  {
    hide Rep, Mirrors, TimeSane;
    forall a | a in m.view
      ensures a in m.mapAddr && m.mapAddr[a] in m.mapInfo && m.mapInfo[m.mapAddr[a]].addr == a
    {
      AddrFacts(m.H(), m.State(), m.view, a);
    }
    forall id | id in m.mapInfo ensures m.mapInfo[id].addr in m.view {
      IdFacts(m.H(), m.State(), m.view, id);
    }
    if forall id | id in m.mapInfo :: Sane(m, id) {
      forall a | a in m.view ensures TimeSane(m.view[a]) {
        assert Sane(m, m.mapAddr[a]);
      }
    }
  }

  // ----- the scans over the tables

  /** The cell `slot` comes at or after `(n, i)` in scanning order. */
  predicate Ahead(slot: Slot, n: int, i: int) {
    slot.0 > n || (slot.0 == n && slot.1 >= i)
  }

  /** Tried ids whose cell is still to be scanned. */
  ghost function TriedLeft(h: Hasher, info: map<int, AddrInfo>, n: int, i: int): set<int> {
    set id | id in info && info[id].inTried && Ahead(h.TriedSlot(info[id].addr, info[id].meta.port), n, i)
  }

  lemma TriedLeftEnds(h: Hasher, info: map<int, AddrInfo>, n: int)
    ensures TriedLeft(h, info, 0, 0) == TriedIds(info)
    ensures TriedLeft(h, info, n, BUCKET_SIZE) == TriedLeft(h, info, n + 1, 0)
    ensures TriedLeft(h, info, TRIED_BUCKET_COUNT, 0) == {}
  {
    forall id | id in info
      ensures var slot := h.TriedSlot(info[id].addr, info[id].meta.port);
              && Ahead(slot, 0, 0) && !Ahead(slot, TRIED_BUCKET_COUNT, 0)
              && (Ahead(slot, n, BUCKET_SIZE) <==> Ahead(slot, n + 1, 0))
    {
    }
  }

  /** Scanning one cell deals with the one id stored there. */
  lemma TriedLeftStep(h: Hasher, info: map<int, AddrInfo>, n: int, i: int, cell: int)
    requires cell != -1 ==>
               cell in info && info[cell].inTried && h.TriedSlot(info[cell].addr, info[cell].meta.port) == (n, i)
    requires forall id | id in info && info[id].inTried
                         && h.TriedSlot(info[id].addr, info[id].meta.port) == (n, i) :: cell == id
    requires -1 !in info
    ensures TriedLeft(h, info, n, i + 1) == TriedLeft(h, info, n, i) - {cell}
    ensures cell != -1 <==> cell in TriedLeft(h, info, n, i)
  {
    forall id | id in info
      ensures id in TriedLeft(h, info, n, i + 1) <==> id in TriedLeft(h, info, n, i) && id != cell
    {
      var slot := h.TriedSlot(info[id].addr, info[id].meta.port);
      assert Ahead(slot, n, i) <==> Ahead(slot, n, i + 1) || slot == (n, i);
    }
  }

  lemma TriedCell(m: AddrMan, n: int, i: int)
    requires m.Valid() && 0 <= n < TRIED_BUCKET_COUNT && 0 <= i < BUCKET_SIZE
    ensures var id := m.vvTried[n, i];
            id != -1 ==> id in m.mapInfo && m.mapInfo[id].inTried
                         && m.H().TriedSlot(m.mapInfo[id].addr, m.mapInfo[id].meta.port) == (n, i)
    ensures -1 !in m.mapInfo
    ensures forall id | id in m.mapInfo && m.mapInfo[id].inTried
                        && m.H().TriedSlot(m.mapInfo[id].addr, m.mapInfo[id].meta.port) == (n, i) ::
                m.vvTried[n, i] == id
  {
    hide Rep;
    if -1 in m.mapInfo {
      IdFacts(m.H(), m.State(), m.view, -1);
      assert false;
    }
    if m.vvTried[n, i] != -1 {
      m.TriedCellFacts(n, i);
    }
    forall id | id in m.mapInfo && m.mapInfo[id].inTried
                && m.H().TriedSlot(m.mapInfo[id].addr, m.mapInfo[id].meta.port) == (n, i)
      ensures m.vvTried[n, i] == id
    {
      IdFacts(m.H(), m.State(), m.view, id);
      TriedHolds(m.H(), m.State(), m.view, m.mapInfo[id].addr);
    }
  }

  method ScanTried(m: AddrMan, tried: set<int>) returns (err: int, left: set<int>)
    requires m.Valid() && tried == TriedIds(m.mapInfo)
    ensures err == 0 && left == {}
  {
    hide Rep, Mirrors, NewAddrs, TriedAddrs, AllSettled, TriedLeft, TriedIds;
    err, left := 0, tried;
    TriedLeftEnds(m.H(), m.mapInfo, 0);
    for n := 0 to TRIED_BUCKET_COUNT
      invariant err == 0 && left == TriedLeft(m.H(), m.mapInfo, n, 0)
    {
      for i := 0 to BUCKET_SIZE
        invariant err == 0 && left == TriedLeft(m.H(), m.mapInfo, n, i)
      {
        TriedCell(m, n, i);
        var id := m.vvTried[n, i];
        TriedLeftStep(m.H(), m.mapInfo, n, i, id);
        if id != -1 {
          if id !in left {
            err := -11;
          } else if Hasher(m.env, m.key).TriedBucket(m.mapInfo[id].addr, m.mapInfo[id].meta.port) != n {
            err := -17;
          } else if Hasher(m.env, m.key).Position(m.mapInfo[id].addr, m.mapInfo[id].meta.port, false, n) != i {
            err := -18;
          } else {
            left := left - {id};
          }
        }
      }
      TriedLeftEnds(m.H(), m.mapInfo, n);
    }
  }

  /** Buckets of `id` whose cell is still to be scanned. */
  ghost function BucketsLeft(h: Hasher, v: View, info: map<int, AddrInfo>, id: int, n: int, i: int): set<nat>
    requires id in info && info[id].addr in v
  {
    set b | b in Buckets(v[info[id].addr]) && Ahead(h.NewSlot(info[id].addr, info[id].meta.port, b), n, i)
  }

  /** The count still expected for each id that has cells left. */
  ghost function NewLeft(h: Hasher, v: View, info: map<int, AddrInfo>, n: int, i: int): map<int, int>
    requires forall id | id in info :: info[id].addr in v
  {
    map id | id in info && BucketsLeft(h, v, info, id, n, i) != {} :: |BucketsLeft(h, v, info, id, n, i)|
  }

  lemma NewLeftEnds(h: Hasher, s: Index, v: View, n: int)
    requires Rep(h, s, v) && AllSettled(v)
    ensures NewLeft(h, v, s.info, 0, 0) == RefCounts(s.info)
    ensures NewLeft(h, v, s.info, n, BUCKET_SIZE) == NewLeft(h, v, s.info, n + 1, 0)
    ensures NewLeft(h, v, s.info, NEW_BUCKET_COUNT, 0) == map[]
  {
    hide Rep;
    forall id | id in s.info
      ensures s.info[id].addr in v
      ensures BucketsLeft(h, v, s.info, id, 0, 0) == Buckets(v[s.info[id].addr])
      ensures BucketsLeft(h, v, s.info, id, n, BUCKET_SIZE) == BucketsLeft(h, v, s.info, id, n + 1, 0)
      ensures BucketsLeft(h, v, s.info, id, NEW_BUCKET_COUNT, 0) == {}
      ensures Matches(s.info[id].addr, v[s.info[id].addr], s.info[id])
    {
      IdFacts(h, s, v, id);
      BucketFacts(h, s, v, s.info[id].addr);
    }
  }

  /** Scanning one cell of the new table takes one bucket off the count of the id stored there. */
  lemma NewLeftStep(h: Hasher, s: Index, v: View, n: nat, i: nat)
    requires Rep(h, s, v) && i < BUCKET_SIZE
    ensures (n, i) !in s.newTab ==> NewLeft(h, v, s.info, n, i + 1) == NewLeft(h, v, s.info, n, i)
    ensures (n, i) in s.newTab ==>
              var id := s.newTab[(n, i)];
              var left := NewLeft(h, v, s.info, n, i);
              && id in left
              && NewLeft(h, v, s.info, n, i + 1) == if left[id] == 1 then left - {id} else left[id := left[id] - 1]
  {
    hide Rep;
    forall id | id in s.info
      ensures s.info[id].addr in v
      ensures (n, i) in s.newTab && s.newTab[(n, i)] == id ==>
                && n in BucketsLeft(h, v, s.info, id, n, i)
                && BucketsLeft(h, v, s.info, id, n, i + 1) == BucketsLeft(h, v, s.info, id, n, i) - {n}
      ensures !((n, i) in s.newTab && s.newTab[(n, i)] == id) ==>
                BucketsLeft(h, v, s.info, id, n, i + 1) == BucketsLeft(h, v, s.info, id, n, i)
    {
      IdFacts(h, s, v, id);
      CellFacts(h, s, v, s.info[id].addr, n);
      if (n, i) in s.newTab {
        NewSlotFacts(h, s, v, (n, i));
      }
    }
    if (n, i) in s.newTab {
      NewSlotFacts(h, s, v, (n, i));
      RemoveOne(BucketsLeft(h, v, s.info, s.newTab[(n, i)], n, i), n);
    }
  }

  lemma NewCell(m: AddrMan, n: nat, i: nat)
    requires m.Valid() && n < NEW_BUCKET_COUNT && i < BUCKET_SIZE
    ensures forall id | id in m.mapInfo :: m.mapInfo[id].addr in m.view
    ensures (n, i) in m.newTab <==> m.vvNew[n, i] != -1
    ensures (n, i) in m.newTab ==>
              var id := m.vvNew[n, i];
              && m.newTab[(n, i)] == id && id in m.mapInfo
              && m.H().Position(m.mapInfo[id].addr, m.mapInfo[id].meta.port, true, n) == i
  {
    hide Rep;
    forall id | id in m.mapInfo ensures m.mapInfo[id].addr in m.view {
      IdFacts(m.H(), m.State(), m.view, id);
    }
    if m.vvNew[n, i] != -1 {
      m.NewCellFacts(n, i);
    }
  }

  method ScanNew(m: AddrMan, counts: map<int, int>) returns (err: int, left: map<int, int>)
    requires m.Valid() && counts == RefCounts(m.mapInfo)
    ensures err == 0 && left == map[]
  {
    hide Rep, Mirrors, NewAddrs, TriedAddrs, AllSettled, NewLeft, RefCounts;
    NewCell(m, 0, 0);
    NewLeftEnds(m.H(), m.State(), m.view, 0);
    err, left := 0, counts;
    for n := 0 to NEW_BUCKET_COUNT
      invariant err == 0 && left == NewLeft(m.H(), m.view, m.mapInfo, n, 0)
    {
      for i := 0 to BUCKET_SIZE
        invariant err == 0 && left == NewLeft(m.H(), m.view, m.mapInfo, n, i)
      {
        NewCell(m, n, i);
        NewLeftStep(m.H(), m.State(), m.view, n, i);
        var id := m.vvNew[n, i];
        if id != -1 {
          if id !in left {
            err := -12;
          } else if Hasher(m.env, m.key).Position(m.mapInfo[id].addr, m.mapInfo[id].meta.port, true, n) != i {
            err := -19;
          } else {
            left := left[id := left[id] - 1];
            if left[id] == 0 {
              left := left - {id};
            }
          }
        }
      }
      NewLeftEnds(m.H(), m.State(), m.view, n);
    }
  }

  /** On a valid state the self check finds nothing structural to complain about. */
  method Check(m: AddrMan) returns (err: int)
    requires m.Valid()
    ensures err == 0 <==> TimesSane(m.view) && m.key != 0
  {
    hide Rep, Mirrors, NewAddrs, TriedAddrs, AllSettled, TimesSane, TriedIds, RefCounts;
    TableCounts(m);
    err := 0;
    if |m.vRandom| != m.nTried + m.nNew {
      err := -7;
    }
    if err == 0 {
      var setTried, mapNew;
      err, setTried, mapNew := ScanInfo(m);
      if err == 0 {
        if |setTried| != m.nTried {
          err := -9;
        } else if |mapNew| != m.nNew {
          err := -10;
        } else {
          err, setTried := ScanTried(m, setTried);
          if err == 0 {
            err, mapNew := ScanNew(m, mapNew);
          }
          if err == 0 {
            if |setTried| != 0 {
              err := -13;
            } else if |mapNew| != 0 {
              err := -15;
            } else if m.key == 0 {
              err := -16;
            }
          }
        }
      }
    }
  }
}
