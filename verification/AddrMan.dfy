/**
  The address manager itself: an object whose redundant indexes are updated in
  place.  Every operation keeps `Valid()` and acts on the abstract view exactly as
  the corresponding function of `AddrView` says.
 */
module AddrMan {
  import opened Basics
  import opened AddrTypes
  import opened AddrView
  import opened AddrIndex

  /** `tab` lists the occupied cells of the table `arr`; empty cells hold -1. */
  ghost predicate Mirrors(arr: array2<int>, tab: map<Slot, int>)
    reads arr
  {
    && (forall b, p | 0 <= b < arr.Length0 && 0 <= p < arr.Length1 ::
          arr[b, p] == if (b, p) in tab then tab[(b, p)] else -1)
    && (forall slot | slot in tab :: 0 <= slot.0 < arr.Length0 && 0 <= slot.1 < arr.Length1 && tab[slot] != -1)
  }

  function Written(tab: map<Slot, int>, b: int, p: int, id: int): map<Slot, int> {
    if id == -1 then tab - {(b, p)} else tab[(b, p) := id]
  }

  /** Overwrite one cell of a table. */
  method Write(arr: array2<int>, ghost tab: map<Slot, int>, b: int, p: int, id: int)
    requires Mirrors(arr, tab) && 0 <= b < arr.Length0 && 0 <= p < arr.Length1
    modifies arr
    ensures Mirrors(arr, Written(tab, b, p, id))
  {
    arr[b, p] := id;
  }

  function Rotated(n: nat, rnd: nat): nat {
    (n + rnd) % NEW_BUCKET_COUNT
  }

  /** Empty every cell of a table. */
  method Wipe(arr: array2<int>)
    modifies arr
    ensures Mirrors(arr, map[])
  {
    for b := 0 to arr.Length0
      invariant forall i, j | 0 <= i < b && 0 <= j < arr.Length1 :: arr[i, j] == -1
    {
      for p := 0 to arr.Length1
        invariant forall i, j | 0 <= i < b && 0 <= j < arr.Length1 :: arr[i, j] == -1
        invariant forall j | 0 <= j < p :: arr[b, j] == -1
      {
        arr[b, p] := -1;
      }
    }
  }

  /** The part of a record that is announced to others. */
  function ToAddress(i: AddrInfo): Address {
    Address(i.addr, i.meta.port, i.meta.services, i.meta.time)
  }

  /** `x` announces a known address that is not terrible. */
  ghost predicate Quotes(v: View, x: Address, now: int) {
    && x.addr in v && !IsTerrible(v[x.addr].meta, now)
    && x == Address(x.addr, v[x.addr].meta.port, v[x.addr].meta.services, v[x.addr].meta.time)
  }

  ghost function Quoted(r: seq<Address>): set<NetAddr> {
    set x | x in r :: x.addr
  }

  lemma QuotedNone()
    ensures Quoted([]) == {}
  {
  }

  lemma QuotedMore(r: seq<Address>, x: Address)
    ensures Quoted(r + [x]) == Quoted(r) + {x.addr}
    ensures forall i | 0 <= i < |r| :: r[i].addr in Quoted(r)
  {
    assert forall y :: y in r + [x] <==> y in r || y == x;
  }

  /** Same records up to their place in the random order. */
  ghost predicate SameRecords(m: map<int, AddrInfo>, m': map<int, AddrInfo>) {
    m'.Keys == m.Keys && forall id | id in m :: m'[id] == m[id].(randomPos := m'[id].randomPos)
  }

  class AddrMan {
    const env: Env
    var key: nat
    var idCount: int
    var mapInfo: map<int, AddrInfo>
    var mapAddr: map<NetAddr, int>
    var vRandom: seq<int>
    var nTried: int
    const vvTried: array2<int>
    var nNew: int
    const vvNew: array2<int>
    var lastGood: int

    ghost var view: View
    ghost var newTab: map<Slot, int>
    ghost var triedTab: map<Slot, int>

    ghost function H(): Hasher
      reads this
    {
      Hasher(env, key)
    }

    ghost function State(): Index
      reads this
    {
      Index(mapInfo, mapAddr, vRandom, newTab, triedTab, idCount)
    }

    ghost predicate Shape()
      reads this, vvNew, vvTried
    {
      && vvNew != vvTried
      && vvNew.Length0 == NEW_BUCKET_COUNT && vvNew.Length1 == BUCKET_SIZE
      && vvTried.Length0 == TRIED_BUCKET_COUNT && vvTried.Length1 == BUCKET_SIZE
      && Mirrors(vvNew, newTab)
      && Mirrors(vvTried, triedTab)
    }

    /** The indexes describe the view; holds at every step, also inside operations. */
    ghost predicate Ok()
      reads this, vvNew, vvTried
    {
      Shape() && Rep(H(), State(), view)
    }

    ghost predicate Counted()
      reads this
    {
      nNew == |NewAddrs(view)| && nTried == |TriedAddrs(view)|
    }

    /** What holds between operations. */
    ghost predicate Valid()
      reads this, vvNew, vvTried
    {
      Ok() && Counted() && AllSettled(view)
    }

    constructor (env: Env, randomKey: nat)
      ensures Valid()
      ensures fresh(vvNew) && fresh(vvTried) && this.env == env && key == randomKey
      ensures view == map[] && lastGood == 1 && mapInfo == map[] && mapAddr == map[]
    {
      this.env := env;
      vvNew := new int[NEW_BUCKET_COUNT, BUCKET_SIZE];
      vvTried := new int[TRIED_BUCKET_COUNT, BUCKET_SIZE];
      mapInfo, mapAddr := map[], map[];
      new;
      Clear(randomKey);
    }

    /**
      `Clear` leaves `mapInfo` and `mapAddr` alone, so it yields a consistent
      address manager exactly when both were empty before.
     */
    method Clear(randomKey: nat)
      requires vvNew != vvTried
      requires vvNew.Length0 == NEW_BUCKET_COUNT && vvNew.Length1 == BUCKET_SIZE
      requires vvTried.Length0 == TRIED_BUCKET_COUNT && vvTried.Length1 == BUCKET_SIZE
      modifies this`key, this`idCount, this`vRandom, this`nTried, this`nNew, this`lastGood
      modifies this`view, this`newTab, this`triedTab, vvNew, vvTried
      ensures Shape()
      ensures vRandom == [] && newTab == map[] && triedTab == map[] && key == randomKey
      ensures idCount == 0 && nTried == 0 && nNew == 0 && lastGood == 1 && view == map[]
      ensures (exists v :: Rep(H(), State(), v)) <==> mapInfo == map[] && mapAddr == map[]
      ensures mapInfo == map[] && mapAddr == map[] ==> Valid()
    {
      hide Rep, Mirrors;
      vRandom := [];
      key := randomKey;
      Wipe(vvNew);
      Wipe(vvTried);
      idCount := 0;
      nTried := 0;
      nNew := 0;
      lastGood := 1;
      view, newTab, triedTab := map[], map[], map[];
      EmptyRep(H(), State());
    }

    method SwapRandom(i: int, j: int)
      requires Shape() && RepRandom(State())
      requires i == j || (0 <= i < |vRandom| && 0 <= j < |vRandom|)
      modifies this`vRandom, this`mapInfo
      ensures Shape() && RepRandom(State())
      ensures State() == old(if i == j then State() else Swapped(State(), i, j))
      ensures 0 <= i < |vRandom| && 0 <= j < |vRandom| ==> vRandom == old(vRandom[i := vRandom[j]][j := vRandom[i]])
      ensures SameRecords(old(mapInfo), mapInfo)
      ensures old(Ok()) ==> Ok()
    {
      hide Rep, Mirrors;
      if i == j {
        return;
      }
      if Rep(H(), State(), view) {
        SwapKeeps(H(), State(), view, i, j);
      }
      AddrIndex.SwapRandom(State(), i, j);
      ghost var after := Swapped(State(), i, j);
      var id1 := vRandom[i];
      var id2 := vRandom[j];
      assert id1 in mapInfo;
      assert id2 in mapInfo;
      mapInfo := mapInfo[id1 := mapInfo[id1].(randomPos := j)];
      mapInfo := mapInfo[id2 := mapInfo[id2].(randomPos := i)];
      vRandom := vRandom[i := id2];
      vRandom := vRandom[j := id1];
      assert State() == after;
    }

    method Delete(id: int)
      requires Shape() && RepRandom(State())
      requires id in mapInfo && !mapInfo[id].inTried && mapInfo[id].refCount == 0
      modifies this`vRandom, this`mapInfo, this`mapAddr, this`nNew, this`view
      ensures Shape() && RepRandom(State())
      ensures SameRecords(old(mapInfo) - {id}, mapInfo)
      ensures view == old(view - {mapInfo[id].addr})
      ensures mapAddr == old(mapAddr - {mapInfo[id].addr})
      ensures nNew == old(nNew) - 1
      ensures old(Ok()) ==> Ok()
    {
      hide Rep, RepRandom, Mirrors, Swapped;
      var a := mapInfo[id].addr;
      PositionFacts(State(), id);
      SwappedLast(State(), id);
      SwapRandom(mapInfo[id].randomPos, |vRandom| - 1);
      if Rep(H(), State(), view) {
        IdFacts(H(), State(), view, id);
        PopKeeps(H(), State(), view, id);
      }
      PopRandom(State(), id);
      ghost var after := PoppedLast(State(), id);
      vRandom := vRandom[..|vRandom| - 1];
      mapAddr := mapAddr - {mapInfo[id].addr};
      mapInfo := mapInfo - {id};
      nNew := nNew - 1;
      view := view - {a};
      assert State() == after;
    }

    /** Drop one reference: empty a cell of the new table and decrement its owner's count. */
    method Unlink(b: int, p: int)
      requires Ok()
      requires 0 <= b < NEW_BUCKET_COUNT && 0 <= p < BUCKET_SIZE && vvNew[b, p] != -1
      modifies this`mapInfo, this`view, this`newTab, vvNew
      ensures Ok()
      ensures old((b, p) in newTab && newTab[(b, p)] == vvNew[b, p] && vvNew[b, p] in mapInfo)
      ensures mapInfo == old(Unlinked(State(), (b, p)).info)
      ensures newTab == old(newTab) - {(b, p)}
      ensures OwnsNew(H(), old(view), old(mapInfo[vvNew[b, p]].addr), (b, p))
      ensures view == old(var a := mapInfo[vvNew[b, p]].addr; SetLoc(view, a, New(view[a].loc.buckets - {b})))
    {
      hide Rep, Mirrors, OwnsNew;
      var id := vvNew[b, p];
      NewCellFacts(b, p);
      UnlinkKeeps(H(), State(), view, (b, p));
      ghost var after := Unlinked(State(), (b, p));
      ghost var a := mapInfo[id].addr;
      mapInfo := mapInfo[id := mapInfo[id].(refCount := mapInfo[id].refCount - 1)];
      Write(vvNew, newTab, b, p, -1);
      newTab := Written(newTab, b, p, -1);
      view := SetLoc(view, a, New(view[a].loc.buckets - {b}));
      assert State() == after;
    }

    method ClearNew(b: int, p: int)
      requires Ok()
      requires 0 <= b < NEW_BUCKET_COUNT && 0 <= p < BUCKET_SIZE
      modifies this`vRandom, this`mapInfo, this`mapAddr, this`nNew, this`view, this`newTab, vvNew
      ensures Ok()
      ensures view == Vacate(H(), old(view), (b, p))
      ensures newTab == old(newTab) - {(b, p)}
      ensures forall a | a in view :: mapAddr[a] == old(mapAddr)[a]
      ensures nNew - |NewAddrs(view)| == old(nNew - |NewAddrs(view)|)
      ensures TriedAddrs(view) == old(TriedAddrs(view))
    {
      hide Rep, Vacate, NewAddrs, TriedAddrs;
      if vvNew[b, p] != -1 {
        var id := vvNew[b, p];
        NewSlotFacts(H(), State(), view, (b, p));
        VacateOwner(H(), State(), view, (b, p));
        VacateCounts(H(), State(), view, (b, p));
        ghost var a := mapInfo[id].addr;
        RemoveOne(view[a].loc.buckets, b);
        Unlink(b, p);
        if mapInfo[id].refCount == 0 {
          assert view - {a} == old(view) - {a};
          OrderFacts(H(), State(), view);
          Delete(id);
        }
        KeyFacts(H(), State(), view);
      } else {
        VacateVacant(H(), State(), view, (b, p));
      }
    }

    /** Add one reference: put `id` in an empty cell of the new table and increment its count. */
    method Link(id: int, b: int, p: int)
      requires Ok()
      requires id in mapInfo && !mapInfo[id].inTried
      requires 0 <= b < NEW_BUCKET_COUNT && p == H().Position(mapInfo[id].addr, mapInfo[id].meta.port, true, b)
      requires (b, p) !in newTab
      modifies this`mapInfo, this`view, this`newTab, vvNew
      ensures Ok()
      ensures old(mapInfo[id].addr in view && view[mapInfo[id].addr].loc.New?)
      ensures mapInfo == old(Linked(State(), id, (b, p)).info)
      ensures newTab == old(newTab)[(b, p) := id]
      ensures view == old(var a := mapInfo[id].addr; SetLoc(view, a, New(view[a].loc.buckets + {b})))
    {
      hide Rep, Mirrors, OwnsNew;
      ghost var a := mapInfo[id].addr;
      ghost var after := Linked(State(), id, (b, p));
      LinkRep(id, b, p);
      mapInfo := mapInfo[id := mapInfo[id].(refCount := mapInfo[id].refCount + 1)];
      Write(vvNew, newTab, b, p, id);
      newTab := Written(newTab, b, p, id);
      view := SetLoc(view, a, New(view[a].loc.buckets + {b}));
      assert State() == after;
    }

    lemma LinkRep(id: int, b: int, p: int)
      requires Ok()
      requires id in mapInfo && !mapInfo[id].inTried
      requires 0 <= b < NEW_BUCKET_COUNT && p == H().Position(mapInfo[id].addr, mapInfo[id].meta.port, true, b)
      requires (b, p) !in newTab
      ensures id >= 0 && mapInfo[id].addr in view && view[mapInfo[id].addr].loc.New?
      ensures var a := mapInfo[id].addr;
              Rep(H(), Linked(State(), id, (b, p)), SetLoc(view, a, New(view[a].loc.buckets + {b})))
    {
      hide Rep;
      IdFacts(H(), State(), view, id);
      CellFacts(H(), State(), view, mapInfo[id].addr, b);
      LinkKeeps(H(), State(), view, id, b);
    }

    /** First part of `MakeTried`: remove the entry from all new buckets. */
    method UnlinkAll(id: int)
      requires Ok()
      requires id in mapInfo && !mapInfo[id].inTried
      modifies this`mapInfo, this`view, this`newTab, vvNew
      ensures Ok()
      ensures old(mapInfo[id].addr in view)
      ensures view == old(SetLoc(view, mapInfo[id].addr, New({})))
      ensures id in mapInfo && mapInfo[id].addr == old(mapInfo[id].addr) && mapInfo[id].refCount == 0
    {
      hide Rep, Mirrors, OwnsNew;
      ghost var v0 := view;
      ghost var a := mapInfo[id].addr;
      IdFacts(H(), State(), view, id);
      BucketFacts(H(), State(), view, a);
      assert Buckets(v0[a]) == v0[a].loc.buckets;
      assert (set x | x in v0[a].loc.buckets && x >= 0) == v0[a].loc.buckets;
      var bucket := 0;
      while bucket < NEW_BUCKET_COUNT
        invariant 0 <= bucket <= NEW_BUCKET_COUNT
        invariant Ok()
        invariant id in mapInfo && mapInfo[id].addr == a
        invariant view == SetLoc(v0, a, New(set x | x in v0[a].loc.buckets && x >= bucket))
      {
        CellHolds(id, bucket);
        var pos := Hasher(env, key).Position(mapInfo[id].addr, mapInfo[id].meta.port, true, bucket);
        ghost var now := set x | x in v0[a].loc.buckets && x >= bucket;
        ghost var next := set x | x in v0[a].loc.buckets && x >= bucket + 1;
        if vvNew[bucket, pos] == id {
          assert now - {bucket} == next;
          Unlink(bucket, pos);
        } else {
          assert now == next;
        }
        bucket := bucket + 1;
      }
      assert (set x | x in v0[a].loc.buckets && x >= NEW_BUCKET_COUNT) == {};
      IdFacts(H(), State(), view, id);
    }

    /** Take the entry in a cell of the tried table out of it. */
    method Untry(kb: int, kp: int)
      requires Ok()
      requires 0 <= kb < TRIED_BUCKET_COUNT && 0 <= kp < BUCKET_SIZE && vvTried[kb, kp] != -1
      modifies this`mapInfo, this`view, this`triedTab, vvTried
      ensures Ok()
      ensures old((kb, kp) in triedTab && triedTab[(kb, kp)] == vvTried[kb, kp] && vvTried[kb, kp] in mapInfo)
      ensures mapInfo == old(Untried(State(), (kb, kp)).info)
      ensures triedTab == old(triedTab) - {(kb, kp)}
      ensures OwnsTried(H(), old(view), old(mapInfo[vvTried[kb, kp]].addr), (kb, kp))
      ensures view == old(SetLoc(view, mapInfo[vvTried[kb, kp]].addr, New({})))
    {
      hide Rep, Mirrors, OwnsTried;
      var id := vvTried[kb, kp];
      TriedCellFacts(kb, kp);
      UntryKeeps(H(), State(), view, (kb, kp));
      ghost var after := Untried(State(), (kb, kp));
      ghost var o := mapInfo[id].addr;
      mapInfo := mapInfo[id := mapInfo[id].(inTried := false)];
      Write(vvTried, triedTab, kb, kp, -1);
      triedTab := Written(triedTab, kb, kp, -1);
      view := SetLoc(view, o, New({}));
      assert State() == after;
    }

    /** Middle part of `MakeTried`: the tried entry in the way moves back to the new table. */
    method DemoteOccupant(kb: int, kp: int)
      requires Ok()
      requires 0 <= kb < TRIED_BUCKET_COUNT && 0 <= kp < BUCKET_SIZE && vvTried[kb, kp] != -1
      modifies this`vRandom, this`mapInfo, this`mapAddr, this`nNew, this`nTried, this`view
      modifies this`newTab, this`triedTab, vvNew, vvTried
      ensures Ok()
      ensures old((kb, kp) in triedTab && triedTab[(kb, kp)] in mapInfo)
      ensures OwnsTried(H(), old(view), old(mapInfo[triedTab[(kb, kp)]].addr), (kb, kp))
      ensures view == Demote(H(), old(view), old(mapInfo[triedTab[(kb, kp)]].addr))
      ensures triedTab == old(triedTab) - {(kb, kp)}
      ensures forall a | a in view :: mapAddr[a] == old(mapAddr)[a]
      ensures nNew - |NewAddrs(view)| == old(nNew - |NewAddrs(view)|)
      ensures nTried - |TriedAddrs(view)| == old(nTried - |TriedAddrs(view)|)
    {
      hide Rep, Vacate, NewAddrs, TriedAddrs, Mirrors, OwnsNew, OwnsTried;
      var idEvict := vvTried[kb, kp];
      TriedCellFacts(kb, kp);
      var o := mapInfo[idEvict].addr;
      RelocatedCards(view, o, New({}));
      Untry(kb, kp);
      nTried := nTried - 1;
      var ub := Hasher(env, key).NewBucket(o, mapInfo[idEvict].meta.source);
      var up := Hasher(env, key).Position(o, mapInfo[idEvict].meta.port, true, ub);
      VacateOther(H(), view, (ub, up), o);
      ClearNew(ub, up);
      AddrFacts(H(), State(), view, o);
      RelocatedCards(view, o, New({ub}));
      Link(idEvict, ub, up);
      nNew := nNew + 1;
      KeyFacts(H(), State(), view);
    }

    method MakeTried(id: int)
      requires Ok()
      requires id in mapInfo && !mapInfo[id].inTried
      modifies this`vRandom, this`mapInfo, this`mapAddr, this`nNew, this`nTried, this`view
      modifies this`newTab, this`triedTab, vvNew, vvTried
      ensures Ok()
      ensures old(mapInfo[id].addr in view)
      ensures view == Promote(H(), old(view), old(mapInfo[id].addr))
      ensures nNew - |NewAddrs(view)| == old(nNew - |NewAddrs(view)|)
      ensures nTried - |TriedAddrs(view)| == old(nTried - |TriedAddrs(view)|)
    {
      hide Rep, Vacate, NewAddrs, TriedAddrs, Mirrors, OwnsNew, Promote, Demote;
      ghost var v := view;
      var a := mapInfo[id].addr;
      IdFacts(H(), State(), view, id);
      RelocatedCards(view, a, New({}));
      UnlinkAll(id);
      nNew := nNew - 1;
      assert mapInfo[id].refCount == 0;
      IdFacts(H(), State(), view, id);
      var kb := Hasher(env, key).TriedBucket(a, mapInfo[id].meta.port);
      var kp := Hasher(env, key).Position(a, mapInfo[id].meta.port, false, kb);
      MakeRoom(kb, kp, a, v);
      AddrFacts(H(), State(), view, a);
      assert vvTried[kb, kp] == -1;
      RelocatedCards(view, a, Tried);
      EnterTried(id, kb, kp);
      nTried := nTried + 1;
    }

    /** The eviction of `MakeTried`: afterwards the cell of `a` in the tried table is free. */
    method MakeRoom(kb: int, kp: int, ghost a: NetAddr, ghost v: View)
      requires Ok()
      requires a in v && v[a].loc.New? && view == SetLoc(v, a, New({})) && (kb, kp) == H().TriedSlot(a, v[a].meta.port)
      modifies this`vRandom, this`mapInfo, this`mapAddr, this`nNew, this`nTried, this`view
      modifies this`newTab, this`triedTab, vvNew, vvTried
      ensures Ok()
      ensures vvTried[kb, kp] == -1 && (kb, kp) !in triedTab
      ensures a in view && view[a] == v[a].(loc := New({})) && mapAddr[a] == old(mapAddr)[a]
      ensures Promote(H(), v, a) == SetLoc(view, a, Tried)
      ensures nNew - |NewAddrs(view)| == old(nNew - |NewAddrs(view)|)
      ensures nTried - |TriedAddrs(view)| == old(nTried - |TriedAddrs(view)|)
    {
      hide Rep, Vacate, NewAddrs, TriedAddrs, OwnsNew, Promote;
      if vvTried[kb, kp] != -1 {
        TriedCellFacts(kb, kp);
        ghost var o := mapInfo[vvTried[kb, kp]].addr;
        ghost var b := H().NewBucket(o, view[o].meta.source);
        PromoteOccupied(H(), State(), v, a, o);
        VacateOther(H(), SetLoc(view, o, New({})), H().NewSlot(o, view[o].meta.port, b), a);
        DemoteOccupant(kb, kp);
      } else {
        PromoteVacant(H(), State(), v, a);
      }
      AddrFacts(H(), State(), view, a);
    }

    /** Put `id` in its empty cell of the tried table. */
    method EnterTried(id: int, kb: int, kp: int)
      requires Ok()
      requires id in mapInfo && mapInfo[id].addr in view && view[mapInfo[id].addr].loc == New({})
      requires (kb, kp) == H().TriedSlot(mapInfo[id].addr, mapInfo[id].meta.port) && (kb, kp) !in triedTab
      modifies this`mapInfo, this`view, this`triedTab, vvTried
      ensures Ok()
      ensures view == old(SetLoc(view, mapInfo[id].addr, Tried))
    {
      hide Rep, Mirrors;
      IdFacts(H(), State(), view, id);
      EntryKeeps(H(), State(), view, id);
      ghost var after := Entried(State(), id, (kb, kp));
      ghost var a := mapInfo[id].addr;
      Write(vvTried, triedTab, kb, kp, id);
      triedTab := Written(triedTab, kb, kp, id);
      mapInfo := mapInfo[id := mapInfo[id].(inTried := true)];
      view := SetLoc(view, a, Tried);
      assert State() == after;
    }

    method Find(a: NetAddr) returns (found: bool, id: int)
      requires Ok()
      ensures found <==> a in view
      ensures found ==> id in mapInfo && a in mapAddr && mapAddr[a] == id && Matches(a, view[a], mapInfo[id])
    {
      hide Rep;
      KeyFacts(H(), State(), view);
      if a !in mapAddr {
        return false, -1;
      }
      AddrFacts(H(), State(), view, a);
      id := mapAddr[a];
      found := id in mapInfo;
    }

    /** Replace the statistics of one entry. */
    method SetInfo(id: int, m: Meta)
      requires Ok()
      requires id in mapInfo && m.port == mapInfo[id].meta.port
      modifies this`mapInfo, this`view
      ensures Ok()
      ensures old(mapInfo[id].addr in view)
      ensures view == old(SetMeta(view, mapInfo[id].addr, m))
      ensures mapInfo == old(mapInfo)[id := old(mapInfo[id]).(meta := m)]
      ensures NewAddrs(view) == old(NewAddrs(view)) && TriedAddrs(view) == old(TriedAddrs(view))
    {
      hide Rep;
      IdFacts(H(), State(), view, id);
      MetaKeeps(H(), State(), view, id, m);
      ghost var after := WithMeta(State(), id, m);
      ghost var a := mapInfo[id].addr;
      CountMeta(view, a, m);
      mapInfo := mapInfo[id := mapInfo[id].(meta := m)];
      view := SetMeta(view, a, m);
      assert State() == after;
    }

    method RandomInt(n: int) returns (r: int)
      requires n > 0
      ensures 0 <= r < n
    {
      r :| 0 <= r < n;
    }

    /** The search of `Good_` for a bucket that holds the entry. */
    method FindBucket(id: int) returns (bucket: int)
      requires Ok()
      requires id in mapInfo && mapInfo[id].addr in view && mapAddr[mapInfo[id].addr] == id
      requires mapInfo[id].meta.port == view[mapInfo[id].addr].meta.port
      ensures bucket == -1 || (bucket >= 0 && bucket in Buckets(view[mapInfo[id].addr]))
      ensures bucket == -1 ==> Buckets(view[mapInfo[id].addr]) == {}
    {
      hide Rep, Mirrors;
      ghost var a := mapInfo[id].addr;
      BucketFacts(H(), State(), view, a);
      IdFacts(H(), State(), view, id);
      var rnd := RandomInt(NEW_BUCKET_COUNT);
      var n := 0;
      while n < NEW_BUCKET_COUNT
        invariant 0 <= n <= NEW_BUCKET_COUNT
        invariant forall m | 0 <= m < n :: Rotated(m, rnd) !in Buckets(view[a])
      {
        var nB := Rotated(n, rnd);
        var pos := Hasher(env, key).Position(mapInfo[id].addr, mapInfo[id].meta.port, true, nB);
        CellHolds(id, nB);
        if vvNew[nB, pos] == id {
          return nB;
        }
        n := n + 1;
      }
      forall b: nat | b < NEW_BUCKET_COUNT ensures b !in Buckets(view[a]) {
        assert Rotated(if b >= rnd then b - rnd else b - rnd + NEW_BUCKET_COUNT, rnd) == b;
      }
      bucket := -1;
    }

    method Good(s: Service, t: int)
      requires Valid()
      modifies this`vRandom, this`mapInfo, this`mapAddr, this`nNew, this`nTried, this`view
      modifies this`newTab, this`triedTab, this`lastGood, vvNew, vvTried
      ensures Valid()
      ensures lastGood == t
      ensures view == GoodView(H(), old(view), s, t)
    {
      hide Rep, NewAddrs, TriedAddrs, Mirrors, Promote;
      GoodSettled(H(), view, s, t);
      lastGood := t;
      var found, id := Find(s.addr);
      if !found {
        return;
      }
      if mapInfo[id].addr != s.addr || mapInfo[id].meta.port != s.port {
        return;
      }
      SetInfo(id, mapInfo[id].meta.(lastSuccess := t, lastTry := t, attempts := 0));
      if mapInfo[id].inTried {
        return;
      }
      IdFacts(H(), State(), view, id);
      var bucket := FindBucket(id);
      // An entry at rest outside tried is in some bucket, so the search cannot fail.
      assert bucket != -1;
      MakeTried(id);
    }

    method Attempt(s: Service, countFailure: bool, t: int)
      requires Valid()
      modifies this`mapInfo, this`view
      ensures Valid()
      ensures view == AttemptView(old(view), s, countFailure, t, lastGood)
    {
      hide Rep, NewAddrs, TriedAddrs, Mirrors;
      var found, id := Find(s.addr);
      if !found {
        return;
      }
      if mapInfo[id].addr != s.addr || mapInfo[id].meta.port != s.port {
        return;
      }
      SetInfo(id, mapInfo[id].meta.(lastTry := t));
      if countFailure && mapInfo[id].meta.lastCountAttempt < lastGood {
        SetInfo(id, mapInfo[id].meta.(lastCountAttempt := t, attempts := mapInfo[id].meta.attempts + 1));
      }
    }

    method Connected(s: Service, t: int)
      requires Valid()
      modifies this`mapInfo, this`view
      ensures Valid()
      ensures view == ConnectedView(old(view), s, t)
    {
      hide Rep, NewAddrs, TriedAddrs, Mirrors;
      var found, id := Find(s.addr);
      if !found {
        return;
      }
      if mapInfo[id].addr != s.addr || mapInfo[id].meta.port != s.port {
        return;
      }
      var updateInterval := 20 * 60;
      if t - mapInfo[id].meta.time > updateInterval {
        SetInfo(id, mapInfo[id].meta.(time := ToTimestamp(t)));
      }
    }

    method SetServices(s: Service, services: ServiceFlags)
      requires Valid()
      modifies this`mapInfo, this`view
      ensures Valid()
      ensures view == ServicesView(old(view), s, services)
    {
      hide Rep, NewAddrs, TriedAddrs, Mirrors;
      var found, id := Find(s.addr);
      if !found {
        return;
      }
      if mapInfo[id].addr != s.addr || mapInfo[id].meta.port != s.port {
        return;
      }
      SetInfo(id, mapInfo[id].meta.(services := services));
    }

    method Create(a: Address, source: NetAddr) returns (id: int)
      requires Ok() && a.addr !in view
      modifies this`vRandom, this`mapInfo, this`mapAddr, this`idCount, this`view
      ensures Ok()
      ensures id == old(idCount) && idCount == id + 1 && id in mapInfo
      ensures mapInfo[id] == AddrInfo(a.addr, FreshMeta(a, source), 0, false, |old(vRandom)|)
      ensures view == old(view)[a.addr := Entry(FreshMeta(a, source), New({}))]
      ensures mapAddr == old(mapAddr)[a.addr := id]
    {
      hide Rep, Mirrors;
      CreateKeeps(H(), State(), view, a, source);
      ghost var after := Created(State(), a, source);
      id := idCount;
      idCount := idCount + 1;
      mapInfo := mapInfo[id := AddrInfo(a.addr, FreshMeta(a, source), 0, false, -1)];
      mapAddr := mapAddr[a.addr := id];
      mapInfo := mapInfo[id := mapInfo[id].(randomPos := |vRandom|)];
      vRandom := vRandom + [id];
      view := view[a.addr := Entry(FreshMeta(a, source), New({}))];
      assert State() == after;
    }

    /** The end of `Add_`: try to give entry `id` a reference from the bucket chosen by `source`. */
    method PlaceEntry(id: int, source: NetAddr, now: int)
      requires Ok()
      requires id in mapInfo && !mapInfo[id].inTried
      modifies this`vRandom, this`mapInfo, this`mapAddr, this`nNew, this`view, this`newTab, vvNew
      ensures Ok()
      ensures old(mapInfo[id].addr in view && view[mapInfo[id].addr].loc.New?)
      ensures view == Place(H(), old(view), old(mapInfo[id].addr), source, now)
      ensures nNew - |NewAddrs(view)| == old(nNew - |NewAddrs(view)|)
      ensures TriedAddrs(view) == old(TriedAddrs(view))
    {
      hide Rep, NewAddrs, TriedAddrs, Mirrors, Vacate, Place;
      ghost var v := view;
      var a := mapInfo[id].addr;
      var ub := Hasher(env, key).NewBucket(a, source);
      var up := Hasher(env, key).Position(a, mapInfo[id].meta.port, true, ub);
      PlaceFacts(id, source, now);
      if vvNew[ub, up] != id {
        var insert := vvNew[ub, up] == -1;
        if !insert {
          NewCellFacts(ub, up);
          var existing := mapInfo[vvNew[ub, up]];
          if IsTerrible(existing.meta, now) || (existing.refCount > 1 && mapInfo[id].refCount == 0) {
            insert := true;
          }
        }
        if insert {
          VacateOther(H(), view, (ub, up), a);
          ClearNew(ub, up);
          AddrFacts(H(), State(), view, a);
          RebucketedAddrs(view, a, view[a].loc.buckets + {ub});
          Link(id, ub, up);
        } else if mapInfo[id].refCount == 0 {
          DroppedAddrs(view, a);
          OrderFacts(H(), State(), view);
          Delete(id);
        }
      }
    }

    /** What `Place` does, told from the cell that it looks at. */
    lemma PlaceFacts(id: int, source: NetAddr, now: int)
      requires Ok()
      requires id in mapInfo && !mapInfo[id].inTried
      ensures var a := mapInfo[id].addr;
              var ub := H().NewBucket(a, source);
              var up := H().Position(a, mapInfo[id].meta.port, true, ub);
              && id >= 0 && a in view && view[a].loc.New? && Matches(a, view[a], mapInfo[id]) && mapAddr[a] == id
              && (vvNew[ub, up] == id <==> ub in view[a].loc.buckets)
              && (vvNew[ub, up] == id ==> Place(H(), view, a, source, now) == view)
              && (vvNew[ub, up] == -1 ==> Place(H(), view, a, source, now) == Claim(H(), view, a, (ub, up)))
              && (vvNew[ub, up] != id && vvNew[ub, up] != -1 ==>
                    && vvNew[ub, up] in mapInfo
                    && var o := mapInfo[vvNew[ub, up]];
                       Place(H(), view, a, source, now) ==
                       if IsTerrible(o.meta, now) || (o.refCount > 1 && mapInfo[id].refCount == 0) then
                         Claim(H(), view, a, (ub, up))
                       else if mapInfo[id].refCount == 0 then view - {a} else view)
    {
      hide Rep, Vacate, Claim;
      var a := mapInfo[id].addr;
      var ub := H().NewBucket(a, source);
      var up := H().Position(a, mapInfo[id].meta.port, true, ub);
      IdFacts(H(), State(), view, id);
      CellFacts(H(), State(), view, a, ub);
      RepSeparated(H(), State(), view);
      if vvNew[ub, up] == -1 {
        VacantFacts(H(), State(), view, (ub, up));
      } else {
        NewCellFacts(ub, up);
      }
    }

    method Add(a: Address, source: NetAddr, penalty: int, now: int) returns (isNew: bool, ghost lucky: bool)
      requires Valid()
      modifies this`vRandom, this`mapInfo, this`mapAddr, this`idCount, this`nNew, this`view, this`newTab, vvNew
      ensures Valid()
      ensures view == AddView(H(), old(view), a, source, penalty, now, lucky)
      ensures isNew <==> env.routable(a.addr) && a.addr !in old(view)
    {
      hide Rep, NewAddrs, TriedAddrs, Mirrors, Place, Heard, Settled;
      lucky := true;
      isNew := false;
      if !env.routable(a.addr) {
        return;
      }
      var found, id := Find(a.addr);
      if found {
        AddSettled(H(), view, a, source, penalty, now, true);
        AddSettled(H(), view, a, source, penalty, now, false);
        UpdateHeard(id, a, penalty, now);
        var info := mapInfo[id];
        if a.time == 0 || (info.meta.time != 0 && a.time <= info.meta.time) {
          return;
        }
        if info.inTried {
          return;
        }
        if info.refCount == NEW_BUCKETS_PER_ADDRESS {
          return;
        }
        var factor := 1;
        for n := 0 to info.refCount
          invariant factor >= 1
        {
          factor := factor * 2;
        }
        if factor > 1 {
          var r := RandomInt(factor);
          if r != 0 {
            lucky := false;
            return;
          }
        }
      } else {
        AddSettled(H(), view, a, source, penalty, now, true);
        AddedAddrs(view, a.addr, FreshMeta(a, source));
        id := Create(a, source);
        SetInfo(id, mapInfo[id].meta.(time := ToTimestamp(Max(0, mapInfo[id].meta.time - penalty))));
        nNew := nNew + 1;
        isNew := true;
        assert view == old(view)[a.addr := Entry(FirstHeard(a, source, penalty), New({}))];
      }
      PlaceEntry(id, source, now);
    }

    /** The part of `Add_` that refreshes a known entry. */
    method UpdateHeard(id: int, a: Address, penalty: int, now: int)
      requires Ok() && id in mapInfo
      modifies this`mapInfo, this`view
      ensures Ok()
      ensures old(mapInfo[id].addr in view)
      ensures view == old(SetMeta(view, mapInfo[id].addr, Heard(mapInfo[id].meta, a, penalty, now)))
      ensures mapInfo == old(mapInfo)[id := old(mapInfo[id]).(meta := Heard(old(mapInfo[id].meta), a, penalty, now))]
      ensures NewAddrs(view) == old(NewAddrs(view)) && TriedAddrs(view) == old(TriedAddrs(view))
    {
      hide Rep, NewAddrs, TriedAddrs, Mirrors;
      IdFacts(H(), State(), view, id);
      var currentlyOnline := now - a.time < 24 * 60 * 60;
      var updateInterval := if currentlyOnline then 60 * 60 else 24 * 60 * 60;
      var m := mapInfo[id].meta;
      if a.time != 0 && (m.time == 0 || m.time < a.time - updateInterval - penalty) {
        m := m.(time := ToTimestamp(Max(0, a.time - penalty)));
      }
      m := m.(services := m.services + a.services);
      SetInfo(id, m);
    }

    /**
      A sample of the known addresses for a `getaddr` reply: none terrible, none
      twice, at most 23 percent and at most 2500; if the quota is not reached,
      nothing that is not terrible was left out.
     */
    method GetAddr(now: int) returns (r: seq<Address>)
      requires Valid()
      modifies this`vRandom, this`mapInfo
      ensures Valid()
      ensures |r| <= 23 * |view| / 100 && |r| <= 2500
      ensures forall i | 0 <= i < |r| :: Quotes(view, r[i], now)
      ensures forall i, j | 0 <= i < j < |r| :: r[i].addr != r[j].addr
      ensures |r| < 23 * |view| / 100 && |r| < 2500 ==>
                forall a | a in view && !IsTerrible(view[a].meta, now) :: a in Quoted(r)
    {
      hide Rep, NewAddrs, TriedAddrs, Mirrors, Visited, Quoted;
      QuotedNone();
      NoneVisited();
      RandomCount(H(), State(), view);
      var nNodes := GETADDR_MAX_PCT * |vRandom| / 100;
      if nNodes > GETADDR_MAX {
        nNodes := GETADDR_MAX;
      }
      r := [];
      var n := 0;
      while n < |vRandom| && |r| < nNodes
        invariant Valid()
        invariant 0 <= n <= |vRandom| == |view| && |r| <= nNodes
        invariant forall i | 0 <= i < |r| :: Quotes(view, r[i], now)
        invariant forall i, j | 0 <= i < j < |r| :: r[i].addr != r[j].addr
        invariant forall a | a in Quoted(r) :: Visited(a, n)
        invariant forall a | a in view && Visited(a, n) :: IsTerrible(view[a].meta, now) || a in Quoted(r)
      {
        Draw(n);
        assert vRandom[n] in mapInfo;
        var info := mapInfo[vRandom[n]];
        if !IsTerrible(info.meta, now) {
          QuotedMore(r, ToAddress(info));
          r := r + [ToAddress(info)];
        }
        n := n + 1;
      }
      if n == |vRandom| {
        AllVisited();
      }
    }

    /** Move a randomly chosen entry of the rest of the order to position `n`. */
    method Draw(n: int)
      requires Ok() && 0 <= n < |vRandom|
      modifies this`vRandom, this`mapInfo
      ensures Ok() && |vRandom| == old(|vRandom|)
      ensures forall a :: Visited(a, n) <==> old(Visited(a, n))
      ensures vRandom[n] in mapInfo
      ensures var a := mapInfo[vRandom[n]].addr;
              && a in view && Matches(a, view[a], mapInfo[vRandom[n]]) && !Visited(a, n)
              && forall c :: Visited(c, n + 1) <==> Visited(c, n) || c == a
    {
      hide Rep, Mirrors;
      var rnd := RandomInt(|vRandom| - n);
      ghost var before := vRandom;
      OrderFacts(H(), State(), view);
      SwapRandom(n, rnd + n);
      assert vRandom[..n] == before[..n];
      VisitNext(n);
    }

    /** Among the first `n` of the random order. */
    ghost predicate Visited(a: NetAddr, n: int)
      requires Ok() && 0 <= n <= |vRandom|
      reads this, vvNew, vvTried
    {
      a in view && a in mapAddr && mapAddr[a] in vRandom[..n]
    }

    lemma VisitNext(n: int)
      requires Ok() && 0 <= n < |vRandom|
      ensures vRandom[n] in mapInfo
      ensures var a := mapInfo[vRandom[n]].addr;
              && a in view && Matches(a, view[a], mapInfo[vRandom[n]]) && !Visited(a, n)
              && forall c :: Visited(c, n + 1) <==> Visited(c, n) || c == a
    {
      hide Rep;
      RandomFacts(H(), State(), view, n);
      IdFacts(H(), State(), view, vRandom[n]);
      assert vRandom[..n + 1] == vRandom[..n] + [vRandom[n]];
      forall k | 0 <= k < n ensures vRandom[k] != vRandom[n] {
        RandomFacts(H(), State(), view, k);
      }
      forall c | c in view ensures c in mapAddr && (mapAddr[c] == vRandom[n] ==> c == mapInfo[vRandom[n]].addr) {
        AddrFacts(H(), State(), view, c);
      }
    }

    lemma NoneVisited()
      requires Ok()
      ensures forall a :: !Visited(a, 0)
    {
    }

    lemma AllVisited()
      requires Ok()
      ensures forall a | a in view :: Visited(a, |vRandom|)
    {
      hide Rep;
      forall a | a in view ensures Visited(a, |vRandom|) {
        AddrFacts(H(), State(), view, a);
        IdFacts(H(), State(), view, mapAddr[a]);
        assert vRandom[..|vRandom|] == vRandom;
      }
    }

    /** Looking for `id` in its canonical cell of a bucket tells whether it is in that bucket. */
    lemma CellHolds(id: int, b: nat)
      requires Ok()
      requires id in mapInfo && b < NEW_BUCKET_COUNT
      ensures mapInfo[id].addr in view && Matches(mapInfo[id].addr, view[mapInfo[id].addr], mapInfo[id])
      ensures vvNew[b, H().Position(mapInfo[id].addr, mapInfo[id].meta.port, true, b)] == id
              <==> b in Buckets(view[mapInfo[id].addr])
      ensures id >= 0
    {
      hide Rep;
      IdFacts(H(), State(), view, id);
      CellFacts(H(), State(), view, mapInfo[id].addr, b);
    }

    lemma NewCellFacts(b: int, p: int)
      requires Ok()
      requires 0 <= b < NEW_BUCKET_COUNT && 0 <= p < BUCKET_SIZE && vvNew[b, p] != -1
      ensures (b, p) in newTab && newTab[(b, p)] == vvNew[b, p] && vvNew[b, p] in mapInfo
      ensures OwnsNew(H(), view, mapInfo[vvNew[b, p]].addr, (b, p))
      ensures Matches(mapInfo[vvNew[b, p]].addr, view[mapInfo[vvNew[b, p]].addr], mapInfo[vvNew[b, p]])
    {
      NewSlotFacts(H(), State(), view, (b, p));
    }

    lemma TriedCellFacts(kb: int, kp: int)
      requires Ok()
      requires 0 <= kb < TRIED_BUCKET_COUNT && 0 <= kp < BUCKET_SIZE && vvTried[kb, kp] != -1
      ensures (kb, kp) in triedTab && triedTab[(kb, kp)] == vvTried[kb, kp] && vvTried[kb, kp] in mapInfo
      ensures OwnsTried(H(), view, mapInfo[vvTried[kb, kp]].addr, (kb, kp))
      ensures mapAddr[mapInfo[vvTried[kb, kp]].addr] == vvTried[kb, kp]
      ensures Matches(mapInfo[vvTried[kb, kp]].addr, view[mapInfo[vvTried[kb, kp]].addr], mapInfo[vvTried[kb, kp]])
    {
      TriedSlotFacts(H(), State(), view, (kb, kp));
    }
  }
}
