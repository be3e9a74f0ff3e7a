/**
  The indexes of the address manager as one value, the invariant `Rep` that ties
  them to the view, and one lemma per primitive update showing that the update
  keeps the invariant and what it does to the view.
 */
module AddrIndex {
  import opened AddrTypes
  import opened AddrView

  datatype AddrInfo = AddrInfo(addr: NetAddr, meta: Meta, refCount: int, inTried: bool, randomPos: int)

  datatype Index = Index(
    info: map<int, AddrInfo>,
    ids: map<NetAddr, int>,
    random: seq<int>,
    newTab: map<Slot, int>,
    triedTab: map<Slot, int>,
    idCount: int)

  predicate Matches(a: NetAddr, e: Entry, i: AddrInfo) {
    && i.addr == a
    && i.meta == e.meta
    && i.inTried == e.loc.Tried?
    && i.refCount == (if e.loc.New? then |e.loc.buckets| else 0)
  }

  /** Ids and addresses name each other, and every record agrees with the view. */
  ghost predicate RepIds(s: Index, v: View) {
    && v.Keys == s.ids.Keys
    && (forall a | a in v :: s.ids[a] in s.info && Matches(a, v[a], s.info[s.ids[a]]))
    && (forall id | id in s.info :: 0 <= id < s.idCount && s.info[id].addr in v && s.ids[s.info[id].addr] == id)
  }

  /** `random` and `randomPos` are inverse. */
  ghost predicate RepRandom(s: Index) {
    && (forall k | 0 <= k < |s.random| :: s.random[k] in s.info && s.info[s.random[k]].randomPos == k)
    && (forall id | id in s.info :: 0 <= s.info[id].randomPos < |s.random| && s.random[s.info[id].randomPos] == id)
  }

  /** The new table holds an entry exactly at its canonical slot of each of its buckets. */
  ghost predicate RepNew(h: Hasher, s: Index, v: View)
    requires v.Keys == s.ids.Keys
  {
    && (forall a, b | a in v && b in Buckets(v[a]) ::
          b < NEW_BUCKET_COUNT && h.NewSlot(a, v[a].meta.port, b) in s.newTab
          && s.newTab[h.NewSlot(a, v[a].meta.port, b)] == s.ids[a])
    && (forall slot | slot in s.newTab :: s.newTab[slot] in s.info && OwnsNew(h, v, s.info[s.newTab[slot]].addr, slot))
  }

  /** The tried table holds a tried entry exactly at its one slot. */
  ghost predicate RepTried(h: Hasher, s: Index, v: View)
    requires v.Keys == s.ids.Keys
  {
    && (forall a | a in v && v[a].loc.Tried? ::
          h.TriedSlot(a, v[a].meta.port) in s.triedTab && s.triedTab[h.TriedSlot(a, v[a].meta.port)] == s.ids[a])
    && (forall slot | slot in s.triedTab ::
          s.triedTab[slot] in s.info && OwnsTried(h, v, s.info[s.triedTab[slot]].addr, slot))
  }

  ghost predicate Rep(h: Hasher, s: Index, v: View) {
    && s.idCount >= 0
    && RepIds(s, v)
    && RepRandom(s)
    && RepNew(h, s, v)
    && RepTried(h, s, v)
  }

  // ----- primitive updates

  function Created(s: Index, a: Address, source: NetAddr): Index {
    s.(info := s.info[s.idCount := AddrInfo(a.addr, FreshMeta(a, source), 0, false, |s.random|)],
       ids := s.ids[a.addr := s.idCount],
       random := s.random + [s.idCount],
       idCount := s.idCount + 1)
  }

  function Swapped(s: Index, i: int, j: int): Index
    requires 0 <= i < |s.random| && 0 <= j < |s.random|
    requires s.random[i] in s.info && s.random[j] in s.info
  {
    var x, y := s.random[i], s.random[j];
    var info := s.info[x := s.info[x].(randomPos := j)];
    s.(info := info[y := info[y].(randomPos := i)], random := s.random[i := y][j := x])
  }

  function PoppedLast(s: Index, id: int): Index
    requires |s.random| > 0 && id in s.info
  {
    s.(info := s.info - {id}, ids := s.ids - {s.info[id].addr}, random := s.random[..|s.random| - 1])
  }

  function WithMeta(s: Index, id: int, m: Meta): Index
    requires id in s.info
  {
    s.(info := s.info[id := s.info[id].(meta := m)])
  }

  function Unlinked(s: Index, slot: Slot): Index
    requires slot in s.newTab && s.newTab[slot] in s.info
  {
    var id := s.newTab[slot];
    s.(newTab := s.newTab - {slot}, info := s.info[id := s.info[id].(refCount := s.info[id].refCount - 1)])
  }

  function Linked(s: Index, id: int, slot: Slot): Index
    requires id in s.info
  {
    s.(newTab := s.newTab[slot := id], info := s.info[id := s.info[id].(refCount := s.info[id].refCount + 1)])
  }

  function Untried(s: Index, slot: Slot): Index
    requires slot in s.triedTab && s.triedTab[slot] in s.info
  {
    var id := s.triedTab[slot];
    s.(triedTab := s.triedTab - {slot}, info := s.info[id := s.info[id].(inTried := false)])
  }

  function Entried(s: Index, id: int, slot: Slot): Index
    requires id in s.info
  {
    s.(triedTab := s.triedTab[slot := id], info := s.info[id := s.info[id].(inTried := true)])
  }

  // ----- updates of one record, whatever happens to the tables

  /** `s'` is `s` with the record of `id` replaced by `i`, tables aside. */
  ghost predicate Recorded(s: Index, s': Index, id: int, i: AddrInfo) {
    && id in s.info && i.addr == s.info[id].addr && i.randomPos == s.info[id].randomPos
    && s'.info == s.info[id := i] && s'.ids == s.ids && s'.random == s.random && s'.idCount == s.idCount
  }

  lemma RecordIds(s: Index, v: View, s': Index, id: int, i: AddrInfo, e: Entry)
    requires RepIds(s, v) && Recorded(s, s', id, i) && Matches(i.addr, e, i)
    ensures RepIds(s', v[i.addr := e])
  {
    var v' := v[i.addr := e];
    assert v'.Keys == v.Keys;
    forall a | a in v' ensures s'.ids[a] in s'.info && Matches(a, v'[a], s'.info[s'.ids[a]]) {
      assert s.ids[a] == id ==> a == i.addr;
    }
  }

  lemma RecordRandom(s: Index, s': Index, id: int, i: AddrInfo)
    requires RepRandom(s) && Recorded(s, s', id, i)
    ensures RepRandom(s')
  {
  }

  /** The new table stays right if it is untouched and the buckets of the record do not change. */
  lemma RecordNew(h: Hasher, s: Index, v: View, s': Index, id: int, i: AddrInfo, e: Entry)
    requires RepIds(s, v) && RepNew(h, s, v) && Recorded(s, s', id, i) && s'.newTab == s.newTab
    requires i.addr in v && e.meta.port == v[i.addr].meta.port && Buckets(e) == Buckets(v[i.addr])
    ensures v[i.addr := e].Keys == v.Keys && RepNew(h, s', v[i.addr := e])
  {
    var v' := v[i.addr := e];
    forall slot | slot in s'.newTab
      ensures s'.newTab[slot] in s'.info && OwnsNew(h, v', s'.info[s'.newTab[slot]].addr, slot)
    {
      assert OwnsNew(h, v, s.info[s.newTab[slot]].addr, slot);
      assert s'.info[s'.newTab[slot]].addr == s.info[s.newTab[slot]].addr;
    }
  }

  /** The tried table stays right if it is untouched and the record stays on its side. */
  lemma RecordTried(h: Hasher, s: Index, v: View, s': Index, id: int, i: AddrInfo, e: Entry)
    requires RepIds(s, v) && RepTried(h, s, v) && Recorded(s, s', id, i) && s'.triedTab == s.triedTab
    requires i.addr in v && e.meta.port == v[i.addr].meta.port && e.loc.Tried? == v[i.addr].loc.Tried?
    ensures v[i.addr := e].Keys == v.Keys && RepTried(h, s', v[i.addr := e])
  {
    var v' := v[i.addr := e];
    forall slot | slot in s'.triedTab
      ensures s'.triedTab[slot] in s'.info && OwnsTried(h, v', s'.info[s'.triedTab[slot]].addr, slot)
    {
      assert OwnsTried(h, v, s.info[s.triedTab[slot]].addr, slot);
      assert s'.info[s'.triedTab[slot]].addr == s.info[s.triedTab[slot]].addr;
    }
  }

  lemma MetaKeeps(h: Hasher, s: Index, v: View, id: int, m: Meta)
    requires Rep(h, s, v) && id in s.info && m.port == s.info[id].meta.port
    ensures Rep(h, WithMeta(s, id, m), SetMeta(v, s.info[id].addr, m))
  {
    var s' := WithMeta(s, id, m);
    var e := v[s.info[id].addr].(meta := m);
    RecordIds(s, v, s', id, s'.info[id], e);
    RecordRandom(s, s', id, s'.info[id]);
    RecordNew(h, s, v, s', id, s'.info[id], e);
    RecordTried(h, s, v, s', id, s'.info[id], e);
  }

  lemma UnlinkKeeps(h: Hasher, s: Index, v: View, slot: Slot)
    requires Rep(h, s, v) && slot in s.newTab
    ensures OwnsNew(h, v, s.info[s.newTab[slot]].addr, slot)
    ensures var a := s.info[s.newTab[slot]].addr;
            Rep(h, Unlinked(s, slot), SetLoc(v, a, New(v[a].loc.buckets - {slot.0})))
  {
    var id := s.newTab[slot];
    var a := s.info[id].addr;
    assert OwnsNew(h, v, a, slot);
    var s' := Unlinked(s, slot);
    var e := v[a].(loc := New(v[a].loc.buckets - {slot.0}));
    RecordIds(s, v, s', id, s'.info[id], e);
    RecordRandom(s, s', id, s'.info[id]);
    UnlinkNew(h, s, v, slot, e);
    RecordTried(h, s, v, s', id, s'.info[id], e);
  }

  lemma UnlinkNew(h: Hasher, s: Index, v: View, slot: Slot, e: Entry)
    requires RepIds(s, v) && RepNew(h, s, v) && slot in s.newTab
    requires var a := s.info[s.newTab[slot]].addr;
             OwnsNew(h, v, a, slot) && e == v[a].(loc := New(v[a].loc.buckets - {slot.0}))
    ensures v[s.info[s.newTab[slot]].addr := e].Keys == s.ids.Keys
    ensures RepNew(h, Unlinked(s, slot), v[s.info[s.newTab[slot]].addr := e])
  {
    var a := s.info[s.newTab[slot]].addr;
    var s' := Unlinked(s, slot);
    var v' := v[a := e];
    forall c, b | c in v' && b in Buckets(v'[c])
      ensures b < NEW_BUCKET_COUNT && h.NewSlot(c, v'[c].meta.port, b) in s'.newTab
              && s'.newTab[h.NewSlot(c, v'[c].meta.port, b)] == s'.ids[c]
    {
      assert c in v && b in Buckets(v[c]);
      assert h.NewSlot(c, v[c].meta.port, b) != slot;
    }
    forall t | t in s'.newTab ensures s'.newTab[t] in s'.info && OwnsNew(h, v', s'.info[s'.newTab[t]].addr, t) {
      assert OwnsNew(h, v, s.info[s.newTab[t]].addr, t);
    }
  }

  lemma LinkKeeps(h: Hasher, s: Index, v: View, id: int, b: nat)
    requires Rep(h, s, v) && id in s.info && b < NEW_BUCKET_COUNT
    requires var a := s.info[id].addr;
             v[a].loc.New? && b !in v[a].loc.buckets && h.NewSlot(a, v[a].meta.port, b) !in s.newTab
    ensures var a := s.info[id].addr;
            Rep(h, Linked(s, id, h.NewSlot(a, v[a].meta.port, b)), SetLoc(v, a, New(v[a].loc.buckets + {b})))
  {
    var a := s.info[id].addr;
    var slot := h.NewSlot(a, v[a].meta.port, b);
    var s' := Linked(s, id, slot);
    var e := v[a].(loc := New(v[a].loc.buckets + {b}));
    RecordIds(s, v, s', id, s'.info[id], e);
    RecordRandom(s, s', id, s'.info[id]);
    LinkNew(h, s, v, id, b, e);
    RecordTried(h, s, v, s', id, s'.info[id], e);
  }

  lemma LinkNew(h: Hasher, s: Index, v: View, id: int, b: nat, e: Entry)
    requires RepIds(s, v) && RepNew(h, s, v) && id in s.info && b < NEW_BUCKET_COUNT
    requires var a := s.info[id].addr;
             && v[a].loc.New? && e == v[a].(loc := New(v[a].loc.buckets + {b}))
             && h.NewSlot(a, v[a].meta.port, b) !in s.newTab
    ensures v[s.info[id].addr := e].Keys == s.ids.Keys
    ensures RepNew(h, Linked(s, id, h.NewSlot(s.info[id].addr, e.meta.port, b)), v[s.info[id].addr := e])
  {
    var a := s.info[id].addr;
    var slot := h.NewSlot(a, v[a].meta.port, b);
    var s' := Linked(s, id, slot);
    var v' := v[a := e];
    forall t | t in s'.newTab ensures s'.newTab[t] in s'.info && OwnsNew(h, v', s'.info[s'.newTab[t]].addr, t) {
      assert t != slot ==> OwnsNew(h, v, s.info[s.newTab[t]].addr, t);
    }
    forall c, d | c in v' && d in Buckets(v'[c])
      ensures d < NEW_BUCKET_COUNT && h.NewSlot(c, v'[c].meta.port, d) in s'.newTab
              && s'.newTab[h.NewSlot(c, v'[c].meta.port, d)] == s'.ids[c]
    {
      assert (c == a && d == b) || d in Buckets(v[c]);
    }
  }

  lemma UntryKeeps(h: Hasher, s: Index, v: View, slot: Slot)
    requires Rep(h, s, v) && slot in s.triedTab
    ensures OwnsTried(h, v, s.info[s.triedTab[slot]].addr, slot)
    ensures Rep(h, Untried(s, slot), SetLoc(v, s.info[s.triedTab[slot]].addr, New({})))
  {
    var id := s.triedTab[slot];
    var a := s.info[id].addr;
    assert OwnsTried(h, v, a, slot);
    var s' := Untried(s, slot);
    var e := v[a].(loc := New({}));
    RecordIds(s, v, s', id, s'.info[id], e);
    RecordRandom(s, s', id, s'.info[id]);
    RecordNew(h, s, v, s', id, s'.info[id], e);
    UntryTried(h, s, v, slot, e);
  }

  lemma UntryTried(h: Hasher, s: Index, v: View, slot: Slot, e: Entry)
    requires RepIds(s, v) && RepTried(h, s, v) && slot in s.triedTab
    requires var a := s.info[s.triedTab[slot]].addr;
             a in v && e == v[a].(loc := New({}))
    ensures v[s.info[s.triedTab[slot]].addr := e].Keys == s.ids.Keys
    ensures RepTried(h, Untried(s, slot), v[s.info[s.triedTab[slot]].addr := e])
  {
    var a := s.info[s.triedTab[slot]].addr;
    var s' := Untried(s, slot);
    var v' := v[a := e];
    forall c | c in v' && v'[c].loc.Tried?
      ensures h.TriedSlot(c, v'[c].meta.port) in s'.triedTab
      ensures s'.triedTab[h.TriedSlot(c, v'[c].meta.port)] == s'.ids[c]
    {
      assert c != a && v'[c] == v[c] && s.ids[c] != s.ids[a];
      assert s.triedTab[h.TriedSlot(c, v[c].meta.port)] == s.ids[c];
    }
    forall t | t in s'.triedTab ensures s'.triedTab[t] in s'.info && OwnsTried(h, v', s'.info[s'.triedTab[t]].addr, t) {
      assert OwnsTried(h, v, s.info[s.triedTab[t]].addr, t);
    }
  }

  lemma EntryKeeps(h: Hasher, s: Index, v: View, id: int)
    requires Rep(h, s, v) && id in s.info && v[s.info[id].addr].loc == New({})
    requires h.TriedSlot(s.info[id].addr, s.info[id].meta.port) !in s.triedTab
    ensures var a := s.info[id].addr;
            Rep(h, Entried(s, id, h.TriedSlot(a, s.info[id].meta.port)), SetLoc(v, a, Tried))
  {
    var a := s.info[id].addr;
    var s' := Entried(s, id, h.TriedSlot(a, s.info[id].meta.port));
    var e := v[a].(loc := Tried);
    RecordIds(s, v, s', id, s'.info[id], e);
    RecordRandom(s, s', id, s'.info[id]);
    RecordNew(h, s, v, s', id, s'.info[id], e);
    EntryTried(h, s, v, id, e);
  }

  lemma EntryTried(h: Hasher, s: Index, v: View, id: int, e: Entry)
    requires RepIds(s, v) && RepTried(h, s, v) && id in s.info
    requires var a := s.info[id].addr;
             h.TriedSlot(a, s.info[id].meta.port) !in s.triedTab && e == v[a].(loc := Tried)
    ensures v[s.info[id].addr := e].Keys == s.ids.Keys
    ensures RepTried(h, Entried(s, id, h.TriedSlot(s.info[id].addr, s.info[id].meta.port)), v[s.info[id].addr := e])
  {
    var slot := h.TriedSlot(s.info[id].addr, s.info[id].meta.port);
    var s' := Entried(s, id, slot);
    var v' := v[s.info[id].addr := e];
    forall t | t in s'.triedTab ensures s'.triedTab[t] in s'.info && OwnsTried(h, v', s'.info[s'.triedTab[t]].addr, t) {
      assert t != slot ==> OwnsTried(h, v, s.info[s.triedTab[t]].addr, t);
    }
  }

  // ----- updates that add, drop or reorder records

  /** The tables stay right when they and the placed entries are untouched. */
  lemma TablesKept(h: Hasher, s: Index, v: View, s': Index, v': View)
    requires RepIds(s, v) && RepNew(h, s, v) && RepTried(h, s, v) && RepIds(s', v')
    requires s'.newTab == s.newTab && s'.triedTab == s.triedTab
    requires forall a | a in v && v[a].loc != New({}) :: a in v' && s'.ids[a] == s.ids[a] && v'[a] == v[a]
    requires forall a | a in v' && v'[a].loc != New({}) :: a in v && v[a] == v'[a]
    ensures RepNew(h, s', v') && RepTried(h, s', v')
  {
    forall slot | slot in s.newTab
      ensures s.newTab[slot] in s'.info && OwnsNew(h, v', s'.info[s'.newTab[slot]].addr, slot)
    {
      assert OwnsNew(h, v, s.info[s.newTab[slot]].addr, slot);
    }
    forall slot | slot in s.triedTab
      ensures s.triedTab[slot] in s'.info && OwnsTried(h, v', s'.info[s'.triedTab[slot]].addr, slot)
    {
      assert OwnsTried(h, v, s.info[s.triedTab[slot]].addr, slot);
    }
  }

  lemma CreateKeeps(h: Hasher, s: Index, v: View, a: Address, source: NetAddr)
    requires Rep(h, s, v) && a.addr !in v
    ensures Rep(h, Created(s, a, source), v[a.addr := Entry(FreshMeta(a, source), New({}))])
  {
    CreateIds(s, v, a, source);
    CreateRandom(s, v, a, source);
    TablesKept(h, s, v, Created(s, a, source), v[a.addr := Entry(FreshMeta(a, source), New({}))]);
  }

  lemma CreateIds(s: Index, v: View, a: Address, source: NetAddr)
    requires RepIds(s, v) && a.addr !in v && s.idCount >= 0
    ensures RepIds(Created(s, a, source), v[a.addr := Entry(FreshMeta(a, source), New({}))])
  {
  }

  lemma CreateRandom(s: Index, v: View, a: Address, source: NetAddr)
    requires RepIds(s, v) && RepRandom(s)
    ensures RepRandom(Created(s, a, source))
  {
  }

  lemma SwapKeeps(h: Hasher, s: Index, v: View, i: int, j: int)
    requires Rep(h, s, v) && 0 <= i < |s.random| && 0 <= j < |s.random|
    ensures Rep(h, Swapped(s, i, j), v)
  {
    SwapIds(s, v, i, j);
    SwapRandom(s, i, j);
    TablesKept(h, s, v, Swapped(s, i, j), v);
  }

  lemma SwapIds(s: Index, v: View, i: int, j: int)
    requires RepIds(s, v) && 0 <= i < |s.random| && 0 <= j < |s.random|
    requires s.random[i] in s.info && s.random[j] in s.info
    ensures RepIds(Swapped(s, i, j), v)
  {
    var s' := Swapped(s, i, j);
    assert s'.info.Keys == s.info.Keys;
  }

  lemma SwapRandom(s: Index, i: int, j: int)
    requires RepRandom(s) && 0 <= i < |s.random| && 0 <= j < |s.random|
    ensures RepRandom(Swapped(s, i, j))
  {
  }

  lemma PopKeeps(h: Hasher, s: Index, v: View, id: int)
    requires Rep(h, s, v) && id in s.info && s.info[id].randomPos == |s.random| - 1
    requires v[s.info[id].addr].loc == New({})
    ensures Rep(h, PoppedLast(s, id), v - {s.info[id].addr})
  {
    PopIds(s, v, id);
    PopRandom(s, id);
    TablesKept(h, s, v, PoppedLast(s, id), v - {s.info[id].addr});
  }

  lemma PopIds(s: Index, v: View, id: int)
    requires RepIds(s, v) && id in s.info && |s.random| > 0
    ensures RepIds(PoppedLast(s, id), v - {s.info[id].addr})
  {
  }

  lemma PopRandom(s: Index, id: int)
    requires RepRandom(s) && id in s.info && s.info[id].randomPos == |s.random| - 1
    ensures RepRandom(PoppedLast(s, id))
  {
  }

  // ----- consequences

  /** What the indexes say about the address `a`. */
  lemma AddrFacts(h: Hasher, s: Index, v: View, a: NetAddr)
    requires Rep(h, s, v) && a in v
    ensures a in s.ids && s.ids[a] in s.info && Matches(a, v[a], s.info[s.ids[a]])
    ensures 0 <= s.ids[a] < s.idCount
  {
  }

  /** What the indexes say about the id `id`. */
  lemma IdFacts(h: Hasher, s: Index, v: View, id: int)
    requires Rep(h, s, v) && id in s.info
    ensures 0 <= id < s.idCount
    ensures s.info[id].addr in v && s.ids[s.info[id].addr] == id
    ensures Matches(s.info[id].addr, v[s.info[id].addr], s.info[id])
    ensures 0 <= s.info[id].randomPos < |s.random| && s.random[s.info[id].randomPos] == id
  {
  }

  lemma KeyFacts(h: Hasher, s: Index, v: View)
    requires Rep(h, s, v)
    ensures v.Keys == s.ids.Keys
  {
  }

  lemma OrderFacts(h: Hasher, s: Index, v: View)
    requires Rep(h, s, v)
    ensures RepRandom(s)
  {
  }

  lemma PositionFacts(s: Index, id: int)
    requires RepRandom(s) && id in s.info
    ensures 0 <= s.info[id].randomPos < |s.random| && s.random[s.info[id].randomPos] == id
  {
  }

  /** After swapping it to the end, an id is last. */
  lemma SwappedLast(s: Index, id: int)
    requires RepRandom(s) && id in s.info
    ensures var k := s.info[id].randomPos;
            var s' := if k == |s.random| - 1 then s else Swapped(s, k, |s.random| - 1);
            id in s'.info && s'.info[id].randomPos == |s.random| - 1 && |s'.random| == |s.random|
  {
  }

  lemma RandomFacts(h: Hasher, s: Index, v: View, k: int)
    requires Rep(h, s, v) && 0 <= k < |s.random|
    ensures s.random[k] in s.info && s.info[s.random[k]].randomPos == k
  {
  }

  /** The canonical cell of bucket `b` holds the id of `a` exactly when `a` is in that bucket. */
  lemma CellFacts(h: Hasher, s: Index, v: View, a: NetAddr, b: nat)
    requires Rep(h, s, v) && a in v
    ensures a in s.ids
    ensures var slot := h.NewSlot(a, v[a].meta.port, b);
            (slot in s.newTab && s.newTab[slot] == s.ids[a]) <==> b in Buckets(v[a])
  {
  }

  lemma TriedHolds(h: Hasher, s: Index, v: View, a: NetAddr)
    requires Rep(h, s, v) && a in v && v[a].loc.Tried?
    ensures a in s.ids && h.TriedSlot(a, v[a].meta.port) in s.triedTab
    ensures s.triedTab[h.TriedSlot(a, v[a].meta.port)] == s.ids[a]
  {
  }

  lemma TriedSlotFacts(h: Hasher, s: Index, v: View, slot: Slot)
    requires Rep(h, s, v) && slot in s.triedTab
    ensures s.triedTab[slot] in s.info && OwnsTried(h, v, s.info[s.triedTab[slot]].addr, slot)
    ensures Matches(s.info[s.triedTab[slot]].addr, v[s.info[s.triedTab[slot]].addr], s.info[s.triedTab[slot]])
    ensures s.ids[s.info[s.triedTab[slot]].addr] == s.triedTab[slot]
  {
  }

  lemma BucketFacts(h: Hasher, s: Index, v: View, a: NetAddr)
    requires Rep(h, s, v) && a in v
    ensures forall b | b in Buckets(v[a]) :: b < NEW_BUCKET_COUNT
  {
  }

  lemma VacantFacts(h: Hasher, s: Index, v: View, slot: Slot)
    requires Rep(h, s, v) && slot !in s.newTab
    ensures forall a | a in v :: !OwnsNew(h, v, a, slot)
  {
    forall a | a in v ensures !OwnsNew(h, v, a, slot) {
      if slot.0 in Buckets(v[a]) {
        assert h.NewSlot(a, v[a].meta.port, slot.0) in s.newTab;
      }
    }
  }

  lemma NewSlotFacts(h: Hasher, s: Index, v: View, slot: Slot)
    requires Rep(h, s, v) && slot in s.newTab
    ensures s.newTab[slot] in s.info && OwnsNew(h, v, s.info[s.newTab[slot]].addr, slot)
    ensures Matches(s.info[s.newTab[slot]].addr, v[s.info[s.newTab[slot]].addr], s.info[s.newTab[slot]])
  {
  }

  /** In a represented view nobody shares a slot. */
  lemma RepSeparated(h: Hasher, s: Index, v: View)
    requires Rep(h, s, v)
    ensures Separated(h, v)
  {
    forall a, c, slot | OwnsNew(h, v, a, slot) && OwnsNew(h, v, c, slot) ensures a == c {
      assert s.newTab[h.NewSlot(a, v[a].meta.port, slot.0)] == s.ids[a];
      assert s.newTab[h.NewSlot(c, v[c].meta.port, slot.0)] == s.ids[c];
    }
    forall a, c, slot | OwnsTried(h, v, a, slot) && OwnsTried(h, v, c, slot) ensures a == c {
      assert s.triedTab[slot] == s.ids[a] == s.ids[c];
    }
  }

  /** Vacating a slot of a represented view touches only its owner. */
  lemma VacateOwner(h: Hasher, s: Index, v: View, slot: Slot)
    requires Rep(h, s, v) && slot in s.newTab
    ensures var a := s.info[s.newTab[slot]].addr;
            && OwnsNew(h, v, a, slot)
            && Vacate(h, v, slot) == (if v[a].loc.buckets == {slot.0} then v - {a}
                                      else SetLoc(v, a, New(v[a].loc.buckets - {slot.0})))
  {
    RepSeparated(h, s, v);
  }

  lemma VacateVacant(h: Hasher, s: Index, v: View, slot: Slot)
    requires Rep(h, s, v) && slot !in s.newTab
    ensures Vacate(h, v, slot) == v
  {
    VacantFacts(h, s, v, slot);
  }

  /** Vacating an owned slot forgets at most its owner, and no tried address. */
  lemma VacateCounts(h: Hasher, s: Index, v: View, slot: Slot)
    requires Rep(h, s, v) && slot in s.newTab
    ensures var a := s.info[s.newTab[slot]].addr;
            && a in v && v[a].loc.New?
            && |NewAddrs(Vacate(h, v, slot))| == |NewAddrs(v)| - (if v[a].loc.buckets == {slot.0} then 1 else 0)
            && TriedAddrs(Vacate(h, v, slot)) == TriedAddrs(v)
  {
    var a := s.info[s.newTab[slot]].addr;
    VacateOwner(h, s, v, slot);
    DroppedAddrs(v, a);
    RebucketedAddrs(v, a, v[a].loc.buckets - {slot.0});
  }

  /** The occupant of the tried slot of `a`, read from the table, is the one that `Promote` demotes. */
  lemma PromoteOccupied(h: Hasher, s: Index, v: View, a: NetAddr, o: NetAddr)
    requires a in v && Rep(h, s, SetLoc(v, a, New({})))
    requires OwnsTried(h, SetLoc(v, a, New({})), o, h.TriedSlot(a, v[a].meta.port))
    ensures Promote(h, v, a) == Demote(h, SetLoc(v, a, New({})), o)[a := v[a].(loc := Tried)]
  {
    RepSeparated(h, s, SetLoc(v, a, New({})));
  }

  lemma PromoteVacant(h: Hasher, s: Index, v: View, a: NetAddr)
    requires a in v && Rep(h, s, SetLoc(v, a, New({})))
    requires h.TriedSlot(a, v[a].meta.port) !in s.triedTab
    ensures Promote(h, v, a) == v[a := v[a].(loc := Tried)]
  {
    var v0 := SetLoc(v, a, New({}));
    var slot := h.TriedSlot(a, v[a].meta.port);
    forall o | o in v0 ensures !OwnsTried(h, v0, o, slot) {
      if v0[o].loc.Tried? {
        assert h.TriedSlot(o, v0[o].meta.port) in s.triedTab;
      }
    }
  }

  // ----- the random order lists every address once

  lemma RandomCount(h: Hasher, s: Index, v: View)
    requires Rep(h, s, v)
    ensures |s.random| == |v|
  {
    hide Rep;
    forall k | 0 <= k < |s.random| ensures s.random[k] in s.info {
      RandomFacts(h, s, v, k);
    }
    var names := seq(|s.random|, k requires 0 <= k < |s.random| => s.info[s.random[k]].addr);
    KeyFacts(h, s, v);
    forall i, j | 0 <= i < j < |names| ensures names[i] != names[j] {
      RandomFacts(h, s, v, i);
      RandomFacts(h, s, v, j);
      IdFacts(h, s, v, s.random[i]);
      IdFacts(h, s, v, s.random[j]);
    }
    DistinctCard(names);
    forall a | a in v ensures a in names {
      AddrFacts(h, s, v, a);
      IdFacts(h, s, v, s.ids[a]);
      assert names[s.info[s.ids[a]].randomPos] == a;
    }
    forall a | a in names ensures a in v {
      var k :| 0 <= k < |names| && names[k] == a;
      RandomFacts(h, s, v, k);
      IdFacts(h, s, v, s.random[k]);
    }
    assert (set a | a in names) == v.Keys;
  }

  lemma {:induction false} DistinctCard<T>(xs: seq<T>)
    requires forall i, j | 0 <= i < j < |xs| :: xs[i] != xs[j]
    ensures |set x | x in xs| == |xs|
  {
    if xs == [] {
      assert (set x | x in xs) == {};
    } else {
      var rest := xs[..|xs| - 1];
      var last := xs[|xs| - 1];
      DistinctCard(rest);
      assert xs == rest + [last];
      assert (set x | x in xs) == (set x | x in rest) + {last};
      assert last !in rest;
    }
  }

  /** An empty random order fits no index but the empty one. */
  lemma EmptyRep(h: Hasher, s: Index)
    requires s.random == [] && s.newTab == map[] && s.triedTab == map[] && s.idCount == 0
    ensures (exists v :: Rep(h, s, v)) <==> s.info == map[] && s.ids == map[]
    ensures s.info == map[] && s.ids == map[] ==> Rep(h, s, map[])
  {
    if v :| Rep(h, s, v) {
      forall id ensures id !in s.info {
        if id in s.info {
          IdFacts(h, s, v, id);
          assert false;
        }
      }
      RandomCount(h, s, v);
      KeyFacts(h, s, v);
      assert s.ids.Keys == {};
    }
    if s.info == map[] && s.ids == map[] {
      assert Rep(h, s, map[]);
    }
  }

  /** Ids and addresses are counted alike. */
  lemma {:induction false} SameCount(ids: map<NetAddr, int>, addrs: set<NetAddr>, nums: set<int>)
    requires addrs <= ids.Keys
    requires forall a, c | a in addrs && c in addrs && ids[a] == ids[c] :: a == c
    requires nums == set a | a in addrs :: ids[a]
    ensures |addrs| == |nums|
  {
    if addrs == {} {
      assert nums == {};
    } else {
      var a :| a in addrs;
      SameCount(ids, addrs - {a}, nums - {ids[a]});
      assert nums == (nums - {ids[a]}) + {ids[a]};
    }
  }

  ghost function Below(n: nat): (s: set<int>)
    ensures forall k :: k in s <==> 0 <= k < n
    ensures |s| == n
  {
    if n == 0 then {} else Below(n - 1) + {n - 1}
  }

  /** Addresses that own different cells are no more than there are cells. */
  lemma CellsBound(cell: map<NetAddr, int>, n: nat)
    requires forall a | a in cell :: 0 <= cell[a] < n
    requires forall a, c | a in cell && c in cell && cell[a] == cell[c] :: a == c
    ensures |cell| <= n
  {
    var used := set a | a in cell :: cell[a];
    SameCount(cell, cell.Keys, used);
    assert used <= Below(n);
    assert Below(n) == used + (Below(n) - used);
  }

  /** A consistent view fits the tables, whatever the hash. */
  lemma Capacity(h: Hasher, v: View)
    requires Separated(h, v) && AllSettled(v)
    ensures |NewAddrs(v)| <= NEW_BUCKET_COUNT * BUCKET_SIZE
    ensures |TriedAddrs(v)| <= TRIED_BUCKET_COUNT * BUCKET_SIZE
  {
    NewCapacity(h, v);
    var tried := map a | a in TriedAddrs(v) :: Cell(h.TriedSlot(a, v[a].meta.port));
    forall a, c | a in tried && c in tried && tried[a] == tried[c] ensures a == c {
      var s, t := h.TriedSlot(a, v[a].meta.port), h.TriedSlot(c, v[c].meta.port);
      CellInjective(s, t);
      assert OwnsTried(h, v, a, s) && OwnsTried(h, v, c, t);
    }
    CellsBound(tried, TRIED_BUCKET_COUNT * BUCKET_SIZE);
    assert tried.Keys == TriedAddrs(v);
  }

  ghost function Cell(slot: Slot): int {
    slot.0 * BUCKET_SIZE + slot.1
  }

  lemma CellInjective(s: Slot, t: Slot)
    requires Cell(s) == Cell(t) && 0 <= s.1 < BUCKET_SIZE && 0 <= t.1 < BUCKET_SIZE
    ensures s == t
  {
  }

  ghost function SomeBucket(e: Entry): nat
    requires Settled(e) && e.loc.New?
    ensures SomeBucket(e) in e.loc.buckets && SomeBucket(e) < NEW_BUCKET_COUNT
  {
    assert e.loc.buckets != {};
    var b :| b in e.loc.buckets;
    b
  }

  lemma NewCapacity(h: Hasher, v: View)
    requires Separated(h, v) && AllSettled(v)
    ensures |NewAddrs(v)| <= NEW_BUCKET_COUNT * BUCKET_SIZE
  {
    var cell := map a | a in NewAddrs(v) :: Cell(h.NewSlot(a, v[a].meta.port, SomeBucket(v[a])));
    forall a, c | a in cell && c in cell && cell[a] == cell[c] ensures a == c {
      var s, t := h.NewSlot(a, v[a].meta.port, SomeBucket(v[a])), h.NewSlot(c, v[c].meta.port, SomeBucket(v[c]));
      CellInjective(s, t);
      assert OwnsNew(h, v, a, s) && OwnsNew(h, v, c, t);
    }
    CellsBound(cell, NEW_BUCKET_COUNT * BUCKET_SIZE);
    assert cell.Keys == NewAddrs(v);
  }
}
