/**
  The address manager seen from outside: one map from addresses to entries.
  An entry is either tried or sits in a set of new buckets.  There are no ids,
  no reference counts, no slot tables and no random order here; the operations
  below are what the five redundant indexes of the implementation must amount to.
 */
module AddrView {
  import opened Basics
  import opened AddrTypes

  datatype Location = Tried | New(buckets: set<nat>)

  datatype Entry = Entry(meta: Meta, loc: Location)

  function Buckets(e: Entry): set<nat> {
    if e.loc.New? then e.loc.buckets else {}
  }

  type View = map<NetAddr, Entry>

  /** `a` is stored in the new table at the given slot. */
  predicate OwnsNew(h: Hasher, v: View, a: NetAddr, slot: Slot) {
    a in v && v[a].loc.New? && slot.0 in v[a].loc.buckets && slot == h.NewSlot(a, v[a].meta.port, slot.0)
  }

  /** `a` is stored in the tried table at the given slot. */
  predicate OwnsTried(h: Hasher, v: View, a: NetAddr, slot: Slot) {
    a in v && v[a].loc.Tried? && slot == h.TriedSlot(a, v[a].meta.port)
  }

  /** No two addresses share a slot. */
  ghost predicate Separated(h: Hasher, v: View) {
    && (forall a, c, slot :: OwnsNew(h, v, a, slot) && OwnsNew(h, v, c, slot) ==> a == c)
    && (forall a, c, slot :: OwnsTried(h, v, a, slot) && OwnsTried(h, v, c, slot) ==> a == c)
  }

  /** An entry at rest is tried, or in between one and eight existing buckets. */
  predicate Settled(e: Entry) {
    e.loc.New? ==>
      && 1 <= |e.loc.buckets| <= NEW_BUCKETS_PER_ADDRESS
      && forall b | b in e.loc.buckets :: b < NEW_BUCKET_COUNT
  }

  ghost predicate AllSettled(v: View) {
    forall a | a in v :: Settled(v[a])
  }

  /** The timestamp conditions that the consistency check makes. */
  ghost predicate TimesSane(v: View) {
    forall a | a in v :: TimeSane(v[a])
  }

  predicate TimeSane(e: Entry) {
    e.meta.lastTry >= 0 && e.meta.lastSuccess >= 0 && (e.loc.Tried? ==> e.meta.lastSuccess != 0)
  }

  function NewAddrs(v: View): set<NetAddr> {
    set a | a in v && v[a].loc.New?
  }

  function TriedAddrs(v: View): set<NetAddr> {
    set a | a in v && v[a].loc.Tried?
  }

  // ----- operations on the view

  function SetLoc(v: View, a: NetAddr, loc: Location): View
    requires a in v
  {
    v[a := v[a].(loc := loc)]
  }

  function SetMeta(v: View, a: NetAddr, m: Meta): View
    requires a in v
  {
    v[a := v[a].(meta := m)]
  }

  /** Whoever holds `slot` loses that bucket, and is forgotten if it was its last one. */
  function Vacate(h: Hasher, v: View, slot: Slot): View {
    map a | a in v && !(OwnsNew(h, v, a, slot) && v[a].loc.buckets == {slot.0}) ::
      if OwnsNew(h, v, a, slot) then v[a].(loc := New(v[a].loc.buckets - {slot.0})) else v[a]
  }

  /** Make `slot` belong to `a`, displacing its owner. */
  function Claim(h: Hasher, v: View, a: NetAddr, slot: Slot): View
    requires a in v && v[a].loc.New? && slot.0 >= 0
  {
    Vacate(h, v, slot)[a := v[a].(loc := New(v[a].loc.buckets + {slot.0}))]
  }

  /** A tried entry goes back to the one new bucket its own source selects. */
  function Demote(h: Hasher, v: View, o: NetAddr): View
    requires o in v
  {
    var b := h.NewBucket(o, v[o].meta.source);
    var slot := h.NewSlot(o, v[o].meta.port, b);
    Vacate(h, SetLoc(v, o, New({})), slot)[o := v[o].(loc := New({b}))]
  }

  /** Moving `a` from new to tried, demoting the entry that occupies its tried slot, if any. */
  ghost function Promote(h: Hasher, v: View, a: NetAddr): View
    requires a in v
  {
    var v0 := SetLoc(v, a, New({}));
    var slot := h.TriedSlot(a, v[a].meta.port);
    if o :| o in v0 && OwnsTried(h, v0, o, slot) then
      Demote(h, v0, o)[a := v[a].(loc := Tried)]
    else
      v0[a := v[a].(loc := Tried)]
  }

  /** A successful connection to `s` at time `t`. */
  ghost function GoodView(h: Hasher, v: View, s: Service, t: int): View {
    if s.addr !in v || v[s.addr].meta.port != s.port then v
    else
      var w := SetMeta(v, s.addr, v[s.addr].meta.(lastSuccess := t, lastTry := t, attempts := 0));
      if v[s.addr].loc.Tried? then w else Promote(h, w, s.addr)
  }

  /** What hearing about a known address again does to its statistics. */
  function Heard(m: Meta, a: Address, penalty: int, now: int): Meta {
    var online := now - a.time < 24 * 60 * 60;
    var interval := if online then 60 * 60 else 24 * 60 * 60;
    var m1 := if a.time != 0 && (m.time == 0 || m.time < a.time - interval - penalty)
              then m.(time := ToTimestamp(Max(0, a.time - penalty))) else m;
    m1.(services := m1.services + a.services)
  }

  /** The statistics an address starts with. */
  function FirstHeard(a: Address, source: NetAddr, penalty: int): Meta {
    var m := FreshMeta(a, source);
    m.(time := ToTimestamp(Max(0, m.time - penalty)))
  }

  /** Give `a` a reference from the bucket that `source` selects, if the cell can be had. */
  ghost function Place(h: Hasher, v: View, a: NetAddr, source: NetAddr, now: int): View
    requires a in v && v[a].loc.New?
  {
    var b := h.NewBucket(a, source);
    var slot := h.NewSlot(a, v[a].meta.port, b);
    if b in v[a].loc.buckets then v
    else if o :| o in v && OwnsNew(h, v, o, slot) then
      if IsTerrible(v[o].meta, now) || (|v[o].loc.buckets| > 1 && v[a].loc.buckets == {}) then Claim(h, v, a, slot)
      else if v[a].loc.buckets == {} then v - {a}
      else v
    else Claim(h, v, a, slot)
  }

  /** There is something to learn from hearing about `a` again. */
  predicate WorthPlacing(e: Entry, a: Address) {
    && a.time != 0 && (e.meta.time == 0 || a.time > e.meta.time)
    && e.loc.New? && |e.loc.buckets| != NEW_BUCKETS_PER_ADDRESS
  }

  /** Hearing about `a` from `source`; `lucky` is the outcome of the stochastic test. */
  ghost function AddView(h: Hasher, v: View, a: Address, source: NetAddr, penalty: int, now: int, lucky: bool): View {
    if !h.env.routable(a.addr) then v
    else if a.addr in v then
      var w := SetMeta(v, a.addr, Heard(v[a.addr].meta, a, penalty, now));
      if WorthPlacing(w[a.addr], a) && lucky then Place(h, w, a.addr, source, now) else w
    else
      Place(h, v[a.addr := Entry(FirstHeard(a, source, penalty), New({}))], a.addr, source, now)
  }

  /** A connection attempt to `s`. */
  function AttemptView(v: View, s: Service, countFailure: bool, t: int, lastGood: int): View {
    if s.addr !in v || v[s.addr].meta.port != s.port then v
    else
      var m := v[s.addr].meta.(lastTry := t);
      SetMeta(v, s.addr,
              if countFailure && m.lastCountAttempt < lastGood
              then m.(lastCountAttempt := t, attempts := m.attempts + 1) else m)
  }

  /** `s` is connected at time `t`. */
  function ConnectedView(v: View, s: Service, t: int): View {
    if s.addr !in v || v[s.addr].meta.port != s.port then v
    else if t - v[s.addr].meta.time > 20 * 60 then SetMeta(v, s.addr, v[s.addr].meta.(time := ToTimestamp(t)))
    else v
  }

  function ServicesView(v: View, s: Service, services: ServiceFlags): View {
    if s.addr !in v || v[s.addr].meta.port != s.port then v
    else SetMeta(v, s.addr, v[s.addr].meta.(services := services))
  }

  // ----- the operations keep entries settled

  /** All entries are settled, except perhaps those of `x`. */
  ghost predicate SettledBut(v: View, x: set<NetAddr>) {
    forall a | a in v && a !in x :: Settled(v[a])
  }

  lemma VacateSettled(h: Hasher, v: View, slot: Slot, x: set<NetAddr>)
    requires SettledBut(v, x)
    ensures SettledBut(Vacate(h, v, slot), x)
  {
    forall a | a in Vacate(h, v, slot) && a !in x ensures Settled(Vacate(h, v, slot)[a]) {
      if OwnsNew(h, v, a, slot) {
        RemoveOne(v[a].loc.buckets, slot.0);
      }
    }
  }

  lemma DemoteSettled(h: Hasher, v: View, o: NetAddr, a: NetAddr)
    requires o in v && SettledBut(v, {a})
    ensures SettledBut(Demote(h, v, o), {a})
  {
    var b := h.NewBucket(o, v[o].meta.source);
    VacateSettled(h, SetLoc(v, o, New({})), h.NewSlot(o, v[o].meta.port, b), {a, o});
    assert |{b}| == 1;
  }

  lemma PromoteSettled(h: Hasher, v: View, a: NetAddr)
    requires a in v && AllSettled(v)
    ensures AllSettled(Promote(h, v, a))
  {
    var v0 := SetLoc(v, a, New({}));
    forall o | o in v0 ensures SettledBut(Demote(h, v0, o), {a}) {
      DemoteSettled(h, v0, o, a);
    }
  }

  lemma GoodSettled(h: Hasher, v: View, s: Service, t: int)
    requires AllSettled(v)
    ensures AllSettled(GoodView(h, v, s, t))
  {
    if s.addr in v && v[s.addr].meta.port == s.port {
      PromoteSettled(h, SetMeta(v, s.addr, v[s.addr].meta.(lastSuccess := t, lastTry := t, attempts := 0)), s.addr);
    }
  }

  lemma PlaceSettled(h: Hasher, v: View, a: NetAddr, source: NetAddr, now: int)
    requires a in v && v[a].loc.New? && |v[a].loc.buckets| < NEW_BUCKETS_PER_ADDRESS
    requires forall b | b in v[a].loc.buckets :: b < NEW_BUCKET_COUNT
    requires forall c | c in v && c != a :: Settled(v[c])
    ensures AllSettled(Place(h, v, a, source, now))
  {
    var b := h.NewBucket(a, source);
    VacateSettled(h, v, h.NewSlot(a, v[a].meta.port, b), {a});
  }

  lemma AddSettled(h: Hasher, v: View, a: Address, source: NetAddr, penalty: int, now: int, lucky: bool)
    requires AllSettled(v)
    ensures AllSettled(AddView(h, v, a, source, penalty, now, lucky))
  {
    if a.addr in v {
      var w := SetMeta(v, a.addr, Heard(v[a.addr].meta, a, penalty, now));
      if WorthPlacing(w[a.addr], a) {
        PlaceSettled(h, w, a.addr, source, now);
      }
    } else {
      PlaceSettled(h, v[a.addr := Entry(FirstHeard(a, source, penalty), New({}))], a.addr, source, now);
    }
  }

  lemma VacateOther(h: Hasher, v: View, slot: Slot, a: NetAddr)
    requires a in v && (v[a].loc.Tried? || slot.0 !in v[a].loc.buckets)
    ensures a in Vacate(h, v, slot) && Vacate(h, v, slot)[a] == v[a]
  {
  }

  // ----- counting

  lemma RemoveOne(s: set<nat>, b: nat)
    requires b in s
    ensures |s - {b}| == |s| - 1
    ensures |s| == 1 <==> s == {b}
  {
    assert s == (s - {b}) + {b};
    assert |s - {b}| == 0 ==> s - {b} == {};
  }

  lemma RebucketedAddrs(v: View, a: NetAddr, buckets: set<nat>)
    requires a in v && v[a].loc.New?
    ensures NewAddrs(SetLoc(v, a, New(buckets))) == NewAddrs(v)
    ensures TriedAddrs(SetLoc(v, a, New(buckets))) == TriedAddrs(v)
  {
  }

  lemma DroppedAddrs(v: View, a: NetAddr)
    requires a in v && v[a].loc.New?
    ensures |NewAddrs(v - {a})| == |NewAddrs(v)| - 1
    ensures TriedAddrs(v - {a}) == TriedAddrs(v)
  {
    assert NewAddrs(v - {a}) == NewAddrs(v) - {a};
    assert a in NewAddrs(v);
  }

  lemma AddedAddrs(v: View, a: NetAddr, m: Meta)
    requires a !in v
    ensures |NewAddrs(v[a := Entry(m, New({}))])| == |NewAddrs(v)| + 1
    ensures TriedAddrs(v[a := Entry(m, New({}))]) == TriedAddrs(v)
  {
    assert NewAddrs(v[a := Entry(m, New({}))]) == NewAddrs(v) + {a};
  }

  lemma CountMeta(v: View, a: NetAddr, m: Meta)
    requires a in v
    ensures NewAddrs(SetMeta(v, a, m)) == NewAddrs(v)
    ensures TriedAddrs(SetMeta(v, a, m)) == TriedAddrs(v)
  {
  }

  lemma RelocatedCards(v: View, a: NetAddr, loc: Location)
    requires a in v
    ensures |NewAddrs(SetLoc(v, a, loc))| ==
            |NewAddrs(v)| - (if v[a].loc.New? then 1 else 0) + (if loc.New? then 1 else 0)
    ensures |TriedAddrs(SetLoc(v, a, loc))| ==
            |TriedAddrs(v)| - (if v[a].loc.Tried? then 1 else 0) + (if loc.Tried? then 1 else 0)
  {
    RelocatedNewCard(v, a, loc);
    var w := SetLoc(v, a, loc);
    var rest := TriedAddrs(v) - {a};
    assert TriedAddrs(v) == (if v[a].loc.Tried? then rest + {a} else rest);
    assert TriedAddrs(w) == (if loc.Tried? then rest + {a} else rest);
  }

  lemma RelocatedNewCard(v: View, a: NetAddr, loc: Location)
    requires a in v
    ensures |NewAddrs(SetLoc(v, a, loc))| ==
            |NewAddrs(v)| - (if v[a].loc.New? then 1 else 0) + (if loc.New? then 1 else 0)
  {
    var w := SetLoc(v, a, loc);
    var rest := NewAddrs(v) - {a};
    assert NewAddrs(v) == (if v[a].loc.New? then rest + {a} else rest);
    assert NewAddrs(w) == (if loc.New? then rest + {a} else rest);
  }
}
