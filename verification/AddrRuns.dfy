/**
  Facts about whole runs of the address manager: what an operation can cost the
  other addresses, and that every run from a fresh manager passes the self check.
 */
module AddrRuns {
  import opened AddrTypes
  import opened AddrView
  import opened AddrIndex
  import opened AddrMan
  import AddrCheck

  ghost predicate LosesAtMostOne(v: View, w: View) {
    forall a, c | a in v && c in v && a !in w && c !in w :: a == c
  }

  /** Everyone but `x` who is still known kept its statistics. */
  ghost predicate OthersKeepMeta(v: View, w: View, x: NetAddr) {
    forall a | a in v && a in w && a != x :: w[a].meta == v[a].meta
  }

  /** Tried addresses are never forgotten. */
  ghost predicate TriedSurvive(v: View, w: View) {
    forall a | a in v && v[a].loc.Tried? :: a in w
  }

  lemma VacateCost(h: Hasher, v: View, slot: Slot)
    requires Separated(h, v)
    ensures var w := Vacate(h, v, slot);
            w.Keys <= v.Keys && LosesAtMostOne(v, w) && TriedSurvive(v, w)
  {
  }

  lemma SeparatedWithout(h: Hasher, v: View, a: NetAddr)
    requires Separated(h, v) && a in v
    ensures Separated(h, SetLoc(v, a, New({})))
  {
    var w := SetLoc(v, a, New({}));
    forall x, y, slot | OwnsNew(h, w, x, slot) && OwnsNew(h, w, y, slot) ensures x == y {
      assert OwnsNew(h, v, x, slot) && OwnsNew(h, v, y, slot);
    }
    forall x, y, slot | OwnsTried(h, w, x, slot) && OwnsTried(h, w, y, slot) ensures x == y {
      assert OwnsTried(h, v, x, slot) && OwnsTried(h, v, y, slot);
    }
  }

  lemma DemoteCost(h: Hasher, v: View, o: NetAddr)
    requires Separated(h, v) && o in v
    ensures var w := Demote(h, v, o);
            w.Keys <= v.Keys && LosesAtMostOne(v, w) && OthersKeepMeta(v, w, o) && o in w && w[o].meta == v[o].meta
    ensures forall a | a in v && v[a].loc.Tried? :: a in Demote(h, v, o)
    ensures forall a | a in v && a != o && v[a].loc == New({}) :: a in Demote(h, v, o)
  {
    SeparatedWithout(h, v, o);
    var b := h.NewBucket(o, v[o].meta.source);
    VacateCost(h, SetLoc(v, o, New({})), h.NewSlot(o, v[o].meta.port, b));
  }

  /**
    Marking an address good makes it tried.  At most one other address is
    forgotten, never a tried one, and nobody else's statistics change.
   */
  lemma GoodTheorem(h: Hasher, v: View, s: Service, t: int)
    requires Separated(h, v)
    ensures var w := GoodView(h, v, s, t);
            && w.Keys <= v.Keys && LosesAtMostOne(v, w) && TriedSurvive(v, w) && OthersKeepMeta(v, w, s.addr)
            && (s.addr in v && v[s.addr].meta.port == s.port ==>
                  && s.addr in w && w[s.addr].loc.Tried?
                  && w[s.addr].meta == v[s.addr].meta.(lastSuccess := t, lastTry := t, attempts := 0))
            && (!(s.addr in v && v[s.addr].meta.port == s.port) ==> w == v)
  {
    hide Separated, Demote;
    if s.addr in v && v[s.addr].meta.port == s.port && v[s.addr].loc.New? {
      var v1 := SetMeta(v, s.addr, v[s.addr].meta.(lastSuccess := t, lastTry := t, attempts := 0));
      var v0 := SetLoc(v1, s.addr, New({}));
      MetaSeparated(h, v, s.addr, v1[s.addr].meta);
      SeparatedWithout(h, v1, s.addr);
      forall o | o in v0 && o != s.addr
        ensures var w := Demote(h, v0, o);
                && w.Keys <= v0.Keys && LosesAtMostOne(v0, w) && OthersKeepMeta(v0, w, o)
                && o in w && w[o].meta == v0[o].meta
        ensures forall a | a in v0 && v0[a].loc.Tried? :: a in Demote(h, v0, o)
        ensures s.addr in Demote(h, v0, o)
      {
        DemoteCost(h, v0, o);
      }
    }
  }

  lemma MetaSeparated(h: Hasher, v: View, a: NetAddr, m: Meta)
    requires Separated(h, v) && a in v && m.port == v[a].meta.port
    ensures Separated(h, SetMeta(v, a, m))
  {
    var w := SetMeta(v, a, m);
    forall x, y, slot | OwnsNew(h, w, x, slot) && OwnsNew(h, w, y, slot) ensures x == y {
      assert OwnsNew(h, v, x, slot) && OwnsNew(h, v, y, slot);
    }
    forall x, y, slot | OwnsTried(h, w, x, slot) && OwnsTried(h, w, y, slot) ensures x == y {
      assert OwnsTried(h, v, x, slot) && OwnsTried(h, v, y, slot);
    }
  }

  /** Every entry other than that of `x` stays tried if it was, and keeps its statistics if it is kept. */
  ghost predicate OnlyNewSuffer(v: View, w: View, x: NetAddr) {
    && OthersKeepMeta(v, w, x)
    && (forall a | a in v && v[a].loc.Tried? :: a in w && w[a].loc.Tried?)
    && (forall a | a in w && w[a].loc.Tried? :: a in v && v[a].loc.Tried?)
  }

  lemma PlaceCost(h: Hasher, v: View, a: NetAddr, source: NetAddr, now: int)
    requires Separated(h, v) && a in v && v[a].loc.New?
    ensures var w := Place(h, v, a, source, now);
            && w.Keys <= v.Keys && OnlyNewSuffer(v, w, a)
            && (forall c, d | c in v && d in v && c !in w && d !in w :: c == d)
            && (a in w ==> w[a].meta == v[a].meta && w[a].loc.New? && w[a].loc.buckets >= v[a].loc.buckets)
            && (a !in w ==> v[a].loc.buckets == {} && forall c | c in v && c != a :: c in w && w[c] == v[c])
  {
    var slot := h.NewSlot(a, v[a].meta.port, h.NewBucket(a, source));
    VacateCost(h, v, slot);
  }

  /**
    Hearing about an address can only make that address known.  It costs at most
    one other address its place, never a tried one, and leaves everyone else's
    statistics alone.
   */
  lemma AddTheorem(h: Hasher, v: View, a: Address, source: NetAddr, penalty: int, now: int, lucky: bool)
    requires Separated(h, v)
    ensures var w := AddView(h, v, a, source, penalty, now, lucky);
            && w.Keys <= v.Keys + {a.addr} && LosesAtMostOne(v, w) && OnlyNewSuffer(v, w, a.addr)
            && (a.addr in v && Settled(v[a.addr]) ==> a.addr in w)
  {
    hide Separated, Place;
    if h.env.routable(a.addr) {
      if a.addr in v {
        var m := Heard(v[a.addr].meta, a, penalty, now);
        MetaSeparated(h, v, a.addr, m);
        if WorthPlacing(SetMeta(v, a.addr, m)[a.addr], a) {
          PlaceCost(h, SetMeta(v, a.addr, m), a.addr, source, now);
        }
      } else {
        var v1 := v[a.addr := Entry(FirstHeard(a, source, penalty), New({}))];
        AddedSeparated(h, v, a.addr, v1[a.addr].meta);
        PlaceCost(h, v1, a.addr, source, now);
      }
    }
  }

  lemma AddedSeparated(h: Hasher, v: View, a: NetAddr, m: Meta)
    requires Separated(h, v) && a !in v
    ensures Separated(h, v[a := Entry(m, New({}))])
  {
    var w := v[a := Entry(m, New({}))];
    forall x, y, slot | OwnsNew(h, w, x, slot) && OwnsNew(h, w, y, slot) ensures x == y {
      assert OwnsNew(h, v, x, slot) && OwnsNew(h, v, y, slot);
    }
    forall x, y, slot | OwnsTried(h, w, x, slot) && OwnsTried(h, w, y, slot) ensures x == y {
      assert OwnsTried(h, v, x, slot) && OwnsTried(h, v, y, slot);
    }
  }

  /** The cell a new address wants holds a sound entry that is stored nowhere else. */
  ghost predicate Blocked(h: Hasher, v: View, slot: Slot, now: int) {
    exists o :: OwnsNew(h, v, o, slot) && !IsTerrible(v[o].meta, now) && |v[o].loc.buckets| == 1
  }

  /** A new address is stored exactly if its cell is not blocked in this way. */
  lemma AddStoresIff(h: Hasher, v: View, a: Address, source: NetAddr, penalty: int, now: int, lucky: bool)
    requires Separated(h, v) && h.env.routable(a.addr) && a.addr !in v
    ensures a.addr in AddView(h, v, a, source, penalty, now, lucky)
            <==> !Blocked(h, v, h.NewSlot(a.addr, a.port, h.NewBucket(a.addr, source)), now)
  {
    hide Separated, IsTerrible, Vacate;
    var slot := h.NewSlot(a.addr, a.port, h.NewBucket(a.addr, source));
    var w := v[a.addr := Entry(FirstHeard(a, source, penalty), New({}))];
    forall o ensures OwnsNew(h, w, o, slot) <==> OwnsNew(h, v, o, slot) {
    }
    if o :| OwnsNew(h, v, o, slot) {
      OnlyOwner(h, v, o, slot);
      Held(w[o].loc.buckets, slot.0);
    }
  }

  /** An address whose cell is blocked leaves nothing behind. */
  lemma BlockedUnchanged(h: Hasher, v: View, a: Address, source: NetAddr, penalty: int, now: int, lucky: bool)
    requires Separated(h, v) && h.env.routable(a.addr) && a.addr !in v
    requires Blocked(h, v, h.NewSlot(a.addr, a.port, h.NewBucket(a.addr, source)), now)
    ensures AddView(h, v, a, source, penalty, now, lucky) == v
  {
    hide Separated, Place, Blocked;
    AddStoresIff(h, v, a, source, penalty, now, lucky);
    var w := v[a.addr := Entry(FirstHeard(a, source, penalty), New({}))];
    AddedSeparated(h, v, a.addr, w[a.addr].meta);
    PlaceCost(h, w, a.addr, source, now);
  }

  /** The first address of an empty manager is stored in the bucket that its source selects. */
  lemma FirstStored(h: Hasher, a: Address, source: NetAddr, penalty: int, now: int, lucky: bool)
    requires h.env.routable(a.addr)
    ensures AddView(h, map[], a, source, penalty, now, lucky)
         == map[a.addr := Entry(FirstHeard(a, source, penalty), New({h.NewBucket(a.addr, source)}))]
  {
    var e := Entry(FirstHeard(a, source, penalty), New({}));
    var b := h.NewBucket(a.addr, source);
    assert {} + {b} == {b};
    assert AddView(h, map[], a, source, penalty, now, lucky) == Place(h, map[a.addr := e], a.addr, source, now);
  }

  /**
    Two addresses that hash to the same cell, added to a new manager: both calls
    answer that an address was added, but the second address is not there.
   */
  method AddedInVain(now: nat, source: NetAddr, first: NetAddr, second: NetAddr)
    returns (m: AddrMan, answer1: bool, answer2: bool)
    requires 0 < now < 0x1_0000_0000 && first != second
    ensures m.Valid() && answer1 && answer2 && first in m.view && second !in m.view
  {
    hide Rep, Mirrors, NewAddrs, TriedAddrs, AddView, AllSettled, Separated, Blocked, FirstHeard;
    m := new AddrMan(Env(_ => 0, _ => 0, _ => true), 1);
    var a, b := Address(first, 8333, {}, now), Address(second, 8333, {}, now);
    ghost var lucky;
    answer1, lucky := m.Add(a, source, 0, now);
    FirstStored(m.H(), a, source, 0, now, lucky);
    ghost var v := m.view;
    ViewSeparated(m);
    CellBlocked(m.H(), a, source, now, v);
    answer2, lucky := m.Add(b, source, 0, now);
    BlockedUnchanged(m.H(), v, b, source, 0, now, lucky);
  }

  /** A new manager that hears of one address and is cleared describes no view any more. */
  method ClearedInUse(env: Env, key: nat, a: Address, source: NetAddr, now: int) returns (m: AddrMan)
    requires env.routable(a.addr)
    ensures fresh(m) && m.env == env && m.vRandom == [] && !exists v :: Rep(m.H(), m.State(), v)
  {
    hide Rep, Mirrors, NewAddrs, TriedAddrs, AddView, AllSettled, FirstHeard;
    m := new AddrMan(env, key);
    var answer;
    ghost var lucky;
    answer, lucky := m.Add(a, source, 0, now);
    FirstStored(m.H(), a, source, 0, now, lucky);
    KeyFacts(m.H(), m.State(), m.view);
    assert a.addr in m.mapAddr;
    m.Clear(key);
  }

  lemma CellBlocked(h: Hasher, a: Address, source: NetAddr, now: nat, v: View)
    requires a.time == now && 0 < now < 0x1_0000_0000
    requires v == map[a.addr := Entry(FirstHeard(a, source, 0), New({h.NewBucket(a.addr, source)}))]
    ensures Blocked(h, v, h.NewSlot(a.addr, a.port, h.NewBucket(a.addr, source)), now)
  {
    var b := h.NewBucket(a.addr, source);
    assert OwnsNew(h, v, a.addr, h.NewSlot(a.addr, a.port, b));
    assert |{b}| == 1;
  }

  lemma ViewSeparated(m: AddrMan)
    requires m.Valid()
    ensures Separated(m.H(), m.view)
  {
    hide Rep, Separated;
    RepSeparated(m.H(), m.State(), m.view);
  }

  lemma OnlyOwner(h: Hasher, v: View, o: NetAddr, slot: Slot)
    requires Separated(h, v) && OwnsNew(h, v, o, slot)
    ensures forall c | OwnsNew(h, v, c, slot) :: c == o
  {
  }

  lemma Held(s: set<nat>, b: nat)
    requires b in s
    ensures |s| >= 1
  {
  }

  // ----- timestamps

  lemma VacateTimes(h: Hasher, v: View, slot: Slot)
    requires TimesSane(v)
    ensures TimesSane(Vacate(h, v, slot))
  {
  }

  lemma GoodTimes(h: Hasher, v: View, s: Service, t: int)
    requires TimesSane(v) && t > 0
    ensures TimesSane(GoodView(h, v, s, t))
  {
    hide Vacate;
    if s.addr in v {
      var v1 := SetMeta(v, s.addr, v[s.addr].meta.(lastSuccess := t, lastTry := t, attempts := 0));
      var v0 := SetLoc(v1, s.addr, New({}));
      forall o | o in v0 ensures TimesSane(Demote(h, v0, o)) {
        var b := h.NewBucket(o, v0[o].meta.source);
        VacateTimes(h, SetLoc(v0, o, New({})), h.NewSlot(o, v0[o].meta.port, b));
      }
    }
  }

  lemma AddTimes(h: Hasher, v: View, a: Address, source: NetAddr, penalty: int, now: int, lucky: bool)
    requires TimesSane(v)
    ensures TimesSane(AddView(h, v, a, source, penalty, now, lucky))
  {
    hide Vacate;
    forall w: View, slot | TimesSane(w) ensures TimesSane(Vacate(h, w, slot)) {
      VacateTimes(h, w, slot);
    }
  }

  // ----- runs

  datatype Op =
    | AddOp(a: Address, source: NetAddr, penalty: int, now: int)
    | GoodOp(s: Service, t: int)
    | AttemptOp(s: Service, countFailure: bool, t: int)
    | ConnectedOp(s: Service, t: int)
    | ServicesOp(s: Service, services: ServiceFlags)
    | GetAddrOp(now: int)

  predicate PositiveTime(op: Op) {
    match op
    case GoodOp(_, t) => t > 0
    case AttemptOp(_, _, t) => t >= 0
    case _ => true
  }

  /** `w` is what the operation makes of the view `v`, with some random outcome. */
  ghost predicate Steps(h: Hasher, v: View, lastGood: int, op: Op, w: View) {
    match op
    case AddOp(a, source, penalty, now) => exists lucky :: w == AddView(h, v, a, source, penalty, now, lucky)
    case GoodOp(s, t) => w == GoodView(h, v, s, t)
    case AttemptOp(s, countFailure, t) => w == AttemptView(v, s, countFailure, t, lastGood)
    case ConnectedOp(s, t) => w == ConnectedView(v, s, t)
    case ServicesOp(s, services) => w == ServicesView(v, s, services)
    case GetAddrOp(_) => w == v
  }

  /** The time of the last good connection after an operation. */
  function LastGood(lastGood: int, op: Op): int {
    if op.GoodOp? then op.t else lastGood
  }

  method Perform(m: AddrMan, op: Op)
    requires m.Valid()
    modifies m, m.vvNew, m.vvTried
    ensures m.Valid() && m.key == old(m.key) && m.lastGood == LastGood(old(m.lastGood), op)
    ensures Steps(m.H(), old(m.view), old(m.lastGood), op, m.view)
    ensures old(TimesSane(m.view)) && PositiveTime(op) ==> TimesSane(m.view)
  {
    hide Rep, Mirrors, NewAddrs, TriedAddrs, GoodView, AddView;
    match op
    case AddOp(a, source, penalty, now) =>
      var isNew, lucky := m.Add(a, source, penalty, now);
      if old(TimesSane(m.view)) {
        AddTimes(m.H(), old(m.view), a, source, penalty, now, lucky);
      }
    case GoodOp(s, t) =>
      m.Good(s, t);
      if old(TimesSane(m.view)) && t > 0 {
        GoodTimes(m.H(), old(m.view), s, t);
      }
    case AttemptOp(s, countFailure, t) => m.Attempt(s, countFailure, t);
    case ConnectedOp(s, t) => m.Connected(s, t);
    case ServicesOp(s, services) => m.SetServices(s, services);
    case GetAddrOp(now) =>
      var r := m.GetAddr(now);
  }

  function LastGoods(ops: seq<Op>, n: nat): int
    requires n <= |ops|
  {
    if n == 0 then 1 else LastGood(LastGoods(ops, n - 1), ops[n - 1])
  }

  /** The views that the first `n` operations of a run from a fresh manager go through. */
  ghost predicate Trace(h: Hasher, ops: seq<Op>, n: nat, views: seq<View>)
    requires n <= |ops|
  {
    && |views| == n + 1 && views[0] == map[]
    && forall i | 0 <= i < n :: Steps(h, views[i], LastGoods(ops, i), ops[i], views[i + 1])
  }

  lemma TraceNext(h: Hasher, ops: seq<Op>, n: nat, views: seq<View>, w: View)
    requires n < |ops| && Trace(h, ops, n, views) && Steps(h, views[n], LastGoods(ops, n), ops[n], w)
    ensures Trace(h, ops, n + 1, views + [w])
  {
    hide Steps;
  }

  /**
    Any run from a fresh manager, with any random outcomes, goes through the views that
    the operations describe and ends in a state that passes the self check.
   */
  method Run(env: Env, key: nat, ops: seq<Op>) returns (m: AddrMan, err: int, ghost views: seq<View>)
    ensures fresh(m) && m.Valid() && m.env == env && m.key == key
    ensures Trace(Hasher(env, key), ops, |ops|, views) && m.view == views[|ops|]
    ensures key != 0 && (forall op | op in ops :: PositiveTime(op)) ==> err == 0
  {
    hide Rep, Mirrors, NewAddrs, TriedAddrs, AllSettled, Steps, Trace, LastGoods;
    m := new AddrMan(env, key);
    views := [m.view];
    StartTrace(Hasher(env, key), ops);
    for i := 0 to |ops|
      invariant fresh(m) && fresh(m.vvNew) && fresh(m.vvTried)
      invariant m.Valid() && m.key == key && m.lastGood == LastGoods(ops, i)
      invariant |views| == i + 1 && m.view == views[i] && Trace(Hasher(env, key), ops, i, views)
      invariant (forall op | op in ops :: PositiveTime(op)) ==> TimesSane(m.view)
    {
      NextGood(ops, i);
      Perform(m, ops[i]);
      TraceNext(Hasher(env, key), ops, i, views, m.view);
      views := views + [m.view];
    }
    err := AddrCheck.Check(m);
  }

  lemma StartTrace(h: Hasher, ops: seq<Op>)
    ensures Trace(h, ops, 0, [map[]]) && LastGoods(ops, 0) == 1
  {
  }

  lemma NextGood(ops: seq<Op>, n: nat)
    requires n < |ops|
    ensures LastGoods(ops, n + 1) == LastGood(LastGoods(ops, n), ops[n])
  {
  }
}
