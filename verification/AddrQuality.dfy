/** What the statistics of addresses mean: when one is given up, and what a run can do to them. */
module AddrQuality {

  import opened Basics
  import opened AddrTypes
  import opened AddrView
  import opened AddrRuns

  // ----- addresses that are given up

  /** What was given up stays so as time passes, unless its time lies in the future. */
  lemma Aging(m: Meta, now: int, later: int)
    requires now <= later && IsTerrible(m, now) && m.time <= now + 10 * 60
    ensures IsTerrible(m, later)
  {
  }

  /** More failures never help. */
  lemma MoreFailures(m: Meta, attempts: nat, now: int)
    requires IsTerrible(m, now) && attempts >= m.attempts
    ensures IsTerrible(m.(attempts := attempts), now)
  {
  }

  /** An address that was never tried is given up once nobody has seen it for 30 days. */
  lemma Unseen(m: Meta, now: int)
    requires m.lastTry == 0 && m.attempts == 0 && 0 < m.time <= now
    ensures IsTerrible(m, now) <==> now > m.time + 2592000
  {
  }

  /** So it is if it claims to be seen more than ten minutes from now. */
  lemma FromTheFuture(m: Meta, now: int)
    requires m.lastTry == 0 && m.attempts == 0 && m.time >= now > 0
    ensures IsTerrible(m, now) <==> m.time > now + 600
  {
  }

  /** An address seen lately that never worked is given up after three failures. */
  lemma NeverWorked(m: Meta, now: int)
    requires m.lastTry == 0 && m.lastSuccess == 0 && m.time == now > 0
    ensures IsTerrible(m, now) <==> m.attempts >= 3
  {
  }

  /** One that worked before is given up after ten failures if that was more than a week ago. */
  lemma WorkedBefore(m: Meta, now: int)
    requires m.lastTry == 0 && m.lastSuccess != 0 && m.time == now > 0
    ensures IsTerrible(m, now) <==> m.attempts >= 10 && now > m.lastSuccess + 604800
  {
  }

  /** Nothing is given up within a minute after it was tried. */
  lemma TriedJustNow(m: Meta, now: int)
    requires m.lastTry != 0 && m.time == 0
    ensures IsTerrible(m, now) <==> now > m.lastTry + 60
  {
  }

  // ----- single operations

  /** Between two good connections an address gets one failure at most. */
  lemma OneFailure(v: View, s: Service, t: int, later: int, lastGood: int)
    requires s.addr in v && t >= lastGood
    ensures var w := AttemptView(v, s, true, t, lastGood);
            && v[s.addr].meta.attempts <= w[s.addr].meta.attempts <= v[s.addr].meta.attempts + 1
            && AttemptView(w, s, true, later, lastGood)[s.addr].meta.attempts == w[s.addr].meta.attempts
  {
  }

  /** A failure is counted exactly if asked for and the last one is older than the last good connection. */
  lemma CountedIff(v: View, s: Service, countFailure: bool, t: int, lastGood: int)
    requires s.addr in v && v[s.addr].meta.port == s.port
    ensures var m, n := v[s.addr].meta, AttemptView(v, s, countFailure, t, lastGood)[s.addr].meta;
            && n.lastTry == t && (n.attempts == m.attempts + 1 || n.attempts == m.attempts)
            && (n.attempts == m.attempts + 1 <==> countFailure && m.lastCountAttempt < lastGood)
            && (n.attempts != m.attempts ==> n.lastCountAttempt == t)
  {
  }

  /** A connected address counts as seen within the last twenty minutes, and its time is left alone if it was. */
  lemma SeenConnected(v: View, s: Service, t: int)
    requires s.addr in v && v[s.addr].meta.port == s.port && 0 <= t < TWO_32
    ensures var m, n := v[s.addr].meta, ConnectedView(v, s, t)[s.addr].meta;
            && n.time >= t - 1200 && n.time >= m.time
            && (n.time == m.time <==> m.time >= t - 1200) && n == m.(time := n.time)
  {
  }

  /** Only the exact service is touched. */
  lemma OthersUntouched(v: View, s: Service, countFailure: bool, t: int, lastGood: int, services: ServiceFlags,
                        a: NetAddr)
    requires a in v && (a != s.addr || v[a].meta.port != s.port)
    ensures a in AttemptView(v, s, countFailure, t, lastGood) && AttemptView(v, s, countFailure, t, lastGood)[a] == v[a]
    ensures a in ConnectedView(v, s, t) && ConnectedView(v, s, t)[a] == v[a]
    ensures a in ServicesView(v, s, services) && ServicesView(v, s, services)[a] == v[a]
  {
  }

  /**
    Hearing about an address never makes it look older, nor newer than the peer says
    less the penalty; afterwards it is at most a day behind that, or an hour if the peer
    has seen it within a day.
   */
  lemma HeardTime(m: Meta, a: Address, penalty: nat, now: int)
    requires 0 < a.time < TWO_32
    ensures var n := Heard(m, a, penalty, now);
            && m.time <= n.time <= Max(m.time, a.time - penalty)
            && n.time >= a.time - penalty - 86400
            && (now < a.time + 86400 ==> n.time >= a.time - penalty - 3600)
            && n == m.(time := n.time, services := m.services + a.services)
  {
  }

  lemma FirstTime(a: Address, source: NetAddr, penalty: nat)
    requires a.time < TWO_32
    ensures FirstHeard(a, source, penalty)
         == Meta(a.port, a.services, Max(0, a.time - penalty), source, 0, 0, 0, 0)
  {
  }

  /** Of an address that is known only the statistics change, unless it gets one more reference: at most the eighth. */
  lemma HeardAgain(h: Hasher, v: View, a: Address, source: NetAddr, penalty: nat, now: int, lucky: bool)
    requires Separated(h, v) && a.addr in v && Settled(v[a.addr]) && h.env.routable(a.addr) && a.time < TWO_32
    ensures var w := AddView(h, v, a, source, penalty, now, lucky);
            && a.addr in w
            && (w[a.addr].loc != v[a.addr].loc ==>
                  && lucky && v[a.addr].loc.New? && |v[a.addr].loc.buckets| < 8 && a.time > v[a.addr].meta.time
                  && w[a.addr].loc == New(v[a.addr].loc.buckets + {h.NewBucket(a.addr, source)}))
            && (w[a.addr].loc == v[a.addr].loc ==> forall x | x in v && x != a.addr :: x in w && w[x] == v[x])
  {
    hide Separated, IsTerrible, Vacate, Heard;
    var m := Heard(v[a.addr].meta, a, penalty, now);
    HeardNotOlder(v[a.addr].meta, a, penalty, now);
    var w := SetMeta(v, a.addr, m);
    assert w[a.addr].loc == v[a.addr].loc;
  }

  lemma HeardNotOlder(m: Meta, a: Address, penalty: nat, now: int)
    requires a.time < TWO_32
    ensures Heard(m, a, penalty, now).time >= m.time
  {
  }

  /** Hearing about addresses makes the manager forget only what is to be given up. */
  lemma OnlyTerribleForgotten(h: Hasher, v: View, a: Address, source: NetAddr, penalty: int, now: int, lucky: bool,
                              x: NetAddr)
    requires Separated(h, v) && x in v && x != a.addr && x !in AddView(h, v, a, source, penalty, now, lucky)
    ensures IsTerrible(v[x].meta, now)
  {
    hide Separated, IsTerrible, Place;
    var w := if a.addr in v then SetMeta(v, a.addr, Heard(v[a.addr].meta, a, penalty, now))
             else v[a.addr := Entry(FirstHeard(a, source, penalty), New({}))];
    if a.addr in v {
      MetaSeparated(h, v, a.addr, w[a.addr].meta);
    } else {
      AddedSeparated(h, v, a.addr, w[a.addr].meta);
    }
    PlaceForgets(h, w, a.addr, source, now, x);
  }

  /** An address that has a reference already takes another one only from what is to be given up. */
  lemma OnlyTerribleDisplaced(h: Hasher, v: View, a: Address, source: NetAddr, penalty: int, now: int, lucky: bool,
                              x: NetAddr)
    requires Separated(h, v) && a.addr in v && Settled(v[a.addr]) && x in v && x != a.addr
    requires var w := AddView(h, v, a, source, penalty, now, lucky); x !in w || w[x] != v[x]
    ensures IsTerrible(v[x].meta, now)
  {
    hide Separated, IsTerrible, Place;
    var w := SetMeta(v, a.addr, Heard(v[a.addr].meta, a, penalty, now));
    MetaSeparated(h, v, a.addr, w[a.addr].meta);
    PlaceDisplaces(h, w, a.addr, source, now, x);
  }

  lemma PlaceDisplaces(h: Hasher, v: View, a: NetAddr, source: NetAddr, now: int, x: NetAddr)
    requires Separated(h, v) && a in v && v[a].loc.New? && v[a].loc.buckets != {} && x in v && x != a
    requires var w := Place(h, v, a, source, now); x !in w || w[x] != v[x]
    ensures IsTerrible(v[x].meta, now)
  {
    hide Separated, IsTerrible;
    var slot := h.NewSlot(a, v[a].meta.port, h.NewBucket(a, source));
    assert OwnsNew(h, v, x, slot);
    OnlyOwner(h, v, x, slot);
  }

  lemma PlaceForgets(h: Hasher, v: View, a: NetAddr, source: NetAddr, now: int, x: NetAddr)
    requires Separated(h, v) && a in v && v[a].loc.New? && x in v && x != a && x !in Place(h, v, a, source, now)
    ensures IsTerrible(v[x].meta, now)
  {
    hide Separated, IsTerrible;
    var slot := h.NewSlot(a, v[a].meta.port, h.NewBucket(a, source));
    assert OwnsNew(h, v, x, slot) && v[x].loc.buckets == {slot.0};
    OnlyOwner(h, v, x, slot);
    assert |v[x].loc.buckets| == 1;
  }

  // ----- runs

  /** An entry keeps its failures and the time of the last counted one. */
  predicate SameFailures(m: Meta, n: Meta) {
    m.attempts == n.attempts && m.lastCountAttempt == n.lastCountAttempt
  }

  lemma PlaceStatistics(h: Hasher, v: View, a: NetAddr, source: NetAddr, now: int)
    requires a in v && v[a].loc.New?
    ensures forall x | x in Place(h, v, a, source, now) :: x in v && Place(h, v, a, source, now)[x].meta == v[x].meta
  {
  }

  lemma PromoteStatistics(h: Hasher, v: View, a: NetAddr)
    requires a in v
    ensures forall x | x in Promote(h, v, a) :: x in v && Promote(h, v, a)[x].meta == v[x].meta
  {
  }

  lemma AddFailures(h: Hasher, v: View, a: Address, source: NetAddr, penalty: int, now: int, lucky: bool, x: NetAddr)
    requires x in AddView(h, v, a, source, penalty, now, lucky)
    ensures var m := AddView(h, v, a, source, penalty, now, lucky)[x].meta;
            if x in v then SameFailures(m, v[x].meta) else m.attempts == 0
  {
    hide Place;
    if h.env.routable(a.addr) {
      if a.addr in v {
        var w := SetMeta(v, a.addr, Heard(v[a.addr].meta, a, penalty, now));
        if w[a.addr].loc.New? {
          PlaceStatistics(h, w, a.addr, source, now);
        }
      } else {
        PlaceStatistics(h, v[a.addr := Entry(FirstHeard(a, source, penalty), New({}))], a.addr, source, now);
      }
    }
  }

  lemma GoodFailures(h: Hasher, v: View, s: Service, t: int, x: NetAddr)
    requires x in GoodView(h, v, s, t)
    ensures var m := GoodView(h, v, s, t)[x].meta;
            && x in v && m.lastCountAttempt == v[x].meta.lastCountAttempt
            && (m.attempts == v[x].meta.attempts || m.attempts == 0)
  {
    hide Promote;
    if s.addr in v && v[s.addr].meta.port == s.port && !v[s.addr].loc.Tried? {
      var w := SetMeta(v, s.addr, v[s.addr].meta.(lastSuccess := t, lastTry := t, attempts := 0));
      PromoteStatistics(h, w, s.addr);
    }
  }

  /** How many good connections there were. */
  function Goods(ops: seq<Op>, n: nat): nat
    requires n <= |ops|
  {
    if n == 0 then 0 else Goods(ops, n - 1) + if ops[n - 1].GoodOp? then 1 else 0
  }

  /** No attempt is dated before the last good connection. */
  predicate Clocked(ops: seq<Op>) {
    forall i | 0 <= i < |ops| :: ops[i].AttemptOp? ==> ops[i].t >= LastGoods(ops, i)
  }

  /** The failures of an entry, and the one that can still be counted. */
  predicate FewFailures(m: Meta, lastGood: int, goods: nat) {
    m.attempts + (if m.lastCountAttempt < lastGood then 1 else 0) <= 1 + goods
  }

  lemma StepFailures(h: Hasher, v: View, lastGood: int, op: Op, w: View, goods: nat, x: NetAddr)
    requires Steps(h, v, lastGood, op, w) && (op.AttemptOp? ==> op.t >= lastGood)
    requires x in w && (x in v ==> FewFailures(v[x].meta, lastGood, goods))
    ensures FewFailures(w[x].meta, LastGood(lastGood, op), goods + if op.GoodOp? then 1 else 0)
  {
    hide AddView, GoodView;
    match op
    case AddOp(a, source, penalty, now) =>
      var lucky :| w == AddView(h, v, a, source, penalty, now, lucky);
      AddFailures(h, v, a, source, penalty, now, lucky, x);
    case GoodOp(s, t) => GoodFailures(h, v, s, t, x);
    case _ =>
  }

  /**
    Over any run from an empty manager no address has more failures than there were
    good connections, and one: while nothing can be reached, no address suffers.
   */
  lemma {:induction false} FailuresBounded(h: Hasher, ops: seq<Op>, views: seq<View>, n: nat, x: NetAddr)
    requires Trace(h, ops, |ops|, views) && Clocked(ops) && n <= |ops| && x in views[n]
    ensures FewFailures(views[n][x].meta, LastGoods(ops, n), Goods(ops, n))
    ensures views[n][x].meta.attempts <= 1 + Goods(ops, n)
    decreases n
  {
    hide Steps;
    if n > 0 {
      if x in views[n - 1] {
        FailuresBounded(h, ops, views, n - 1, x);
      }
      NextGood(ops, n - 1);
      StepFailures(h, views[n - 1], LastGoods(ops, n - 1), ops[n - 1], views[n], Goods(ops, n - 1), x);
    }
  }
}
