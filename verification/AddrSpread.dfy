/**
  How far addresses can spread: a range of addresses reaches few tried buckets, and a
  range of sources few new ones, whatever the hash.  So a peer that controls a few
  ranges cannot fill the tables, over any run.
 */
module AddrSpread {
  import opened AddrTypes
  import opened AddrView
  import opened AddrIndex
  import opened AddrMan
  import opened AddrRuns

  // ----- few buckets

  /** A set whose members are all listed is no larger than the list. */
  lemma {:induction false} ListBound(xs: seq<nat>, s: set<nat>)
    requires forall b | b in s :: b in xs
    ensures |s| <= |xs|
  {
    if xs == [] {
      assert s == {};
    } else {
      var last := xs[|xs| - 1];
      ListBound(xs[..|xs| - 1], s - {last});
      SubsetCard(s, s - {last} + {last});
    }
  }

  lemma {:induction false} SubsetCard<T>(s: set<T>, t: set<T>)
    requires s <= t
    ensures |s| <= |t|
    decreases s
  {
    if s != {} {
      var x :| x in s;
      SubsetCard(s - {x}, t - {x});
    }
  }

  /** The buckets from which those of a range are chosen, `n` of `count`. */
  ghost function Choices(h: Hasher, group: nat, n: nat, count: nat): (r: seq<nat>)
    requires count > 0
    ensures |r| == n
    ensures forall i | 0 <= i < n ::
              h.env.hash([KeyField(h.key), GroupField(group), NumberField(i)]) % count in r
  {
    if n == 0 then []
    else
      Choices(h, group, n - 1, count) + [h.env.hash([KeyField(h.key), GroupField(group), NumberField(n - 1)]) % count]
  }

  /** The tried buckets that an address range selects. */
  ghost function GroupBuckets(h: Hasher, group: nat): (r: seq<nat>)
    ensures |r| == TRIED_BUCKETS_PER_GROUP
    ensures forall a, port | h.env.group(a) == group :: h.TriedBucket(a, port) in r
  {
    Choices(h, group, TRIED_BUCKETS_PER_GROUP, TRIED_BUCKET_COUNT)
  }

  /** The new buckets that a range of sources selects. */
  ghost function SourceBuckets(h: Hasher, group: nat): (r: seq<nat>)
    ensures |r| == NEW_BUCKETS_PER_SOURCE_GROUP
    ensures forall a, source | h.env.group(source) == group :: h.NewBucket(a, source) in r
  {
    Choices(h, group, NEW_BUCKETS_PER_SOURCE_GROUP, NEW_BUCKET_COUNT)
  }

  /** The tried buckets of addresses in one range are at most eight. */
  lemma TriedBucketsPerGroup(h: Hasher, who: set<Service>, group: nat)
    requires forall s | s in who :: h.env.group(s.addr) == group
    ensures |set s | s in who :: h.TriedBucket(s.addr, s.port)| <= 8
  {
    ListBound(GroupBuckets(h, group), set s | s in who :: h.TriedBucket(s.addr, s.port));
  }

  /** An address and the one who told about it. */
  type Report = (NetAddr, NetAddr)

  /** The new buckets that sources in one range select are at most sixty-four. */
  lemma NewBucketsPerSourceGroup(h: Hasher, who: set<Report>, group: nat)
    requires forall r | r in who :: h.env.group(r.1) == group
    ensures |set r | r in who :: h.NewBucket(r.0, r.1)| <= 64
  {
    ListBound(SourceBuckets(h, group), set r | r in who :: h.NewBucket(r.0, r.1));
  }

  /** Addresses of one range that are heard of from one range all go to the same new bucket. */
  lemma SameRangeSameBucket(h: Hasher, a: NetAddr, c: NetAddr, source: NetAddr, other: NetAddr)
    requires h.env.group(a) == h.env.group(c) && h.env.group(source) == h.env.group(other)
    ensures h.NewBucket(a, source) == h.NewBucket(c, other)
  {
  }

  // ----- what the buckets do depend on

  /** A hash that tells one input from all others. */
  function Telling(input: seq<HashField>): seq<HashField> -> nat {
    (s: seq<HashField>) => if s == input then 1 else 0
  }

  function Only(hash: seq<HashField> -> nat, group: NetAddr -> nat, key: nat): Hasher {
    Hasher(Env(hash, group, _ => true), key)
  }

  /** A hash that returns the number it is given last, and otherwise tells one input from all others. */
  function Passing(input: seq<HashField>): seq<HashField> -> nat {
    (s: seq<HashField>) =>
      if |s| > 0 && s[|s| - 1].NumberField? then s[|s| - 1].n else if s == input then 1 else 0
  }

  /** The full address, its port and the key can each decide the tried bucket. */
  lemma TriedBucketDepends(group: NetAddr -> nat, k: nat, a: NetAddr, port: nat, k': nat, a': NetAddr, port': nat)
    requires (k, a, port) != (k', a', port')
    ensures var hash := Passing([KeyField(k), ServiceField(a, port)]);
            Only(hash, group, k).TriedBucket(a, port) != Only(hash, group, k').TriedBucket(a', port')
  {
    var hash := Passing([KeyField(k), ServiceField(a, port)]);
    assert [KeyField(k), ServiceField(a, port)] != [KeyField(k'), ServiceField(a', port')];
    assert hash([KeyField(k'), ServiceField(a', port')]) == 0;
  }

  /** So can the range of the address. */
  lemma TriedBucketDependsOnGroup(group: NetAddr -> nat, k: nat, a: NetAddr, port: nat, a': NetAddr, port': nat)
    requires group(a) != group(a')
    ensures var hash := Telling([KeyField(k), GroupField(group(a)), NumberField(0)]);
            Only(hash, group, k).TriedBucket(a, port) != Only(hash, group, k).TriedBucket(a', port')
  {
    var input := [KeyField(k), GroupField(group(a)), NumberField(0)];
    var other := [KeyField(k), GroupField(group(a')), NumberField(0)];
    assert input[1] != other[1];
    assert [KeyField(k), ServiceField(a, port)] != input && [KeyField(k), ServiceField(a', port')] != input;
  }

  /** The two ranges and the key can each decide the new bucket. */
  lemma NewBucketDepends(group: NetAddr -> nat, k: nat, a: NetAddr, source: NetAddr, k': nat, a': NetAddr,
                         source': NetAddr)
    requires (k, group(a), group(source)) != (k', group(a'), group(source'))
    ensures var hash := Passing([KeyField(k), GroupField(group(a)), GroupField(group(source))]);
            Only(hash, group, k).NewBucket(a, source) != Only(hash, group, k').NewBucket(a', source')
  {
    var input := [KeyField(k), GroupField(group(a)), GroupField(group(source))];
    var other := [KeyField(k'), GroupField(group(a')), GroupField(group(source'))];
    assert input[0] != other[0] || input[1] != other[1] || input[2] != other[2];
    assert Passing(input)(other) == 0;
  }

  /** The sources' range can decide the new bucket even when the choice among its buckets is the same. */
  lemma NewBucketDependsOnSource(group: NetAddr -> nat, k: nat, a: NetAddr, source: NetAddr, a': NetAddr,
                                 source': NetAddr)
    requires group(source) != group(source')
    ensures var hash := Telling([KeyField(k), GroupField(group(source)), NumberField(0)]);
            Only(hash, group, k).NewBucket(a, source) != Only(hash, group, k).NewBucket(a', source')
  {
    var input := [KeyField(k), GroupField(group(source)), NumberField(0)];
    var other := [KeyField(k), GroupField(group(source')), NumberField(0)];
    assert input[1] != other[1];
    assert [KeyField(k), GroupField(group(a)), GroupField(group(source))] != input;
    assert [KeyField(k), GroupField(group(a')), GroupField(group(source'))] != input;
  }

  /** The key, the table, the bucket, the address and the port can each decide the position in a bucket. */
  lemma PositionDepends(group: NetAddr -> nat, k: nat, a: NetAddr, port: nat, inNew: bool, b: nat,
                        k': nat, a': NetAddr, port': nat, inNew': bool, b': nat)
    requires (k, a, port, inNew, b) != (k', a', port', inNew', b')
    ensures exists hash ::
              Only(hash, group, k).Position(a, port, inNew, b) != Only(hash, group, k').Position(a', port', inNew', b')
  {
    var input := [KeyField(k), TagField(if inNew then 'N' else 'K'), NumberField(b), ServiceField(a, port)];
    var other := [KeyField(k'), TagField(if inNew' then 'N' else 'K'), NumberField(b'), ServiceField(a', port')];
    assert input[0] != other[0] || input[1] != other[1] || input[2] != other[2] || input[3] != other[3];
    var hash := Telling(input);
    assert Only(hash, group, k).Position(a, port, inNew, b) == 1;
    assert Only(hash, group, k').Position(a', port', inNew', b') == 0;
  }

  /** A hash that is `p` for a position and `b` for a bucket. */
  function Choosing(b: nat, p: nat): seq<HashField> -> nat {
    (s: seq<HashField>) => if |s| == 4 then p else b
  }

  /** Every cell of the 256 tried buckets can be an address's own. */
  lemma EveryTriedCell(group: NetAddr -> nat, key: nat, a: NetAddr, port: nat, b: nat, p: nat)
    requires b < 256 && p < 64
    ensures Only(Choosing(b, p), group, key).TriedSlot(a, port) == (b, p)
  {
    var h := Only(Choosing(b, p), group, key);
    assert h.TriedBucket(a, port) == b && h.Position(a, port, false, b) == p;
  }

  /** So can every cell of the 1024 new buckets. */
  lemma EveryNewCell(group: NetAddr -> nat, key: nat, a: NetAddr, port: nat, source: NetAddr, b: nat, p: nat)
    requires b < 1024 && p < 64
    ensures var h := Only(Choosing(b, p), group, key); h.NewSlot(a, port, h.NewBucket(a, source)) == (b, p)
  {
    var h := Only(Choosing(b, p), group, key);
    assert h.NewBucket(a, source) == b && h.Position(a, port, true, b) == p;
  }

  // ----- few cells

  /** The cells of the listed buckets. */
  ghost function CellsOf(buckets: seq<nat>): (s: set<int>)
    ensures |s| <= |buckets| * BUCKET_SIZE
    ensures forall b, p | b in buckets && 0 <= p < BUCKET_SIZE :: Cell((b, p)) in s
  {
    if buckets == [] then {}
    else
      var rest, last := buckets[..|buckets| - 1], buckets[|buckets| - 1];
      assert forall b | b in buckets :: b in rest || b == last;
      CellsOf(rest) + Row(last, BUCKET_SIZE)
  }

  ghost function Row(b: nat, n: nat): (s: set<int>)
    ensures |s| <= n
    ensures forall p | 0 <= p < n :: Cell((b, p)) in s
  {
    if n == 0 then {} else Row(b, n - 1) + {Cell((b, n - 1))}
  }

  /** Addresses in different cells of few buckets are few. */
  lemma CellsFew(cell: map<NetAddr, int>, buckets: seq<nat>)
    requires forall a | a in cell :: cell[a] in CellsOf(buckets)
    requires forall a, c | a in cell && c in cell && cell[a] == cell[c] :: a == c
    ensures |cell| <= |buckets| * BUCKET_SIZE
  {
    var used := set a | a in cell :: cell[a];
    SameCount(cell, cell.Keys, used);
    SubsetCard(used, CellsOf(buckets));
  }

  /** The tried addresses of one range. */
  ghost function TriedOf(env: Env, v: View, group: nat): set<NetAddr> {
    set a | a in TriedAddrs(v) && env.group(a) == group
  }

  /** In a consistent manager the tried addresses of one range take at most 512 of the 16384 cells. */
  lemma TriedPerGroup(h: Hasher, v: View, group: nat)
    requires Separated(h, v)
    ensures |TriedOf(h.env, v, group)| <= 8 * 64
  {
    var who := TriedOf(h.env, v, group);
    var buckets := GroupBuckets(h, group);
    var cell := map a | a in who :: Cell(h.TriedSlot(a, v[a].meta.port));
    forall a, c | a in cell && c in cell && cell[a] == cell[c] ensures a == c {
      var s, t := h.TriedSlot(a, v[a].meta.port), h.TriedSlot(c, v[c].meta.port);
      CellInjective(s, t);
      assert OwnsTried(h, v, a, s) && OwnsTried(h, v, c, t);
    }
    forall a | a in cell ensures cell[a] in CellsOf(buckets) {
      assert h.TriedBucket(a, v[a].meta.port) in buckets;
    }
    CellsFew(cell, buckets);
    assert cell.Keys == who;
  }

  // ----- few sources

  /** The new buckets that the ranges select. */
  ghost function RangeBuckets(h: Hasher, groups: set<nat>): (r: seq<nat>)
    ensures |r| == |groups| * NEW_BUCKETS_PER_SOURCE_GROUP
    ensures forall g, b | g in groups && b in SourceBuckets(h, g) :: b in r
  {
    if groups == {} then []
    else
      var g :| g in groups;
      RangeBuckets(h, groups - {g}) + SourceBuckets(h, g)
  }

  /** Everything in `v` was heard from the ranges `groups`, and is only where these put it. */
  ghost predicate Confined(h: Hasher, v: View, groups: set<nat>) {
    forall a | a in v :: ConfinedEntry(h, v[a], groups)
  }

  ghost predicate ConfinedEntry(h: Hasher, e: Entry, groups: set<nat>) {
    h.env.group(e.meta.source) in groups && forall b | b in Buckets(e) :: b in RangeBuckets(h, groups)
  }

  lemma BucketConfined(h: Hasher, a: NetAddr, source: NetAddr, groups: set<nat>)
    requires h.env.group(source) in groups
    ensures h.NewBucket(a, source) in RangeBuckets(h, groups)
  {
    assert h.NewBucket(a, source) in SourceBuckets(h, h.env.group(source));
  }

  lemma VacateConfined(h: Hasher, v: View, slot: Slot, groups: set<nat>)
    requires Confined(h, v, groups)
    ensures Confined(h, Vacate(h, v, slot), groups)
  {
    hide RangeBuckets;
    var w := Vacate(h, v, slot);
    forall a | a in w ensures ConfinedEntry(h, w[a], groups) {
      assert ConfinedEntry(h, v[a], groups);
    }
  }

  lemma DemoteConfined(h: Hasher, v: View, o: NetAddr, groups: set<nat>)
    requires Confined(h, v, groups) && o in v
    ensures Confined(h, Demote(h, v, o), groups)
  {
    hide RangeBuckets, Vacate;
    assert ConfinedEntry(h, v[o], groups);
    var b := h.NewBucket(o, v[o].meta.source);
    BucketConfined(h, o, v[o].meta.source, groups);
    VacateConfined(h, SetLoc(v, o, New({})), h.NewSlot(o, v[o].meta.port, b), groups);
  }

  lemma MetaConfined(h: Hasher, v: View, a: NetAddr, m: Meta, groups: set<nat>)
    requires Confined(h, v, groups) && a in v && m.source == v[a].meta.source
    ensures Confined(h, SetMeta(v, a, m), groups)
  {
    hide RangeBuckets;
    assert ConfinedEntry(h, v[a], groups);
  }

  lemma GoodConfined(h: Hasher, v: View, s: Service, t: int, groups: set<nat>)
    requires Confined(h, v, groups)
    ensures Confined(h, GoodView(h, v, s, t), groups)
  {
    hide RangeBuckets, Demote;
    if s.addr in v && v[s.addr].meta.port == s.port {
      var m := v[s.addr].meta.(lastSuccess := t, lastTry := t, attempts := 0);
      MetaConfined(h, v, s.addr, m, groups);
      var v1 := SetMeta(v, s.addr, m);
      assert ConfinedEntry(h, v1[s.addr], groups);
      var v0 := SetLoc(v1, s.addr, New({}));
      assert Confined(h, v0, groups);
      forall o | o in v0 ensures Confined(h, Demote(h, v0, o), groups) {
        DemoteConfined(h, v0, o, groups);
      }
    }
  }

  lemma PlaceConfined(h: Hasher, v: View, a: NetAddr, source: NetAddr, now: int, groups: set<nat>)
    requires Confined(h, v, groups) && a in v && v[a].loc.New? && h.env.group(source) in groups
    ensures Confined(h, Place(h, v, a, source, now), groups)
  {
    hide RangeBuckets, Vacate;
    assert ConfinedEntry(h, v[a], groups);
    var b := h.NewBucket(a, source);
    BucketConfined(h, a, source, groups);
    VacateConfined(h, v, h.NewSlot(a, v[a].meta.port, b), groups);
  }

  lemma AddConfined(h: Hasher, v: View, a: Address, source: NetAddr, penalty: int, now: int, lucky: bool,
                    groups: set<nat>)
    requires Confined(h, v, groups) && h.env.group(source) in groups
    ensures Confined(h, AddView(h, v, a, source, penalty, now, lucky), groups)
  {
    hide RangeBuckets, Place;
    if a.addr in v {
      var m := Heard(v[a.addr].meta, a, penalty, now);
      MetaConfined(h, v, a.addr, m, groups);
      var w := SetMeta(v, a.addr, m);
      if WorthPlacing(w[a.addr], a) {
        PlaceConfined(h, w, a.addr, source, now, groups);
      }
    } else {
      PlaceConfined(h, v[a.addr := Entry(FirstHeard(a, source, penalty), New({}))], a.addr, source, now, groups);
    }
  }

  /** Only addresses from the ranges `groups` tell about addresses. */
  predicate From(h: Hasher, op: Op, groups: set<nat>) {
    op.AddOp? ==> h.env.group(op.source) in groups
  }

  lemma StepConfined(h: Hasher, v: View, lastGood: int, op: Op, w: View, groups: set<nat>)
    requires Confined(h, v, groups) && From(h, op, groups) && Steps(h, v, lastGood, op, w)
    ensures Confined(h, w, groups)
  {
    hide RangeBuckets, AddView, GoodView, Confined;
    match op
    case AddOp(a, source, penalty, now) =>
      var lucky :| w == AddView(h, v, a, source, penalty, now, lucky);
      AddConfined(h, v, a, source, penalty, now, lucky, groups);
    case GoodOp(s, t) => GoodConfined(h, v, s, t, groups);
    case AttemptOp(s, countFailure, t) =>
      if w != v {
        MetaConfined(h, v, s.addr, w[s.addr].meta, groups);
      }
    case ConnectedOp(s, t) =>
      if w != v {
        MetaConfined(h, v, s.addr, w[s.addr].meta, groups);
      }
    case ServicesOp(s, services) =>
      if w != v {
        MetaConfined(h, v, s.addr, w[s.addr].meta, groups);
      }
    case GetAddrOp(_) =>
  }

  lemma {:induction false} RunConfined(h: Hasher, ops: seq<Op>, n: nat, views: seq<View>, groups: set<nat>)
    requires n <= |ops| && Trace(h, ops, n, views) && forall op | op in ops :: From(h, op, groups)
    ensures Confined(h, views[n], groups)
  {
    hide RangeBuckets, Steps;
    if n > 0 {
      RunConfined(h, ops, n - 1, views[..n], groups);
      assert Steps(h, views[n - 1], LastGoods(ops, n - 1), ops[n - 1], views[n]);
      StepConfined(h, views[n - 1], LastGoods(ops, n - 1), ops[n - 1], views[n], groups);
    }
  }

  /** What was heard from few ranges takes few cells. */
  lemma ConfinedFew(h: Hasher, v: View, groups: set<nat>)
    requires Separated(h, v) && AllSettled(v) && Confined(h, v, groups)
    ensures |NewAddrs(v)| <= |groups| * 64 * 64
  {
    hide RangeBuckets;
    var buckets := RangeBuckets(h, groups);
    var cell := map a | a in NewAddrs(v) :: Cell(h.NewSlot(a, v[a].meta.port, SomeBucket(v[a])));
    forall a, c | a in cell && c in cell && cell[a] == cell[c] ensures a == c {
      var s, t := h.NewSlot(a, v[a].meta.port, SomeBucket(v[a])), h.NewSlot(c, v[c].meta.port, SomeBucket(v[c]));
      CellInjective(s, t);
      assert OwnsNew(h, v, a, s) && OwnsNew(h, v, c, t);
    }
    forall a | a in cell ensures cell[a] in CellsOf(buckets) {
      assert ConfinedEntry(h, v[a], groups);
    }
    CellsFew(cell, buckets);
    assert cell.Keys == NewAddrs(v);
  }

  /**
    Over any run, peers from `k` address ranges put at most 4096 * k new addresses into
    the table of 65536, and each range of addresses has at most 512 tried ones of 16384.
   */
  method RunFew(env: Env, key: nat, ops: seq<Op>, groups: set<nat>) returns (m: AddrMan)
    requires forall op | op in ops :: From(Hasher(env, key), op, groups)
    ensures fresh(m) && m.Valid() && m.env == env && m.nNew <= |groups| * 4096
    ensures forall g :: |TriedOf(env, m.view, g)| <= 512
  {
    hide Rep, Separated, AllSettled, Confined, NewAddrs, TriedAddrs, Trace;
    var err;
    ghost var views;
    m, err, views := Run(env, key, ops);
    ViewSeparated(m);
    RunConfined(Hasher(env, key), ops, |ops|, views, groups);
    ConfinedFew(Hasher(env, key), m.view, groups);
    forall g ensures |TriedOf(env, m.view, g)| <= 512 {
      TriedPerGroup(Hasher(env, key), m.view, g);
    }
  }
}
