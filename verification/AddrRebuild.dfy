/**
  Loading an address manager from any stream, item by item: ids, the random order, the
  tried table and the reference counts are rebuilt while the stream is read.  Settles
  when a stream that can be read gives a consistent manager, and when the caller's
  `Clear` makes a consistent one of what a refused stream leaves behind.
 */
module AddrRebuild {
  import opened Basics
  import opened AddrTypes
  import opened AddrView
  import opened AddrIndex
  import opened AddrMan
  import opened AddrCodec
  import opened AddrStream
  import opened AddrLoad
  import opened AddrRaw

  /** A record before it is read. */
  const BLANK: AddrInfo := AddrInfo(NetAddr(0), Meta(0, {}, 100000000, NetAddr(0), 0, 0, 0, 0), 0, false, -1)

  // ----- reading on

  /** `part` is what is left of reading `whole` after its first `n` values. */
  ghost predicate Continues<T>(whole: Option<(seq<T>, seq<Item>)>, n: nat, part: Option<(seq<T>, seq<Item>)>) {
    && (whole.Some? <==> part.Some?)
    && (whole.Some? ==>
          && n <= |whole.value.0| && part.value.0 == whole.value.0[n..] && part.value.1 == whole.value.1)
  }

  lemma RecordNext(whole: Option<(seq<Saved>, seq<Item>)>, n: nat, k: int, rest: seq<Item>)
    requires Continues(whole, n, ReadRecords(k, rest)) && k > 0
    ensures rest == [] || !rest[0].Record? ==> whole.None?
    ensures rest != [] && rest[0].Record? ==> Continues(whole, n + 1, ReadRecords(k - 1, rest[1..]))
    ensures rest != [] && rest[0].Record? && whole.Some? ==> n < |whole.value.0| && whole.value.0[n] == rest[0].r
  {
    if whole.Some? {
      var part := ReadRecords(k, rest).value.0;
      assert part == [rest[0].r] + ReadRecords(k - 1, rest[1..]).value.0;
      assert part[0] == whole.value.0[n];
      assert whole.value.0[n + 1..] == part[1..];
    }
  }

  lemma NumberNext(whole: Option<(seq<int>, seq<Item>)>, n: nat, k: int, rest: seq<Item>)
    requires Continues(whole, n, ReadNumbers(k, rest)) && k > 0
    ensures rest == [] || !rest[0].Int32? ==> whole.None?
    ensures rest != [] && rest[0].Int32? ==> Continues(whole, n + 1, ReadNumbers(k - 1, rest[1..]))
    ensures rest != [] && rest[0].Int32? && whole.Some? ==> n < |whole.value.0| && whole.value.0[n] == rest[0].i
  {
    if whole.Some? {
      var part := ReadNumbers(k, rest).value.0;
      assert part == [rest[0].i] + ReadNumbers(k - 1, rest[1..]).value.0;
      assert part[0] == whole.value.0[n];
      assert whole.value.0[n + 1..] == part[1..];
    }
  }

  // ----- loading

  /** One new record, with a reference from its own source's bucket if need be and if there is room. */
  method StoreNew(m: AddrMan, n: nat, x: Saved, orphaned: bool)
    requires m.Shape()
    modifies m`mapInfo, m`mapAddr, m`vRandom, m`newTab, m.vvNew
    ensures m.Shape() && n in m.mapInfo
    ensures m.State().(idCount := n + 1) == FillNew(m.H(), old(m.State()).(idCount := n), x, orphaned)
  {
    hide Mirrors;
    m.mapInfo := m.mapInfo[n := AddrInfo(x.addr, Load(x), 0, false, |m.vRandom|)];
    m.mapAddr := m.mapAddr[x.addr := n];
    m.vRandom := m.vRandom + [n];
    if orphaned {
      var b := Hasher(m.env, m.key).NewBucket(x.addr, x.source);
      var p := Hasher(m.env, m.key).Position(x.addr, x.port, true, b);
      NewCell(m, b, p);
      if m.vvNew[b, p] == -1 {
        Write(m.vvNew, m.newTab, b, p, n);
        m.newTab := Written(m.newTab, b, p, n);
        m.mapInfo := m.mapInfo[n := m.mapInfo[n].(refCount := m.mapInfo[n].refCount + 1)];
      }
    }
  }

  lemma NewCell(m: AddrMan, b: int, p: int)
    requires m.Shape() && 0 <= b < NEW_BUCKET_COUNT && 0 <= p < BUCKET_SIZE
    ensures m.vvNew[b, p] == -1 <==> (b, p) !in m.newTab
  {
  }

  lemma TriedTableCell(m: AddrMan, b: int, p: int)
    requires m.Shape() && 0 <= b < TRIED_BUCKET_COUNT && 0 <= p < BUCKET_SIZE
    ensures m.vvTried[b, p] == -1 <==> (b, p) !in m.triedTab
  {
  }

  /** All new records; a record is there, blank, before it is read. */
  method ReadNews(m: AddrMan, s: seq<Item>, orphaned: bool) returns (ok: bool, rest: seq<Item>)
    requires m.Shape() && m.State() == NOTHING
    modifies m`mapInfo, m`mapAddr, m`vRandom, m`newTab, m.vvNew
    ensures m.Shape()
    ensures ok <==> ReadRecords(m.nNew, s).Some?
    ensures ok ==> var r := ReadRecords(m.nNew, s).value;
                   rest == r.1 && m.State() == NewsIndex(m.H(), r.0, |r.0|, orphaned).(idCount := 0)
    ensures !ok ==> m.mapInfo != map[]
  {
    hide FillNew, Mirrors, ReadRecords;
    rest := s;
    ghost var whole := ReadRecords(m.nNew, s);
    var n := 0;
    while n < m.nNew
      invariant m.Shape() && 0 <= n && (n <= m.nNew || n == 0)
      invariant Continues(whole, n, ReadRecords(m.nNew - n, rest))
      invariant whole.Some? ==> m.State().(idCount := n) == NewsIndex(m.H(), whole.value.0, n, orphaned)
      invariant m.idCount == 0
    {
      RecordNext(whole, n, m.nNew - n, rest);
      ghost var before := m.State();
      m.mapInfo := m.mapInfo[n := BLANK];
      assert n in m.mapInfo;
      if rest == [] || !rest[0].Record? {
        return false, rest;
      }
      Overwritten(m.H(), before.(idCount := n), rest[0].r, orphaned);
      StoreNew(m, n, rest[0].r, orphaned);
      rest := rest[1..];
      n := n + 1;
    }
    ok := true;
    NothingLeft(m.nNew - n, rest);
  }

  lemma Overwritten(h: Hasher, s: Index, x: Saved, orphaned: bool)
    ensures FillNew(h, s.(info := s.info[s.idCount := BLANK]), x, orphaned) == FillNew(h, s, x, orphaned)
  {
    assert Appended(s.(info := s.info[s.idCount := BLANK]), x) == Appended(s, x);
  }

  lemma NothingLeft(k: int, rest: seq<Item>)
    requires k <= 0
    ensures ReadRecords(k, rest) == Some(([], rest)) && ReadNumbers(k, rest) == Some(([], rest))
  {
  }

  /** A record is stored as tried if its cell is free, and lost otherwise. */
  method StoreTried(m: AddrMan, x: Saved) returns (lost: bool)
    requires m.Shape()
    modifies m`mapInfo, m`mapAddr, m`vRandom, m`idCount, m`triedTab, m.vvTried
    ensures m.Shape() && m.State() == FillTried(m.H(), old(m.State()), x)
    ensures lost <==> TriedSlotOf(m.H(), x) in old(m.triedTab)
    ensures m.idCount == old(m.idCount) + if lost then 0 else 1
    ensures if lost then m.State() == old(m.State()) else m.mapInfo.Keys == old(m.mapInfo.Keys) + {old(m.idCount)}
  {
    hide Mirrors;
    var kb := Hasher(m.env, m.key).TriedBucket(x.addr, x.port);
    var kp := Hasher(m.env, m.key).Position(x.addr, x.port, false, kb);
    TriedTableCell(m, kb, kp);
    lost := m.vvTried[kb, kp] != -1;
    if !lost {
      var id := m.idCount;
      var info := AddrInfo(x.addr, Load(x), 0, true, |m.vRandom|);
      m.vRandom := m.vRandom + [id];
      m.mapInfo := m.mapInfo[id := info];
      m.mapAddr := m.mapAddr[x.addr := id];
      Write(m.vvTried, m.triedTab, kb, kp, id);
      m.triedTab := Written(m.triedTab, kb, kp, id);
      m.idCount := id + 1;
    }
  }

  method ReadTrieds(m: AddrMan, s: seq<Item>) returns (ok: bool, rest: seq<Item>, nLost: int)
    requires m.Shape() && m.triedTab == map[]
    modifies m`mapInfo, m`mapAddr, m`vRandom, m`idCount, m`triedTab, m.vvTried
    ensures m.Shape()
    ensures ok <==> ReadRecords(m.nTried, s).Some?
    ensures ok ==> var r := ReadRecords(m.nTried, s).value;
                   rest == r.1 && m.State() == TriedsIndex(m.H(), old(m.State()), r.0, |r.0|)
                   && nLost == |r.0| - (m.idCount - old(m.idCount))
    ensures old(m.mapInfo.Keys) <= m.mapInfo.Keys
    ensures m.nTried <= 0 || s == [] || !s[0].Record? ==> m.mapInfo == old(m.mapInfo) && m.mapAddr == old(m.mapAddr)
    ensures m.nTried > 0 && s != [] && s[0].Record? ==> m.mapInfo != map[]
  {
    hide FillTried, Mirrors, ReadRecords, TriedSlotOf;
    rest, nLost := s, 0;
    ghost var whole := ReadRecords(m.nTried, s);
    var n := 0;
    while n < m.nTried
      invariant m.Shape() && 0 <= n && (n <= m.nTried || n == 0)
      invariant Continues(whole, n, ReadRecords(m.nTried - n, rest))
      invariant whole.Some? ==> m.State() == TriedsIndex(m.H(), old(m.State()), whole.value.0, n)
      invariant nLost == n - (m.idCount - old(m.idCount))
      invariant n == 0 ==> rest == s && m.State() == old(m.State())
      invariant old(m.mapInfo.Keys) <= m.mapInfo.Keys
      invariant n > 0 ==> m.mapInfo != map[] && s != [] && s[0].Record?
    {
      RecordNext(whole, n, m.nTried - n, rest);
      if rest == [] || !rest[0].Record? {
        return false, rest, nLost;
      }
      var lost := StoreTried(m, rest[0].r);
      nLost := nLost + if lost then 1 else 0;
      rest := rest[1..];
      n := n + 1;
    }
    ok := true;
    NothingLeft(m.nTried - n, rest);
  }

  /** A reference to a new record counts if its cell is free and it has fewer than eight. */
  method StoreRef(m: AddrMan, b: nat, index: int)
    requires m.Shape() && b < NEW_BUCKET_COUNT && 0 <= index < m.nNew && index in m.mapInfo
    modifies m`mapInfo, m`newTab, m.vvNew
    ensures m.Shape() && m.State() == FillRef(m.H(), old(m.State()), m.nNew, b, index)
    ensures m.mapInfo.Keys == old(m.mapInfo.Keys)
  {
    hide Mirrors;
    var info := m.mapInfo[index];
    var pos := Hasher(m.env, m.key).Position(info.addr, info.meta.port, true, b);
    NewCell(m, b, pos);
    if m.vvNew[b, pos] == -1 && info.refCount < NEW_BUCKETS_PER_ADDRESS {
      m.mapInfo := m.mapInfo[index := info.(refCount := info.refCount + 1)];
      Write(m.vvNew, m.newTab, b, pos, index);
      m.newTab := Written(m.newTab, b, pos, index);
    }
  }

  /** The references from one bucket. */
  method ReadRow(m: AddrMan, s: seq<Item>, b: nat, size: int, orphaned: bool) returns (ok: bool, rest: seq<Item>)
    requires m.Shape() && (forall k | 0 <= k < m.nNew :: k in m.mapInfo) && (orphaned || b < NEW_BUCKET_COUNT)
    modifies m`mapInfo, m`newTab, m.vvNew
    ensures m.Shape() && m.mapInfo.Keys == old(m.mapInfo.Keys)
    ensures ok <==> ReadNumbers(size, s).Some?
    ensures ok ==> var r := ReadNumbers(size, s).value;
                   rest == r.1 && m.State() == if orphaned then old(m.State())
                                               else RowIndex(m.H(), old(m.State()), m.nNew, b, r.0, |r.0|)
  {
    hide FillRef, Mirrors, ReadNumbers;
    rest := s;
    ghost var whole := ReadNumbers(size, s);
    var n := 0;
    while n < size
      invariant m.Shape() && 0 <= n && (n <= size || n == 0) && m.mapInfo.Keys == old(m.mapInfo.Keys)
      invariant Continues(whole, n, ReadNumbers(size - n, rest))
      invariant whole.Some? ==> m.State() == if orphaned then old(m.State())
                                             else RowIndex(m.H(), old(m.State()), m.nNew, b, whole.value.0, n)
    {
      NumberNext(whole, n, size - n, rest);
      if rest == [] || !rest[0].Int32? {
        return false, rest;
      }
      var index := rest[0].i;
      if 0 <= index < m.nNew && !orphaned {
        StoreRef(m, b, index);
      } else {
        NoRef(m.H(), m.State(), m.nNew, b, index);
      }
      rest := rest[1..];
      n := n + 1;
    }
    ok := true;
    NothingLeft(size - n, rest);
  }

  lemma NoRef(h: Hasher, s: Index, nNew: int, b: nat, k: int)
    ensures !(0 <= k < nNew) ==> FillRef(h, s, nNew, b, k) == s
  {
  }

  /** `part` is what is left of reading the rows `whole` after the first `n` rows. */
  ghost predicate RowsContinue(whole: Option<seq<seq<int>>>, n: nat, part: Option<seq<seq<int>>>) {
    && (whole.Some? <==> part.Some?)
    && (whole.Some? ==> n <= |whole.value| && part.value == whole.value[n..])
  }

  lemma RowNext(whole: Option<seq<seq<int>>>, n: nat, k: int, rest: seq<Item>)
    requires RowsContinue(whole, n, ReadRows(k, rest)) && k > 0
    ensures rest == [] || !rest[0].Int32? ==> whole.None?
    ensures rest != [] && rest[0].Int32? ==>
              match ReadNumbers(rest[0].i, rest[1..])
              case None => whole.None?
              case Some((row, tail)) =>
                && RowsContinue(whole, n + 1, ReadRows(k - 1, tail))
                && (whole.Some? ==> n < |whole.value| && whole.value[n] == row)
  {
    if whole.Some? {
      var part := ReadRows(k, rest).value;
      var (row, tail) := ReadNumbers(rest[0].i, rest[1..]).value;
      assert part == [row] + ReadRows(k - 1, tail).value;
      assert part[0] == whole.value[n];
      assert whole.value[n + 1..] == part[1..];
    }
  }

  /** The references from all buckets; they are read but not used if the table has another form. */
  method ReadTable(m: AddrMan, s: seq<Item>, buckets: int, orphaned: bool) returns (ok: bool)
    requires m.Shape() && (forall k | 0 <= k < m.nNew :: k in m.mapInfo)
    requires orphaned || buckets == NEW_BUCKET_COUNT
    modifies m`mapInfo, m`newTab, m.vvNew
    ensures m.Shape() && m.mapInfo.Keys == old(m.mapInfo.Keys)
    ensures ok <==> ReadRows(buckets, s).Some?
    ensures ok ==> var rows := ReadRows(buckets, s).value;
                   m.State() == if orphaned then old(m.State())
                                else RowsIndex(m.H(), old(m.State()), m.nNew, rows, |rows|)
  {
    hide RowIndex, Mirrors, ReadRows, ReadNumbers;
    var rest := s;
    ghost var whole := ReadRows(buckets, s);
    var bucket := 0;
    while bucket < buckets
      invariant m.Shape() && 0 <= bucket && (bucket <= buckets || bucket == 0)
      invariant m.mapInfo.Keys == old(m.mapInfo.Keys)
      invariant RowsContinue(whole, bucket, ReadRows(buckets - bucket, rest))
      invariant whole.Some? ==> m.State() == if orphaned then old(m.State())
                                             else RowsIndex(m.H(), old(m.State()), m.nNew, whole.value, bucket)
    {
      RowNext(whole, bucket, buckets - bucket, rest);
      if rest == [] || !rest[0].Int32? {
        return false;
      }
      ok, rest := ReadRow(m, rest[1..], bucket, rest[0].i, orphaned);
      if !ok {
        return;
      }
      bucket := bucket + 1;
    }
    ok := true;
    NoRowsLeft(buckets - bucket, rest);
  }

  lemma NoRowsLeft(k: int, rest: seq<Item>)
    requires k <= 0
    ensures ReadRows(k, rest) == Some([])
  {
  }

  /** Drop new records that got no reference, in the order of their ids. */
  method Prune(m: AddrMan) returns (nLostUnk: int)
    requires m.Shape() && Ordered(m.State()) && Min(m.nNew, 0) <= m.idCount
    requires forall id | id in m.mapInfo :: Min(m.nNew, 0) <= id
    modifies m`vRandom, m`mapInfo, m`mapAddr, m`nNew, m`view
    ensures m.Shape() && RepRandom(m.State())
    ensures PrunedTo(old(m.State()), m.State(), m.idCount)
    ensures nLostUnk >= 0 && m.nNew == old(m.nNew) - nLostUnk
    ensures |NewIds(m.State())| == |old(NewIds(m.State()))| - nLostUnk
  {
    hide Mirrors, RepRandom, NewIds, PrunedTo;
    nLostUnk := 0;
    ghost var s := m.State();
    PrunedStart(s, Min(m.nNew, 0));
    for id := Min(m.nNew, 0) to m.idCount
      invariant m.Shape() && RepRandom(m.State()) && PrunedTo(s, m.State(), id)
      invariant nLostUnk >= 0
      invariant m.nNew == old(m.nNew) - nLostUnk && |NewIds(m.State())| == |NewIds(s)| - nLostUnk
    {
      ghost var t := m.State();
      if id in m.mapInfo && !m.mapInfo[id].inTried && m.mapInfo[id].refCount == 0 {
        m.Delete(id);
        nLostUnk := nLostUnk + 1;
        PrunedDrop(s, t, m.State(), id);
      } else {
        PrunedKeep(s, t, id);
      }
    }
  }

  lemma PrunedStart(s: Index, first: int)
    requires forall id | id in s.info :: first <= id
    ensures PrunedTo(s, s, first)
  {
    assert LooseAddrs(s, first) == {};
  }

  lemma PrunedKeep(s: Index, t: Index, id: int)
    requires PrunedTo(s, t, id) && (id in t.info ==> !Loose(t.info[id]))
    ensures PrunedTo(s, t, id + 1)
  {
    assert LooseAddrs(s, id + 1) == LooseAddrs(s, id) by {
      assert id in s.info ==> !Loose(s.info[id]);
    }
  }

  lemma PrunedDrop(s: Index, t: Index, t': Index, id: int)
    requires PrunedTo(s, t, id) && id in t.info && Loose(t.info[id])
    requires SameRecords(t.info - {id}, t'.info) && t'.ids == t.ids - {t.info[id].addr}
    requires t'.newTab == t.newTab && t'.triedTab == t.triedTab && t'.idCount == t.idCount
    ensures PrunedTo(s, t', id + 1) && |NewIds(t')| == |NewIds(t)| - 1
  {
    assert id in s.info && Loose(s.info[id]);
    forall a ensures a in LooseAddrs(s, id + 1) <==> a in LooseAddrs(s, id) + {s.info[id].addr} {
    }
    forall k ensures k in NewIds(t') <==> k in NewIds(t) - {id} {
      if k in t.info && k != id {
        assert (t.info - {id})[k] == t.info[k];
      }
    }
    assert NewIds(t') == NewIds(t) - {id};
    assert id in NewIds(t);
  }

  // ----- what a stream leaves behind

  /** The manager is consistent and shows `v`. */
  ghost predicate Fits(m: AddrMan, v: View)
    reads m
  {
    && Rep(m.H(), m.State(), v) && AllSettled(v)
    && m.nNew == |NewAddrs(v)| && m.nTried == |TriedAddrs(v)|
  }

  /** The counts are counts, and records with the same address are all without a reference. */
  ghost predicate Sound(h: Hasher, c: Content) {
    c.nNew >= 0 && c.nTried >= 0 && Harmless(FilledIndex(h, c))
  }

  /** Reading fails before a first record is there. */
  predicate NothingStored(s: seq<Item>) {
    !HeaderOk(s) || (s[3].i <= 0 && (s[4].i <= 0 || |s| == 6 || !s[6].Record?))
  }

  /** What the indexes satisfy after reading and pruning. */
  ghost predicate Rebuilt(m: AddrMan, c: Content)
    reads m
  {
    && PrunedTo(FilledIndex(m.H(), c), m.State(), m.idCount) && RepRandom(m.State())
    && |c.news| == Max(0, c.nNew) && |c.trieds| == Max(0, c.nTried) && |c.rows| == Max(0, c.buckets)
    && (c.nNew < 0 ==> m.nNew < 0) && (c.nTried < 0 ==> m.nTried < 0)
    && (c.nNew >= 0 && c.nTried >= 0 ==> m.nNew == |NewIds(m.State())| && m.nTried == |TriedIds(m.State())|)
  }

  /** The manager is consistent exactly if the stream is sound. */
  lemma SoundIff(m: AddrMan, c: Content)
    requires Rebuilt(m, c)
    ensures (exists v :: Fits(m, v)) <==> Sound(m.H(), c)
    ensures Sound(m.H(), c) ==> Fits(m, ViewOf(m.H(), m.State()))
  {
    hide Rep, PrunedTo, FilledIndex, Harmless, NewIds, TriedIds, NewAddrs, TriedAddrs, AllSettled, IdsMatch;
    hide Tidy, Named, Serial, RepRandom, ViewOf;
    var h, t := m.H(), m.State();
    if v :| Fits(m, v) {
      assert c.nNew >= 0 && c.nTried >= 0;
      assert Rep(h, t, v);
    }
    if c.nNew >= 0 && c.nTried >= 0 {
      var s := FilledIndex(h, c);
      FilledStage(h, c);
      SameIdCount(s, t, m.idCount);
      StageFacts(h, s);
      PrunedIds(s, t);
      PrunedTidy(h, s, t);
      ViewIff(h, t);
      if IdsMatch(t) {
        CountedIds(h, t, ViewOf(h, t));
        SettledView(h, t);
        assert Fits(m, ViewOf(h, t));
      }
      assert Sound(h, c) <==> IdsMatch(t);
    }
  }

  lemma SameIdCount(s: Index, t: Index, n: int)
    requires PrunedTo(s, t, n)
    ensures s.idCount == t.idCount
  {
  }

  lemma StageFacts(h: Hasher, s: Index)
    requires Tidy(h, s)
    ensures Ordered(s)
  {
  }

  lemma SettledView(h: Hasher, t: Index)
    requires Tidy(h, t) && forall id | id in t.info :: !Loose(t.info[id])
    ensures AllSettled(ViewOf(h, t))
  {
    var v := ViewOf(h, t);
    forall a | a in v ensures Settled(v[a]) {
      var id := t.ids[a];
      assert !Loose(t.info[id]) && t.info[id].refCount == |Held(h, t, id)|;
    }
  }

  /** Read the header; nothing is stored yet. */
  method ReadHeader(m: AddrMan, s: seq<Item>, randomKey: nat) returns (ok: bool)
    requires m.Shape() && m.mapInfo == map[] && m.mapAddr == map[]
    modifies m, m.vvNew, m.vvTried
    ensures m.Shape() && m.State() == NOTHING && (ok <==> HeaderOk(s))
    ensures ok ==> m.key == s[2].n && m.nNew == s[3].i && m.nTried == s[4].i
  {
    m.Clear(randomKey);
    ok := HeaderOk(s);
    if ok {
      m.key := s[2].n;
      m.nNew := s[3].i;
      m.nTried := s[4].i;
    }
  }

  /** Read the header and all records, or fail on the way. */
  method ReadLists(m: AddrMan, s: seq<Item>, randomKey: nat) returns (ok: bool, rest: seq<Item>)
    requires m.Shape() && m.mapInfo == map[] && m.mapAddr == map[]
    modifies m, m.vvNew, m.vvTried
    ensures m.Shape() && (ok <==> Listing(s).Some?)
    ensures m.mapInfo == map[] && m.mapAddr == map[] <==> NothingStored(s)
    ensures ok ==> var (c, rest') := Listing(s).value;
                   && rest == rest' && m.key == c.key && m.State() == ListedIndex(m.H(), c)
                   && m.nNew == c.nNew && m.nTried == c.nTried - (|c.trieds| - (m.idCount - c.nNew))
  {
    hide ReadRecords, NewsIndex, TriedsIndex, Mirrors, FlipBit30;
    rest := [];
    ok := ReadHeader(m, s, randomKey);
    if !ok {
      return;
    }
    var nUBuckets := if s[0].b != 0 then FlipBit30(s[5].i) else s[5].i;
    var nLost;
    ok, rest := ReadNews(m, s[6..], s[0].b != 1 || nUBuckets != NEW_BUCKET_COUNT);
    if !ok {
      if m.nNew <= 0 {
        NothingLeft(m.nNew, s[6..]);
      }
      return;
    }
    NewsThere(m.H(), s, s[0].b != 1 || nUBuckets != NEW_BUCKET_COUNT);
    m.idCount := m.nNew;
    ok, rest, nLost := ReadTrieds(m, rest);
    if ok {
      m.nTried := m.nTried - nLost;
    }
  }

  /** New records are there unless the header announces none. */
  lemma NewsThere(h: Hasher, s: seq<Item>, orphaned: bool)
    requires HeaderOk(s) && ReadRecords(s[3].i, s[6..]).Some?
    ensures var (news, rest) := ReadRecords(s[3].i, s[6..]).value;
            var t := NewsIndex(h, news, |news|, orphaned);
            && t.triedTab == map[]
            && if s[3].i <= 0 then rest == s[6..] && t == NOTHING else 0 in t.info
  {
    hide ReadRecords, NewsIndex, Tidy, Named;
    RecordsCount(s[3].i, s[6..]);
    var (news, rest) := ReadRecords(s[3].i, s[6..]).value;
    NewsStage(h, news, |news|, orphaned);
    if s[3].i <= 0 {
      NothingLeft(s[3].i, s[6..]);
      NoNews(h, news, orphaned);
    }
  }

  lemma NoNews(h: Hasher, news: seq<Saved>, orphaned: bool)
    ensures NewsIndex(h, news, 0, orphaned) == NOTHING
  {
  }

  /** How reading goes on after the records. */
  lemma ListingFacts(s: seq<Item>)
    requires Listing(s).Some?
    ensures HeaderOk(s)
    ensures var (c, rest) := Listing(s).value;
            && c.version == s[0].b && c.buckets == (if s[0].b != 0 then FlipBit30(s[5].i) else s[5].i)
            && |c.news| == Max(0, c.nNew) && |c.trieds| == Max(0, c.nTried)
            && Parse(s) == (if ReadRows(c.buckets, rest).None? then None
                            else Some(c.(rows := ReadRows(c.buckets, rest).value)))
  {
    hide ReadRecords, ReadRows, FlipBit30;
    RecordsCount(s[3].i, s[6..]);
    RecordsCount(s[4].i, ReadRecords(s[3].i, s[6..]).value.1);
  }

  /** The references do not change which records there are. */
  lemma SameLists(h: Hasher, c: Content, rows: seq<seq<int>>)
    ensures ListedIndex(h, c.(rows := rows)) == ListedIndex(h, c)
    ensures |c.trieds| == 0 ==> ListedIndex(h, c).idCount == c.nNew
  {
  }

  /** Read and store everything, or fail on the way. */
  method ReadAll(m: AddrMan, s: seq<Item>, randomKey: nat) returns (ok: bool)
    requires m.Shape() && m.mapInfo == map[] && m.mapAddr == map[]
    modifies m, m.vvNew, m.vvTried
    ensures m.Shape() && (ok <==> Parse(s).Some?)
    ensures ok ==> m.key == Parse(s).value.key && Rebuilt(m, Parse(s).value) && m.view == ViewOf(m.H(), m.State())
    ensures !ok ==> (m.mapInfo == map[] && m.mapAddr == map[] <==> NothingStored(s))
  {
    hide ReadRecords, ReadRows, Listing, Parse, ListedIndex, RowsIndex, Mirrors, Rebuilt, NothingStored, Ordered;
    hide PrunedTo, NewIds, TriedIds, RepRandom, FlipBit30, ViewOf;
    var rest;
    ok, rest := ReadLists(m, s, randomKey);
    if !ok {
      NoListing(s);
      return;
    }
    ListingFacts(s);
    var nUBuckets := if s[0].b != 0 then FlipBit30(s[5].i) else s[5].i;
    var orphaned := s[0].b != 1 || nUBuckets != NEW_BUCKET_COUNT;
    ListedIds(m.H(), Listing(s).value.0);
    ok := ReadTable(m, rest, nUBuckets, orphaned);
    if !ok {
      return;
    }
    ghost var c := Parse(s).value;
    RowsCount(nUBuckets, rest);
    SameLists(m.H(), Listing(s).value.0, c.rows);
    ghost var t := m.State();
    assert t == FilledIndex(m.H(), c);
    FilledOrdered(m.H(), c);
    var nLostUnk := Prune(m);
    m.view := ViewOf(m.H(), m.State());
    RebuiltFacts(m, c, nLostUnk);
  }

  lemma NoListing(s: seq<Item>)
    requires Listing(s).None?
    ensures Parse(s).None?
  {
  }

  lemma RebuiltFacts(m: AddrMan, c: Content, nLostUnk: int)
    requires PrunedTo(FilledIndex(m.H(), c), m.State(), m.idCount) && RepRandom(m.State()) && nLostUnk >= 0
    requires |c.news| == Max(0, c.nNew) && |c.trieds| == Max(0, c.nTried) && |c.rows| == Max(0, c.buckets)
    requires m.nNew == c.nNew - nLostUnk && |NewIds(m.State())| == |NewIds(FilledIndex(m.H(), c))| - nLostUnk
    requires m.nTried == c.nTried - (|c.trieds| - (m.idCount - c.nNew)) && m.idCount == ListedIndex(m.H(), c).idCount
    ensures Rebuilt(m, c)
  {
    hide PrunedTo, FilledIndex, ListedIndex, RepRandom, NewIds, TriedIds, Named;
    SameLists(m.H(), c, c.rows);
    if c.nNew >= 0 && c.nTried >= 0 {
      var s := FilledIndex(m.H(), c);
      FilledStage(m.H(), c);
      CountedLists(s, c.news);
      PrunedTriedIds(s, m.State(), m.idCount);
    }
  }

  /** The counts are counts and no address occurs twice. */
  ghost predicate NoRepeats(c: Content) {
    c.nNew >= 0 && c.nTried >= 0 && Apart(c.news, c.trieds)
  }

  lemma NoRepeatsView(m: AddrMan, c: Content)
    requires Rebuilt(m, c) && NoRepeats(c)
    ensures Rep(m.H(), m.State(), LoadedView(m.H(), c))
    ensures ViewOf(m.H(), m.State()) == LoadedView(m.H(), c)
    ensures Sound(m.H(), c)
  {
    hide PrunedTo, FilledIndex, FilledView, RepRandom, NewIds, TriedIds, Rep, Apart, Pruned, ViewOf;
    var s := FilledIndex(m.H(), c);
    FilledRep(m.H(), c);
    SameIdCount(s, m.State(), m.idCount);
    PrunedRep(m.H(), s, FilledView(m.H(), c), m.State());
    ViewUnique(m.H(), m.State(), LoadedView(m.H(), c));
    FilledStage(m.H(), c);
    PrunedIds(s, m.State());
  }

  /**
    Load any stream into an address manager that holds nothing.  It is refused exactly
    if it cannot be read.  A stream that can be read leaves the indexes it describes,
    without records that got no reference; they are consistent exactly if the stream
    is sound, and show what it says if no address occurs twice.  A refused stream
    leaves both maps empty exactly if reading fails before a first record is there.
   */
  method Unserialize(m: AddrMan, s: seq<Item>, randomKey: nat) returns (ok: bool)
    requires m.Shape() && m.mapInfo == map[] && m.mapAddr == map[]
    modifies m, m.vvNew, m.vvTried
    ensures m.Shape() && (ok <==> Parse(s).Some?)
    ensures ok ==> m.key == Parse(s).value.key && Rebuilt(m, Parse(s).value)
    ensures ok ==> ((exists v :: Fits(m, v)) <==> Sound(m.H(), Parse(s).value))
    ensures ok && Sound(m.H(), Parse(s).value) ==> m.Valid()
    ensures ok && NoRepeats(Parse(s).value) ==> m.Valid() && m.view == LoadedView(m.H(), Parse(s).value)
    ensures !ok ==> (m.mapInfo == map[] && m.mapAddr == map[] <==> NothingStored(s))
  {
    hide Rebuilt, Parse, NothingStored, Mirrors, Rep, AllSettled, NewAddrs, TriedAddrs, NoRepeats, Sound, ViewOf;
    hide LoadedView;
    ok := ReadAll(m, s, randomKey);
    if ok {
      ghost var c := Parse(s).value;
      SoundIff(m, c);
      if NoRepeats(c) {
        NoRepeatsView(m, c);
      }
    }
  }

  /**
    Load the manager at start, and clear it if that fails.  It is consistent afterwards
    exactly if the stream was accepted and sound, or was refused before a first record
    was there.
   */
  method Read(m: AddrMan, s: seq<Item>, loadKey: nat, clearKey: nat) returns (ok: bool)
    requires m.Shape() && m.mapInfo == map[] && m.mapAddr == map[]
    modifies m, m.vvNew, m.vvTried
    ensures m.Shape() && (ok <==> Parse(s).Some?) && (ok ==> m.key == Parse(s).value.key)
    ensures (exists v :: Fits(m, v)) <==> if ok then Sound(m.H(), Parse(s).value) else NothingStored(s)
    ensures (exists v :: Fits(m, v)) ==> m.Valid()
    ensures ok && NoRepeats(Parse(s).value) ==> m.Valid() && m.view == LoadedView(m.H(), Parse(s).value)
    ensures !ok && NothingStored(s) ==> m.view == map[]
  {
    hide Rebuilt, Parse, NothingStored, Mirrors, Rep, AllSettled, NewAddrs, TriedAddrs, NoRepeats, Sound, LoadedView;
    ok := Unserialize(m, s, loadKey);
    if !ok {
      m.Clear(clearKey);
      if v :| Fits(m, v) {
        assert Rep(m.H(), m.State(), v);
      }
      if m.Valid() {
        assert Fits(m, m.view);
      }
    }
  }

  // ----- streams that leave an inconsistent manager

  /** A stream that announces one new record and ends. */
  function Truncated(key: nat): seq<Item> {
    [Item.Byte(1), Item.Byte(32), Hash256(key), Int32(1), Int32(0), Int32(FlipBit30(NEW_BUCKET_COUNT))]
  }

  /** It is refused, and after the caller's `Clear` the manager is not consistent. */
  method ReadTruncated(env: Env, key: nat) returns (m: AddrMan, ok: bool)
    ensures fresh(m) && m.env == env && !ok && !exists v :: Fits(m, v)
  {
    hide Mirrors, Rep, FlipBit30;
    m := new AddrMan(env, key);
    ok := Read(m, Truncated(key), key, key);
  }

  /** A stream of an old version with the same record twice, both new. */
  function Repeated(key: nat, x: Saved): seq<Item> {
    [Item.Byte(0), Item.Byte(32), Hash256(key), Int32(2), Int32(0), Int32(0), Record(x), Record(x)]
  }

  lemma RepeatedParsed(key: nat, x: Saved)
    ensures Parse(Repeated(key, x)) == Some(Content(0, key, 2, 0, 0, [x, x], [], []))
  {
    var s := Repeated(key, x);
    assert s[6..] == Records([x, x]) + [];
    RecordsRead([x, x], []);
  }

  /** The second record finds the cell taken; dropping it makes the first one unknown. */
  lemma RepeatedHarms(h: Hasher, x: Saved)
    ensures !Harmless(FilledIndex(h, Content(0, h.key, 2, 0, 0, [x, x], [], [])))
  {
    hide OwnSlot;
    var c := Content(0, h.key, 2, 0, 0, [x, x], [], []);
    var s1 := FillNew(h, NOTHING, x, true);
    var s2 := FillNew(h, s1, x, true);
    assert NewsIndex(h, c.news, 0, true) == NOTHING;
    assert NewsIndex(h, c.news, 1, true) == s1;
    assert NewsIndex(h, c.news, 2, true) == s2;
    assert s1.newTab == map[OwnSlot(h, x) := 0] && s2.info[0].refCount == 1;
    assert FilledIndex(h, c) == s2;
    assert 0 in s2.info && 1 in s2.info && s2.info[0].addr == s2.info[1].addr && !Loose(s2.info[0]);
  }

  /** It is accepted, and the manager is not consistent. */
  method ReadRepeated(env: Env, key: nat, x: Saved) returns (m: AddrMan, ok: bool)
    ensures fresh(m) && m.env == env && ok && !exists v :: Fits(m, v)
  {
    hide Mirrors, Rep, Repeated, Parse, Harmless, FilledIndex;
    m := new AddrMan(env, key);
    RepeatedParsed(key, x);
    RepeatedHarms(Hasher(env, key), x);
    ok := Read(m, Repeated(key, x), key, key);
  }

  // ----- loading what was saved

  /**
    Saving a consistent manager and loading the result into a fresh one gives a
    consistent manager with the same key, the same entries in the same buckets
    and the same counters; only the memory-only statistics start afresh.
   */
  method SaveAndLoad(m: AddrMan, randomKey: nat) returns (copy: AddrMan, ok: bool)
    requires m.Valid()
    ensures ok && fresh(copy) && copy.Valid()
    ensures copy.env == m.env && copy.key == m.key
    ensures copy.view == Reloaded(m.view)
    ensures copy.nNew == m.nNew && copy.nTried == m.nTried
  {
    hide Rep, Mirrors, NewAddrs, TriedAddrs, Settled, Separated, Lists, ListsBucket;
    hide Reloaded, Stream, Parse, LoadedView, Apart, Rebuilt, NothingStored;
    var s, news, trieds, rows := Serialize(m);
    RepSeparated(m.H(), m.State(), m.view);
    ReloadedFacts(m.view);
    Capacity(m.H(), m.view);
    DescribedApart(m.view, news, trieds, rows);
    StreamRead(m.key, news, trieds, rows);
    SavedLoaded(m.H(), m.view, news, trieds, rows);
    copy := new AddrMan(m.env, randomKey);
    ok := Unserialize(copy, s, randomKey);
    assert copy.H() == m.H();
  }
}
