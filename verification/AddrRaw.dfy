/**
  What loading does to the indexes, whatever the stream contains.  An address may occur
  twice, so that the indexes need not describe any view; what they do satisfy is stated
  by id (`Tidy`), and when they describe a view is settled by `PrunedIds` and `ViewIff`.
 */
module AddrRaw {
  import opened Basics
  import opened AddrTypes
  import opened AddrView
  import opened AddrIndex
  import opened AddrMan
  import opened AddrCodec
  import opened AddrStream
  import opened AddrLoad

  const NOTHING: Index := Index(map[], map[], [], map[], map[], 0)

  /** A record of the stream, stored under the next id. */
  function Appended(s: Index, x: Saved): Index {
    s.(info := s.info[s.idCount := AddrInfo(x.addr, Load(x), 0, false, |s.random|)],
       ids := s.ids[x.addr := s.idCount],
       random := s.random + [s.idCount],
       idCount := s.idCount + 1)
  }

  function FillNew(h: Hasher, s: Index, x: Saved, orphaned: bool): Index {
    if orphaned && OwnSlot(h, x) !in s.newTab then Linked(Appended(s, x), s.idCount, OwnSlot(h, x))
    else Appended(s, x)
  }

  function NewsIndex(h: Hasher, news: seq<Saved>, n: nat, orphaned: bool): Index
    requires n <= |news|
  {
    if n == 0 then NOTHING else FillNew(h, NewsIndex(h, news, n - 1, orphaned), news[n - 1], orphaned)
  }

  /** A tried record is stored under the next id if its cell looks empty. */
  function FillTried(h: Hasher, s: Index, x: Saved): Index {
    var slot := TriedSlotOf(h, x);
    if slot in s.triedTab then s
    else
      var s' := Appended(s, x);
      s'.(info := s'.info[s.idCount := s'.info[s.idCount].(inTried := true)],
          triedTab := Written(s.triedTab, slot.0, slot.1, s.idCount))
  }

  function TriedsIndex(h: Hasher, s: Index, trieds: seq<Saved>, n: nat): Index
    requires n <= |trieds|
  {
    if n == 0 then s else FillTried(h, TriedsIndex(h, s, trieds, n - 1), trieds[n - 1])
  }

  /** The cell of a record in bucket `b`. */
  function CellIn(h: Hasher, i: AddrInfo, b: nat): Slot {
    h.NewSlot(i.addr, i.meta.port, b)
  }

  /** The cell of a record in the tried table. */
  function TriedCell(h: Hasher, i: AddrInfo): Slot {
    h.TriedSlot(i.addr, i.meta.port)
  }

  /** A reference from bucket `b` to the record `k`, one of the first `nNew`. */
  function FillRef(h: Hasher, s: Index, nNew: int, b: nat, k: int): Index {
    if 0 <= k < nNew && k in s.info && CellIn(h, s.info[k], b) !in s.newTab
       && s.info[k].refCount < NEW_BUCKETS_PER_ADDRESS
    then Linked(s, k, CellIn(h, s.info[k], b))
    else s
  }

  function RowIndex(h: Hasher, s: Index, nNew: int, b: nat, row: seq<int>, n: nat): Index
    requires n <= |row|
  {
    if n == 0 then s else FillRef(h, RowIndex(h, s, nNew, b, row, n - 1), nNew, b, row[n - 1])
  }

  function RowsIndex(h: Hasher, s: Index, nNew: int, rows: seq<seq<int>>, n: nat): Index
    requires n <= |rows|
  {
    if n == 0 then s
    else RowIndex(h, RowsIndex(h, s, nNew, rows, n - 1), nNew, n - 1, rows[n - 1], |rows[n - 1]|)
  }

  /** All records of the stream, in its order. */
  function ListedIndex(h: Hasher, c: Content): Index {
    TriedsIndex(h, NewsIndex(h, c.news, |c.news|, c.Orphaned()).(idCount := c.nNew), c.trieds, |c.trieds|)
  }

  /** The indexes just before records without a reference are dropped. */
  function FilledIndex(h: Hasher, c: Content): Index {
    if c.Orphaned() then ListedIndex(h, c) else RowsIndex(h, ListedIndex(h, c), c.nNew, c.rows, |c.rows|)
  }

  /** A new record without a reference. */
  predicate Loose(i: AddrInfo) {
    !i.inTried && i.refCount == 0
  }

  ghost function LooseAddrs(s: Index, n: int): set<NetAddr> {
    set id | id in s.info && id < n && Loose(s.info[id]) :: s.info[id].addr
  }

  /** `t` is `s` without the loose records below `n`; their addresses are forgotten. */
  ghost predicate PrunedTo(s: Index, t: Index, n: int) {
    && t.newTab == s.newTab && t.triedTab == s.triedTab && t.idCount == s.idCount
    && (forall id | id in t.info :: id in s.info && t.info[id] == s.info[id].(randomPos := t.info[id].randomPos))
    && (forall id | id in s.info :: id in t.info <==> !(id < n && Loose(s.info[id])))
    && t.ids == s.ids - LooseAddrs(s, n)
  }

  // ----- what holds by id

  ghost predicate Ordered(s: Index) {
    RepRandom(s) && forall id | id in s.info :: id < s.idCount
  }

  /** The buckets in which the record `id` is found. */
  ghost function Held(h: Hasher, s: Index, id: int): set<nat>
    requires id in s.info
  {
    set b: nat | b < NEW_BUCKET_COUNT && HeldIn(h, s, id, b)
  }

  predicate HeldIn(h: Hasher, s: Index, id: int, b: nat)
    requires id in s.info
  {
    CellIn(h, s.info[id], b) in s.newTab && s.newTab[CellIn(h, s.info[id], b)] == id
  }

  /** The new table holds new records in cells of theirs. */
  ghost predicate TidyNew(h: Hasher, s: Index) {
    forall slot | slot in s.newTab ::
      && s.newTab[slot] in s.info && !s.info[s.newTab[slot]].inTried
      && 0 <= slot.0 < NEW_BUCKET_COUNT && slot == CellIn(h, s.info[s.newTab[slot]], slot.0)
  }

  /** References are counted right. */
  ghost predicate TidyCounts(h: Hasher, s: Index) {
    forall id | id in s.info :: s.info[id].refCount == |Held(h, s, id)| <= NEW_BUCKETS_PER_ADDRESS
  }

  /** The tried table holds exactly the tried records, each in its cell. */
  ghost predicate TidyTried(h: Hasher, s: Index) {
    && (forall slot | slot in s.triedTab ::
          && s.triedTab[slot] in s.info && s.info[s.triedTab[slot]].inTried
          && slot == TriedCell(h, s.info[s.triedTab[slot]]))
    && (forall id | id in s.info && s.info[id].inTried ::
          TriedCell(h, s.info[id]) in s.triedTab && s.triedTab[TriedCell(h, s.info[id])] == id)
  }

  ghost predicate Tidy(h: Hasher, s: Index) {
    && Ordered(s) && TidyNew(h, s) && TidyCounts(h, s) && TidyTried(h, s)
    && s.idCount >= 0 && forall id | id in s.info :: id >= 0
  }

  /** An address names the last of its records. */
  ghost predicate Named(s: Index) {
    && (forall id | id in s.info :: s.info[id].addr in s.ids && id <= s.ids[s.info[id].addr])
    && (forall a | a in s.ids :: s.ids[a] in s.info && s.info[s.ids[a]].addr == a)
  }

  /** The first `n` ids are the new records in order, and all others are tried. */
  ghost predicate Serial(s: Index, news: seq<Saved>, n: nat)
    requires n <= |news|
  {
    && (forall k | 0 <= k < n ::
          k in s.info && s.info[k].addr == news[k].addr && s.info[k].meta == Load(news[k]) && !s.info[k].inTried)
    && (forall id | id in s.info && !s.info[id].inTried :: 0 <= id < n)
    && (forall id | n <= id < s.idCount :: id in s.info && s.info[id].inTried)
  }

  /** A record that nothing refers to yet leaves the counts right. */
  lemma CountsGrow(h: Hasher, s: Index, s': Index, id: int)
    requires TidyNew(h, s) && TidyCounts(h, s) && id !in s.info && s'.newTab == s.newTab
    requires id in s'.info && s'.info == s.info[id := s'.info[id]] && s'.info[id].refCount == 0
    ensures TidyCounts(h, s')
  {
    forall k | k in s'.info ensures s'.info[k].refCount == |Held(h, s', k)| <= NEW_BUCKETS_PER_ADDRESS {
      if k == id {
        forall b: nat ensures !HeldIn(h, s', k, b) {
        }
        assert Held(h, s', k) == {};
      } else {
        assert forall b: nat :: HeldIn(h, s', k, b) <==> HeldIn(h, s, k, b);
        assert Held(h, s', k) == Held(h, s, k);
      }
    }
  }

  lemma AppendTidy(h: Hasher, s: Index, x: Saved)
    requires Tidy(h, s)
    ensures Tidy(h, Appended(s, x))
    ensures Named(s) ==> Named(Appended(s, x))
  {
    hide TidyCounts;
    CountsGrow(h, s, Appended(s, x), s.idCount);
    assert Ordered(Appended(s, x));
  }

  lemma LinkTidy(h: Hasher, s: Index, id: int, b: nat)
    requires Tidy(h, s) && id in s.info && !s.info[id].inTried && b < NEW_BUCKET_COUNT
    requires CellIn(h, s.info[id], b) !in s.newTab && s.info[id].refCount < NEW_BUCKETS_PER_ADDRESS
    ensures Tidy(h, Linked(s, id, CellIn(h, s.info[id], b)))
    ensures Named(s) ==> Named(Linked(s, id, CellIn(h, s.info[id], b)))
  {
    hide TidyNew, TidyCounts;
    LinkNewTidy(h, s, id, b);
    LinkCounts(h, s, id, b);
  }

  lemma LinkNewTidy(h: Hasher, s: Index, id: int, b: nat)
    requires TidyNew(h, s) && id in s.info && !s.info[id].inTried && b < NEW_BUCKET_COUNT
    ensures TidyNew(h, Linked(s, id, CellIn(h, s.info[id], b)))
  {
  }

  lemma LinkCounts(h: Hasher, s: Index, id: int, b: nat)
    requires TidyCounts(h, s) && id in s.info && b < NEW_BUCKET_COUNT
    requires CellIn(h, s.info[id], b) !in s.newTab && s.info[id].refCount < NEW_BUCKETS_PER_ADDRESS
    ensures TidyCounts(h, Linked(s, id, CellIn(h, s.info[id], b)))
  {
    hide CellIn;
    var s' := Linked(s, id, CellIn(h, s.info[id], b));
    forall k | k in s'.info ensures s'.info[k].refCount == |Held(h, s', k)| <= NEW_BUCKETS_PER_ADDRESS {
      LinkHeld(h, s, id, b, k);
      assert b !in Held(h, s, id);
    }
  }

  lemma LinkHeld(h: Hasher, s: Index, id: int, b: nat, k: int)
    requires id in s.info && b < NEW_BUCKET_COUNT && CellIn(h, s.info[id], b) !in s.newTab && k in s.info
    ensures Held(h, Linked(s, id, CellIn(h, s.info[id], b)), k) ==
            if k == id then Held(h, s, k) + {b} else Held(h, s, k)
  {
    var s' := Linked(s, id, CellIn(h, s.info[id], b));
    forall c: nat ensures HeldIn(h, s', k, c) <==> HeldIn(h, s, k, c) || (k == id && c == b) {
    }
  }

  lemma TryOrdered(h: Hasher, s: Index, x: Saved)
    requires Ordered(s)
    ensures Ordered(FillTried(h, s, x))
  {
  }

  lemma TryTidy(h: Hasher, s: Index, x: Saved)
    requires Tidy(h, s)
    ensures Tidy(h, FillTried(h, s, x))
    ensures Named(s) ==> Named(FillTried(h, s, x))
  {
    hide TidyTried, TidyCounts, Ordered;
    TryOrdered(h, s, x);
    assert s.idCount !in s.info by {
      NextFree(s);
    }
    if TriedSlotOf(h, x) !in s.triedTab {
      CountsGrow(h, s, FillTried(h, s, x), s.idCount);
      TryTried(h, s, x);
    }
  }

  lemma NextFree(s: Index)
    requires Ordered(s)
    ensures forall id | id in s.info :: id < s.idCount
  {
  }

  lemma TryTried(h: Hasher, s: Index, x: Saved)
    requires TidyTried(h, s) && s.idCount !in s.info && s.idCount >= 0 && TriedSlotOf(h, x) !in s.triedTab
    ensures TidyTried(h, FillTried(h, s, x))
  {
  }

  // ----- what holds by id, at every stage

  /** Everything that holds by id after the first `n` new records. */
  ghost predicate Stage(h: Hasher, s: Index, news: seq<Saved>, n: nat)
    requires n <= |news|
  {
    Tidy(h, s) && Named(s) && Serial(s, news, n)
  }

  lemma NothingTidy(h: Hasher)
    ensures Tidy(h, NOTHING) && Named(NOTHING)
  {
  }

  lemma {:induction false} NewsStage(h: Hasher, news: seq<Saved>, n: nat, orphaned: bool)
    requires n <= |news|
    ensures Stage(h, NewsIndex(h, news, n, orphaned), news, n) && NewsIndex(h, news, n, orphaned).idCount == n
    ensures NewsIndex(h, news, n, orphaned).triedTab == map[]
  {
    hide Tidy, Named, FillNew;
    if n == 0 {
      NothingTidy(h);
    } else {
      NewsStage(h, news, n - 1, orphaned);
      FillNewStage(h, NewsIndex(h, news, n - 1, orphaned), news, n - 1, orphaned);
    }
  }

  lemma FillNewStage(h: Hasher, s: Index, news: seq<Saved>, n: nat, orphaned: bool)
    requires n < |news| && Stage(h, s, news, n) && s.idCount == n
    ensures var s' := FillNew(h, s, news[n], orphaned);
            Stage(h, s', news, n + 1) && s'.idCount == n + 1 && s'.triedTab == s.triedTab
  {
    hide Tidy, Named, OwnSlot, CellIn, Serial;
    var x := news[n];
    AppendTidy(h, s, x);
    AppendSerial(s, news, n);
    OwnCell(h, s, x);
    if orphaned && OwnSlot(h, x) !in s.newTab {
      LinkTidy(h, Appended(s, x), n, h.NewBucket(x.addr, x.source));
      LinkSerial(Appended(s, x), news, n + 1, n, OwnSlot(h, x));
    }
  }

  lemma AppendSerial(s: Index, news: seq<Saved>, n: nat)
    requires n < |news| && Serial(s, news, n) && s.idCount == n
    ensures Serial(Appended(s, news[n]), news, n + 1)
  {
  }

  lemma LinkSerial(s: Index, news: seq<Saved>, n: nat, id: int, slot: Slot)
    requires n <= |news| && Serial(s, news, n) && id in s.info
    ensures Serial(Linked(s, id, slot), news, n)
  {
  }

  lemma OwnCell(h: Hasher, s: Index, x: Saved)
    ensures CellIn(h, Appended(s, x).info[s.idCount], h.NewBucket(x.addr, x.source)) == OwnSlot(h, x)
  {
  }

  lemma {:induction false} TriedsStage(h: Hasher, s: Index, news: seq<Saved>, trieds: seq<Saved>, n: nat)
    requires n <= |trieds| && Stage(h, s, news, |news|) && s.idCount == |news|
    ensures Stage(h, TriedsIndex(h, s, trieds, n), news, |news|)
    ensures TriedsIndex(h, s, trieds, n).idCount >= |news|
  {
    hide Tidy, Named, TriedSlotOf, Written;
    if n > 0 {
      TriedsStage(h, s, news, trieds, n - 1);
      TryTidy(h, TriedsIndex(h, s, trieds, n - 1), trieds[n - 1]);
    }
  }

  lemma {:induction false} RowStage(h: Hasher, s: Index, news: seq<Saved>, b: nat, row: seq<int>, n: nat)
    requires n <= |row| && b < NEW_BUCKET_COUNT && Stage(h, s, news, |news|)
    ensures Stage(h, RowIndex(h, s, |news|, b, row, n), news, |news|)
    ensures RowIndex(h, s, |news|, b, row, n).idCount == s.idCount
  {
    hide Tidy, Named, CellIn;
    if n > 0 {
      RowStage(h, s, news, b, row, n - 1);
      var s' := RowIndex(h, s, |news|, b, row, n - 1);
      var k := row[n - 1];
      if FillRef(h, s', |news|, b, k) != s' {
        LinkTidy(h, s', k, b);
      }
    }
  }

  lemma {:induction false} RowsStage(h: Hasher, s: Index, news: seq<Saved>, rows: seq<seq<int>>, n: nat)
    requires n <= |rows| <= NEW_BUCKET_COUNT && Stage(h, s, news, |news|)
    ensures Stage(h, RowsIndex(h, s, |news|, rows, n), news, |news|)
    ensures RowsIndex(h, s, |news|, rows, n).idCount == s.idCount
  {
    hide Stage, RowIndex;
    if n > 0 {
      RowsStage(h, s, news, rows, n - 1);
      RowStage(h, RowsIndex(h, s, |news|, rows, n - 1), news, n - 1, rows[n - 1], |rows[n - 1]|);
    }
  }

  lemma FilledStage(h: Hasher, c: Content)
    requires |c.news| == c.nNew && |c.rows| == Max(0, c.buckets)
    ensures Stage(h, FilledIndex(h, c), c.news, |c.news|) && FilledIndex(h, c).idCount == ListedIndex(h, c).idCount
    ensures ListedIndex(h, c).idCount >= |c.news|
  {
    hide Stage, NewsIndex, TriedsIndex, RowsIndex;
    var s := NewsIndex(h, c.news, |c.news|, c.Orphaned());
    NewsStage(h, c.news, |c.news|, c.Orphaned());
    assert s == s.(idCount := c.nNew);
    TriedsStage(h, s, c.news, c.trieds, |c.trieds|);
    if !c.Orphaned() {
      RowsStage(h, ListedIndex(h, c), c.news, c.rows, |c.rows|);
    }
  }

  /** A negative count of new records gives negative ids, but the order is right all the same. */
  lemma FilledOrdered(h: Hasher, c: Content)
    requires |c.news| == Max(0, c.nNew) && |c.rows| == Max(0, c.buckets)
    ensures Ordered(FilledIndex(h, c)) && From(FilledIndex(h, c), Min(c.nNew, 0))
  {
    hide Ordered, TriedsIndex, RowsIndex;
    if c.nNew >= 0 {
      hide FilledIndex;
      FilledStage(h, c);
    } else {
      var s := NOTHING.(idCount := c.nNew);
      assert Ordered(s) by {
        NothingOrdered(c.nNew);
      }
      TriedsOrdered(h, s, c.trieds, |c.trieds|, c.nNew);
      RowsIdle(h, ListedIndex(h, c), c.nNew, c.rows, |c.rows|);
    }
  }

  /** No id is less than `first`. */
  ghost predicate From(s: Index, first: int) {
    first <= s.idCount && forall id | id in s.info :: first <= id
  }

  lemma NothingOrdered(n: int)
    ensures Ordered(NOTHING.(idCount := n))
  {
  }

  lemma {:induction false} TriedsOrdered(h: Hasher, s: Index, trieds: seq<Saved>, n: nat, first: int)
    requires n <= |trieds| && Ordered(s) && From(s, first)
    ensures Ordered(TriedsIndex(h, s, trieds, n)) && From(TriedsIndex(h, s, trieds, n), first)
  {
    hide Ordered;
    if n > 0 {
      TriedsOrdered(h, s, trieds, n - 1, first);
      TryOrdered(h, TriedsIndex(h, s, trieds, n - 1), trieds[n - 1]);
    }
  }

  lemma {:induction false} RowIdle(h: Hasher, s: Index, nNew: int, b: nat, row: seq<int>, n: nat)
    requires n <= |row| && nNew <= 0
    ensures RowIndex(h, s, nNew, b, row, n) == s
  {
    if n > 0 {
      RowIdle(h, s, nNew, b, row, n - 1);
    }
  }

  lemma {:induction false} RowsIdle(h: Hasher, s: Index, nNew: int, rows: seq<seq<int>>, n: nat)
    requires n <= |rows| && nNew <= 0
    ensures RowsIndex(h, s, nNew, rows, n) == s
  {
    if n > 0 {
      RowsIdle(h, s, nNew, rows, n - 1);
      RowIdle(h, s, nNew, n - 1, rows[n - 1], |rows[n - 1]|);
    }
  }

  /** All new records, and all records after them, are there. */
  lemma ListedIds(h: Hasher, c: Content)
    requires |c.news| == Max(0, c.nNew)
    ensures forall k | 0 <= k < c.nNew :: k in ListedIndex(h, c).info
  {
    hide NewsIndex, TriedsIndex, Tidy, Named;
    if c.nNew > 0 {
      var s := NewsIndex(h, c.news, |c.news|, c.Orphaned());
      NewsStage(h, c.news, |c.news|, c.Orphaned());
      assert s == s.(idCount := c.nNew);
      TriedsStage(h, s, c.news, c.trieds, |c.trieds|);
    }
  }

  // ----- when the indexes describe a view

  /** Ids and addresses name each other. */
  ghost predicate IdsMatch(s: Index) {
    && (forall id | id in s.info :: s.info[id].addr in s.ids && s.ids[s.info[id].addr] == id)
    && (forall a | a in s.ids :: s.ids[a] in s.info && s.info[s.ids[a]].addr == a)
  }

  /** The only view that the indexes can describe. */
  ghost function ViewOf(h: Hasher, s: Index): View {
    map a | a in s.ids && s.ids[a] in s.info ::
      Entry(s.info[s.ids[a]].meta, if s.info[s.ids[a]].inTried then Tried else New(Held(h, s, s.ids[a])))
  }

  lemma ViewUnique(h: Hasher, s: Index, v: View)
    requires Rep(h, s, v)
    ensures v == ViewOf(h, s) && IdsMatch(s)
  {
    hide Rep;
    KeyFacts(h, s, v);
    forall a | a in v ensures s.ids[a] in s.info && v[a] == ViewOf(h, s)[a] && s.info[s.ids[a]].addr == a {
      AddrFacts(h, s, v, a);
      HeldBuckets(h, s, v, a);
    }
    forall id | id in s.info ensures s.info[id].addr in s.ids && s.ids[s.info[id].addr] == id {
      IdFacts(h, s, v, id);
    }
  }

  lemma HeldBuckets(h: Hasher, s: Index, v: View, a: NetAddr)
    requires Rep(h, s, v) && a in v
    ensures a in s.ids && s.ids[a] in s.info && Held(h, s, s.ids[a]) == Buckets(v[a])
  {
    hide Rep, Buckets;
    AddrFacts(h, s, v, a);
    BucketFacts(h, s, v, a);
    forall b: nat ensures HeldIn(h, s, s.ids[a], b) <==> b in Buckets(v[a]) {
      CellFacts(h, s, v, a, b);
    }
  }

  /** Indexes that are right by id describe a view exactly if ids and addresses match. */
  lemma ViewIff(h: Hasher, s: Index)
    requires Tidy(h, s)
    ensures (exists v :: Rep(h, s, v)) <==> IdsMatch(s)
    ensures IdsMatch(s) ==> Rep(h, s, ViewOf(h, s))
  {
    hide Rep, IdsMatch, Tidy, ViewOf;
    if v :| Rep(h, s, v) {
      ViewUnique(h, s, v);
    }
    if IdsMatch(s) {
      MatchedRep(h, s);
    }
  }

  lemma MatchedRep(h: Hasher, s: Index)
    requires Tidy(h, s) && IdsMatch(s)
    ensures Rep(h, s, ViewOf(h, s))
  {
    hide TidyNew, TidyTried, TidyCounts, RepIds, RepNew, RepTried, IdsMatch;
    MatchedIds(h, s);
    MatchedNew(h, s);
    MatchedTried(h, s);
  }

  lemma MatchedIds(h: Hasher, s: Index)
    requires Tidy(h, s) && IdsMatch(s)
    ensures RepIds(s, ViewOf(h, s))
  {
    var v := ViewOf(h, s);
    forall a | a in v ensures Matches(a, v[a], s.info[s.ids[a]]) {
      if s.info[s.ids[a]].inTried {
        TriedHeld(h, s, s.ids[a]);
      }
    }
  }

  lemma TriedHeld(h: Hasher, s: Index, id: int)
    requires TidyNew(h, s) && id in s.info && s.info[id].inTried
    ensures Held(h, s, id) == {}
  {
    forall b: nat ensures !HeldIn(h, s, id, b) {
    }
  }

  lemma MatchedNew(h: Hasher, s: Index)
    requires TidyNew(h, s) && IdsMatch(s)
    ensures ViewOf(h, s).Keys == s.ids.Keys && RepNew(h, s, ViewOf(h, s))
  {
    var v := ViewOf(h, s);
    forall a, b | a in v && b in Buckets(v[a])
      ensures b < NEW_BUCKET_COUNT && h.NewSlot(a, v[a].meta.port, b) in s.newTab
              && s.newTab[h.NewSlot(a, v[a].meta.port, b)] == s.ids[a]
    {
      assert HeldIn(h, s, s.ids[a], b);
    }
    forall slot | slot in s.newTab
      ensures s.newTab[slot] in s.info && OwnsNew(h, v, s.info[s.newTab[slot]].addr, slot)
    {
      assert HeldIn(h, s, s.newTab[slot], slot.0);
    }
  }

  lemma MatchedTried(h: Hasher, s: Index)
    requires TidyTried(h, s) && IdsMatch(s)
    ensures ViewOf(h, s).Keys == s.ids.Keys && RepTried(h, s, ViewOf(h, s))
  {
    hide Held;
    var v := ViewOf(h, s);
    forall slot | slot in s.triedTab
      ensures s.triedTab[slot] in s.info && OwnsTried(h, v, s.info[s.triedTab[slot]].addr, slot)
    {
      var id := s.triedTab[slot];
      assert id in s.info && s.ids[s.info[id].addr] == id;
    }
    forall a | a in v && v[a].loc.Tried?
      ensures h.TriedSlot(a, v[a].meta.port) in s.triedTab
      ensures s.triedTab[h.TriedSlot(a, v[a].meta.port)] == s.ids[a]
    {
      var id := s.ids[a];
      assert id in s.info && s.info[id].inTried;
      assert TriedCell(h, s.info[id]) in s.triedTab;
    }
  }

  // ----- dropping loose records

  /** No two records have the same address, unless both are loose. */
  ghost predicate Harmless(s: Index) {
    forall i, j | i in s.info && j in s.info && i != j && s.info[i].addr == s.info[j].addr :: Loose(s.info[i])
  }

  /**
    Dropping a loose record forgets its address, whoever else has it.  So ids and
    addresses match afterwards exactly if no remaining record shared its address.
   */
  lemma PrunedIds(s: Index, t: Index)
    requires Named(s) && Ordered(s) && PrunedTo(s, t, s.idCount)
    ensures IdsMatch(t) <==> Harmless(s)
  {
    hide Loose, RepRandom;
    if Harmless(s) {
      forall id | id in t.info ensures t.info[id].addr in t.ids && t.ids[t.info[id].addr] == id {
        assert id in s.info && !Loose(s.info[id]);
        var last := s.ids[s.info[id].addr];
        assert last in s.info && s.info[last].addr == s.info[id].addr;
        assert last == id;
        forall k | k in s.info && Loose(s.info[k]) ensures s.info[k].addr != s.info[id].addr {
        }
      }
      LastKept(s, t);
    }
    if IdsMatch(t) {
      forall i, j | i in s.info && j in s.info && i != j && s.info[i].addr == s.info[j].addr ensures Loose(s.info[i]) {
      }
    }
  }

  /** An address that is still known names a record that is still there. */
  lemma LastKept(s: Index, t: Index)
    requires Named(s) && Ordered(s) && PrunedTo(s, t, s.idCount)
    ensures forall a | a in t.ids :: t.ids[a] in t.info && t.info[t.ids[a]].addr == a
  {
    hide Loose, RepRandom;
    forall a | a in t.ids ensures t.ids[a] in t.info && t.info[t.ids[a]].addr == a {
      var id := s.ids[a];
      assert id in s.info && s.info[id].addr == a;
      assert a !in LooseAddrs(s, s.idCount);
    }
  }

  lemma PrunedTidy(h: Hasher, s: Index, t: Index)
    requires Tidy(h, s) && PrunedTo(s, t, s.idCount) && RepRandom(t)
    ensures Tidy(h, t)
    ensures forall id | id in t.info :: !Loose(t.info[id])
  {
    hide RepRandom, TidyNew, TidyTried, TidyCounts;
    PrunedCounts(h, s, t);
    PrunedNew(h, s, t);
    PrunedTried(h, s, t);
  }

  lemma PrunedCounts(h: Hasher, s: Index, t: Index)
    requires TidyCounts(h, s) && PrunedTo(s, t, s.idCount)
    ensures TidyCounts(h, t)
  {
    forall id | id in t.info ensures t.info[id].refCount == |Held(h, t, id)| <= NEW_BUCKETS_PER_ADDRESS {
      assert id in s.info;
      forall b: nat ensures HeldIn(h, t, id, b) <==> HeldIn(h, s, id, b) {
      }
      assert Held(h, t, id) == Held(h, s, id);
    }
  }

  lemma PrunedNew(h: Hasher, s: Index, t: Index)
    requires TidyNew(h, s) && TidyCounts(h, s) && PrunedTo(s, t, s.idCount)
    ensures TidyNew(h, t)
  {
    forall slot | slot in t.newTab
      ensures t.newTab[slot] in t.info && !t.info[t.newTab[slot]].inTried
      ensures 0 <= slot.0 < NEW_BUCKET_COUNT && slot == CellIn(h, t.info[t.newTab[slot]], slot.0)
    {
      var id := s.newTab[slot];
      assert id in s.info && HeldIn(h, s, id, slot.0);
      assert slot.0 in Held(h, s, id);
      assert !Loose(s.info[id]);
      assert id in t.info;
    }
  }

  lemma PrunedTried(h: Hasher, s: Index, t: Index)
    requires TidyTried(h, s) && PrunedTo(s, t, s.idCount)
    ensures TidyTried(h, t)
  {
    forall slot | slot in t.triedTab
      ensures t.triedTab[slot] in t.info && t.info[t.triedTab[slot]].inTried
      ensures slot == TriedCell(h, t.info[t.triedTab[slot]])
    {
      var id := s.triedTab[slot];
      assert id in s.info && !Loose(s.info[id]);
      assert id in t.info;
    }
    forall id | id in t.info && t.info[id].inTried
      ensures TriedCell(h, t.info[id]) in t.triedTab && t.triedTab[TriedCell(h, t.info[id])] == id
    {
      assert id in s.info && s.info[id].inTried;
      assert TriedCell(h, s.info[id]) in s.triedTab;
    }
  }

  // ----- counting records

  ghost function NewIds(s: Index): set<int> {
    set id | id in s.info && !s.info[id].inTried
  }

  ghost function TriedIds(s: Index): set<int> {
    set id | id in s.info && s.info[id].inTried
  }

  lemma CountedLists(s: Index, news: seq<Saved>)
    requires Serial(s, news, |news|) && Ordered(s) && s.idCount >= |news| && From(s, 0)
    ensures |NewIds(s)| == |news| && |TriedIds(s)| == s.idCount - |news|
  {
    hide Below, RepRandom;
    assert NewIds(s) == Below(|news|);
    assert TriedIds(s) == Below(s.idCount) - Below(|news|);
    assert Below(s.idCount) == TriedIds(s) + Below(|news|);
  }

  lemma PrunedTriedIds(s: Index, t: Index, n: int)
    requires PrunedTo(s, t, n)
    ensures TriedIds(t) == TriedIds(s)
  {
    forall id ensures id in TriedIds(t) <==> id in TriedIds(s) {
    }
  }

  lemma CountedIds(h: Hasher, s: Index, v: View)
    requires Rep(h, s, v)
    ensures |NewAddrs(v)| == |NewIds(s)| && |TriedAddrs(v)| == |TriedIds(s)|
  {
    hide Rep;
    KeyFacts(h, s, v);
    forall a | a in v ensures s.ids[a] in s.info && Matches(a, v[a], s.info[s.ids[a]]) {
      AddrFacts(h, s, v, a);
    }
    forall id | id in s.info ensures s.info[id].addr in v && s.ids[s.info[id].addr] == id {
      IdFacts(h, s, v, id);
    }
    assert NewIds(s) == set a | a in NewAddrs(v) :: s.ids[a];
    SameCount(s.ids, NewAddrs(v), NewIds(s));
    assert TriedIds(s) == set a | a in TriedAddrs(v) :: s.ids[a];
    SameCount(s.ids, TriedAddrs(v), TriedIds(s));
  }

  // ----- streams in which no address occurs twice

  lemma FreeCells(h: Hasher, s: Index, w: View, slot: Slot)
    requires Rep(h, s, w)
    ensures slot !in s.newTab <==> FreeNew(h, w, slot)
    ensures slot !in s.triedTab <==> FreeTried(h, w, slot)
  {
    hide Rep, OwnsNew;
    if slot in s.newTab {
      NewSlotFacts(h, s, w, slot);
      IdFacts(h, s, w, s.newTab[slot]);
    } else {
      VacantFacts(h, s, w, slot);
    }
    FreeTriedCell(h, s, w, slot);
  }

  lemma FreeTriedCell(h: Hasher, s: Index, w: View, slot: Slot)
    requires Rep(h, s, w)
    ensures slot !in s.triedTab <==> FreeTried(h, w, slot)
  {
    hide Rep;
    if slot in s.triedTab {
      TriedSlotFacts(h, s, w, slot);
    } else {
      forall a | a in w ensures !OwnsTried(h, w, a, slot) {
        if w[a].loc.Tried? {
          TriedHolds(h, s, w, a);
        }
      }
    }
  }

  lemma AppendRep(h: Hasher, s: Index, w: View, x: Saved)
    requires Rep(h, s, w) && x.addr !in w
    ensures Rep(h, Appended(s, x), w[x.addr := Entry(Load(x), New({}))])
  {
    hide Rep;
    var a := Address(x.addr, x.port, x.services, x.time);
    CreateKeeps(h, s, w, a, x.source);
    var w' := w[x.addr := Entry(FreshMeta(a, x.source), New({}))];
    MetaKeeps(h, Created(s, a, x.source), w', s.idCount, Load(x));
    assert WithMeta(Created(s, a, x.source), s.idCount, Load(x)) == Appended(s, x);
    assert SetMeta(w', x.addr, Load(x)) == w[x.addr := Entry(Load(x), New({}))];
  }

  lemma FillNewRep(h: Hasher, s: Index, w: View, x: Saved, orphaned: bool)
    requires Rep(h, s, w) && x.addr !in w
    ensures Rep(h, FillNew(h, s, x, orphaned), AddNew(h, w, x, orphaned))
  {
    hide Rep, FreeNew, FreeTried;
    AppendRep(h, s, w, x);
    FreeCells(h, s, w, OwnSlot(h, x));
    if orphaned && FreeNew(h, w, OwnSlot(h, x)) {
      var b := h.NewBucket(x.addr, x.source);
      var w' := w[x.addr := Entry(Load(x), New({}))];
      LinkKeeps(h, Appended(s, x), w', s.idCount, b);
      assert {} + {b} == {b};
      assert SetLoc(w', x.addr, New({} + {b})) == AddNew(h, w, x, orphaned);
    }
  }

  lemma FillTriedRep(h: Hasher, s: Index, w: View, x: Saved)
    requires Rep(h, s, w) && x.addr !in w
    ensures Rep(h, FillTried(h, s, x), AddTried(h, w, x))
  {
    hide Rep, FreeNew, FreeTried;
    FreeCells(h, s, w, TriedSlotOf(h, x));
    if TriedSlotOf(h, x) !in s.triedTab {
      var w' := w[x.addr := Entry(Load(x), New({}))];
      AppendRep(h, s, w, x);
      IdFacts(h, Appended(s, x), w', s.idCount);
      EntryKeeps(h, Appended(s, x), w', s.idCount);
      assert SetLoc(w', x.addr, Tried) == AddTried(h, w, x);
    }
  }

  lemma FillRefRep(h: Hasher, s: Index, w: View, news: seq<Saved>, b: nat, k: int)
    requires Rep(h, s, w) && Serial(s, news, |news|) && b < NEW_BUCKET_COUNT
    ensures Rep(h, FillRef(h, s, |news|, b, k), Refer(h, w, news, b, k))
  {
    hide Rep, FreeNew, FreeTried;
    if 0 <= k < |news| {
      IdFacts(h, s, w, k);
      FreeCells(h, s, w, CellIn(h, s.info[k], b));
      if FillRef(h, s, |news|, b, k) != s {
        CellFacts(h, s, w, news[k].addr, b);
        LinkKeeps(h, s, w, k, b);
      }
    }
  }

  lemma {:induction false} NewsRep(h: Hasher, news: seq<Saved>, n: nat, orphaned: bool)
    requires n <= |news| && Apart(news, [])
    ensures Rep(h, NewsIndex(h, news, n, orphaned), NewsView(h, news, n, orphaned))
  {
    hide FillNew, AddNew;
    if n > 0 {
      hide Rep;
      NewsRep(h, news, n - 1, orphaned);
      NewsKeys(h, news, n - 1, orphaned);
      assert news[n - 1].addr !in Addrs(news[..n - 1]);
      FillNewRep(h, NewsIndex(h, news, n - 1, orphaned), NewsView(h, news, n - 1, orphaned), news[n - 1], orphaned);
    }
  }

  lemma {:induction false} TriedsRep(h: Hasher, s: Index, w: View, news: seq<Saved>, trieds: seq<Saved>, n: nat)
    requires n <= |trieds| && Apart(news, trieds) && Rep(h, s, w) && w.Keys == Addrs(news)
    ensures Rep(h, TriedsIndex(h, s, trieds, n), TriedsView(h, w, trieds, n))
  {
    hide Rep, FillTried, AddTried, Apart;
    if n > 0 {
      TriedsRep(h, s, w, news, trieds, n - 1);
      NextTried(h, w, news, trieds, n - 1);
      FillTriedRep(h, TriedsIndex(h, s, trieds, n - 1), TriedsView(h, w, trieds, n - 1), trieds[n - 1]);
    }
  }

  lemma {:induction false} RowRep(h: Hasher, s: Index, w: View, news: seq<Saved>, b: nat, row: seq<int>, n: nat)
    requires n <= |row| && b < NEW_BUCKET_COUNT && Rep(h, s, w) && Stage(h, s, news, |news|)
    ensures Rep(h, RowIndex(h, s, |news|, b, row, n), RowView(h, w, news, b, row, n))
  {
    hide Rep, FillRef, Refer, Tidy, Named, Serial;
    if n > 0 {
      RowRep(h, s, w, news, b, row, n - 1);
      RowStage(h, s, news, b, row, n - 1);
      FillRefRep(h, RowIndex(h, s, |news|, b, row, n - 1), RowView(h, w, news, b, row, n - 1), news, b, row[n - 1]);
    }
  }

  lemma {:induction false} RowsRep(h: Hasher, s: Index, w: View, news: seq<Saved>, rows: seq<seq<int>>, n: nat)
    requires n <= |rows| <= NEW_BUCKET_COUNT && Rep(h, s, w) && Stage(h, s, news, |news|)
    ensures Rep(h, RowsIndex(h, s, |news|, rows, n), RowsView(h, w, news, rows, n))
  {
    hide Rep, RowIndex, RowView, Stage;
    if n > 0 {
      RowsRep(h, s, w, news, rows, n - 1);
      RowsStage(h, s, news, rows, n - 1);
      RowRep(h, RowsIndex(h, s, |news|, rows, n - 1), RowsView(h, w, news, rows, n - 1), news, n - 1, rows[n - 1],
             |rows[n - 1]|);
    }
  }

  lemma FilledRep(h: Hasher, c: Content)
    requires |c.news| == c.nNew && |c.rows| == Max(0, c.buckets) && Apart(c.news, c.trieds)
    ensures Rep(h, FilledIndex(h, c), FilledView(h, c))
  {
    hide Rep, NewsIndex, NewsView, TriedsIndex, TriedsView, RowsIndex, RowsView, Stage, Apart;
    ApartNews(c.news, c.trieds);
    NewsRep(h, c.news, |c.news|, c.Orphaned());
    NewsStage(h, c.news, |c.news|, c.Orphaned());
    NewsKeys(h, c.news, |c.news|, c.Orphaned());
    assert c.news[..|c.news|] == c.news;
    var s := NewsIndex(h, c.news, |c.news|, c.Orphaned());
    assert s == s.(idCount := c.nNew);
    TriedsRep(h, s, NewsView(h, c.news, |c.news|, c.Orphaned()), c.news, c.trieds, |c.trieds|);
    if !c.Orphaned() {
      TriedsStage(h, s, c.news, c.trieds, |c.trieds|);
      RowsRep(h, ListedIndex(h, c), ListedView(h, c), c.news, c.rows, |c.rows|);
    }
  }

  lemma PrunedRep(h: Hasher, s: Index, w: View, t: Index)
    requires Rep(h, s, w) && PrunedTo(s, t, s.idCount) && RepRandom(t)
    ensures Rep(h, t, Pruned(w))
  {
    PrunedRepIds(h, s, w, t);
    TablesKept(h, s, w, t, Pruned(w));
  }

  lemma PrunedRepIds(h: Hasher, s: Index, w: View, t: Index)
    requires Rep(h, s, w) && PrunedTo(s, t, s.idCount)
    ensures RepIds(t, Pruned(w)) && forall a | a in Pruned(w) :: t.ids[a] == s.ids[a]
  {
    hide Rep;
    KeyFacts(h, s, w);
    forall a | a in w
      ensures s.ids[a] in s.info && s.ids[a] < s.idCount && Matches(a, w[a], s.info[s.ids[a]])
      ensures Loose(s.info[s.ids[a]]) <==> a !in Pruned(w)
    {
      AddrFacts(h, s, w, a);
      assert w[a].loc.New? && |w[a].loc.buckets| == 0 ==> w[a].loc.buckets == {};
    }
    forall id | id in s.info
      ensures 0 <= id < s.idCount && s.info[id].addr in w && s.ids[s.info[id].addr] == id
    {
      IdFacts(h, s, w, id);
    }
    assert forall a :: a in LooseAddrs(s, s.idCount) <==> a in w && a !in Pruned(w);
  }
}
