/**
  What a stream of any format version, any number of buckets and with any references
  describes, as long as no address occurs twice: which records find a place, and that
  nothing of a saved manager is lost.
 */
module AddrLoad {
  import opened AddrTypes
  import opened AddrView
  import opened AddrCodec
  import opened AddrStream

  // ----- what loading does to the view

  ghost predicate FreeNew(h: Hasher, w: View, slot: Slot) {
    forall a | a in w :: !OwnsNew(h, w, a, slot)
  }

  ghost predicate FreeTried(h: Hasher, w: View, slot: Slot) {
    forall a | a in w :: !OwnsTried(h, w, a, slot)
  }

  /** The cell that a new entry's own source selects. */
  function OwnSlot(h: Hasher, x: Saved): Slot {
    h.NewSlot(x.addr, x.port, h.NewBucket(x.addr, x.source))
  }

  ghost function AddNew(h: Hasher, w: View, x: Saved, orphaned: bool): View {
    var used := orphaned && FreeNew(h, w, OwnSlot(h, x));
    w[x.addr := Entry(Load(x), New(if used then {h.NewBucket(x.addr, x.source)} else {}))]
  }

  ghost function NewsView(h: Hasher, news: seq<Saved>, n: nat, orphaned: bool): View
    requires n <= |news|
  {
    if n == 0 then map[] else AddNew(h, NewsView(h, news, n - 1, orphaned), news[n - 1], orphaned)
  }

  /** A tried entry whose cell is taken is lost. */
  ghost function AddTried(h: Hasher, w: View, x: Saved): View {
    if FreeTried(h, w, h.TriedSlot(x.addr, x.port)) then w[x.addr := Entry(Load(x), Tried)] else w
  }

  ghost function TriedsView(h: Hasher, w: View, trieds: seq<Saved>, n: nat): View
    requires n <= |trieds|
  {
    if n == 0 then w else AddTried(h, TriedsView(h, w, trieds, n - 1), trieds[n - 1])
  }

  /** A reference from bucket `b` to the `k`-th new entry; it counts if there is such an entry, and room. */
  ghost function Refer(h: Hasher, w: View, news: seq<Saved>, b: nat, k: int): View {
    if 0 <= k < |news| && news[k].addr in w && w[news[k].addr].loc.New?
       && FreeNew(h, w, h.NewSlot(news[k].addr, news[k].port, b))
       && |w[news[k].addr].loc.buckets| < NEW_BUCKETS_PER_ADDRESS
    then SetLoc(w, news[k].addr, New(w[news[k].addr].loc.buckets + {b}))
    else w
  }

  ghost function RowView(h: Hasher, w: View, news: seq<Saved>, b: nat, row: seq<int>, n: nat): View
    requires n <= |row|
  {
    if n == 0 then w else Refer(h, RowView(h, w, news, b, row, n - 1), news, b, row[n - 1])
  }

  ghost function RowsView(h: Hasher, w: View, news: seq<Saved>, rows: seq<seq<int>>, n: nat): View
    requires n <= |rows|
  {
    if n == 0 then w
    else RowView(h, RowsView(h, w, news, rows, n - 1), news, n - 1, rows[n - 1], |rows[n - 1]|)
  }

  ghost function ListedView(h: Hasher, c: Content): View {
    TriedsView(h, NewsView(h, c.news, |c.news|, c.Orphaned()), c.trieds, |c.trieds|)
  }

  /** The view that the stream describes, before entries in no bucket are dropped. */
  ghost function FilledView(h: Hasher, c: Content): View {
    if c.Orphaned() then ListedView(h, c) else RowsView(h, ListedView(h, c), c.news, c.rows, |c.rows|)
  }

  ghost function LoadedView(h: Hasher, c: Content): View {
    Pruned(FilledView(h, c))
  }

  ghost function Addrs(xs: seq<Saved>): set<NetAddr> {
    set x | x in xs :: x.addr
  }

  lemma AddrsAppend(xs: seq<Saved>, n: nat)
    requires n < |xs|
    ensures Addrs(xs[..n + 1]) == Addrs(xs[..n]) + {xs[n].addr}
    ensures Addrs(xs[..0]) == {}
  {
    assert xs[..n + 1] == xs[..n] + [xs[n]];
    assert forall x :: x in xs[..n + 1] <==> x in xs[..n] || x == xs[n];
  }

  /** All addresses in `news` and `trieds` are different. */
  ghost predicate Apart(news: seq<Saved>, trieds: seq<Saved>) {
    && (forall i, j | 0 <= i < j < |news| :: news[i].addr != news[j].addr)
    && (forall i, j | 0 <= i < j < |trieds| :: trieds[i].addr != trieds[j].addr)
    && (forall i, j | 0 <= i < |news| && 0 <= j < |trieds| :: news[i].addr != trieds[j].addr)
  }

  /** The view without entries that are in no bucket. */
  function Pruned(v: View): View {
    map a | a in v && v[a].loc != New({}) :: v[a]
  }

  lemma {:induction false} NewsKeys(h: Hasher, news: seq<Saved>, n: nat, orphaned: bool)
    requires n <= |news|
    ensures NewsView(h, news, n, orphaned).Keys == Addrs(news[..n])
  {
    hide FreeNew;
    if n == 0 {
      assert news[..0] == [];
    } else {
      NewsKeys(h, news, n - 1, orphaned);
      AddrsAppend(news, n - 1);
    }
  }

  /** The addresses of the first `n` tried records, as far as they were stored. */
  lemma {:induction false} TriedsKeys(h: Hasher, w: View, trieds: seq<Saved>, n: nat)
    requires n <= |trieds|
    ensures w.Keys <= TriedsView(h, w, trieds, n).Keys <= w.Keys + Addrs(trieds[..n])
    ensures forall a | a in w && (forall k | 0 <= k < n :: trieds[k].addr != a) ::
              TriedsView(h, w, trieds, n)[a] == w[a]
  {
    hide FreeTried;
    if n > 0 {
      TriedsKeys(h, w, trieds, n - 1);
      AddrsAppend(trieds, n - 1);
    }
  }

  lemma {:induction false} NewsNotTried(h: Hasher, news: seq<Saved>, n: nat, orphaned: bool)
    requires n <= |news|
    ensures TriedAddrs(NewsView(h, news, n, orphaned)) == {}
  {
    hide FreeNew;
    if n > 0 {
      NewsNotTried(h, news, n - 1, orphaned);
    }
  }

  lemma TriedUnknown(news: seq<Saved>, trieds: seq<Saved>, n: nat)
    requires n < |trieds| && Apart(news, trieds)
    ensures trieds[n].addr !in Addrs(news) + Addrs(trieds[..n])
  {
  }

  lemma ApartNews(news: seq<Saved>, trieds: seq<Saved>)
    requires Apart(news, trieds)
    ensures Apart(news, [])
  {
  }

  lemma ReloadedFacts(v: View)
    ensures NewAddrs(Reloaded(v)) == NewAddrs(v) && TriedAddrs(Reloaded(v)) == TriedAddrs(v)
    ensures AllSettled(v) ==> AllSettled(Reloaded(v)) && Pruned(Reloaded(v)) == Reloaded(v)
  {
    if AllSettled(v) {
      forall a | a in v ensures Settled(v[a]) && v[a].loc != New({}) {
      }
    }
  }

  // ----- what finds a place

  function TriedSlotOf(h: Hasher, x: Saved): Slot {
    h.TriedSlot(x.addr, x.port)
  }

  lemma NextTried(h: Hasher, w: View, news: seq<Saved>, trieds: seq<Saved>, t: nat)
    requires t < |trieds| && Apart(news, trieds) && w.Keys == Addrs(news)
    ensures trieds[t].addr !in TriedsView(h, w, trieds, t)
  {
    TriedsKeys(h, w, trieds, t);
    TriedUnknown(news, trieds, t);
  }

  /** A tried cell is free as long as no record before selects it. */
  lemma {:induction false} FreeTriedIff(h: Hasher, w: View, news: seq<Saved>, trieds: seq<Saved>, t: nat, slot: Slot)
    requires t <= |trieds| && Apart(news, trieds) && w.Keys == Addrs(news) && TriedAddrs(w) == {}
    ensures FreeTried(h, TriedsView(h, w, trieds, t), slot) <==>
            forall u | 0 <= u < t :: TriedSlotOf(h, trieds[u]) != slot
  {
    hide Apart, TriedSlotOf, AddTried, FreeTried, TriedAddrs;
    if t > 0 {
      var x := trieds[t - 1];
      FreeTriedIff(h, w, news, trieds, t - 1, slot);
      FreeTriedIff(h, w, news, trieds, t - 1, TriedSlotOf(h, x));
      NextTried(h, w, news, trieds, t - 1);
      TriedTaken(h, TriedsView(h, w, trieds, t - 1), x, slot);
    } else {
      NoneTried(h, w, slot);
    }
  }

  lemma NoneTried(h: Hasher, w: View, slot: Slot)
    requires TriedAddrs(w) == {}
    ensures FreeTried(h, w, slot)
  {
    forall a | a in w ensures !OwnsTried(h, w, a, slot) {
      assert a !in TriedAddrs(w);
    }
  }

  lemma TriedTaken(h: Hasher, w: View, x: Saved, slot: Slot)
    requires x.addr !in w
    ensures FreeTried(h, AddTried(h, w, x), slot) <==>
            FreeTried(h, w, slot) && !(FreeTried(h, w, TriedSlotOf(h, x)) && TriedSlotOf(h, x) == slot)
  {
    var w' := AddTried(h, w, x);
    if FreeTried(h, w, TriedSlotOf(h, x)) {
      assert OwnsTried(h, w', x.addr, TriedSlotOf(h, x));
      forall a | a in w ensures OwnsTried(h, w', a, slot) <==> OwnsTried(h, w, a, slot) {
      }
    }
  }

  /** Once stored, a tried record stays; once lost, it is not stored later. */
  lemma {:induction false} TriedStays(h: Hasher, w: View, news: seq<Saved>, trieds: seq<Saved>, t: nat, n: nat)
    requires t < n <= |trieds| && Apart(news, trieds) && w.Keys == Addrs(news)
    ensures var e := Entry(Load(trieds[t]), Tried);
            if FreeTried(h, TriedsView(h, w, trieds, t), TriedSlotOf(h, trieds[t]))
            then trieds[t].addr in TriedsView(h, w, trieds, n) && TriedsView(h, w, trieds, n)[trieds[t].addr] == e
            else trieds[t].addr !in TriedsView(h, w, trieds, n)
  {
    hide FreeTried;
    if n == t + 1 {
      NextTried(h, w, news, trieds, t);
    } else {
      assert trieds[n - 1].addr != trieds[t].addr;
      hide Apart;
      TriedStays(h, w, news, trieds, t, n - 1);
    }
  }

  /** A new cell is free as long as no record before selects it. */
  lemma {:induction false} FreeNewIff(h: Hasher, news: seq<Saved>, n: nat, slot: Slot)
    requires n <= |news| && Apart(news, [])
    ensures FreeNew(h, NewsView(h, news, n, true), slot) <==> forall k | 0 <= k < n :: OwnSlot(h, news[k]) != slot
  {
    hide OwnSlot, AddNew;
    if n > 0 {
      var x := news[n - 1];
      FreeNewIff(h, news, n - 1, slot);
      FreeNewIff(h, news, n - 1, OwnSlot(h, x));
      NewsKeys(h, news, n - 1, true);
      assert x.addr !in Addrs(news[..n - 1]);
      NewTaken(h, NewsView(h, news, n - 1, true), x, slot);
    }
  }

  lemma NewTaken(h: Hasher, w: View, x: Saved, slot: Slot)
    requires x.addr !in w
    ensures FreeNew(h, AddNew(h, w, x, true), slot) <==>
            FreeNew(h, w, slot) && !(FreeNew(h, w, OwnSlot(h, x)) && OwnSlot(h, x) == slot)
  {
    var w' := AddNew(h, w, x, true);
    forall a | a in w ensures OwnsNew(h, w', a, slot) <==> OwnsNew(h, w, a, slot) {
    }
    assert OwnsNew(h, w', x.addr, slot) <==> FreeNew(h, w, OwnSlot(h, x)) && OwnSlot(h, x) == slot;
  }

  lemma {:induction false} NewStays(h: Hasher, news: seq<Saved>, k: nat, n: nat, orphaned: bool)
    requires k < n <= |news| && Apart(news, [])
    ensures var w, x := NewsView(h, news, n, orphaned), news[k];
            && x.addr in w && w[x.addr].loc.New?
            && (w[x.addr].loc == New({}) <==> !(orphaned && FreeNew(h, NewsView(h, news, k, orphaned), OwnSlot(h, x))))
  {
    hide FreeNew;
    if k + 1 < n {
      NewStays(h, news, k, n - 1, orphaned);
      assert news[k].addr != news[n - 1].addr;
    }
  }

  /**
    Of tried records that select the same cell the first is kept and the others are
    lost.  So it is with new records, and the cell their own source selects, if the
    stream is of another version or another number of buckets.
   */
  lemma StoredIff(h: Hasher, c: Content)
    requires Apart(c.news, c.trieds)
    ensures LoadedView(h, c).Keys <= Addrs(c.news) + Addrs(c.trieds)
    ensures forall t | 0 <= t < |c.trieds| ::
              c.trieds[t].addr in LoadedView(h, c) <==>
              forall u | 0 <= u < t :: TriedSlotOf(h, c.trieds[u]) != TriedSlotOf(h, c.trieds[t])
    ensures c.Orphaned() ==> forall k | 0 <= k < |c.news| ::
              c.news[k].addr in LoadedView(h, c) <==>
              forall j | 0 <= j < k :: OwnSlot(h, c.news[j]) != OwnSlot(h, c.news[k])
  {
    hide Apart, FreeNew, FreeTried, NewsView, TriedsView, RowsView, TriedSlotOf, OwnSlot;
    var w := NewsView(h, c.news, |c.news|, c.Orphaned());
    ApartNews(c.news, c.trieds);
    NewsKeys(h, c.news, |c.news|, c.Orphaned());
    assert c.news[..|c.news|] == c.news;
    NewsNotTried(h, c.news, |c.news|, c.Orphaned());
    TriedsKeys(h, w, c.trieds, |c.trieds|);
    assert c.trieds[..|c.trieds|] == c.trieds;
    RowsKeep(h, ListedView(h, c), c.news, c.rows, |c.rows|);
    forall t | 0 <= t < |c.trieds|
      ensures c.trieds[t].addr in LoadedView(h, c) <==>
              forall u | 0 <= u < t :: TriedSlotOf(h, c.trieds[u]) != TriedSlotOf(h, c.trieds[t])
    {
      TriedStays(h, w, c.news, c.trieds, t, |c.trieds|);
      FreeTriedIff(h, w, c.news, c.trieds, t, TriedSlotOf(h, c.trieds[t]));
    }
    if c.Orphaned() {
      forall k | 0 <= k < |c.news|
        ensures c.news[k].addr in LoadedView(h, c) <==>
                forall j | 0 <= j < k :: OwnSlot(h, c.news[j]) != OwnSlot(h, c.news[k])
      {
        NewStays(h, c.news, k, |c.news|, true);
        FreeNewIff(h, c.news, k, OwnSlot(h, c.news[k]));
        NewUntouched(h, w, c.news, c.trieds, k);
      }
    }
  }

  /** References neither add nor remove entries, and leave tried ones alone. */
  lemma {:induction false} RowsKeep(h: Hasher, w: View, news: seq<Saved>, rows: seq<seq<int>>, n: nat)
    requires n <= |rows|
    ensures RowsView(h, w, news, rows, n).Keys == w.Keys
    ensures forall a | a in w && w[a].loc.Tried? :: RowsView(h, w, news, rows, n)[a] == w[a]
  {
    hide RowView;
    if n > 0 {
      RowsKeep(h, w, news, rows, n - 1);
      RowKeeps(h, RowsView(h, w, news, rows, n - 1), news, n - 1, rows[n - 1], |rows[n - 1]|);
    }
  }

  lemma {:induction false} RowKeeps(h: Hasher, w: View, news: seq<Saved>, b: nat, row: seq<int>, n: nat)
    requires n <= |row|
    ensures RowView(h, w, news, b, row, n).Keys == w.Keys
    ensures forall a | a in w && w[a].loc.Tried? :: RowView(h, w, news, b, row, n)[a] == w[a]
  {
    hide FreeNew;
    if n > 0 {
      RowKeeps(h, w, news, b, row, n - 1);
    }
  }

  lemma NewUntouched(h: Hasher, w: View, news: seq<Saved>, trieds: seq<Saved>, k: nat)
    requires k < |news| && Apart(news, trieds) && news[k].addr in w
    ensures news[k].addr in TriedsView(h, w, trieds, |trieds|)
    ensures TriedsView(h, w, trieds, |trieds|)[news[k].addr] == w[news[k].addr]
  {
    hide TriedsView;
    TriedsKeys(h, w, trieds, |trieds|);
  }

  // ----- loading what was saved

  /** `w` holds the first `n` new and the first `t` tried records, the new ones in no bucket yet. */
  ghost predicate Holds(w: View, news: seq<Saved>, n: nat, trieds: seq<Saved>, t: nat)
    requires n <= |news| && t <= |trieds|
  {
    && w.Keys == Addrs(news[..n]) + Addrs(trieds[..t])
    && (forall k | 0 <= k < n :: news[k].addr in w && w[news[k].addr] == Entry(Load(news[k]), New({})))
    && (forall k | 0 <= k < t :: trieds[k].addr in w && w[trieds[k].addr] == Entry(Load(trieds[k]), Tried))
  }

  lemma DescribedApart(v: View, news: seq<Saved>, trieds: seq<Saved>, rows: seq<seq<nat>>)
    requires Describes(v, news, trieds, rows)
    ensures Apart(news, trieds)
    ensures |news| == |NewAddrs(v)| && |trieds| == |TriedAddrs(v)|
  {
    ListsCard(v, news, NewAddrs(v));
    ListsCard(v, trieds, TriedAddrs(v));
  }

  lemma {:induction false} NewsHold(h: Hasher, news: seq<Saved>, n: nat, trieds: seq<Saved>)
    requires n <= |news| && Apart(news, trieds)
    ensures Holds(NewsView(h, news, n, false), news, n, trieds, 0)
  {
    hide Holds, Apart, FreeNew;
    if n == 0 {
      HoldsNothing(news, trieds);
    } else {
      NewsHold(h, news, n - 1, trieds);
      HoldsNew(NewsView(h, news, n - 1, false), news, n - 1, trieds);
    }
  }

  lemma HoldsNothing(news: seq<Saved>, trieds: seq<Saved>)
    ensures Holds(map[], news, 0, trieds, 0)
  {
    assert news[..0] == [] && trieds[..0] == [];
  }

  lemma HoldsNew(w: View, news: seq<Saved>, n: nat, trieds: seq<Saved>)
    requires n < |news| && Holds(w, news, n, trieds, 0) && Apart(news, trieds)
    ensures Holds(w[news[n].addr := Entry(Load(news[n]), New({}))], news, n + 1, trieds, 0)
  {
    AddrsAppend(news, n);
    assert trieds[..0] == [];
    assert news[n].addr !in Addrs(news[..n]);
  }

  /** No two tried addresses of `v` share a cell, so none is lost. */
  lemma {:induction false} TriedsHold(h: Hasher, v: View, news: seq<Saved>, trieds: seq<Saved>, t: nat)
    requires t <= |trieds| && Apart(news, trieds) && Lists(v, trieds, TriedAddrs(v)) && Separated(h, v)
    ensures Holds(TriedsView(h, NewsView(h, news, |news|, false), trieds, t), news, |news|, trieds, t)
  {
    hide Holds, NewsView, Lists, Separated, AddTried, Apart;
    if t == 0 {
      NewsHold(h, news, |news|, trieds);
    } else {
      TriedsHold(h, v, news, trieds, t - 1);
      var w := TriedsView(h, NewsView(h, news, |news|, false), trieds, t - 1);
      TriedCellFree(h, w, v, news, trieds, t - 1);
      HoldsTried(h, w, news, trieds, t - 1);
    }
  }

  lemma HoldsTried(h: Hasher, w: View, news: seq<Saved>, trieds: seq<Saved>, t: nat)
    requires t < |trieds| && Holds(w, news, |news|, trieds, t) && Apart(news, trieds)
    requires FreeTried(h, w, h.TriedSlot(trieds[t].addr, trieds[t].port))
    ensures Holds(AddTried(h, w, trieds[t]), news, |news|, trieds, t + 1)
  {
    hide FreeTried;
    AddrsAppend(trieds, t);
    assert trieds[t].addr !in Addrs(news[..|news|]) && trieds[t].addr !in Addrs(trieds[..t]);
  }

  lemma TriedCellFree(h: Hasher, w: View, v: View, news: seq<Saved>, trieds: seq<Saved>, t: nat)
    requires t < |trieds| && Holds(w, news, |news|, trieds, t)
    requires Lists(v, trieds, TriedAddrs(v)) && Separated(h, v)
    ensures FreeTried(h, w, h.TriedSlot(trieds[t].addr, trieds[t].port))
  {
    var slot := h.TriedSlot(trieds[t].addr, trieds[t].port);
    assert OwnsTried(h, v, trieds[t].addr, slot);
    forall k | 0 <= k < t ensures h.TriedSlot(trieds[k].addr, trieds[k].port) != slot {
      assert OwnsTried(h, v, trieds[k].addr, h.TriedSlot(trieds[k].addr, trieds[k].port));
    }
    forall a | a in w ensures !OwnsTried(h, w, a, slot) {
      if w[a].loc.Tried? {
        HeldTried(w, news, trieds, t, a);
      }
    }
  }

  lemma HeldTried(w: View, news: seq<Saved>, trieds: seq<Saved>, t: nat, a: NetAddr)
    requires t <= |trieds| && Holds(w, news, |news|, trieds, t) && a in w && w[a].loc.Tried?
    ensures exists k :: 0 <= k < t && trieds[k].addr == a
  {
    assert news[..|news|] == news;
    assert a !in Addrs(news);
    var x :| x in trieds[..t] && x.addr == a;
    var k :| 0 <= k < t && trieds[k] == x;
  }

  /** The buckets of saved entry `k` read so far: the rows before `b` and the part `part` of row `b`. */
  ghost function SoFar(v: View, news: seq<Saved>, k: nat, b: nat, part: seq<nat>): set<nat>
    requires k < |news| && news[k].addr in v
  {
    set x | x in Buckets(v[news[k].addr]) && (x < b || (x == b && k in part))
  }

  /** `w` is `v` as far as it has been read. */
  ghost predicate Placed(w: View, v: View, news: seq<Saved>, b: nat, part: seq<nat>)
    requires Lists(v, news, NewAddrs(v))
  {
    && w.Keys == v.Keys
    && (forall a | a in v && v[a].loc.Tried? :: w[a] == Reloaded(v)[a])
    && (forall k: nat | k < |news| ::
          w[news[k].addr] == Entry(Load(news[k]), New(SoFar(v, news, k, b, part))))
  }

  lemma PlacedStart(w: View, v: View, news: seq<Saved>, trieds: seq<Saved>, rows: seq<seq<nat>>)
    requires Describes(v, news, trieds, rows) && Holds(w, news, |news|, trieds, |trieds|)
    ensures Placed(w, v, news, 0, [])
  {
    assert news[..|news|] == news && trieds[..|trieds|] == trieds;
    forall a | a in v && v[a].loc.Tried? ensures a in w && w[a] == Reloaded(v)[a] {
      assert a in TriedAddrs(v);
      var k :| 0 <= k < |trieds| && trieds[k].addr == a;
    }
    forall a | a in v && v[a].loc.New? ensures a in w {
      assert a in NewAddrs(v);
      var k :| 0 <= k < |news| && news[k].addr == a;
    }
    assert w.Keys <= v.Keys;
    forall k: nat | k < |news| ensures SoFar(v, news, k, 0, []) == {} {
    }
  }

  lemma PlacedRow(w: View, v: View, news: seq<Saved>, b: nat, row: seq<nat>)
    requires Lists(v, news, NewAddrs(v)) && ListsBucket(v, news, row, b) && Placed(w, v, news, b, row)
    ensures Placed(w, v, news, b + 1, [])
  {
    forall k: nat | k < |news| ensures SoFar(v, news, k, b, row) == SoFar(v, news, k, b + 1, []) {
      assert k in row <==> b in Buckets(v[news[k].addr]);
    }
  }

  lemma PlacedEnd(w: View, v: View, news: seq<Saved>)
    requires Lists(v, news, NewAddrs(v)) && Placed(w, v, news, NEW_BUCKET_COUNT, []) && AllSettled(v)
    ensures w == Reloaded(v)
  {
    forall a | a in v && v[a].loc.New? ensures w[a] == Reloaded(v)[a] {
      assert a in NewAddrs(v);
      var k :| 0 <= k < |news| && news[k].addr == a;
      assert Settled(v[a]);
      assert SoFar(v, news, k, NEW_BUCKET_COUNT, []) == Buckets(v[a]);
    }
  }

  /** Reading the next number of row `b`: entry `k` joins the bucket, and there is room for it. */
  lemma PlacedStep(w: View, v: View, news: seq<Saved>, b: nat, row: seq<nat>, j: nat)
    requires Lists(v, news, NewAddrs(v)) && ListsBucket(v, news, row, b) && j < |row|
    requires Placed(w, v, news, b, row[..j]) && AllSettled(v)
    ensures row[j] in row && row[j] < |news|
    ensures var k := row[j];
            var a := news[k].addr;
            && a in w && w[a].loc.New? && b !in w[a].loc.buckets
            && |w[a].loc.buckets| < NEW_BUCKETS_PER_ADDRESS && b < NEW_BUCKET_COUNT
            && Placed(SetLoc(w, a, New(w[a].loc.buckets + {b})), v, news, b, row[..j + 1])
  {
    var k := row[j];
    assert k in row;
    var a := news[k].addr;
    assert b in Buckets(v[a]) && a in NewAddrs(v) && Settled(v[a]);
    assert k !in row[..j];
    var now := SoFar(v, news, k, b, row[..j]);
    assert now <= Buckets(v[a]) - {b};
    SubsetCard(now, Buckets(v[a]) - {b});
    assert row[..j + 1] == row[..j] + [k];
    var w' := SetLoc(w, a, New(w[a].loc.buckets + {b}));
    forall i: nat | i < |news|
      ensures w'[news[i].addr] == Entry(Load(news[i]), New(SoFar(v, news, i, b, row[..j + 1])))
    {
      if i == k {
        assert SoFar(v, news, k, b, row[..j + 1]) == now + {b};
      } else {
        assert news[i].addr != a;
        assert i in row[..j + 1] <==> i in row[..j];
        assert SoFar(v, news, i, b, row[..j + 1]) == SoFar(v, news, i, b, row[..j]);
      }
    }
  }

  /** Whoever is in a bucket so far is in it in `v`. */
  lemma PlacedOwner(h: Hasher, w: View, v: View, news: seq<Saved>, b: nat, part: seq<nat>, a: NetAddr, slot: Slot)
    requires Lists(v, news, NewAddrs(v)) && Placed(w, v, news, b, part)
    requires OwnsNew(h, w, a, slot)
    ensures OwnsNew(h, v, a, slot)
  {
    assert a in NewAddrs(v);
    var k :| 0 <= k < |news| && news[k].addr == a;
    assert slot.0 in SoFar(v, news, k, b, part);
  }

  /** The cell that the next number of row `b` asks for is free. */
  lemma NewCellFree(h: Hasher, w: View, v: View, news: seq<Saved>, b: nat, row: seq<nat>, j: nat)
    requires Separated(h, v) && AllSettled(v)
    requires Lists(v, news, NewAddrs(v)) && ListsBucket(v, news, row, b) && j < |row|
    requires Placed(w, v, news, b, row[..j])
    ensures row[j] in row && row[j] < |news|
    ensures FreeNew(h, w, h.NewSlot(news[row[j]].addr, news[row[j]].port, b))
  {
    hide Placed, Settled;
    PlacedStep(w, v, news, b, row, j);
    var x := news[row[j]];
    var slot := h.NewSlot(x.addr, x.port, b);
    assert b in Buckets(v[x.addr]);
    assert OwnsNew(h, v, x.addr, slot);
    forall a | a in w ensures !OwnsNew(h, w, a, slot) {
      if OwnsNew(h, w, a, slot) {
        PlacedOwner(h, w, v, news, b, row[..j], a, slot);
      }
    }
  }

  lemma {:induction false} RowPlaced(h: Hasher, w: View, v: View, news: seq<Saved>, b: nat, row: seq<nat>, n: nat)
    requires Separated(h, v) && AllSettled(v) && n <= |row|
    requires Lists(v, news, NewAddrs(v)) && ListsBucket(v, news, row, b) && Placed(w, v, news, b, [])
    ensures Placed(RowView(h, w, news, b, row, n), v, news, b, row[..n])
  {
    hide Placed, Separated, Settled, AllSettled, Lists, ListsBucket, FreeNew;
    if n == 0 {
      assert row[..0] == [];
    } else {
      RowPlaced(h, w, v, news, b, row, n - 1);
      var w' := RowView(h, w, news, b, row, n - 1);
      PlacedStep(w', v, news, b, row, n - 1);
      NewCellFree(h, w', v, news, b, row, n - 1);
    }
  }

  lemma {:induction false} RowsPlaced(h: Hasher, w: View, v: View, news: seq<Saved>, rows: seq<seq<nat>>, n: nat)
    requires Separated(h, v) && AllSettled(v) && n <= |rows|
    requires Lists(v, news, NewAddrs(v)) && (forall b: nat | b < |rows| :: ListsBucket(v, news, rows[b], b))
    requires Placed(w, v, news, 0, [])
    ensures Placed(RowsView(h, w, news, rows, n), v, news, n, [])
  {
    hide Placed, Separated, Settled, AllSettled, Lists, ListsBucket, RowView;
    if n > 0 {
      RowsPlaced(h, w, v, news, rows, n - 1);
      var w', row := RowsView(h, w, news, rows, n - 1), rows[n - 1];
      RowPlaced(h, w', v, news, n - 1, row, |row|);
      assert row[..|row|] == row;
      PlacedRow(RowView(h, w', news, n - 1, row, |row|), v, news, n - 1, row);
    }
  }

  /** A saved view comes back whole. */
  lemma SavedLoaded(h: Hasher, v: View, news: seq<Saved>, trieds: seq<Saved>, rows: seq<seq<nat>>)
    requires Describes(v, news, trieds, rows) && Separated(h, v) && AllSettled(v)
    ensures LoadedView(h, SavedContent(h.key, news, trieds, rows)) == Reloaded(v)
  {
    hide Placed, Separated, Settled, AllSettled, Lists, ListsBucket, Holds, Apart;
    hide RowsView, TriedsView, NewsView, Reloaded, Pruned;
    DescribedApart(v, news, trieds, rows);
    TriedsHold(h, v, news, trieds, |trieds|);
    var w := TriedsView(h, NewsView(h, news, |news|, false), trieds, |trieds|);
    PlacedStart(w, v, news, trieds, rows);
    RowsPlaced(h, w, v, news, rows, |rows|);
    PlacedEnd(RowsView(h, w, news, rows, |rows|), v, news);
    ReloadedFacts(v);
  }
}
