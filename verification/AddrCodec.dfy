/**
  Saving the address manager to a stream.  Ids, the random order, the tried table and
  the reference counts are not saved.  The stream is a sequence of already framed items.
 */
module AddrCodec {
  import opened Basics
  import opened AddrTypes
  import opened AddrView
  import opened AddrIndex
  import opened AddrMan

  /** The saved part of a record. */
  datatype Saved = Saved(
    addr: NetAddr,
    port: nat,
    services: ServiceFlags,
    time: nat,
    source: NetAddr,
    lastSuccess: int,
    attempts: int)

  datatype Item = Byte(b: nat) | Hash256(n: nat) | Int32(i: int) | Record(r: Saved)

  function Save(a: NetAddr, m: Meta): Saved {
    Saved(a, m.port, m.services, m.time, m.source, m.lastSuccess, m.attempts)
  }

  function Load(x: Saved): Meta {
    Meta(x.port, x.services, x.time, x.source, x.lastSuccess, x.attempts, 0, 0)
  }

  /** What survives saving and loading: everything but the memory-only statistics. */
  function Reloaded(v: View): View {
    map a | a in v :: v[a].(meta := v[a].meta.(lastTry := 0, lastCountAttempt := 0))
  }

  /** Exclusive or with bit 30. */
  function FlipBit30(x: int): int {
    if (x / 0x4000_0000) % 2 == 1 then x - 0x4000_0000 else x + 0x4000_0000
  }

  lemma FlippedParts(q: int, r: int)
    requires 0 <= r < 0x4000_0000
    ensures FlipBit30(q * 0x4000_0000 + r) == (if q % 2 == 1 then q - 1 else q + 1) * 0x4000_0000 + r
  {
    assert (q * 0x4000_0000 + r) / 0x4000_0000 == q;
  }

  /** Bit 30 is changed, and no other; doing it twice changes nothing. */
  lemma Flipped(x: int)
    ensures FlipBit30(x) % 0x4000_0000 == x % 0x4000_0000 && FlipBit30(x) / 0x4000_0000 / 2 == x / 0x4000_0000 / 2
    ensures FlipBit30(x) != x && FlipBit30(FlipBit30(x)) == x
    ensures FlipBit30(NEW_BUCKET_COUNT) == 0x4000_0400
  {
    hide FlipBit30;
    var q, r := x / 0x4000_0000, x % 0x4000_0000;
    FlippedParts(q, r);
    FlippedParts(if q % 2 == 1 then q - 1 else q + 1, r);
    FlippedParts(0, NEW_BUCKET_COUNT);
  }

  function Records(xs: seq<Saved>): seq<Item> {
    seq(|xs|, i requires 0 <= i < |xs| => Record(xs[i]))
  }

  function Numbers(xs: seq<int>): seq<Item> {
    seq(|xs|, i requires 0 <= i < |xs| => Int32(xs[i]))
  }

  function Rows(rows: seq<seq<int>>): seq<Item> {
    if rows == [] then [] else [Int32(|rows[0]|)] + Numbers(rows[0]) + Rows(rows[1..])
  }

  function Stream(key: nat, news: seq<Saved>, trieds: seq<Saved>, rows: seq<seq<int>>): seq<Item> {
    [Byte(1), Byte(32), Hash256(key), Int32(|news|), Int32(|trieds|), Int32(FlipBit30(NEW_BUCKET_COUNT))]
    + Records(news) + Records(trieds) + Rows(rows)
  }

  ghost predicate Distinct<T(!new)>(xs: seq<T>) {
    forall i, j | 0 <= i < j < |xs| :: xs[i] != xs[j]
  }

  /** `xs` saves exactly the addresses of `who`, each once. */
  ghost predicate Lists(v: View, xs: seq<Saved>, who: set<NetAddr>)
    requires who <= v.Keys
  {
    && (forall i, j | 0 <= i < j < |xs| :: xs[i].addr != xs[j].addr)
    && (forall i | 0 <= i < |xs| :: xs[i].addr in who && xs[i] == Save(xs[i].addr, v[xs[i].addr].meta))
    && (forall a | a in who :: exists i :: 0 <= i < |xs| && xs[i].addr == a)
  }

  /** `row` lists exactly the saved new addresses that are in bucket `b`, each once. */
  ghost predicate ListsBucket(v: View, news: seq<Saved>, row: seq<nat>, b: nat) {
    && Distinct(row)
    && (forall k | k in row :: k < |news|)
    && (forall k: nat | k < |news| :: news[k].addr in v && (k in row <==> b in Buckets(v[news[k].addr])))
  }

  ghost predicate Describes(v: View, news: seq<Saved>, trieds: seq<Saved>, rows: seq<seq<nat>>) {
    && Lists(v, news, NewAddrs(v))
    && Lists(v, trieds, TriedAddrs(v))
    && |rows| == NEW_BUCKET_COUNT
    && (forall b: nat | b < |rows| :: ListsBucket(v, news, rows[b], b))
  }

  lemma {:induction false} RowsAppend(rows: seq<seq<nat>>, row: seq<nat>)
    ensures Rows(rows + [row]) == Rows(rows) + [Int32(|row|)] + Numbers(row)
  {
    if rows == [] {
      assert rows + [row] == [row];
      assert Rows([row][1..]) == [];
    } else {
      RowsAppend(rows[1..], row);
      assert (rows + [row])[1..] == rows[1..] + [row];
    }
  }

  lemma ListsCard(v: View, xs: seq<Saved>, who: set<NetAddr>)
    requires who <= v.Keys
    requires forall i, j | 0 <= i < j < |xs| :: xs[i].addr != xs[j].addr
    requires forall i | 0 <= i < |xs| :: xs[i].addr in who
    ensures |xs| <= |who|
    ensures (forall a | a in who :: exists i :: 0 <= i < |xs| && xs[i].addr == a) ==> |xs| == |who|
  {
    var names := seq(|xs|, i requires 0 <= i < |xs| => xs[i].addr);
    DistinctCard(names);
    var listed := set a | a in names;
    assert listed <= who;
    SubsetCard(listed, who);
    if forall a | a in who :: exists i :: 0 <= i < |xs| && xs[i].addr == a {
      forall a | a in who ensures a in names {
        var i :| 0 <= i < |xs| && xs[i].addr == a;
        assert names[i] == a;
      }
      assert listed == who;
    }
  }

  lemma SubsetCard<T>(s: set<T>, t: set<T>)
    requires s <= t
    ensures |s| <= |t|
  {
    assert t == s + (t - s);
  }

  // ----- saving

  ghost predicate ListsUpTo(m: AddrMan, xs: seq<Saved>, tried: bool, n: int)
    reads m
  {
    && (forall i, j | 0 <= i < j < |xs| :: xs[i].addr != xs[j].addr)
    && (forall i | 0 <= i < |xs| ::
          && xs[i].addr in m.view && m.view[xs[i].addr].loc.Tried? == tried
          && xs[i] == Save(xs[i].addr, m.view[xs[i].addr].meta)
          && xs[i].addr in m.mapAddr && m.mapAddr[xs[i].addr] < n)
    && (forall id | id in m.mapInfo && id < n && m.mapInfo[id].inTried == tried ::
          exists i :: 0 <= i < |xs| && xs[i].addr == m.mapInfo[id].addr)
  }

  lemma RecordFacts(m: AddrMan, id: int)
    requires m.Valid() && id in m.mapInfo
    ensures 0 <= id < m.idCount
    ensures var i := m.mapInfo[id];
            && i.addr in m.view && i.addr in m.mapAddr && m.mapAddr[i.addr] == id
            && i.meta == m.view[i.addr].meta && i.inTried == m.view[i.addr].loc.Tried?
            && (i.refCount != 0 <==> !i.inTried)
  {
    hide Rep, Mirrors;
    KeyFacts(m.H(), m.State(), m.view);
    IdFacts(m.H(), m.State(), m.view, id);
  }

  lemma ListsAll(m: AddrMan, xs: seq<Saved>, tried: bool)
    requires m.Valid() && ListsUpTo(m, xs, tried, m.idCount)
    ensures Lists(m.view, xs, if tried then TriedAddrs(m.view) else NewAddrs(m.view))
    ensures |xs| == (if tried then m.nTried else m.nNew)
  {
    hide Rep, Mirrors;
    var who := if tried then TriedAddrs(m.view) else NewAddrs(m.view);
    forall a | a in who ensures exists i :: 0 <= i < |xs| && xs[i].addr == a {
      AddrFacts(m.H(), m.State(), m.view, a);
      assert m.mapInfo[m.mapAddr[a]].addr == a;
    }
    ListsCard(m.view, xs, who);
  }

  /** While an id is still to come, the counter has not been reached. */
  lemma RoomLeft(m: AddrMan, xs: seq<Saved>, id: int)
    requires m.Valid() && id in m.mapInfo && ListsUpTo(m, xs, m.mapInfo[id].inTried, id)
    ensures |xs| < (if m.mapInfo[id].inTried then m.nTried else m.nNew)
    ensures ListsUpTo(m, xs + [Save(m.mapInfo[id].addr, m.mapInfo[id].meta)], m.mapInfo[id].inTried, id + 1)
  {
    hide Rep, Mirrors;
    RecordFacts(m, id);
    var tried := m.mapInfo[id].inTried;
    var x := Save(m.mapInfo[id].addr, m.mapInfo[id].meta);
    var ys := xs + [x];
    forall other | other in m.mapInfo && other < id + 1 && m.mapInfo[other].inTried == tried
      ensures exists i :: 0 <= i < |ys| && ys[i].addr == m.mapInfo[other].addr
    {
      if other == id {
        assert ys[|xs|].addr == m.mapInfo[id].addr;
      } else {
        var i :| 0 <= i < |xs| && xs[i].addr == m.mapInfo[other].addr;
        assert ys[i].addr == m.mapInfo[other].addr;
      }
    }
    ListsCard(m.view, ys, if tried then TriedAddrs(m.view) else NewAddrs(m.view));
  }

  /** `unk` gives the position of each new entry in `news`. */
  ghost predicate Numbered(m: AddrMan, unk: map<int, nat>, news: seq<Saved>, n: int)
    reads m
  {
    forall id | id in m.mapInfo && id < n && !m.mapInfo[id].inTried ::
      id in unk && unk[id] < |news| && news[unk[id]].addr == m.mapInfo[id].addr
  }

  method SaveNews(m: AddrMan) returns (items: seq<Item>, unk: map<int, nat>, ghost news: seq<Saved>)
    requires m.Valid()
    ensures items == Records(news) && ListsUpTo(m, news, false, m.idCount)
    ensures Numbered(m, unk, news, m.idCount)
  {
    hide Rep, Mirrors, NewAddrs, TriedAddrs, AllSettled;
    IdsCounted(m);
    items, unk, news := [], map[], [];
    var nIds := 0;
    for id := 0 to Max(m.idCount, 0)
      invariant items == Records(news) && nIds == |news|
      invariant ListsUpTo(m, news, false, id)
      invariant Numbered(m, unk, news, id)
    {
      if id in m.mapInfo {
        RecordFacts(m, id);
        unk := unk[id := nIds];
        var info := m.mapInfo[id];
        if info.refCount != 0 {
          RoomLeft(m, news, id);
          assert nIds != m.nNew;
          items := items + [Record(Save(info.addr, info.meta))];
          news := news + [Save(info.addr, info.meta)];
          nIds := nIds + 1;
        }
      }
    }
  }

  lemma IdsCounted(m: AddrMan)
    requires m.Valid()
    ensures m.idCount >= 0
    ensures forall id | id in m.mapInfo :: id >= 0
  {
    forall id | id in m.mapInfo ensures id >= 0 {
      IdFacts(m.H(), m.State(), m.view, id);
    }
  }

  method SaveTried(m: AddrMan) returns (items: seq<Item>, ghost trieds: seq<Saved>)
    requires m.Valid()
    ensures items == Records(trieds) && ListsUpTo(m, trieds, true, m.idCount)
  {
    hide Rep, Mirrors, NewAddrs, TriedAddrs, AllSettled;
    IdsCounted(m);
    items, trieds := [], [];
    var nIds := 0;
    for id := 0 to Max(m.idCount, 0)
      invariant items == Records(trieds) && nIds == |trieds|
      invariant ListsUpTo(m, trieds, true, id)
    {
      if id in m.mapInfo {
        RecordFacts(m, id);
        var info := m.mapInfo[id];
        if info.inTried {
          RoomLeft(m, trieds, id);
          assert nIds != m.nTried;
          items := items + [Record(Save(info.addr, info.meta))];
          trieds := trieds + [Save(info.addr, info.meta)];
          nIds := nIds + 1;
        }
      }
    }
  }

  /** `row` lists the saved new addresses of bucket `b` whose cell comes before `n`. */
  ghost predicate ListsCells(m: AddrMan, news: seq<Saved>, row: seq<nat>, b: nat, n: int)
    reads m
  {
    && Distinct(row)
    && (forall k | k in row :: k < |news|)
    && (forall k: nat | k < |news| ::
          news[k].addr in m.view
          && (k in row <==> b in Buckets(m.view[news[k].addr])
                            && m.H().Position(news[k].addr, m.view[news[k].addr].meta.port, true, b) < n))
  }

  lemma CellListed(m: AddrMan, news: seq<Saved>, unk: map<int, nat>, row: seq<nat>, b: nat, n: nat)
    requires m.Valid() && b < NEW_BUCKET_COUNT && n < BUCKET_SIZE
    requires ListsUpTo(m, news, false, m.idCount) && Numbered(m, unk, news, m.idCount)
    requires ListsCells(m, news, row, b, n)
    ensures m.vvNew[b, n] == -1 ==> ListsCells(m, news, row, b, n + 1)
    ensures m.vvNew[b, n] != -1 ==> m.vvNew[b, n] in unk && ListsCells(m, news, row + [unk[m.vvNew[b, n]]], b, n + 1)
  {
    hide Rep;
    forall k: nat | k < |news|
      ensures b in Buckets(m.view[news[k].addr])
              && m.H().Position(news[k].addr, m.view[news[k].addr].meta.port, true, b) == n
              <==> m.vvNew[b, n] != -1 && m.vvNew[b, n] == m.mapAddr[news[k].addr]
    {
      AddrFacts(m.H(), m.State(), m.view, news[k].addr);
      CellFacts(m.H(), m.State(), m.view, news[k].addr, b);
      if m.vvNew[b, n] != -1 {
        m.NewCellFacts(b, n);
      }
    }
    if m.vvNew[b, n] != -1 {
      m.NewCellFacts(b, n);
      RecordFacts(m, m.vvNew[b, n]);
      var k0 := unk[m.vvNew[b, n]];
      assert news[k0].addr == m.mapInfo[m.vvNew[b, n]].addr;
      forall k: nat | k < |news| ensures m.vvNew[b, n] == m.mapAddr[news[k].addr] <==> k == k0 {
        AddrFacts(m.H(), m.State(), m.view, news[k].addr);
        assert k < k0 ==> news[k].addr != news[k0].addr;
        assert k0 < k ==> news[k0].addr != news[k].addr;
      }
      assert forall k :: k in row + [k0] <==> k in row || k == k0;
    }
  }

  method SaveRow(m: AddrMan, unk: map<int, nat>, b: nat, ghost news: seq<Saved>)
    returns (items: seq<Item>, ghost row: seq<nat>)
    requires m.Valid() && b < NEW_BUCKET_COUNT
    requires ListsUpTo(m, news, false, m.idCount) && Numbered(m, unk, news, m.idCount)
    ensures items == [Int32(|row|)] + Numbers(row) && ListsBucket(m.view, news, row, b)
  {
    hide Rep, Mirrors, NewAddrs, TriedAddrs, AllSettled, ListsUpTo, Numbered, ListsCells;
    var size := 0;
    for i := 0 to BUCKET_SIZE
      invariant size == Occupied(m.vvNew, b, i)
    {
      if m.vvNew[b, i] != -1 {
        size := size + 1;
      }
    }
    var numbers := [];
    row := [];
    NoCellsYet(m, news, b);
    for i := 0 to BUCKET_SIZE
      invariant numbers == Numbers(row) && |row| == Occupied(m.vvNew, b, i)
      invariant ListsCells(m, news, row, b, i)
    {
      CellListed(m, news, unk, row, b, i);
      if m.vvNew[b, i] != -1 {
        var index := unk[m.vvNew[b, i]];
        numbers := numbers + [Int32(index)];
        row := row + [index];
      }
    }
    AllCellsListed(m, news, row, b);
    items := [Int32(size)] + numbers;
  }

  ghost function Occupied(arr: array2<int>, b: int, n: nat): nat
    requires 0 <= b < arr.Length0 && n <= arr.Length1
    reads arr
  {
    if n == 0 then 0 else Occupied(arr, b, n - 1) + (if arr[b, n - 1] != -1 then 1 else 0)
  }

  lemma NoCellsYet(m: AddrMan, news: seq<Saved>, b: nat)
    requires ListsUpTo(m, news, false, m.idCount)
    ensures ListsCells(m, news, [], b, 0)
  {
  }

  lemma AllCellsListed(m: AddrMan, news: seq<Saved>, row: seq<nat>, b: nat)
    requires ListsCells(m, news, row, b, BUCKET_SIZE)
    ensures ListsBucket(m.view, news, row, b)
  {
  }

  /** Save the whole manager; the ghost results say what the stream contains. */
  method Serialize(m: AddrMan)
    returns (s: seq<Item>, ghost news: seq<Saved>, ghost trieds: seq<Saved>, ghost rows: seq<seq<nat>>)
    requires m.Valid()
    ensures Describes(m.view, news, trieds, rows)
    ensures s == Stream(m.key, news, trieds, rows)
  {
    hide Rep, Mirrors, NewAddrs, TriedAddrs, AllSettled, ListsUpTo, Numbered, Lists, ListsBucket;
    s := [Byte(1), Byte(32), Hash256(m.key), Int32(m.nNew), Int32(m.nTried), Int32(FlipBit30(NEW_BUCKET_COUNT))];
    var newItems, unk, triedItems, rowItems;
    newItems, unk, news := SaveNews(m);
    ListsAll(m, news, false);
    triedItems, trieds := SaveTried(m);
    ListsAll(m, trieds, true);
    s := s + newItems + triedItems;
    ghost var head := s;
    rows := [];
    for bucket := 0 to NEW_BUCKET_COUNT
      invariant |rows| == bucket && s == head + Rows(rows)
      invariant forall b: nat | b < |rows| :: ListsBucket(m.view, news, rows[b], b)
    {
      ghost var row;
      rowItems, row := SaveRow(m, unk, bucket, news);
      RowsAppend(rows, row);
      assert head + Rows(rows + [row]) == s + rowItems;
      s := s + rowItems;
      rows := rows + [row];
    }
  }
}
