/**
  Reading the stream of an address manager: which streams can be read, and what they
  contain.
 */
module AddrStream {
  import opened Basics
  import opened AddrTypes
  import opened AddrCodec

  /** What a stream contains. */
  datatype Content = Content(
    version: nat,
    key: nat,
    nNew: int,
    nTried: int,
    buckets: int,
    news: seq<Saved>,
    trieds: seq<Saved>,
    rows: seq<seq<int>>)
  {
    /** The references cannot be used, so every new entry gets the one that its own source selects. */
    predicate Orphaned() {
      version != 1 || buckets != NEW_BUCKET_COUNT
    }
  }

  function ReadRecords(n: int, s: seq<Item>): Option<(seq<Saved>, seq<Item>)>
    decreases |s|
  {
    if n <= 0 then Some(([], s))
    else if s == [] || !s[0].Record? then None
    else
      match ReadRecords(n - 1, s[1..])
      case None => None
      case Some((xs, rest)) => Some(([s[0].r] + xs, rest))
  }

  function ReadNumbers(n: int, s: seq<Item>): (r: Option<(seq<int>, seq<Item>)>)
    ensures r.Some? ==> |r.value.1| <= |s|
    decreases |s|
  {
    if n <= 0 then Some(([], s))
    else if s == [] || !s[0].Int32? then None
    else
      match ReadNumbers(n - 1, s[1..])
      case None => None
      case Some((xs, rest)) => Some(([s[0].i] + xs, rest))
  }

  function ReadRows(n: int, s: seq<Item>): Option<seq<seq<int>>>
    decreases |s|
  {
    if n <= 0 then Some([])
    else if s == [] || !s[0].Int32? then None
    else
      match ReadNumbers(s[0].i, s[1..])
      case None => None
      case Some((row, rest)) =>
        match ReadRows(n - 1, rest)
        case None => None
        case Some(rows) => Some([row] + rows)
  }

  predicate HeaderOk(s: seq<Item>) {
    && |s| >= 6 && s[0].Byte? && s[1] == Item.Byte(32) && s[2].Hash256? && s[3].Int32? && s[4].Int32? && s[5].Int32?
    && s[3].i <= NEW_BUCKET_COUNT * BUCKET_SIZE && s[4].i <= TRIED_BUCKET_COUNT * BUCKET_SIZE
  }

  /** The header and the records of a stream, and what follows them. */
  function Listing(s: seq<Item>): Option<(Content, seq<Item>)> {
    if !HeaderOk(s) then None
    else
      match ReadRecords(s[3].i, s[6..])
      case None => None
      case Some((news, s1)) =>
        match ReadRecords(s[4].i, s1)
        case None => None
        case Some((trieds, s2)) =>
          var buckets := if s[0].b != 0 then FlipBit30(s[5].i) else s[5].i;
          Some((Content(s[0].b, s[2].n, s[3].i, s[4].i, buckets, news, trieds, []), s2))
  }

  /** The stream's content, unless its key size is wrong, a count exceeds its limit or data is missing. */
  function Parse(s: seq<Item>): Option<Content> {
    match Listing(s)
    case None => None
    case Some((c, rest)) =>
      match ReadRows(c.buckets, rest)
      case None => None
      case Some(rows) => Some(c.(rows := rows))
  }

  lemma {:induction false} RecordsRead(xs: seq<Saved>, tail: seq<Item>)
    ensures ReadRecords(|xs|, Records(xs) + tail) == Some((xs, tail))
  {
    var s := Records(xs) + tail;
    if xs == [] {
      assert s == tail;
    } else {
      assert s[0] == Record(xs[0]) && s[1..] == Records(xs[1..]) + tail;
      RecordsRead(xs[1..], tail);
      assert [xs[0]] + xs[1..] == xs;
    }
  }

  lemma {:induction false} NumbersRead(xs: seq<int>, tail: seq<Item>)
    ensures ReadNumbers(|xs|, Numbers(xs) + tail) == Some((xs, tail))
  {
    var s := Numbers(xs) + tail;
    if xs == [] {
      assert s == tail;
    } else {
      assert s[0] == Item.Int32(xs[0]) && s[1..] == Numbers(xs[1..]) + tail;
      NumbersRead(xs[1..], tail);
      assert [xs[0]] + xs[1..] == xs;
    }
  }

  lemma {:induction false} RowsRead(rows: seq<seq<int>>)
    ensures ReadRows(|rows|, Rows(rows)) == Some(rows)
  {
    if rows != [] {
      var s := Rows(rows);
      assert s[0] == Item.Int32(|rows[0]|) && s[1..] == Numbers(rows[0]) + Rows(rows[1..]);
      NumbersRead(rows[0], Rows(rows[1..]));
      RowsRead(rows[1..]);
      assert [rows[0]] + rows[1..] == rows;
    }
  }

  /** The content of a saved stream. */
  function SavedContent(key: nat, news: seq<Saved>, trieds: seq<Saved>, rows: seq<seq<int>>): Content {
    Content(1, key, |news|, |trieds|, NEW_BUCKET_COUNT, news, trieds, rows)
  }

  /** What was saved is read back. */
  lemma StreamRead(key: nat, news: seq<Saved>, trieds: seq<Saved>, rows: seq<seq<int>>)
    requires |news| <= NEW_BUCKET_COUNT * BUCKET_SIZE && |trieds| <= TRIED_BUCKET_COUNT * BUCKET_SIZE
    requires |rows| == NEW_BUCKET_COUNT
    ensures Parse(Stream(key, news, trieds, rows)) == Some(SavedContent(key, news, trieds, rows))
  {
    hide Records, Rows, ReadRecords, ReadRows;
    var s := Stream(key, news, trieds, rows);
    assert s[6..] == Records(news) + (Records(trieds) + Rows(rows));
    RecordsRead(news, Records(trieds) + Rows(rows));
    RecordsRead(trieds, Rows(rows));
    RowsRead(rows);
  }

  lemma {:induction false} RecordsCount(n: int, s: seq<Item>)
    requires ReadRecords(n, s).Some?
    ensures |ReadRecords(n, s).value.0| == Max(0, n)
    decreases |s|
  {
    if n > 0 {
      RecordsCount(n - 1, s[1..]);
    }
  }

  lemma {:induction false} RowsCount(n: int, s: seq<Item>)
    requires ReadRows(n, s).Some?
    ensures |ReadRows(n, s).value| == Max(0, n)
    decreases |s|
  {
    if n > 0 {
      RowsCount(n - 1, ReadNumbers(s[0].i, s[1..]).value.1);
    }
  }
}
