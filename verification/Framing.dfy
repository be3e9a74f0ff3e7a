/**
  Splitting the bytes received from a peer into messages.  Checking a header beyond its
  size, and the class of commands it is counted under, are arbitrary functions of it.
 */
module Framing {

  import opened Basics
  import opened SetSums

  const HEADER_SIZE := 24
  const MAX_PROTOCOL_MESSAGE_LENGTH := 4 * 1000 * 1000
  const READ_AHEAD := 256 * 1024

  datatype Rules = Rules(malformed: seq<Byte> -> bool, command: seq<Byte> -> nat)

  /** The payload size announced in a header, least significant byte first. */
  function SizeOf(hdr: seq<Byte>): nat
    requires |hdr| == HEADER_SIZE
  {
    var a: nat, b: nat, c: nat, d: nat := hdr[16], hdr[17], hdr[18], hdr[19];
    a + 256 * b + 65536 * c + 16777216 * d
  }

  // The byte by byte reference.

  datatype Frame = Frame(hdr: seq<Byte>, payload: seq<Byte>)

  datatype Partial = Idle | Head(bytes: seq<Byte>) | Body(hdr: seq<Byte>, data: seq<Byte>)

  datatype State = Rejected | Open(frames: seq<Frame>, cur: Partial)

  ghost predicate PartialOk(p: Partial) {
    match p
    case Idle => true
    case Head(h) => 0 < |h| < HEADER_SIZE
    case Body(h, d) => |h| == HEADER_SIZE && |d| < SizeOf(h) <= MAX_PROTOCOL_MESSAGE_LENGTH
  }

  ghost predicate Refused(rules: Rules, hdr: seq<Byte>)
    requires |hdr| == HEADER_SIZE
  {
    rules.malformed(hdr) || SizeOf(hdr) > MAX_PROTOCOL_MESSAGE_LENGTH
  }

  /** What to do with `data` bytes of payload after a header. */
  ghost function Settle(frames: seq<Frame>, hdr: seq<Byte>, data: seq<Byte>): State
    requires |hdr| == HEADER_SIZE
  {
    if |data| == SizeOf(hdr) then Open(frames + [Frame(hdr, data)], Idle) else Open(frames, Body(hdr, data))
  }

  ghost function Feed(rules: Rules, s: State, b: Byte): State {
    match s
    case Rejected => Rejected
    case Open(frames, Idle) => Open(frames, Head([b]))
    case Open(frames, Head(h)) =>
      if |h| + 1 != HEADER_SIZE then Open(frames, Head(h + [b]))
      else if Refused(rules, h + [b]) then Rejected
      else Settle(frames, h + [b], [])
    case Open(frames, Body(h, d)) =>
      if |h| == HEADER_SIZE then Settle(frames, h, d + [b]) else s
  }

  ghost function FeedAll(rules: Rules, s: State, bytes: seq<Byte>): State
    decreases |bytes|
  {
    if bytes == [] then s else FeedAll(rules, Feed(rules, s, bytes[0]), bytes[1..])
  }

  /** Feeding in two pieces is feeding the whole. */
  lemma {:induction false} FeedSplit(rules: Rules, s: State, a: seq<Byte>, b: seq<Byte>)
    ensures FeedAll(rules, s, a + b) == FeedAll(rules, FeedAll(rules, s, a), b)
    decreases |a|
  {
    hide Feed;
    if a == [] {
      assert a + b == b;
    } else {
      assert (a + b)[1..] == a[1..] + b;
      FeedSplit(rules, Feed(rules, s, a[0]), a[1..], b);
    }
  }

  lemma {:induction false} StaysRejected(rules: Rules, bytes: seq<Byte>)
    ensures FeedAll(rules, Rejected, bytes) == Rejected
  {
    if bytes != [] {
      StaysRejected(rules, bytes[1..]);
    }
  }

  /** Header bytes that do not complete the header just pile up. */
  lemma {:induction false} FeedHead(rules: Rules, frames: seq<Frame>, h: seq<Byte>, bytes: seq<Byte>)
    requires |h| + |bytes| < HEADER_SIZE && |h| > 0
    ensures FeedAll(rules, Open(frames, Head(h)), bytes) == Open(frames, Head(h + bytes))
    decreases |bytes|
  {
    if bytes == [] {
      assert h + bytes == h;
    } else {
      FeedHead(rules, frames, h + [bytes[0]], bytes[1..]);
      assert h + [bytes[0]] + bytes[1..] == h + bytes;
    }
  }

  /** So do payload bytes, up to the announced size. */
  lemma {:induction false} FeedBody(rules: Rules, frames: seq<Frame>, h: seq<Byte>, d: seq<Byte>, bytes: seq<Byte>)
    requires |h| == HEADER_SIZE && |d| < SizeOf(h) && |d| + |bytes| <= SizeOf(h)
    ensures FeedAll(rules, Open(frames, Body(h, d)), bytes) == Settle(frames, h, d + bytes)
    decreases |bytes|
  {
    hide SizeOf;
    if bytes == [] {
      assert d + bytes == d;
    } else {
      assert d + [bytes[0]] + bytes[1..] == d + bytes;
      if |bytes| == 1 {
        assert bytes == [bytes[0]];
        FeedOne(rules, Open(frames, Body(h, d)), bytes[0]);
      } else {
        FeedBody(rules, frames, h, d + [bytes[0]], bytes[1..]);
      }
    }
  }

  /** The bytes of a header read so far; none if a message is yet to begin. */
  ghost function Begun(p: Partial): seq<Byte> {
    if p.Head? then p.bytes else []
  }

  /** The state once these header bytes have come in. */
  ghost function AfterHeader(rules: Rules, frames: seq<Frame>, h: seq<Byte>): State
    requires |h| <= HEADER_SIZE
  {
    if |h| < HEADER_SIZE then Open(frames, Head(h))
    else if Refused(rules, h) then Rejected
    else Settle(frames, h, [])
  }

  /** Reading on in a header. */
  lemma FeedHeader(rules: Rules, frames: seq<Frame>, p: Partial, bytes: seq<Byte>)
    requires (p.Idle? || p.Head?) && PartialOk(p) && bytes != [] && |Begun(p)| + |bytes| <= HEADER_SIZE
    ensures FeedAll(rules, Open(frames, p), bytes) == AfterHeader(rules, frames, Begun(p) + bytes)
  {
    hide Refused, SizeOf, FeedAll, Feed;
    if p.Idle? {
      var first, rest := bytes[0], bytes[1..];
      assert bytes == [first] + rest;
      FeedSplit(rules, Open(frames, p), [first], rest);
      FeedOne(rules, Open(frames, p), first);
      FeedFirst(rules, frames, first);
      if rest == [] {
        FeedNothing(rules, Open(frames, Head([first])));
        assert Begun(p) + bytes == [first];
      } else {
        FeedOn(rules, frames, [first], rest);
      }
      assert Begun(p) + bytes == [first] + rest;
    } else {
      FeedOn(rules, frames, p.bytes, bytes);
    }
  }

  lemma FeedOn(rules: Rules, frames: seq<Frame>, h: seq<Byte>, bytes: seq<Byte>)
    requires 0 < |h| < HEADER_SIZE && bytes != [] && |h| + |bytes| <= HEADER_SIZE
    ensures FeedAll(rules, Open(frames, Head(h)), bytes) == AfterHeader(rules, frames, h + bytes)
  {
    hide Refused, SizeOf, FeedAll;
    var last := |bytes| - 1;
    assert bytes == bytes[..last] + [bytes[last]];
    FeedSplit(rules, Open(frames, Head(h)), bytes[..last], [bytes[last]]);
    FeedHead(rules, frames, h, bytes[..last]);
    FeedOne(rules, Open(frames, Head(h + bytes[..last])), bytes[last]);
    assert h + bytes == h + bytes[..last] + [bytes[last]];
  }

  lemma FeedFirst(rules: Rules, frames: seq<Frame>, b: Byte)
    ensures Feed(rules, Open(frames, Idle), b) == Open(frames, Head([b]))
  {
  }

  lemma FeedNothing(rules: Rules, s: State)
    ensures FeedAll(rules, s, []) == s
  {
  }

  lemma FeedOne(rules: Rules, s: State, b: Byte)
    ensures FeedAll(rules, s, [b]) == Feed(rules, s, b)
  {
    assert [b][1..] == [];
  }

  // The buffers.

  /** Copy into a buffer. */
  function Splice(buf: seq<Byte>, pos: nat, data: seq<Byte>): (r: seq<Byte>)
    requires pos + |data| <= |buf|
    ensures |r| == |buf| && r[..pos + |data|] == buf[..pos] + data
  {
    buf[..pos] + data + buf[pos + |data|..]
  }

  function Grown(buf: seq<Byte>, n: nat): (r: seq<Byte>)
    requires |buf| <= n
    ensures |r| == n && r[..|buf|] == buf
  {
    buf + seq(n - |buf|, _ => 0)
  }

  /** One message as it comes in. */
  class NetMessage {
    var inData: bool
    var hdrbuf: seq<Byte>
    var hdr: seq<Byte>
    var nHdrPos: nat
    var vRecv: seq<Byte>
    var nDataPos: nat

    constructor ()
      ensures Valid() && !inData && nHdrPos == 0
    {
      inData, hdrbuf, hdr, nHdrPos, vRecv, nDataPos := false, seq(HEADER_SIZE, _ => 0), [], 0, [], 0;
    }

    /** The payload buffer is never more than 256 KiB ahead of what came in, nor larger than the message. */
    ghost predicate Valid()
      reads this
    {
      if !inData then
        |hdrbuf| == HEADER_SIZE && nHdrPos < HEADER_SIZE && vRecv == [] && nDataPos == 0
      else
        && |hdr| == HEADER_SIZE && nDataPos <= SizeOf(hdr)
        && nDataPos <= |vRecv| <= Min(SizeOf(hdr), nDataPos + READ_AHEAD)
    }

    predicate Complete()
      reads this
      requires inData ==> |hdr| == HEADER_SIZE
    {
      inData && SizeOf(hdr) == nDataPos
    }

    /** What has come in of the message. */
    ghost function Content(): Partial
      requires Valid()
      reads this
    {
      if !inData then (if nHdrPos == 0 then Idle else Head(hdrbuf[..nHdrPos])) else Body(hdr, vRecv[..nDataPos])
    }

    ghost function AsFrame(): Frame
      requires Valid() && Complete()
      reads this
    {
      Frame(hdr, vRecv)
    }

    /** Take header bytes; the count is negative for a header that is malformed or absurdly large. */
    method ReadHeader(rules: Rules, bytes: seq<Byte>) returns (handled: int)
      requires Valid() && !inData && bytes != []
      modifies this
      ensures handled >= 0 ==> Valid() && 0 < handled <= |bytes| && |Begun(old(Content()))| + handled <= HEADER_SIZE
      ensures var h := Begun(old(Content())) + bytes[..Min(HEADER_SIZE - old(nHdrPos), |bytes|)];
              if |h| < HEADER_SIZE then handled >= 0 && !inData && Content() == Head(h) && handled == |h| - old(nHdrPos)
              else (handled < 0 <==> rules.malformed(h) || SizeOf(h) > MAX_SIZE)
                   && (handled >= 0 ==> inData && hdr == h && nDataPos == 0 && handled == HEADER_SIZE - old(nHdrPos))
    {
      hide SizeOf;
      var nCopy := Min(HEADER_SIZE - nHdrPos, |bytes|);
      ghost var begun := Begun(Content());
      assert begun == hdrbuf[..nHdrPos];
      hdrbuf := Splice(hdrbuf, nHdrPos, bytes[..nCopy]);
      nHdrPos := nHdrPos + nCopy;
      assert hdrbuf[..nHdrPos] == begun + bytes[..nCopy];
      if nHdrPos < HEADER_SIZE {
        return nCopy;
      }
      assert hdrbuf[..HEADER_SIZE] == hdrbuf;
      if rules.malformed(hdrbuf) {
        return -1;
      }
      hdr, hdrbuf := hdrbuf, [];
      if SizeOf(hdr) > MAX_SIZE {
        return -1;
      }
      inData := true;
      return nCopy;
    }

    /** Take payload bytes, making room first. */
    method ReadData(bytes: seq<Byte>) returns (handled: nat)
      requires Valid() && inData && !Complete() && bytes != []
      modifies this`vRecv, this`nDataPos
      ensures Valid() && handled == Min(SizeOf(hdr) - old(nDataPos), |bytes|) && 0 < handled <= |bytes|
      ensures Content() == Body(hdr, old(vRecv[..nDataPos]) + bytes[..handled])
    {
      hide SizeOf;
      var nCopy := Min(SizeOf(hdr) - nDataPos, |bytes|);
      ghost var was := vRecv[..nDataPos];
      if |vRecv| < nDataPos + nCopy {
        vRecv := Grown(vRecv, Min(SizeOf(hdr), nDataPos + nCopy + READ_AHEAD));
        assert vRecv[..nDataPos] == was;
      }
      vRecv := Splice(vRecv, nDataPos, bytes[..nCopy]);
      nDataPos := nDataPos + nCopy;
      return nCopy;
    }
  }

  const OTHER := 0

  /** What a message is counted under. */
  function CountedAs(rules: Rules, known: set<nat>, hdr: seq<Byte>): nat {
    if rules.command(hdr) in known then rules.command(hdr) else OTHER
  }

  /** The bytes, headers included, of the messages counted under a command. */
  ghost function BytesFor(rules: Rules, known: set<nat>, frames: seq<Frame>, c: nat): nat {
    if frames == [] then 0
    else
      var f := frames[|frames| - 1];
      BytesFor(rules, known, frames[..|frames| - 1], c)
      + if CountedAs(rules, known, f.hdr) == c then |f.payload| + HEADER_SIZE else 0
  }

  lemma BytesForNext(rules: Rules, known: set<nat>, frames: seq<Frame>, f: Frame, c: nat)
    ensures BytesFor(rules, known, frames + [f], c)
         == BytesFor(rules, known, frames, c)
            + if CountedAs(rules, known, f.hdr) == c then |f.payload| + HEADER_SIZE else 0
  {
    assert (frames + [f])[..|frames|] == frames;
  }

  class Node {
    const rules: Rules
    var vRecvMsg: seq<NetMessage>
    var recvBytes: map<nat, nat>

    ghost var frames: seq<Frame>     // all messages received so far
    ghost var gone: nat              // how many of them have been taken out
    ghost var cur: Partial

    constructor (rules: Rules, commands: set<nat>)
      requires OTHER in commands
      ensures Valid() && fresh(vRecvMsg) && vRecvMsg == [] && Received() == Open([], Idle) && gone == 0
      ensures this.rules == rules && recvBytes.Keys == commands
    {
      this.rules, vRecvMsg, recvBytes := rules, [], map c | c in commands :: 0;
      frames, gone, cur := [], 0, Idle;
    }

    /** The list holds the messages not yet taken out, and perhaps one that is coming in. */
    ghost predicate Valid()
      reads this, vRecvMsg
    {
      && gone <= |frames| && Distinct(vRecvMsg) && Whole(vRecvMsg, frames[gone..]) && PartialOk(cur)
      && (if |vRecvMsg| == |frames| - gone then cur == Idle
          else |vRecvMsg| == |frames| - gone + 1 && Unfinished(vRecvMsg[|frames| - gone], cur) && cur != Idle)
      && Counted(rules, recvBytes, frames)
    }

    /** `msg` is the last of the list, after the complete ones. */
    ghost predicate Filling(msg: NetMessage)
      reads this, vRecvMsg
    {
      && gone <= |frames| && |vRecvMsg| == |frames| - gone + 1 && vRecvMsg[|frames| - gone] == msg
      && Distinct(vRecvMsg) && Whole(vRecvMsg, frames[gone..])
    }

    ghost function Received(): State
      reads this
    {
      Open(frames, cur)
    }

    /** Add up a complete message. */
    method Count(hdr: seq<Byte>, size: nat)
      requires OTHER in recvBytes
      modifies this`recvBytes
      ensures recvBytes.Keys == old(recvBytes.Keys)
      ensures forall c | c in recvBytes ::
                recvBytes[c] == old(recvBytes)[c]
                                + if CountedAs(rules, recvBytes.Keys, hdr) == c then size + HEADER_SIZE else 0
    {
      var c := CountedAs(rules, recvBytes.Keys, hdr);
      recvBytes := recvBytes[c := recvBytes[c] + size + HEADER_SIZE];
    }

    /** The message the next bytes belong to. */
    method Current() returns (msg: NetMessage)
      requires Valid()
      modifies this`vRecvMsg
      ensures Filling(msg) && Unfinished(msg, cur)
      ensures forall m | m in vRecvMsg :: m in old(vRecvMsg) || fresh(m)
    {
      if vRecvMsg == [] || vRecvMsg[|vRecvMsg| - 1].Complete() {
        var m := new NetMessage();
        vRecvMsg := vRecvMsg + [m];
      }
      msg := vRecvMsg[|vRecvMsg| - 1];
    }

    /** The last message has taken bytes: record what is there now. */
    method Settled(msg: NetMessage)
      requires Filling(msg) && msg.Valid() && Counted(rules, recvBytes, frames)
      requires PartialOk(msg.Content()) || msg.Complete()
      requires msg.Content() != Idle
      modifies this`recvBytes, this`frames, this`cur
      ensures Valid() && recvBytes.Keys == old(recvBytes.Keys)
      ensures if msg.Complete() then Received() == Open(old(frames) + [msg.AsFrame()], Idle)
              else Received() == Open(old(frames), msg.Content())
    {
      hide SizeOf, BytesFor, CountedAs;
      if msg.Complete() {
        forall c | c in recvBytes
          ensures BytesFor(rules, recvBytes.Keys, frames + [msg.AsFrame()], c)
               == BytesFor(rules, recvBytes.Keys, frames, c)
                  + if CountedAs(rules, recvBytes.Keys, msg.hdr) == c then |msg.vRecv| + HEADER_SIZE else 0
        {
          BytesForNext(rules, recvBytes.Keys, frames, msg.AsFrame(), c);
        }
        Count(msg.hdr, SizeOf(msg.hdr));
        assert (frames + [msg.AsFrame()])[gone..] == frames[gone..] + [msg.AsFrame()];
        frames, cur := frames + [msg.AsFrame()], Idle;
      } else {
        cur := msg.Content();
      }
    }

    /** One round of the receiving loop: take at least one byte, or refuse. */
    method Absorb(bytes: seq<Byte>) returns (handled: int)
      requires Valid() && bytes != []
      modifies this`vRecvMsg, this`recvBytes, this`frames, this`cur, vRecvMsg
      ensures handled < 0 ==> FeedAll(rules, old(Received()), bytes) == Rejected
      ensures handled >= 0 ==> 0 < handled <= |bytes| && Valid() && recvBytes.Keys == old(recvBytes.Keys)
      ensures handled >= 0 ==> Received() == FeedAll(rules, old(Received()), bytes[..handled])
      ensures forall m | m in vRecvMsg :: m in old(vRecvMsg) || fresh(m)
    {
      hide SizeOf, FeedAll, Counted, NetMessage.Valid;
      var msg := Current();
      assert msg in vRecvMsg;
      if !msg.inData {
        handled := AbsorbHeader(msg, bytes);
      } else {
        handled := AbsorbData(msg, bytes);
      }
    }

    method AbsorbHeader(msg: NetMessage, bytes: seq<Byte>) returns (handled: int)
      requires Filling(msg) && Unfinished(msg, cur) && PartialOk(cur) && Counted(rules, recvBytes, frames)
      requires !msg.inData && bytes != []
      modifies this`recvBytes, this`frames, this`cur, msg
      ensures handled < 0 ==> FeedAll(rules, old(Received()), bytes) == Rejected
      ensures handled >= 0 ==> 0 < handled <= |bytes| && Valid() && recvBytes.Keys == old(recvBytes.Keys)
      ensures handled >= 0 ==> Received() == FeedAll(rules, old(Received()), bytes[..handled])
    {
      hide SizeOf, FeedAll, Counted;
      ghost var k := Min(HEADER_SIZE - msg.nHdrPos, |bytes|);
      ghost var h := Begun(cur) + bytes[..k];
      FeedHeader(rules, frames, cur, bytes[..k]);
      RejectedFor(rules, Received(), bytes, k);
      handled := msg.ReadHeader(rules, bytes);
      if handled < 0 {
        return;
      }
      if msg.inData {
        if SizeOf(msg.hdr) > MAX_PROTOCOL_MESSAGE_LENGTH {
          handled := -1;
          return;
        }
      }
      assert handled == k;
      Settled(msg);
    }

    method AbsorbData(msg: NetMessage, bytes: seq<Byte>) returns (handled: int)
      requires Filling(msg) && Unfinished(msg, cur) && PartialOk(cur) && Counted(rules, recvBytes, frames)
      requires msg.inData && bytes != []
      modifies this`recvBytes, this`frames, this`cur, msg
      ensures 0 < handled <= |bytes| && Valid() && recvBytes.Keys == old(recvBytes.Keys)
      ensures Received() == FeedAll(rules, old(Received()), bytes[..handled])
    {
      hide SizeOf, FeedAll, Counted;
      ghost var k := Min(SizeOf(msg.hdr) - msg.nDataPos, |bytes|);
      FeedBody(rules, frames, cur.hdr, cur.data, bytes[..k]);
      handled := msg.ReadData(bytes);
      assert msg.Complete() ==> msg.vRecv[..msg.nDataPos] == msg.vRecv;
      Settled(msg);
    }

    /**
      Take a chunk.  It is accepted exactly if the byte by byte reference does not
      reject, and then the messages are those of the reference.
     */
    method ReceiveMsgBytes(bytes: seq<Byte>) returns (ok: bool)
      requires Valid()
      modifies this`vRecvMsg, this`recvBytes, this`frames, this`cur, vRecvMsg
      ensures ok <==> FeedAll(rules, old(Received()), bytes) != Rejected
      ensures ok ==> Valid() && Received() == FeedAll(rules, old(Received()), bytes)
      ensures recvBytes.Keys == old(recvBytes.Keys) || !ok
      ensures forall m | m in vRecvMsg :: m in old(vRecvMsg) || fresh(m)
    {
      hide FeedAll, Node.Valid;
      var rest := bytes;
      while rest != []
        invariant Valid() && recvBytes.Keys == old(recvBytes.Keys)
        invariant FeedAll(rules, Received(), rest) == FeedAll(rules, old(Received()), bytes)
        invariant forall m | m in vRecvMsg :: m in old(vRecvMsg) || fresh(m)
        decreases |rest|
      {
        ghost var s := Received();
        assert forall i | 0 <= i < |vRecvMsg| :: vRecvMsg[i] in vRecvMsg;
        var handled := Absorb(rest);
        if handled < 0 {
          return false;
        }
        assert rest == rest[..handled] + rest[handled..];
        FeedSplit(rules, s, rest[..handled], rest[handled..]);
        rest := rest[handled..];
      }
      FeedNothing(rules, Received());
      return true;
    }

    /** Hand over complete messages from the front, at most `limit` of them; receiving is not disturbed. */
    method TakeMessages(limit: nat) returns (taken: seq<Frame>)
      requires Valid()
      modifies this`vRecvMsg, this`gone
      ensures Valid() && gone == old(gone) + |taken| <= |frames| && taken == frames[old(gone)..gone]
      ensures |taken| <= limit && (|taken| < limit ==> gone == |frames|)
      ensures forall m | m in vRecvMsg :: m in old(vRecvMsg)
    {
      hide SizeOf, Counted;
      taken := [];
      var it := 0;
      while it < |vRecvMsg| && it < limit
        invariant 0 <= it <= |vRecvMsg| && it <= |frames| - gone && it <= limit
        invariant taken == frames[gone..gone + it]
      {
        var msg := vRecvMsg[it];
        if !msg.Complete() {
          break;
        }
        assert msg.AsFrame() == frames[gone..][it] == frames[gone + it];
        taken := taken + [Frame(msg.hdr, msg.vRecv)];
        it := it + 1;
      }
      assert frames[gone..][it..] == frames[gone + it..];
      gone := gone + it;
      vRecvMsg := vRecvMsg[it..];
    }
  }

  lemma RejectedFor(rules: Rules, s: State, bytes: seq<Byte>, k: nat)
    requires k <= |bytes|
    ensures FeedAll(rules, s, bytes[..k]) == Rejected ==> FeedAll(rules, s, bytes) == Rejected
  {
    hide FeedAll;
    assert bytes == bytes[..k] + bytes[k..];
    FeedSplit(rules, s, bytes[..k], bytes[k..]);
    StaysRejected(rules, bytes[k..]);
  }

  ghost predicate Distinct(msgs: seq<NetMessage>) {
    forall i, j | 0 <= i < j < |msgs| :: msgs[i] != msgs[j]
  }

  /** The first messages are complete and hold these frames. */
  ghost predicate Whole(msgs: seq<NetMessage>, frames: seq<Frame>)
    reads msgs
  {
    && |frames| <= |msgs|
    && forall i | 0 <= i < |frames| :: msgs[i].Valid() && msgs[i].Complete() && msgs[i].AsFrame() == frames[i]
  }

  ghost predicate Unfinished(msg: NetMessage, cur: Partial)
    reads msg
  {
    msg.Valid() && !msg.Complete() && msg.Content() == cur
  }

  ghost predicate Counted(rules: Rules, recvBytes: map<nat, nat>, frames: seq<Frame>) {
    OTHER in recvBytes && forall c | c in recvBytes :: recvBytes[c] == BytesFor(rules, recvBytes.Keys, frames, c)
  }

  // What the reference means.

  ghost function FrameBytes(frames: seq<Frame>): seq<Byte> {
    if frames == [] then []
    else FrameBytes(frames[..|frames| - 1]) + (frames[|frames| - 1].hdr + frames[|frames| - 1].payload)
  }

  ghost function PartialBytes(p: Partial): seq<Byte> {
    match p
    case Idle => []
    case Head(h) => h
    case Body(h, d) => h + d
  }

  ghost function Wire(s: State): seq<Byte>
    requires s.Open?
  {
    FrameBytes(s.frames) + PartialBytes(s.cur)
  }

  ghost predicate StateOk(s: State) {
    s.Open? ==> PartialOk(s.cur) && forall f | f in s.frames :: |f.hdr| == HEADER_SIZE && |f.payload| == SizeOf(f.hdr)
  }

  lemma FrameBytesNext(frames: seq<Frame>, f: Frame)
    ensures FrameBytes(frames + [f]) == FrameBytes(frames) + (f.hdr + f.payload)
  {
    assert (frames + [f])[..|frames|] == frames;
  }

  lemma FeedKeeps(rules: Rules, s: State, b: Byte)
    requires StateOk(s) && s.Open?
    ensures StateOk(Feed(rules, s, b))
    ensures Feed(rules, s, b).Open? ==> Wire(Feed(rules, s, b)) == Wire(s) + [b]
  {
    hide SizeOf, FrameBytes;
    var r := Feed(rules, s, b);
    match s.cur
    case Idle =>
    case Head(h) =>
      if |h| + 1 == HEADER_SIZE {
        FrameBytesNext(s.frames, Frame(h + [b], []));
      }
    case Body(h, d) =>
      FrameBytesNext(s.frames, Frame(h, d + [b]));
  }

  /** The messages and what is left over are exactly the bytes fed, none lost and none added. */
  lemma {:induction false} NothingLost(rules: Rules, s: State, bytes: seq<Byte>)
    requires StateOk(s) && s.Open? && FeedAll(rules, s, bytes).Open?
    ensures StateOk(FeedAll(rules, s, bytes)) && Wire(FeedAll(rules, s, bytes)) == Wire(s) + bytes
    decreases |bytes|
  {
    hide SizeOf, Feed, StateOk, Wire;
    if bytes == [] {
      assert Wire(s) + bytes == Wire(s);
    } else {
      FeedKeeps(rules, s, bytes[0]);
      if Feed(rules, s, bytes[0]).Rejected? {
        StaysRejected(rules, bytes[1..]);
        assert false;
      }
      NothingLost(rules, Feed(rules, s, bytes[0]), bytes[1..]);
      assert Wire(s) + [bytes[0]] + bytes[1..] == Wire(s) + bytes;
    }
  }

  ghost function CountOf(rules: Rules, known: set<nat>, frames: seq<Frame>): nat -> int {
    (c: nat) => BytesFor(rules, known, frames, c)
  }

  /** Every byte of every message is counted, once. */
  lemma {:induction false} AllCounted(rules: Rules, known: set<nat>, frames: seq<Frame>)
    requires OTHER in known && forall f | f in frames :: |f.hdr| == HEADER_SIZE
    ensures SetSum(known, CountOf(rules, known, frames)) == |FrameBytes(frames)|
  {
    hide SetSum;
    if frames == [] {
      SumZero(known, CountOf(rules, known, frames));
    } else {
      var rest, f := frames[..|frames| - 1], frames[|frames| - 1];
      AllCounted(rules, known, rest);
      SumBump(known, CountOf(rules, known, rest), CountOf(rules, known, frames), CountedAs(rules, known, f.hdr),
              |f.payload| + HEADER_SIZE);
      assert frames == rest + [f];
      FrameBytesNext(rest, f);
    }
  }

  /** The messages with a command. */
  ghost function WithCommand(rules: Rules, frames: seq<Frame>, c: nat): seq<Frame> {
    if frames == [] then []
    else
      var f := frames[|frames| - 1];
      WithCommand(rules, frames[..|frames| - 1], c) + if rules.command(f.hdr) == c then [f] else []
  }

  /** A known command is counted under its own name, all its messages and no others. */
  lemma {:induction false} KnownCounted(rules: Rules, known: set<nat>, frames: seq<Frame>, c: nat)
    requires c in known && c != OTHER && forall f | f in frames :: |f.hdr| == HEADER_SIZE
    ensures BytesFor(rules, known, frames, c) == |FrameBytes(WithCommand(rules, frames, c))|
  {
    if frames != [] {
      var rest, f := frames[..|frames| - 1], frames[|frames| - 1];
      KnownCounted(rules, known, rest, c);
      FrameBytesNext(WithCommand(rules, rest, c), f);
      assert WithCommand(rules, rest, c) + [] == WithCommand(rules, rest, c);
    }
  }

  /** Every acceptable message that is sent comes out. */
  lemma SentReceived(rules: Rules, frames: seq<Frame>, f: Frame)
    requires |f.hdr| == HEADER_SIZE && |f.payload| == SizeOf(f.hdr) && !Refused(rules, f.hdr)
    ensures FeedAll(rules, Open(frames, Idle), f.hdr + f.payload) == Open(frames + [f], Idle)
  {
    hide SizeOf, FeedAll, Refused;
    FeedSplit(rules, Open(frames, Idle), f.hdr, f.payload);
    assert Begun(Idle) + f.hdr == f.hdr;
    FeedHeader(rules, frames, Idle, f.hdr);
    if f.payload == [] {
      FeedNothing(rules, Open(frames + [f], Idle));
    } else {
      FeedBody(rules, frames, f.hdr, [], f.payload);
      assert [] + f.payload == f.payload;
    }
  }

  ghost function Concat(chunks: seq<seq<Byte>>): seq<Byte> {
    if chunks == [] then [] else Concat(chunks[..|chunks| - 1]) + chunks[|chunks| - 1]
  }

  lemma ConcatNext(chunks: seq<seq<Byte>>, i: nat)
    requires i < |chunks|
    ensures Concat(chunks[..i + 1]) == Concat(chunks[..i]) + chunks[i]
  {
    assert chunks[..i + 1][..i] == chunks[..i];
  }

  lemma {:induction false} ConcatSplit(chunks: seq<seq<Byte>>, i: nat)
    requires i <= |chunks|
    ensures Concat(chunks[..i]) <= Concat(chunks)
    decreases |chunks| - i
  {
    if i == |chunks| {
      assert chunks[..i] == chunks;
    } else {
      ConcatNext(chunks, i);
      ConcatSplit(chunks, i + 1);
    }
  }

  /**
    However a stream is cut up, and whenever messages are taken out, it is accepted or
    refused, and split into messages, all the same.  Chunk `i` is followed by taking out
    up to `takes(i)` messages.
   */
  method ReceiveAll(rules: Rules, commands: set<nat>, chunks: seq<seq<Byte>>, takes: nat -> nat)
    returns (ok: bool, delivered: seq<Frame>, ghost received: State)
    requires OTHER in commands
    ensures ok <==> FeedAll(rules, Open([], Idle), Concat(chunks)) != Rejected
    ensures ok ==> received == FeedAll(rules, Open([], Idle), Concat(chunks)) && delivered <= received.frames
  {
    hide FeedAll, Node.Valid, Concat;
    var node := new Node(rules, commands);
    ConcatNone(chunks);
    FeedNothing(rules, Open([], Idle));
    received := node.Received();
    delivered := [];
    for i := 0 to |chunks|
      invariant fresh(node) && node.Valid() && node.rules == rules
      invariant forall m | m in node.vRecvMsg :: fresh(m)
      invariant received == node.Received() == FeedAll(rules, Open([], Idle), Concat(chunks[..i]))
      invariant node.gone <= |node.frames| && delivered == node.frames[..node.gone]
    {
      ConcatNext(chunks, i);
      FeedSplit(rules, Open([], Idle), Concat(chunks[..i]), chunks[i]);
      assert forall k | 0 <= k < |node.vRecvMsg| :: node.vRecvMsg[k] in node.vRecvMsg;
      ghost var before := node.frames;
      ok := node.ReceiveMsgBytes(chunks[i]);
      if !ok {
        ConcatSplit(chunks, i + 1);
        assert Concat(chunks)[..|Concat(chunks[..i + 1])|] == Concat(chunks[..i + 1]);
        RejectedFor(rules, Open([], Idle), Concat(chunks), |Concat(chunks[..i + 1])|);
        return;
      }
      FramesGrow(rules, received, chunks[i]);
      assert before <= node.frames;
      assert delivered == node.frames[..node.gone];
      received := node.Received();
      assert forall k | 0 <= k < |node.vRecvMsg| :: node.vRecvMsg[k] in node.vRecvMsg;
      var taken := node.TakeMessages(takes(i));
      delivered := delivered + taken;
    }
    assert chunks[..|chunks|] == chunks;
    ok := true;
  }

  /** Messages once received stay. */
  lemma {:induction false} FramesGrow(rules: Rules, s: State, bytes: seq<Byte>)
    requires s.Open? && FeedAll(rules, s, bytes).Open?
    ensures s.frames <= FeedAll(rules, s, bytes).frames
    decreases |bytes|
  {
    hide SizeOf;
    if bytes != [] {
      if Feed(rules, s, bytes[0]).Rejected? {
        StaysRejected(rules, bytes[1..]);
        assert false;
      }
      FramesGrow(rules, Feed(rules, s, bytes[0]), bytes[1..]);
    }
  }

  lemma ConcatNone(chunks: seq<seq<Byte>>)
    ensures Concat(chunks[..0]) == []
  {
  }
}
