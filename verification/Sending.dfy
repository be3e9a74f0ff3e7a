/**
  The sending side of the message framing, and what becomes of a message on its way:
  the receiver gets the same command and the same payload, however the bytes are cut up.
 */
module Sending {
  import opened Basics
  import opened Framing

  const MESSAGE_START_SIZE := 4
  const COMMAND_SIZE := 12
  const MESSAGE_SIZE_OFFSET := MESSAGE_START_SIZE + COMMAND_SIZE
  const CHECKSUM_OFFSET := MESSAGE_SIZE_OFFSET + 4

  /** The `k` lowest bytes of a number, least significant first. */
  function LittleEndian(n: nat, k: nat): (s: seq<Byte>)
    ensures |s| == k
  {
    if k == 0 then [] else [n % 256] + LittleEndian(n / 256, k - 1)
  }

  function Zeros(k: nat): (s: seq<Byte>)
    ensures |s| == k && forall i | 0 <= i < k :: s[i] == 0
  {
    seq(k, _ => 0)
  }

  /** At most twelve bytes of a command, filled up with zeros. */
  function CommandField(command: seq<Byte>): (s: seq<Byte>)
    ensures |s| == COMMAND_SIZE
  {
    if |command| >= COMMAND_SIZE then command[..COMMAND_SIZE] else command + Zeros(COMMAND_SIZE - |command|)
  }

  function Header(magic: seq<Byte>, command: seq<Byte>, size: nat, checksum: seq<Byte>): (hdr: seq<Byte>)
    requires |magic| == MESSAGE_START_SIZE && |checksum| == 4
    ensures |hdr| == HEADER_SIZE
  {
    magic + CommandField(command) + LittleEndian(size, 4) + checksum
  }

  /** The command in a header: what comes before the first zero of its field. */
  function CommandOf(hdr: seq<Byte>): seq<Byte>
    requires |hdr| == HEADER_SIZE
  {
    UpToZero(hdr[MESSAGE_START_SIZE..MESSAGE_SIZE_OFFSET])
  }

  function UpToZero(s: seq<Byte>): seq<Byte> {
    if s == [] || s[0] == 0 then [] else [s[0]] + UpToZero(s[1..])
  }

  // ----- what is written is what is read

  /** The size written is the size read. */
  lemma SizeRead(magic: seq<Byte>, command: seq<Byte>, size: nat, checksum: seq<Byte>)
    requires |magic| == MESSAGE_START_SIZE && |checksum| == 4 && size < TWO_32
    ensures SizeOf(Header(magic, command, size, checksum)) == size
  {
    var s := LittleEndian(size, 4);
    FourBytes(size);
    var hdr := Header(magic, command, size, checksum);
    assert hdr[16..20] == s;
    assert hdr[16] == s[0] && hdr[17] == s[1] && hdr[18] == s[2] && hdr[19] == s[3];
  }

  lemma FourBytes(n: nat)
    ensures LittleEndian(n, 4) == [n % 256, n / 256 % 256, n / 256 / 256 % 256, n / 256 / 256 / 256 % 256]
  {
    assert LittleEndian(n / 256 / 256 / 256, 1) == [n / 256 / 256 / 256 % 256];
    assert LittleEndian(n / 256 / 256, 2) == [n / 256 / 256 % 256] + LittleEndian(n / 256 / 256 / 256, 1);
    assert LittleEndian(n / 256, 3) == [n / 256 % 256] + LittleEndian(n / 256 / 256, 2);
  }

  /** A command without a zero comes back exactly if it is not too long. */
  lemma CommandRead(magic: seq<Byte>, command: seq<Byte>, size: nat, checksum: seq<Byte>)
    requires |magic| == MESSAGE_START_SIZE && |checksum| == 4 && forall i | 0 <= i < |command| :: command[i] != 0
    ensures CommandOf(Header(magic, command, size, checksum)) == command <==> |command| <= COMMAND_SIZE
  {
    var hdr := Header(magic, command, size, checksum);
    assert hdr[4..16] == CommandField(command);
    if |command| <= COMMAND_SIZE {
      assert CommandField(command) == command + Zeros(COMMAND_SIZE - |command|);
      BeforeZero(command, Zeros(COMMAND_SIZE - |command|));
    } else {
      UpToZeroShort(CommandField(command));
    }
  }

  lemma {:induction false} BeforeZero(s: seq<Byte>, rest: seq<Byte>)
    requires (forall i | 0 <= i < |s| :: s[i] != 0) && (rest == [] || rest[0] == 0)
    ensures UpToZero(s + rest) == s
  {
    if s == [] {
      assert s + rest == rest;
    } else {
      assert (s + rest)[1..] == s[1..] + rest;
      BeforeZero(s[1..], rest);
    }
  }

  lemma {:induction false} UpToZeroShort(s: seq<Byte>)
    ensures |UpToZero(s)| <= |s|
  {
    if s != [] {
      UpToZeroShort(s[1..]);
    }
  }

  // ----- sending

  /** A message on its way. */
  datatype Message = Message(command: seq<Byte>, payload: seq<Byte>)

  /** What a message looks like on the wire, and what the receiver makes of it. */
  function FrameOf(magic: seq<Byte>, check: seq<Byte> -> seq<Byte>, m: Message): Frame
    requires |magic| == MESSAGE_START_SIZE && |check(m.payload)| == 4
  {
    Frame(Header(magic, m.command, |m.payload|, check(m.payload)), m.payload)
  }

  class Sender {
    const magic: seq<Byte>
    const check: seq<Byte> -> seq<Byte>      // the first four bytes of a hash
    var ssSend: seq<Byte>                    // the message that is being put together
    var wire: seq<Byte>                      // what has been sent

    ghost predicate Valid()
      reads this
    {
      |magic| == MESSAGE_START_SIZE && (forall s :: |check(s)| == 4) && ssSend == []
    }

    constructor (magic: seq<Byte>, check: seq<Byte> -> seq<Byte>)
      requires |magic| == MESSAGE_START_SIZE && forall s :: |check(s)| == 4
      ensures Valid() && wire == [] && this.magic == magic && this.check == check
    {
      this.magic, this.check, ssSend, wire := magic, check, [], [];
    }

    method BeginMessage(command: seq<Byte>)
      requires Valid()
      modifies this`ssSend
      ensures ssSend == Header(magic, command, 0, Zeros(4))
    {
      ssSend := Header(magic, command, 0, Zeros(4));
    }

    /** Set the size and the checksum, and send. */
    method EndMessage(ghost command: seq<Byte>, ghost payload: seq<Byte>)
      requires |magic| == MESSAGE_START_SIZE && forall s :: |check(s)| == 4
      requires ssSend == Header(magic, command, 0, Zeros(4)) + payload
      modifies this`ssSend, this`wire
      ensures Valid() && wire == old(wire) + (Header(magic, command, |payload|, check(payload)) + payload)
    {
      var size := |ssSend| - HEADER_SIZE;
      var s := LittleEndian(size, 4);
      ssSend := Splice(ssSend, MESSAGE_SIZE_OFFSET, s);
      assert ssSend[HEADER_SIZE..] == payload;
      var sum := check(ssSend[HEADER_SIZE..]);
      ssSend := Splice(ssSend, CHECKSUM_OFFSET, sum);
      assert ssSend == Header(magic, command, |payload|, check(payload)) + payload;
      wire := wire + ssSend;
      ssSend := [];
    }

    method PushMessage(m: Message)
      requires Valid()
      modifies this`ssSend, this`wire
      ensures Valid()
      ensures wire == old(wire) + (FrameOf(magic, check, m).hdr + m.payload)
    {
      BeginMessage(m.command);
      ssSend := ssSend + m.payload;
      EndMessage(m.command, m.payload);
    }
  }

  // ----- what arrives

  /** A message that the receiver does not refuse. */
  ghost predicate Sendable(rules: Rules, magic: seq<Byte>, check: seq<Byte> -> seq<Byte>, m: Message) {
    && |magic| == MESSAGE_START_SIZE && |check(m.payload)| == 4
    && |m.payload| <= MAX_PROTOCOL_MESSAGE_LENGTH && !rules.malformed(FrameOf(magic, check, m).hdr)
  }

  /** A message of any size up to the limit arrives as it was sent, and a larger one is refused. */
  lemma MessageReceived(rules: Rules, frames: seq<Frame>, magic: seq<Byte>, check: seq<Byte> -> seq<Byte>, m: Message)
    requires |magic| == MESSAGE_START_SIZE && |check(m.payload)| == 4 && |m.payload| < TWO_32
    requires !rules.malformed(FrameOf(magic, check, m).hdr)
    ensures FeedAll(rules, Open(frames, Idle), FrameOf(magic, check, m).hdr + m.payload)
         == if |m.payload| <= 4000000 then Open(frames + [FrameOf(magic, check, m)], Idle) else Rejected
  {
    hide Header, SizeOf, FeedAll;
    var f := FrameOf(magic, check, m);
    SizeRead(magic, m.command, |m.payload|, check(m.payload));
    if |m.payload| <= 4000000 {
      SentReceived(rules, frames, f);
    } else {
      TooLarge(rules, frames, f);
    }
  }

  lemma TooLarge(rules: Rules, frames: seq<Frame>, f: Frame)
    requires |f.hdr| == HEADER_SIZE && Refused(rules, f.hdr)
    ensures FeedAll(rules, Open(frames, Idle), f.hdr + f.payload) == Rejected
  {
    hide FeedAll, SizeOf;
    FeedSplit(rules, Open(frames, Idle), f.hdr, f.payload);
    assert Begun(Idle) + f.hdr == f.hdr;
    FeedHeader(rules, frames, Idle, f.hdr);
    StaysRejected(rules, f.payload);
  }

  ghost function FramesOf(magic: seq<Byte>, check: seq<Byte> -> seq<Byte>, msgs: seq<Message>): seq<Frame>
    requires |magic| == MESSAGE_START_SIZE && forall s :: |check(s)| == 4
  {
    seq(|msgs|, i requires 0 <= i < |msgs| => FrameOf(magic, check, msgs[i]))
  }

  lemma FramesNext(magic: seq<Byte>, check: seq<Byte> -> seq<Byte>, msgs: seq<Message>, i: nat)
    requires |magic| == MESSAGE_START_SIZE && (forall s :: |check(s)| == 4) && i < |msgs|
    ensures FramesOf(magic, check, msgs[..i + 1])
         == FramesOf(magic, check, msgs[..i]) + [FrameOf(magic, check, msgs[i])]
    ensures FrameBytes(FramesOf(magic, check, msgs[..i + 1]))
         == FrameBytes(FramesOf(magic, check, msgs[..i])) + (FrameOf(magic, check, msgs[i]).hdr + msgs[i].payload)
  {
    hide FrameOf;
    assert FramesOf(magic, check, msgs[..i + 1])
        == FramesOf(magic, check, msgs[..i]) + [FrameOf(magic, check, msgs[i])];
    FrameBytesNext(FramesOf(magic, check, msgs[..i]), FrameOf(magic, check, msgs[i]));
    PayloadOf(magic, check, msgs[i]);
  }

  lemma PayloadOf(magic: seq<Byte>, check: seq<Byte> -> seq<Byte>, m: Message)
    requires |magic| == MESSAGE_START_SIZE && |check(m.payload)| == 4
    ensures FrameOf(magic, check, m).payload == m.payload
  {
  }

  /** Messages sent one after the other arrive one after the other. */
  lemma {:induction false} AllReceived(rules: Rules, magic: seq<Byte>, check: seq<Byte> -> seq<Byte>,
                                       msgs: seq<Message>, n: nat)
    requires |magic| == MESSAGE_START_SIZE && (forall s :: |check(s)| == 4) && n <= |msgs|
    requires forall i | 0 <= i < |msgs| :: Sendable(rules, magic, check, msgs[i])
    ensures var frames := FramesOf(magic, check, msgs[..n]);
            FeedAll(rules, Open([], Idle), FrameBytes(frames)) == Open(frames, Idle)
  {
    hide FeedAll, FramesOf, FrameOf, FrameBytes;
    if n == 0 {
      NoFrames(magic, check, msgs);
      FeedNothing(rules, Open([], Idle));
    } else {
      AllReceived(rules, magic, check, msgs, n - 1);
      FramesNext(magic, check, msgs, n - 1);
      var frames, m := FramesOf(magic, check, msgs[..n - 1]), msgs[n - 1];
      FeedSplit(rules, Open([], Idle), FrameBytes(frames), FrameOf(magic, check, m).hdr + m.payload);
      MessageReceived(rules, frames, magic, check, m);
    }
  }

  lemma NoFrames(magic: seq<Byte>, check: seq<Byte> -> seq<Byte>, msgs: seq<Message>)
    requires |magic| == MESSAGE_START_SIZE && forall s :: |check(s)| == 4
    ensures FramesOf(magic, check, msgs[..0]) == [] && FrameBytes([]) == []
  {
  }

  /** All messages sent are received, in order and with nothing left over, however the bytes are cut up. */
  method Conversation(magic: seq<Byte>, check: seq<Byte> -> seq<Byte>, rules: Rules, commands: set<nat>,
                      msgs: seq<Message>, cut: seq<Byte> -> seq<seq<Byte>>, takes: nat -> nat)
    returns (ok: bool, delivered: seq<Frame>, ghost received: State)
    requires |magic| == MESSAGE_START_SIZE && (forall s :: |check(s)| == 4) && OTHER in commands
    requires forall i | 0 <= i < |msgs| :: Sendable(rules, magic, check, msgs[i])
    requires forall w :: Concat(cut(w)) == w
    ensures ok && received == Open(FramesOf(magic, check, msgs), Idle) && delivered <= FramesOf(magic, check, msgs)
  {
    hide FeedAll, FramesOf, FrameOf, FrameBytes, Concat, Sendable;
    var sender := new Sender(magic, check);
    NoFrames(magic, check, msgs);
    for i := 0 to |msgs|
      invariant fresh(sender) && sender.Valid() && sender.magic == magic && sender.check == check
      invariant sender.wire == FrameBytes(FramesOf(magic, check, msgs[..i]))
    {
      FramesNext(magic, check, msgs, i);
      sender.PushMessage(msgs[i]);
    }
    assert msgs[..|msgs|] == msgs;
    AllReceived(rules, magic, check, msgs, |msgs|);
    ok, delivered, received := ReceiveAll(rules, commands, cut(sender.wire), takes);
  }
}
