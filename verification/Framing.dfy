/** The message protocol of session.cpp, apart from its buffers: how do_send cuts
    a message into frames, and what do_receive and handle_read make of a stream
    of bytes.  The session in Session.dfy is proved to compute these functions. */
module Framing {
  import opened Bytes
  import opened Transactions

  // The largest body of a frame: Buffer::kInitialSize less the header.
  const CAPACITY := 8 * 1024 - FRAME_HEADER

  datatype Message = Message(type': int, body: seq<byte>)

  datatype Frame = Frame(head: Head, additional: Additional, body: seq<byte>)

  predicate FrameOk(f: Frame) {
    HeadOk(f.head) && AdditionalOk(f.additional) && |f.body| == f.head.bodyLength <= CAPACITY
  }

  predicate IsHeartbeat(type': int) {
    type' == HEARTBEAT_CLIENT || type' == HEARTBEAT_SERVER
  }

  function Wire(f: Frame): (b: seq<byte>)
    requires FrameOk(f)
    ensures FRAME_HEADER <= |b| == FRAME_HEADER + |f.body| <= FRAME_HEADER + CAPACITY
  {
    FrameBytes(f.head, f.additional, f.body)
  }

  ghost predicate FramesOk(fs: seq<Frame>) {
    forall i :: 0 <= i < |fs| ==> FrameOk(fs[i])
  }

  ghost function Stream(fs: seq<Frame>): seq<byte>
    requires FramesOk(fs)
  {
    if fs == [] then [] else Wire(fs[0]) + Stream(fs[1..])
  }

  lemma {:induction false} StreamOfSum(a: seq<Frame>, b: seq<Frame>)
    requires FramesOk(a) && FramesOk(b)
    ensures FramesOk(a + b) && Stream(a + b) == Stream(a) + Stream(b)
    decreases |a|
  {
    if a == [] {
      assert a + b == b;
    } else {
      assert (a + b)[1..] == a[1..] + b && (a + b)[0] == a[0];
      StreamOfSum(a[1..], b);
      var x, y, z := Wire(a[0]), Stream(a[1..]), Stream(b);
      assert x + (y + z) == x + y + z;
    }
  }

  // ---------------------------------------------------------------------
  // Cutting a message (do_send).

  // What a 16-bit counter shows after i increments from 0.
  function Serial(i: nat): (s: int)
    ensures Int16(s)
    ensures s == 0 <==> i % 0x1_0000 == 0
  {
    (i + 0x8000) % 0x1_0000 - 0x8000
  }

  function NextSerial(s: int): int {
    if s == 0x7FFF then -0x8000 else s + 1
  }

  lemma SerialCounts(i: nat)
    ensures Serial(i + 1) == NextSerial(Serial(i))
  {
  }

  predicate MessageOk(m: Message) {
    Int32(m.type') && |m.body| < 0x8000_0000
  }

  function Fragment(m: Message, i: nat): (f: Frame)
    requires MessageOk(m) && (i == 0 || i * CAPACITY < |m.body|)
    ensures FrameOk(f) && f.head.type' == m.type'
  {
    var cur := i * CAPACITY;
    var len := if |m.body| - cur > CAPACITY then CAPACITY else |m.body| - cur;
    Frame(Head(len, m.type'), Additional(Serial(i), |m.body| - cur - len, |m.body|, [0, 0]), m.body[cur..cur + len])
  }

  ghost function FragmentsFrom(m: Message, i: nat): (fs: seq<Frame>)
    requires MessageOk(m) && (i == 0 || i * CAPACITY < |m.body|)
    ensures FramesOk(fs)
    decreases |m.body| - i * CAPACITY
  {
    var f := Fragment(m, i);
    [f] + if f.additional.hasNext != 0 then FragmentsFrom(m, i + 1) else []
  }

  // The bytes of the fragments from i on, none after the last.
  ghost function StreamFrom(m: Message, i: nat): seq<byte>
    requires MessageOk(m)
  {
    if i == 0 || i * CAPACITY < |m.body| then Stream(FragmentsFrom(m, i)) else []
  }

  lemma {:induction false} StreamStep(m: Message, i: nat)
    requires MessageOk(m) && (i == 0 || i * CAPACITY < |m.body|)
    ensures StreamFrom(m, i) == Wire(Fragment(m, i)) + StreamFrom(m, i + 1)
    ensures Fragment(m, i).additional.hasNext != 0 <==> (i + 1) * CAPACITY < |m.body|
  {
    var f := Fragment(m, i);
    var later := if f.additional.hasNext != 0 then FragmentsFrom(m, i + 1) else [];
    assert FragmentsFrom(m, i)[1..] == later;
    assert Stream([]) == [];
  }

  ghost predicate MessagesOk(log: seq<Message>) {
    forall i :: 0 <= i < |log| ==> MessageOk(log[i])
  }

  // The frames of a list of messages, one message after the other.
  ghost function FramesOf(log: seq<Message>): (fs: seq<Frame>)
    requires MessagesOk(log)
    ensures FramesOk(fs)
  {
    if log == [] then [] else FramesOf(log[..|log| - 1]) + FragmentsFrom(log[|log| - 1], 0)
  }

  lemma {:induction false} FramesOfMore(log: seq<Message>, m: Message)
    requires MessagesOk(log) && MessageOk(m)
    ensures MessagesOk(log + [m]) && Stream(FramesOf(log + [m])) == Stream(FramesOf(log)) + Stream(FragmentsFrom(m, 0))
  {
    assert (log + [m])[..|log|] == log;
    StreamOfSum(FramesOf(log), FragmentsFrom(m, 0));
  }

  // ---------------------------------------------------------------------
  // Taking a frame in (do_receive, and the heartbeats of handle_read).

  datatype Reader = Reader(partial: seq<byte>, dispatched: seq<Message>, echoes: seq<Head>)

  const FRESH := Reader([], [], [])

  function Accept(r: Reader, f: Frame): Reader {
    if f.head.type' == HEARTBEAT_CLIENT then r.(echoes := r.echoes + [f.head])
    else if f.head.type' == HEARTBEAT_SERVER then r
    else if f.additional.hasNext == 0 && f.additional.serial == 0 then
      r.(dispatched := r.dispatched + [Message(f.head.type', f.body)])
    else if f.additional.hasNext != 0 then r.(partial := r.partial + f.body)
    else Reader([], r.dispatched + [Message(f.head.type', r.partial + f.body)], r.echoes)
  }

  ghost function AcceptAll(r: Reader, fs: seq<Frame>): Reader
    decreases |fs|
  {
    if fs == [] then r else AcceptAll(Accept(r, fs[0]), fs[1..])
  }

  lemma {:induction false} AcceptSum(r: Reader, a: seq<Frame>, b: seq<Frame>)
    ensures AcceptAll(r, a + b) == AcceptAll(AcceptAll(r, a), b)
    decreases |a|
  {
    if a == [] {
      assert a + b == b;
    } else {
      assert (a + b)[1..] == a[1..] + b;
      AcceptSum(Accept(r, a[0]), a[1..], b);
    }
  }

  // ---------------------------------------------------------------------
  // One message there and back.

  // The index of the last fragment of a body of n bytes.
  function LastFragment(n: nat): nat {
    if n == 0 then 0 else (n - 1) / CAPACITY
  }

  // The receiver takes a frame without successor and with serial number 0 for a
  // whole message, and the serial number has 16 bits.
  predicate Whole(n: nat) {
    LastFragment(n) == 0 || LastFragment(n) % 0x1_0000 != 0
  }

  function Delivered(r: Reader, m: Message): Reader {
    var cut := LastFragment(|m.body|) * CAPACITY;
    if IsHeartbeat(m.type') then r
    else if Whole(|m.body|) then Reader([], r.dispatched + [m], r.echoes)
    else Reader(m.body[..cut], r.dispatched + [Message(m.type', m.body[cut..])], r.echoes)
  }

  lemma {:induction false} ReassembleFrom(r: Reader, m: Message, i: nat)
    requires MessageOk(m) && !IsHeartbeat(m.type') && (i == 0 || i * CAPACITY < |m.body|) && r.partial == m.body[..i * CAPACITY]
    ensures AcceptAll(r, FragmentsFrom(m, i)) == Delivered(r, m)
    decreases |m.body| - i * CAPACITY
  {
    var f := Fragment(m, i);
    var r' := Accept(r, f);
    var cur := i * CAPACITY;
    assert m.body[..cur] + m.body[cur..cur + |f.body|] == m.body[..cur + |f.body|];
    if f.additional.hasNext != 0 {
      assert r'.partial == m.body[..(i + 1) * CAPACITY];
      ReassembleFrom(r', m, i + 1);
      assert FragmentsFrom(m, i)[1..] == FragmentsFrom(m, i + 1);
    } else {
      assert i == LastFragment(|m.body|);
      assert m.body[..cur + |f.body|] == m.body;
      assert FragmentsFrom(m, i)[1..] == [];
    }
  }

  /** A message arrives as it was sent exactly when the number of its last
      fragment is 0 or does not look like 0 in 16 bits. */
  lemma {:induction false} MessageRoundTrip(r: Reader, m: Message)
    requires MessageOk(m) && !IsHeartbeat(m.type') && r.partial == []
    ensures AcceptAll(r, FragmentsFrom(m, 0)) == Reader([], r.dispatched + [m], r.echoes) <==> Whole(|m.body|)
  {
    ReassembleFrom(r, m, 0);
    var cut := LastFragment(|m.body|) * CAPACITY;
    if !Whole(|m.body|) { assert |m.body[..cut]| > 0; }
  }

  // Up to 65536 fragments nothing can go wrong; one byte more and it does.
  lemma SerialLimit()
    ensures forall n: nat :: n <= 0x1_0000 * CAPACITY ==> Whole(n)
    ensures !Whole(0x1_0000 * CAPACITY + 1)
  {
  }

  // ---------------------------------------------------------------------
  // Whole conversations.

  function NotHeartbeats(fs: seq<Frame>): (r: seq<Frame>) {
    if fs == [] then []
    else (if IsHeartbeat(fs[0].head.type') then [] else [fs[0]]) + NotHeartbeats(fs[1..])
  }

  // Heartbeats between frames change nothing but the echoes.
  lemma {:induction false} HeartbeatsPass(r: Reader, s: Reader, fs: seq<Frame>)
    requires r.partial == s.partial && r.dispatched == s.dispatched
    ensures AcceptAll(r, fs).partial == AcceptAll(s, NotHeartbeats(fs)).partial
    ensures AcceptAll(r, fs).dispatched == AcceptAll(s, NotHeartbeats(fs)).dispatched
    decreases |fs|
  {
    if fs != [] {
      if IsHeartbeat(fs[0].head.type') {
        HeartbeatsPass(Accept(r, fs[0]), s, fs[1..]);
        assert NotHeartbeats(fs) == NotHeartbeats(fs[1..]);
      } else {
        HeartbeatsPass(Accept(r, fs[0]), Accept(s, fs[0]), fs[1..]);
        assert NotHeartbeats(fs)[1..] == NotHeartbeats(fs[1..]);
      }
    }
  }

  // The messages of a log that are not heartbeats.
  function Messages(log: seq<Message>): (ms: seq<Message>) {
    if log == [] then []
    else Messages(log[..|log| - 1]) + if IsHeartbeat(log[|log| - 1].type') then [] else [log[|log| - 1]]
  }

  ghost predicate AllWhole(log: seq<Message>) {
    forall i :: 0 <= i < |log| ==> IsHeartbeat(log[i].type') || Whole(|log[i].body|)
  }

  lemma {:induction false} HeartbeatFragments(m: Message, i: nat)
    requires MessageOk(m) && IsHeartbeat(m.type') && (i == 0 || i * CAPACITY < |m.body|)
    ensures NotHeartbeats(FragmentsFrom(m, i)) == []
    decreases |m.body| - i * CAPACITY
  {
    if Fragment(m, i).additional.hasNext != 0 { HeartbeatFragments(m, i + 1); }
  }

  // The frames of a log, received in order, are the messages of the log in order.
  lemma {:induction false} LogArrives(log: seq<Message>)
    requires MessagesOk(log) && AllWhole(log)
    ensures AcceptAll(FRESH, FramesOf(log)).partial == [] && AcceptAll(FRESH, FramesOf(log)).dispatched == Messages(log)
    decreases |log|
  {
    if log != [] {
      var before, m := log[..|log| - 1], log[|log| - 1];
      LogArrives(before);
      var r := AcceptAll(FRESH, FramesOf(before));
      AcceptSum(FRESH, FramesOf(before), FragmentsFrom(m, 0));
      if IsHeartbeat(m.type') {
        HeartbeatFragments(m, 0);
        HeartbeatsPass(r, r, FragmentsFrom(m, 0));
      } else {
        MessageRoundTrip(r, m);
      }
    }
  }

  /** With heartbeats anywhere between the frames of a log, exactly the messages
      of the log are dispatched, in order. */
  lemma {:induction false} ConversationArrives(log: seq<Message>, fs: seq<Frame>)
    requires MessagesOk(log) && AllWhole(log)
    requires NotHeartbeats(fs) == NotHeartbeats(FramesOf(log))
    ensures AcceptAll(FRESH, fs).partial == [] && AcceptAll(FRESH, fs).dispatched == Messages(log)
  {
    LogArrives(log);
    HeartbeatsPass(FRESH, FRESH, fs);
    HeartbeatsPass(FRESH, FRESH, FramesOf(log));
  }

  // What was dispatched before does not matter for what comes.
  lemma {:induction false} DispatchedBefore(r: Reader, d: seq<Message>, fs: seq<Frame>)
    ensures var q := AcceptAll(r, fs);
            AcceptAll(r.(dispatched := d + r.dispatched), fs) == q.(dispatched := d + q.dispatched)
    decreases |fs|
  {
    if fs != [] {
      var y := Accept(r, fs[0]);
      assert Accept(r.(dispatched := d + r.dispatched), fs[0]) == y.(dispatched := d + y.dispatched);
      DispatchedBefore(y, d, fs[1..]);
    }
  }

  /** A message of one frame between the frames of another is dispatched first, and both
      arrive as they were sent. */
  lemma {:induction false} SmallOvertakes(m: Message, small: Message, a: seq<Frame>, b: seq<Frame>)
    requires MessageOk(m) && MessageOk(small) && !IsHeartbeat(m.type') && !IsHeartbeat(small.type') && Whole(|m.body|) && |small.body| <= CAPACITY
    requires a + b == FragmentsFrom(m, 0) && b != []
    ensures AcceptAll(FRESH, a + FragmentsFrom(small, 0) + b) == Reader([], [small, m], [])
  {
    var r := AcceptAll(FRESH, a);
    ReassembleFrom(FRESH, m, 0);
    AcceptSum(FRESH, a, b);
    NothingYet(m, 0, FRESH, a, b);
    OneFrame(r, small);
    AcceptSum(FRESH, a, FragmentsFrom(small, 0));
    AcceptSum(FRESH, a + FragmentsFrom(small, 0), b);
    DispatchedBefore(r, [small], b);
    var none: seq<Message> := [];
    assert none + [small] == [small] + none == [small] && none + [m] == [m] && [small] + [m] == [small, m];
  }

  lemma {:induction false} OneFrame(r: Reader, small: Message)
    requires MessageOk(small) && !IsHeartbeat(small.type') && |small.body| <= CAPACITY
    ensures AcceptAll(r, FragmentsFrom(small, 0)) == r.(dispatched := r.dispatched + [small])
  {
    var f := Fragment(small, 0);
    assert FragmentsFrom(small, 0) == [f] && [f][1..] == [] && f.body == small.body;
  }

  // Before its last frame nothing of a message is dispatched.
  lemma {:induction false} NothingYet(m: Message, i: nat, r: Reader, a: seq<Frame>, b: seq<Frame>)
    requires MessageOk(m) && !IsHeartbeat(m.type') && (i == 0 || i * CAPACITY < |m.body|) && a + b == FragmentsFrom(m, i) && b != []
    ensures AcceptAll(r, a).dispatched == r.dispatched && AcceptAll(r, a).echoes == r.echoes
    decreases |a|
  {
    if a != [] {
      var fs := FragmentsFrom(m, i);
      assert a[0] == fs[0] == Fragment(m, i) && a[1..] + b == fs[1..];
      assert fs[1..] == FragmentsFrom(m, i + 1);
      NothingYet(m, i + 1, Accept(r, a[0]), a[1..], b);
    }
  }

  // ---------------------------------------------------------------------
  // Finding frames in a stream (the loop of handle_read).

  datatype Parsed = Incomplete | Rejected | Broken | Complete(f: Frame)

  // The sum of the signed body length and the header length is taken unsigned: a
  // length below -20 looks huge and is rejected, like one above the capacity.  With a
  // length from -20 to -1 the sum is small, the frame passes for a whole one, and
  // Buffer::retrieve is asked for a huge number of bytes.
  function Parse(s: seq<byte>): (p: Parsed)
    ensures p.Complete? ==> FrameOk(p.f) && |s| >= FRAME_HEADER + |p.f.body|
  {
    if |s| < FRAME_HEADER then Incomplete
    else
      var len := HeadOf(s).bodyLength;
      if -FRAME_HEADER <= len < 0 then Broken
      else if len < 0 || CAPACITY < len then Rejected
      else if |s| < FRAME_HEADER + len then Incomplete
      else Complete(Frame(HeadOf(s), AdditionalOf(s[HEAD_LENGTH..]), s[FRAME_HEADER..FRAME_HEADER + len]))
  }

  // An int in a size_t expression.
  function SizeT(x: int): (u: nat) {
    x % 0x1_0000_0000_0000_0000
  }

  // The comparisons handle_read makes on at most 8192 readable bytes, against Parse.
  lemma ParseDecides(s: seq<byte>)
    requires FRAME_HEADER <= |s| <= FRAME_HEADER + CAPACITY
    ensures var len := HeadOf(s).bodyLength;
            var short := |s| < SizeT(SizeT(len) + FRAME_HEADER);
            && (Parse(s).Complete? || Parse(s).Broken? <==> !short)
            && (Parse(s).Rejected? <==> short && SizeT(len) > CAPACITY)
            && (Parse(s).Incomplete? ==> SizeT(SizeT(len) + FRAME_HEADER) == FRAME_HEADER + len)
  {
  }

  /** The frame is taken for a whole one and the assertion in Buffer::retrieve fails
      behind its header exactly if its length is from -20 to -1. */
  lemma RetrieveFails(s: seq<byte>)
    requires FRAME_HEADER <= |s| <= FRAME_HEADER + CAPACITY
    ensures var len := HeadOf(s).bodyLength;
            var whole := |s| >= SizeT(SizeT(len) + FRAME_HEADER);
            && (whole && SizeT(len) > |s| - FRAME_HEADER <==> -FRAME_HEADER <= len < 0)
            && (-FRAME_HEADER <= len < 0 <==> Parse(s).Broken?)
  {
  }

  datatype Status = Reading | Stopped | Lost

  datatype Intake = Intake(reader: Reader, rest: seq<byte>, status: Status)

  ghost function Consume(r: Reader, s: seq<byte>): Intake
    decreases |s|
  {
    match Parse(s)
    case Incomplete => Intake(r, s, Reading)
    case Rejected => Intake(r, s, Stopped)
    case Broken => Intake(r, s, Lost)
    case Complete(f) => Consume(Accept(r, f), s[FRAME_HEADER + |f.body|..])
  }

  lemma ParseMore(s: seq<byte>, t: seq<byte>)
    requires !Parse(s).Incomplete?
    ensures Parse(s + t) == Parse(s)
  {
    HeaderMore(s, t);
    if Parse(s).Complete? { FrontOf(s, t, FRAME_HEADER, FRAME_HEADER + |Parse(s).f.body|); }
  }

  lemma FrontOf(s: seq<byte>, t: seq<byte>, i: nat, j: nat)
    requires i <= j <= |s|
    ensures (s + t)[i..j] == s[i..j]
  {
  }

  // The header does not depend on what follows it.
  lemma HeaderMore(s: seq<byte>, t: seq<byte>)
    requires FRAME_HEADER <= |s|
    ensures HeadOf(s + t) == HeadOf(s) && AdditionalOf((s + t)[HEAD_LENGTH..]) == AdditionalOf(s[HEAD_LENGTH..])
  {
    FrontOf(s, t, 0, 4);
    FrontOf(s, t, 4, 8);
    var c := s[HEAD_LENGTH..];
    assert (s + t)[HEAD_LENGTH..] == c + t;
    FrontOf(c, t, 0, 2);
    FrontOf(c, t, 2, 6);
    FrontOf(c, t, 6, 10);
    FrontOf(c, t, 10, 12);
  }

  /** Chunking does not matter: reading s and then t is reading s + t. */
  lemma {:induction false} ConsumeMore(r: Reader, s: seq<byte>, t: seq<byte>)
    ensures var i := Consume(r, s);
            Consume(r, s + t) == if i.status == Reading then Consume(i.reader, i.rest + t) else Intake(i.reader, i.rest + t, i.status)
    decreases |s|
  {
    if !Parse(s).Incomplete? {
      ParseMore(s, t);
      if Parse(s).Complete? {
        var f := Parse(s).f;
        var n := FRAME_HEADER + |f.body|;
        assert (s + t)[n..] == s[n..] + t;
        ConsumeMore(Accept(r, f), s[n..], t);
      }
    }
  }

  lemma {:induction false} DispatchGrows(r: Reader, s: seq<byte>)
    ensures r.dispatched <= Consume(r, s).reader.dispatched
    decreases |s|
  {
    if Parse(s).Complete? {
      var f := Parse(s).f;
      DispatchGrows(Accept(r, f), s[FRAME_HEADER + |f.body|..]);
    }
  }

  lemma ParseFrame(f: Frame, t: seq<byte>)
    requires FrameOk(f)
    ensures Parse(Wire(f) + t) == Complete(f) && (Wire(f) + t)[FRAME_HEADER + |f.body|..] == t
  {
    HeaderRoundTrip(f.head, f.additional, f.body, t);
  }

  lemma {:induction false} ConsumeFrames(r: Reader, fs: seq<Frame>, t: seq<byte>)
    requires FramesOk(fs)
    ensures Consume(r, Stream(fs) + t) == Consume(AcceptAll(r, fs), t)
    decreases |fs|
  {
    if fs == [] {
      assert Stream(fs) + t == t;
    } else {
      var rest := Stream(fs[1..]);
      assert Stream(fs) + t == Wire(fs[0]) + (rest + t);
      ParseFrame(fs[0], rest + t);
      ConsumeFrames(Accept(r, fs[0]), fs[1..], t);
    }
  }

  lemma {:induction false} FrameBehind(s: seq<byte>)
    requires Parse(s).Complete?
    ensures s == Wire(Parse(s).f) + s[FRAME_HEADER + |Parse(s).f.body|..]
  {
    var n := FRAME_HEADER + |Parse(s).f.body|;
    BytesRoundTrip(s);
    assert s[FRAME_HEADER..] == s[FRAME_HEADER..n] + s[n..];
  }

  // A stream of whole frames and then a header with such a length.
  ghost predicate EndsWith(s: seq<byte>, fs: seq<Frame>, t: seq<byte>, low: int, high: int) {
    FramesOk(fs) && s == Stream(fs) + t && FRAME_HEADER <= |t| && low <= HeadOf(t).bodyLength <= high
  }

  ghost predicate GoesWrong(s: seq<byte>, fs: seq<Frame>, t: seq<byte>) {
    EndsWith(s, fs, t, -20, -1)
  }

  // No int is further out than that.
  ghost predicate IsRefused(s: seq<byte>, fs: seq<Frame>, t: seq<byte>) {
    EndsWith(s, fs, t, -0x8000_0000, -21) || EndsWith(s, fs, t, 8173, 0x7FFF_FFFF)
  }

  /** Reading fails on an assertion if and only if the bytes are whole frames, none or
      more, and then a header whose length is from -20 to -1. */
  lemma {:induction false} LostExactly(r: Reader, s: seq<byte>)
    ensures Consume(r, s).status == Lost <==> exists fs, t :: GoesWrong(s, fs, t)
    decreases |s|
  {
    if fs, t :| GoesWrong(s, fs, t) { ConsumeFrames(r, fs, t); }
    if Consume(r, s).status == Lost {
      var fs, t := WhereItEnds(r, s);
      assert GoesWrong(s, fs, t);
    }
  }

  /** The session stops if and only if the bytes are whole frames and then a header whose
      length is below -20 or above 8172, however much of the body is there. */
  lemma {:induction false} StoppedExactly(r: Reader, s: seq<byte>)
    ensures Consume(r, s).status == Stopped <==> exists fs, t :: IsRefused(s, fs, t)
    decreases |s|
  {
    if fs, t :| IsRefused(s, fs, t) { ConsumeFrames(r, fs, t); }
    if Consume(r, s).status == Stopped {
      var fs, t := WhereItEnds(r, s);
      assert IsRefused(s, fs, t);
    }
  }

  // Where no further whole frame is found.
  lemma {:induction false} WhereItEnds(r: Reader, s: seq<byte>) returns (fs: seq<Frame>, t: seq<byte>)
    ensures FramesOk(fs) && s == Stream(fs) + t && !Parse(t).Complete? && Consume(AcceptAll(r, fs), t) == Consume(r, s)
    decreases |s|
  {
    if !Parse(s).Complete? {
      fs, t := [], s;
      assert Stream(fs) + t == s;
    } else {
      var f := Parse(s).f;
      var rest := s[FRAME_HEADER + |f.body|..];
      FrameBehind(s);
      fs, t := WhereItEnds(Accept(r, f), rest);
      assert ([f] + fs)[1..] == fs && Wire(f) + (Stream(fs) + t) == Wire(f) + Stream(fs) + t;
      fs := [f] + fs;
    }
  }

  // A frame of 20 bytes with the length -1.
  const WRONG_FRAME: seq<byte> := [0xFF, 0xFF, 0xFF, 0xFF] + Zeros(16)

  lemma WrongFrame()
    ensures HeadOf(WRONG_FRAME).bodyLength == -1 && Consume(FRESH, WRONG_FRAME).status == Lost
    ensures |WRONG_FRAME| >= SizeT(SizeT(-1) + FRAME_HEADER) && SizeT(-1) > |WRONG_FRAME| - FRAME_HEADER
  {
    assert WRONG_FRAME[0..4] == [0xFF, 0xFF, 0xFF, 0xFF];
  }

  /** End to end, for any stream that carries the log with heartbeats in between:
      what has been dispatched is always a prefix of the messages of the log, in
      order, and all of them once the whole stream is in. */
  lemma {:induction false} StreamArrives(log: seq<Message>, fs: seq<Frame>, received: seq<byte>)
    requires MessagesOk(log) && AllWhole(log) && FramesOk(fs)
    requires NotHeartbeats(fs) == NotHeartbeats(FramesOf(log))
    requires received <= Stream(fs)
    ensures Consume(FRESH, received).status == Reading
    ensures Consume(FRESH, received).reader.dispatched <= Messages(log)
    ensures received == Stream(fs) ==> Consume(FRESH, received).reader.dispatched == Messages(log)
    ensures received == Stream(fs) ==> Consume(FRESH, received).rest == [] && Consume(FRESH, received).reader.partial == []
  {
    var later := Stream(fs)[|received|..];
    assert Stream(fs) == received + later;
    assert Stream(fs) + [] == Stream(fs);
    ConsumeFrames(FRESH, fs, []);
    ConversationArrives(log, fs);
    ConsumeMore(FRESH, received, later);
    var i := Consume(FRESH, received);
    DispatchGrows(i.reader, i.rest + later);
  }

  // A client heartbeat is answered with itself, and so is the answer: between
  // two sessions it never dies out.
  function EchoOf(h: Head): (m: Message)
    ensures HeadOk(h) ==> MessageOk(m)
  {
    Message(h.type', Zeros(if h.bodyLength < 0 then 0 else h.bodyLength))
  }

  lemma EchoIsEchoed(r: Reader, h: Head)
    requires HeadOk(h) && h.type' == HEARTBEAT_CLIENT && 0 <= h.bodyLength <= CAPACITY
    ensures AcceptAll(r, FragmentsFrom(EchoOf(h), 0)) == r.(echoes := r.echoes + [h])
  {
    var fs := FragmentsFrom(EchoOf(h), 0);
    assert fs == [Fragment(EchoOf(h), 0)];
    assert fs[1..] == [];
  }

  // ---------------------------------------------------------------------
  // Which frames are answered.

  // The whole frames at the front of some bytes.
  ghost function FramesIn(s: seq<byte>): (fs: seq<Frame>)
    ensures FramesOk(fs)
    decreases |s|
  {
    var p := Parse(s);
    if p.Complete? then [p.f] + FramesIn(s[FRAME_HEADER + |p.f.body|..]) else []
  }

  // The heads of the client heartbeats, in order.
  function ClientBeats(fs: seq<Frame>): (hs: seq<Head>)
    ensures forall i :: 0 <= i < |hs| ==> hs[i].type' == 1
  {
    if fs == [] then [] else (if fs[0].head.type' == 1 then [fs[0].head] else []) + ClientBeats(fs[1..])
  }

  lemma {:induction false} FramesInStream(fs: seq<Frame>, t: seq<byte>)
    requires FramesOk(fs)
    ensures FramesIn(Stream(fs) + t) == fs + FramesIn(t)
    decreases |fs|
  {
    if fs == [] {
      assert Stream(fs) + t == t;
    } else {
      FramesInStream(fs[1..], t);
      StreamFront(fs, t, Stream(fs[1..]) + t);
      FrameInFront(fs[0], Stream(fs[1..]) + t);
      FrontBack(fs, FramesIn(t));
    }
  }

  lemma FrontBack(fs: seq<Frame>, gs: seq<Frame>)
    requires fs != []
    ensures [fs[0]] + (fs[1..] + gs) == fs + gs
  {
  }

  lemma StreamFront(fs: seq<Frame>, t: seq<byte>, rest: seq<byte>)
    requires FramesOk(fs) && fs != [] && rest == Stream(fs[1..]) + t
    ensures Stream(fs) + t == Wire(fs[0]) + rest
  {
  }

  lemma {:induction false} FrameInFront(f: Frame, rest: seq<byte>)
    requires FrameOk(f)
    ensures FramesIn(Wire(f) + rest) == [f] + FramesIn(rest)
  {
    ParseFrame(f, rest);
  }

  /** Of the frames that come in, exactly those of type 1 are answered, in order. */
  lemma {:induction false} AnswersOf(r: Reader, s: seq<byte>)
    ensures Consume(r, s).reader.echoes == r.echoes + ClientBeats(FramesIn(s))
    decreases |s|
  {
    if Parse(s).Complete? {
      var f := Parse(s).f;
      var rest := s[FRAME_HEADER + |f.body|..];
      AnswersOf(Accept(r, f), rest);
      assert FramesIn(s)[1..] == FramesIn(rest);
    }
  }

  /** For every list of good frames the answers are the heads of those of type 1. */
  lemma {:induction false} StreamAnswers(fs: seq<Frame>)
    requires FramesOk(fs)
    ensures Consume(FRESH, Stream(fs)).reader.echoes == ClientBeats(fs)
  {
    AnswersOf(FRESH, Stream(fs));
    FramesInStream(fs, []);
    assert Stream(fs) + [] == Stream(fs) && FramesIn([]) == [] && fs + [] == fs;
  }

  /** An answer has the type and the length of what it answers and a body of zeros. */
  lemma AnswerIs(h: Head)
    requires HeadOk(h) && h.type' == 1 && 0 <= h.bodyLength <= CAPACITY
    ensures EchoOf(h).type' == 1 && |EchoOf(h).body| == h.bodyLength && forall i :: 0 <= i < h.bodyLength ==> EchoOf(h).body[i] == 0
  {
  }

  // ---------------------------------------------------------------------
  // What the frames of a message are, field by field.

  // f is number n of the fragments of m.
  ghost predicate IsFragment(m: Message, n: nat, last: bool, f: Frame) {
    var at := n * 8172;
    && at + |f.body| <= |m.body| && f.body == m.body[at..at + |f.body|] && (|f.body| == 8172 || at + |f.body| == |m.body|)
    && f.head == Head(|f.body|, m.type') && f.additional.total == |m.body| && f.additional.hasNext == |m.body| - at - |f.body|
    && (f.additional.hasNext == 0 <==> last) && (f.additional.serial - n) % 0x1_0000 == 0
  }

  lemma {:induction false} FirstFragment(m: Message, i: nat)
    requires MessageOk(m) && (i == 0 || i * CAPACITY < |m.body|)
    ensures IsFragment(m, i, |FragmentsFrom(m, i)| == 1, FragmentsFrom(m, i)[0])
  {
    var f := Fragment(m, i);
    assert (i + 1) * CAPACITY == i * CAPACITY + CAPACITY;
  }

  /** Every fragment but the last carries 8172 bytes; each says how many bytes come behind it
      and how many there are in all, and counts from 0 in 16 bits. */
  lemma {:induction false} FragmentFields(m: Message, i: nat, fs: seq<Frame>, k: nat, n: nat)
    requires MessageOk(m) && (i == 0 || i * CAPACITY < |m.body|) && fs == FragmentsFrom(m, i) && k < |fs| && n == i + k
    ensures IsFragment(m, n, k == |fs| - 1, fs[k])
    decreases |m.body| - i * CAPACITY
  {
    if k == 0 {
      FirstFragment(m, i);
    } else {
      NextFragments(m, i);
      assert fs[1..][k - 1] == fs[k];
      FragmentFields(m, i + 1, fs[1..], k - 1, n);
    }
  }

  lemma {:induction false} NextFragments(m: Message, i: nat)
    requires MessageOk(m) && (i == 0 || i * CAPACITY < |m.body|) && 1 < |FragmentsFrom(m, i)|
    ensures (i + 1) * CAPACITY < |m.body| && FragmentsFrom(m, i)[1..] == FragmentsFrom(m, i + 1)
  {
    var f := Fragment(m, i);
    assert (i + 1) * CAPACITY == i * CAPACITY + CAPACITY;
  }
}
