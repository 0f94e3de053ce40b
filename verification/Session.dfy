/** session.cpp: one end of a connection.

    Frames go out through a bounded buffer and an overflow list and leave by
    partial writes; bytes come in by chunks of any size.  The ghost fields keep
    the history: what was sent, pushed, acknowledged by the socket, lent to it,
    received and dispatched. */
module Sessions {
  import opened Bytes
  import opened Options
  import opened Transactions
  import opened Buffers
  import opened Framing

  const FRAME_LIMIT := FRAME_HEADER + CAPACITY

  // The bytes of the cached frames, in order.
  function Concat(fs: seq<seq<byte>>): seq<byte> {
    if fs == [] then [] else fs[0] + Concat(fs[1..])
  }

  lemma {:induction false} ConcatEnd(fs: seq<seq<byte>>, f: seq<byte>)
    ensures Concat(fs + [f]) == Concat(fs) + f
    decreases |fs|
  {
    if fs == [] {
      assert (fs + [f])[1..] == [];
    } else {
      assert (fs + [f])[1..] == fs[1..] + [f];
      ConcatEnd(fs[1..], f);
    }
  }

  lemma Assoc(a: seq<byte>, b: seq<byte>, c: seq<byte>)
    ensures a + (b + c) == a + b + c
  {
  }

  lemma Pushing(acked: seq<byte>, readable: seq<byte>, cached: seq<byte>, frame: seq<byte>)
    ensures acked + readable + (cached + frame) == acked + readable + cached + frame
    ensures cached == [] ==> acked + (readable + frame) + cached == acked + readable + cached + frame
  {
    Assoc(acked + readable, cached, frame);
    Assoc(acked, readable, frame);
  }

  // n bytes leave for the acknowledged part, then cached bytes may become readable.
  lemma WriteAccounting(acked: seq<byte>, readable: seq<byte>, cached: seq<byte>, n: nat, readable': seq<byte>, cached': seq<byte>)
    requires n <= |readable| && readable' + cached' == readable[n..] + cached
    ensures acked + readable[..n] + readable' + cached' == acked + readable + cached
  {
    var acked' := acked + readable[..n];
    Assoc(acked', readable', cached');
    Assoc(acked', readable[n..], cached);
    Assoc(acked, readable[..n], readable[n..]);
    assert readable[..n] + readable[n..] == readable;
  }

  // How many bytes a read still needs for the next header or frame.
  function Missing(s: seq<byte>): int {
    if |s| < FRAME_HEADER then FRAME_HEADER - |s| else FRAME_HEADER + HeadOf(s).bodyLength - |s|
  }

  // A frame may be read piece by piece.
  lemma Pieces(s: seq<byte>, n: nat)
    requires FRAME_HEADER + n <= |s|
    ensures HeadOf(s[..HEAD_LENGTH]) == HeadOf(s)
    ensures AdditionalOf(s[HEAD_LENGTH..][..ADDITIONAL_LENGTH]) == AdditionalOf(s[HEAD_LENGTH..])
    ensures s[HEAD_LENGTH..][ADDITIONAL_LENGTH..] == s[FRAME_HEADER..]
    ensures s[FRAME_HEADER..][..n] == s[FRAME_HEADER..FRAME_HEADER + n]
    ensures s[FRAME_HEADER..][n..] == s[FRAME_HEADER + n..]
  {
    assert s[..HEAD_LENGTH][0..4] == s[0..4] && s[..HEAD_LENGTH][4..8] == s[4..8];
    var c := s[HEAD_LENGTH..];
    var t := c[..ADDITIONAL_LENGTH];
    assert t[0..2] == c[0..2] && t[2..6] == c[2..6] && t[6..10] == c[6..10] && t[10..12] == c[10..12];
  }

  function Echoes(hs: seq<Head>): (ms: seq<Message>) {
    seq(|hs|, i requires 0 <= i < |hs| => EchoOf(hs[i]))
  }

  // sent has grown by the echoes.
  ghost predicate Echoed(sent0: seq<Message>, echoes0: seq<Head>, sent: seq<Message>, echoes: seq<Head>) {
    echoes0 <= echoes && sent == sent0 + Echoes(echoes[|echoes0|..])
  }

  // sent has grown by one answer to each client heartbeat received since, and by nothing else.
  ghost predicate Answered(received0: seq<byte>, sent0: seq<Message>, received: seq<byte>, sent: seq<Message>) {
    && ClientBeats(FramesIn(received0)) <= ClientBeats(FramesIn(received))
    && sent == sent0 + Echoes(ClientBeats(FramesIn(received))[|ClientBeats(FramesIn(received0))|..])
  }

  lemma {:induction false} AnswersGrow(received0: seq<byte>, sent0: seq<Message>, echoes0: seq<Head>, received: seq<byte>, sent: seq<Message>, echoes: seq<Head>)
    requires Echoed(sent0, echoes0, sent, echoes)
    requires echoes0 == Consume(FRESH, received0).reader.echoes && echoes == Consume(FRESH, received).reader.echoes
    ensures Answered(received0, sent0, received, sent)
  {
    AnswersOf(FRESH, received0);
    AnswersOf(FRESH, received);
    assert echoes0 == FRESH.echoes + ClientBeats(FramesIn(received0)) == ClientBeats(FramesIn(received0));
    assert echoes == FRESH.echoes + ClientBeats(FramesIn(received)) == ClientBeats(FramesIn(received));
  }

  lemma EchoedMore(sent0: seq<Message>, echoes0: seq<Head>, sent: seq<Message>, echoes: seq<Head>, h: Head)
    requires Echoed(sent0, echoes0, sent, echoes)
    ensures Echoed(sent0, echoes0, sent + [EchoOf(h)], echoes + [h])
  {
    var n := |echoes0|;
    assert (echoes + [h])[n..] == echoes[n..] + [h];
    assert Echoes(echoes[n..] + [h]) == Echoes(echoes[n..]) + [EchoOf(h)];
  }

  lemma EchoedJoin(sent0: seq<Message>, echoes0: seq<Head>, sent1: seq<Message>, echoes1: seq<Head>, sent2: seq<Message>, echoes2: seq<Head>)
    requires Echoed(sent0, echoes0, sent1, echoes1) && Echoed(sent1, echoes1, sent2, echoes2)
    ensures Echoed(sent0, echoes0, sent2, echoes2)
  {
    var a, b := echoes1[|echoes0|..], echoes2[|echoes1|..];
    assert echoes2[|echoes0|..] == a + b;
    assert Echoes(a + b) == Echoes(a) + Echoes(b);
  }

  datatype Progress = More | Wait | Bad

  // One round of the loop of handle_read, on the reader state and the unread bytes.
  ghost predicate Moved(p: Progress, r: Reader, s: seq<byte>, r': Reader, s': seq<byte>) {
    match p
    case More => Parse(s).Complete? && r' == Accept(r, Parse(s).f) && s' == s[FRAME_HEADER + |Parse(s).f.body|..]
    case Wait => Parse(s).Incomplete? && r' == r && s' == s
    case Bad => Parse(s).Rejected? && r' == r && s' == s
  }

  lemma {:induction false} MovedConsume(p: Progress, r: Reader, s: seq<byte>, r': Reader, s': seq<byte>)
    requires Moved(p, r, s, r', s')
    ensures match p
            case More => Consume(r', s') == Consume(r, s) && |s'| < |s|
            case Wait => Consume(r, s) == Intake(r', s', Reading)
            case Bad => Consume(r, s) == Intake(r', s', Stopped)
  {
  }

  class Session {
    var connected: bool
    const bufferRead: Buffer
    const bufferWrite: Buffer
    var cacheWrite: seq<seq<byte>>
    var receiveBuffer: seq<byte>

    ghost const readStore: array<byte>
    ghost const writeStore: array<byte>
    ghost var sent: seq<Message>          // messages given to do_send
    ghost var pushed: seq<byte>           // bytes of all frames pushed
    ghost var acked: seq<byte>            // bytes the socket reported written
    ghost var lent: seq<byte>             // bytes of the outstanding write, [] if there is none
    ghost var lentAt: nat                 // and where they lie
    ghost var received: seq<byte>         // bytes read from the socket
    ghost var dispatched: seq<Message>    // messages given to the dispatcher
    ghost var echoes: seq<Head>           // client heartbeats answered

    // The two directions share no memory.
    ghost predicate Apart() {
      bufferRead != bufferWrite && readStore != writeStore
    }

    ghost predicate WriteStructure()
      reads bufferWrite
    {
      && bufferWrite.Valid() && bufferWrite.buffer == writeStore && writeStore.Length == CHEAP_PREPEND + INITIAL_SIZE
      && (bufferWrite.readerIndex == bufferWrite.writerIndex ==> bufferWrite.readerIndex == CHEAP_PREPEND)
    }

    ghost predicate CacheOk()
      reads this`cacheWrite
    {
      forall i :: 0 <= i < |cacheWrite| ==> 0 < |cacheWrite[i]| <= FRAME_LIMIT
    }

    /** While connected: acknowledged, readable and cached bytes are the pushed
        bytes in order; a write is outstanding exactly when the buffer is not
        empty, and whenever frames are cached; its memory is where it was. */
    ghost predicate WriteOk()
      reads this`connected, this`acked, this`cacheWrite, this`pushed, this`lent, this`lentAt, bufferWrite, writeStore
    {
      WriteStructure() && (connected ==>
        && acked + bufferWrite.Contents() + Concat(cacheWrite) == pushed
        && (lent != [] <==> bufferWrite.Contents() != [])
        && (cacheWrite != [] ==> lent != [])
        && lent <= bufferWrite.Contents()
        && (lent != [] ==> lentAt == bufferWrite.readerIndex)
        && CacheOk())
    }

    // All pushed frames are those of the messages sent.
    ghost predicate SentOk()
      reads this`connected, this`sent, this`pushed
    {
      MessagesOk(sent) && (connected ==> pushed == Stream(FramesOf(sent)))
    }

    ghost function State(): Reader
      reads this`receiveBuffer, this`dispatched, this`echoes
    {
      Reader(receiveBuffer, dispatched, echoes)
    }

    ghost predicate ReadStructure()
      reads bufferRead
    {
      bufferRead.Valid() && bufferRead.buffer == readStore && readStore.Length == CHEAP_PREPEND + INITIAL_SIZE
    }

    /** The read side is a function of the bytes received, however they were
        chunked, and there is always room for the rest of the next frame. */
    ghost predicate ReadOk()
      reads this`connected, this`received, this`receiveBuffer, this`dispatched, this`echoes, bufferRead, readStore
    {
      ReadStructure() && (connected ==>
        && Consume(FRESH, received) == Intake(State(), bufferRead.Contents(), Reading)
        && 0 < Missing(bufferRead.Contents()) <= bufferRead.WritableBytes())
    }

    ghost predicate Valid()
      reads this, bufferRead, bufferWrite, readStore, writeStore
    {
      Apart() && WriteOk() && ReadOk() && SentOk()
    }

    // A session that has just been connected.
    constructor ()
      ensures Valid() && connected && sent == [] && received == []
      ensures fresh(bufferRead) && fresh(bufferWrite) && fresh(readStore) && fresh(writeStore)
    {
      var br := new Buffer();
      var bw := new Buffer();
      bufferRead, bufferWrite, readStore, writeStore := br, bw, br.buffer, bw.buffer;
      connected, cacheWrite, receiveBuffer := true, [], [];
      sent, pushed, acked, lent, lentAt := [], [], [], [], 0;
      received, dispatched, echoes := [], [], [];
      new;
      assert Concat(cacheWrite) == [];
    }

    // ---------------------------------------------------------------------
    // Writing.

    // do_write: lends the readable bytes to the socket; no other write may be outstanding.
    method DoWrite()
      requires WriteStructure() && connected && lent == []
      modifies this`lent, this`lentAt
      ensures lent == bufferWrite.Contents() && lentAt == bufferWrite.readerIndex
    {
      lent := bufferWrite.Contents();
      lentAt := bufferWrite.readerIndex;
    }

    method PushTrans(frame: seq<byte>)
      requires WriteOk() && FRAME_HEADER <= |frame| <= FRAME_LIMIT
      modifies this`cacheWrite, this`pushed, this`lent, this`lentAt
      modifies bufferWrite, writeStore
      ensures WriteOk()
      ensures pushed == if connected then old(pushed) + frame else old(pushed)
      ensures old(lent) != [] && connected ==> lent == old(lent) && lentAt == old(lentAt)
      ensures !connected ==> cacheWrite == old(cacheWrite) && bufferWrite.Contents() == old(bufferWrite.Contents())
    {
      if connected {
        var writeInProgress := bufferWrite.ReadableBytes() != 0;
        ghost var readable, cached := bufferWrite.Contents(), Concat(cacheWrite);
        ConcatEnd(cacheWrite, frame);
        if cacheWrite != [] {
          cacheWrite := cacheWrite + [frame];
        } else if bufferWrite.WritableBytes() < |frame| {
          cacheWrite := cacheWrite + [frame];
        } else {
          bufferWrite.Append(frame);
        }
        pushed := pushed + frame;
        Pushing(acked, readable, cached, frame);
        if !writeInProgress {
          DoWrite();
        }
      }
    }

    // One round of the loop in do_send.
    method PushFragment(ghost m: Message, ghost i: nat, head: Head, body: seq<byte>, curpos: nat, serial: int) returns (len: nat, hasNext: nat)
      requires WriteOk() && HeadOk(head) && head.bodyLength == |body| && m == Message(head.type', body)
      requires (i == 0 || curpos < |body|) && curpos == i * CAPACITY && serial == Serial(i)
      modifies this`cacheWrite, this`pushed, this`lent, this`lentAt
      modifies bufferWrite, writeStore
      ensures WriteOk()
      ensures hasNext == Fragment(m, i).additional.hasNext == |body| - curpos - len
      ensures hasNext != 0 ==> len == CAPACITY
      ensures pushed == if connected then old(pushed) + Wire(Fragment(m, i)) else old(pushed)
    {
      len := if |body| - curpos > CAPACITY then CAPACITY else |body| - curpos;
      hasNext := |body| - curpos - len;
      var t := new Transaction.WithAdditional(Head(len, head.type'), Additional(serial, hasNext, |body|, [0, 0]), Some(body[curpos..]));
      assert body[curpos..][..len] == Fragment(m, i).body;
      PushTrans(t.block[..]);
    }

    // The loop of do_send.
    method SendFragments(head: Head, body: seq<byte>, ghost m: Message)
      requires WriteOk() && HeadOk(head) && head.bodyLength == |body| && m == Message(head.type', body)
      modifies this`cacheWrite, this`pushed, this`lent, this`lentAt
      modifies bufferWrite, writeStore
      ensures WriteOk()
      ensures connected ==> pushed == old(pushed) + Stream(FragmentsFrom(m, 0))
    {
      ghost var all := pushed + StreamFrom(m, 0);
      var curpos, serial, hasNext, len := 0, 0, 1, 0;
      ghost var i: nat := 0;
      while hasNext != 0
        invariant WriteOk()
        invariant serial == Serial(i) && 0 <= hasNext
        invariant if hasNext != 0 then curpos == i * CAPACITY && (i == 0 || curpos < |body|) else 0 < i && |body| <= i * CAPACITY
        invariant connected ==> all == pushed + StreamFrom(m, i)
        decreases hasNext != 0, |body| - curpos
      {
        StreamStep(m, i);
        Assoc(pushed, Wire(Fragment(m, i)), StreamFrom(m, i + 1));
        len, hasNext := PushFragment(m, i, head, body, curpos, serial);
        curpos := curpos + len;
        SerialCounts(i);
        serial := NextSerial(serial);
        i := i + 1;
      }
      assert pushed + [] == pushed;
    }

    // do_send: cuts the message into frames.
    method DoSend(head: Head, body: seq<byte>)
      requires WriteOk() && SentOk() && HeadOk(head) && head.bodyLength == |body|
      modifies this`cacheWrite, this`pushed, this`lent, this`lentAt, this`sent
      modifies bufferWrite, writeStore
      ensures WriteOk() && SentOk()
      ensures sent == if connected then old(sent) + [Message(head.type', body)] else old(sent)
    {
      ghost var m := Message(head.type', body);
      SendFragments(head, body, m);
      if connected {
        FramesOfMore(sent, m);
        sent := sent + [m];
      }
    }

    // send and deliver: nothing is sent once the session has been stopped.
    method Send(head: Head, body: seq<byte>)
      requires Valid() && HeadOk(head) && head.bodyLength == |body|
      modifies this`cacheWrite, this`pushed, this`lent, this`lentAt, this`sent
      modifies bufferWrite, writeStore
      ensures Valid()
      ensures sent == if connected then old(sent) + [Message(head.type', body)] else old(sent)
    {
      DoSend(head, body);
    }

    // The loop of handle_write: cached frames move up while there is room.
    method DrainCache()
      requires WriteStructure() && CacheOk()
      modifies this`cacheWrite, bufferWrite, writeStore
      ensures WriteStructure() && CacheOk()
      ensures bufferWrite.Contents() + Concat(cacheWrite) == old(bufferWrite.Contents() + Concat(cacheWrite))
      ensures cacheWrite != [] ==> bufferWrite.Contents() != []
    {
      ghost var all := bufferWrite.Contents() + Concat(cacheWrite);
      while cacheWrite != []
        invariant WriteStructure() && CacheOk()
        invariant bufferWrite.Contents() + Concat(cacheWrite) == all
        decreases |cacheWrite|
      {
        var front := cacheWrite[0];
        if |front| > bufferWrite.WritableBytes() {
          if !bufferWrite.HasCapacity(|front|) { break; }
          bufferWrite.Remove();
        }
        ghost var contents := bufferWrite.Contents();
        Assoc(contents, front, Concat(cacheWrite[1..]));
        bufferWrite.Append(front);
        cacheWrite := cacheWrite[1..];
      }
    }

    // The write side of handle_write.
    method Written(length: nat)
      requires WriteOk() && connected && lent != [] && length <= |lent|
      modifies this`cacheWrite, this`acked, this`lent, this`lentAt
      modifies bufferWrite, writeStore
      ensures WriteOk() && acked == old(acked) + old(lent)[..length]
    {
      ghost var readable, cached := bufferWrite.Contents(), Concat(cacheWrite);
      bufferWrite.Retrieve(length);
      DrainCache();
      WriteAccounting(acked, readable, cached, length, bufferWrite.Contents(), Concat(cacheWrite));
      assert lent[..length] == readable[..length];
      acked := acked + lent[..length];
      lent := [];
      if bufferWrite.ReadableBytes() != 0 {
        DoWrite();
      }
    }

    // handle_write without error: length bytes of the outstanding write have left.
    method HandleWrite(length: nat)
      requires Valid() && connected && lent != [] && length <= |lent|
      modifies this`cacheWrite, this`acked, this`lent, this`lentAt
      modifies bufferWrite, writeStore
      ensures Valid() && acked == old(acked) + old(lent)[..length]
    {
      Written(length);
    }

    // ---------------------------------------------------------------------
    // Reading.

    // do_receive for a frame that is not a heartbeat.
    method DoReceive(head: Head, additional: Additional, body: seq<byte>)
      requires !IsHeartbeat(head.type')
      modifies this`receiveBuffer, this`dispatched
      ensures State() == Accept(old(State()), Frame(head, additional, body))
    {
      if additional.hasNext == 0 && additional.serial == 0 {
        dispatched := dispatched + [Message(head.type', body)];
      } else {
        receiveBuffer := receiveBuffer + body;
        if additional.hasNext == 0 {
          dispatched := dispatched + [Message(head.type', receiveBuffer)];
          receiveBuffer := [];
        }
      }
    }

    // deliver a copy of a heartbeat with an empty body
    method Echo(head: Head)
      requires WriteOk() && SentOk() && HeadOk(head) && 0 <= head.bodyLength
      modifies this`cacheWrite, this`pushed, this`lent, this`lentAt, this`sent, this`echoes
      modifies bufferWrite, writeStore
      ensures WriteOk() && SentOk()
      ensures sent == if connected then old(sent) + [EchoOf(head)] else old(sent)
      ensures echoes == old(echoes) + [head]
    {
      var t := new Transaction(head, None);
      ghost var zeros := Zeros(head.bodyLength);
      var h := t.GetHead(head, NO_ADDITIONAL, zeros);
      var body := t.BodyString(head, NO_ADDITIONAL, zeros);
      DoSend(h, body);
      echoes := echoes + [head];
    }

    // The two parts of the header off the front of the buffer.
    method ReadHeader() returns (head: Head, additional: Additional)
      requires ReadStructure() && FRAME_HEADER <= bufferRead.ReadableBytes()
      modifies bufferRead`readerIndex, bufferRead`writerIndex
      ensures ReadStructure() && bufferRead.Contents() == old(bufferRead.Contents())[FRAME_HEADER..]
      ensures head == HeadOf(old(bufferRead.Contents())) && additional == AdditionalOf(old(bufferRead.Contents())[HEAD_LENGTH..])
    {
      Pieces(bufferRead.Contents(), 0);
      head := HeadOf(bufferRead.Peek(HEAD_LENGTH));
      bufferRead.Retrieve(HEAD_LENGTH);
      additional := AdditionalOf(bufferRead.Peek(ADDITIONAL_LENGTH));
      bufferRead.Retrieve(ADDITIONAL_LENGTH);
    }

    // Reads one frame off the front of the buffer.  ok says that the assertion in
    // retrieve holds; where it fails it does so behind the header.
    method ReadFrame() returns (ok: bool, head: Head, additional: Additional, body: seq<byte>)
      requires ReadStructure() && (Parse(bufferRead.Contents()).Complete? || Parse(bufferRead.Contents()).Broken?)
      modifies bufferRead`readerIndex, bufferRead`writerIndex
      ensures ReadStructure() && (ok <==> Parse(old(bufferRead.Contents())).Complete?)
      ensures ok ==> Parse(old(bufferRead.Contents())) == Complete(Frame(head, additional, body))
      ensures ok ==> HeadOk(head) && head.bodyLength == |body|
      ensures ok ==> bufferRead.Contents() == old(bufferRead.Contents())[FRAME_HEADER + |body|..]
    {
      ghost var s := bufferRead.Contents();
      RetrieveFails(s);
      head, additional := ReadHeader();
      body := [];
      ok := SizeT(head.bodyLength) <= bufferRead.ReadableBytes();
      if ok {
        Pieces(s, head.bodyLength);
        body := bufferRead.Peek(head.bodyLength);
        bufferRead.Retrieve(head.bodyLength);
      }
    }

    // What handle_read does with a frame.
    method TakeBody(head: Head, additional: Additional, body: seq<byte>)
      requires WriteOk() && SentOk() && connected && HeadOk(head) && head.bodyLength == |body|
      modifies this`cacheWrite, this`pushed, this`lent, this`lentAt, this`sent, this`echoes, this`receiveBuffer, this`dispatched
      modifies bufferWrite, writeStore
      ensures WriteOk() && SentOk()
      ensures State() == Accept(old(State()), Frame(head, additional, body))
      ensures Echoed(old(sent), old(echoes), sent, echoes)
    {
      if head.type' != HEARTBEAT_SERVER && head.type' != HEARTBEAT_CLIENT {
        DoReceive(head, additional, body);
      } else if head.type' == HEARTBEAT_CLIENT {
        EchoedMore(sent, echoes, sent, echoes, head);
        Echo(head);
      }
    }

    // One complete frame at the front of the read buffer.
    method TakeFrame() returns (ok: bool)
      requires Apart() && ReadStructure() && WriteOk() && SentOk() && connected
      requires Parse(bufferRead.Contents()).Complete? || Parse(bufferRead.Contents()).Broken?
      modifies this`cacheWrite, this`pushed, this`lent, this`lentAt, this`sent, this`echoes, this`receiveBuffer, this`dispatched
      modifies bufferRead`readerIndex, bufferRead`writerIndex, bufferWrite, writeStore
      ensures ReadStructure() && WriteOk() && SentOk() && (ok <==> Parse(old(bufferRead.Contents())).Complete?)
      ensures ok ==> Moved(More, old(State()), old(bufferRead.Contents()), State(), bufferRead.Contents())
      ensures ok ==> Echoed(old(sent), old(echoes), sent, echoes)
    {
      var head, additional, body;
      ok, head, additional, body := ReadFrame();
      if ok { TakeBody(head, additional, body); }
    }

    // stop
    method Stop()
      modifies this`connected
      ensures !connected
    {
      connected := false;
    }

    // Is there a whole frame?  If not, makes room for the rest of it, or finds a
    // length that cannot be.
    method NextFrame() returns (p: Progress)
      requires ReadStructure() && FRAME_HEADER <= bufferRead.ReadableBytes()
      modifies bufferRead, readStore
      ensures ReadStructure() && bufferRead.Contents() == old(bufferRead.Contents())
      ensures match p
              case More => Parse(bufferRead.Contents()).Complete? || Parse(bufferRead.Contents()).Broken?
              case Wait => Parse(bufferRead.Contents()).Incomplete? && 0 < Missing(bufferRead.Contents()) <= bufferRead.WritableBytes()
              case Bad => Parse(bufferRead.Contents()).Rejected?
    {
      var readable := bufferRead.ReadableBytes();
      var bodyLength := HeadOf(bufferRead.Peek(HEAD_LENGTH)).bodyLength;
      Pieces(bufferRead.Contents(), 0);
      ParseDecides(bufferRead.Contents());
      if readable < SizeT(SizeT(bodyLength) + FRAME_HEADER) {
        if SizeT(bodyLength) > CAPACITY { return Bad; }
        bufferRead.EnsureWritableBytes(SizeT(SizeT(bodyLength) + FRAME_HEADER) - readable);
        return Wait;
      }
      return More;
    }

    // The loop of handle_read: Lost if an assertion fails.
    method TakeFrames() returns (status: Status)
      requires Apart() && ReadStructure() && WriteOk() && SentOk() && connected
      modifies this`cacheWrite, this`pushed, this`lent, this`lentAt, this`sent, this`echoes, this`receiveBuffer, this`dispatched
      modifies bufferRead, readStore, bufferWrite, writeStore
      ensures ReadStructure() && WriteOk() && SentOk()
      ensures status == Consume(old(State()), old(bufferRead.Contents())).status
      ensures status != Lost ==> Consume(old(State()), old(bufferRead.Contents())) == Intake(State(), bufferRead.Contents(), status)
      ensures status == Reading && FRAME_HEADER <= bufferRead.ReadableBytes() ==> 0 < Missing(bufferRead.Contents()) <= bufferRead.WritableBytes()
      ensures status != Lost ==> Echoed(old(sent), old(echoes), sent, echoes)
    {
      ghost var goal := Consume(State(), bufferRead.Contents());
      while bufferRead.ReadableBytes() >= FRAME_HEADER
        invariant ReadStructure() && WriteOk() && SentOk()
        invariant Consume(State(), bufferRead.Contents()) == goal
        invariant Echoed(old(sent), old(echoes), sent, echoes)
        decreases bufferRead.ReadableBytes()
      {
        ghost var r, s, sent1, echoes1 := State(), bufferRead.Contents(), sent, echoes;
        var p := NextFrame();
        if p == More {
          var ok := TakeFrame();
          if !ok { return Lost; }
          EchoedJoin(old(sent), old(echoes), sent1, echoes1, sent, echoes);
        }
        MovedConsume(p, r, s, State(), bufferRead.Contents());
        if p == Bad { return Stopped; }
        if p == Wait { return Reading; }
      }
      return Reading;
    }

    // The socket has put chunk behind the read buffer.
    method ReadChunk(chunk: seq<byte>)
      requires ReadOk() && connected && |chunk| <= bufferRead.WritableBytes()
      modifies this`received, bufferRead`writerIndex, readStore
      ensures ReadStructure() && received == old(received) + chunk
      ensures Consume(State(), bufferRead.Contents()) == Consume(FRESH, received)
    {
      ConsumeMore(FRESH, received, chunk);
      bufferRead.Fill(chunk);
      bufferRead.HasWritten(|chunk|);
      received := received + chunk;
    }

    // The end of handle_read: there is room for the rest of a header.
    method MakeRoomForHeader()
      requires ReadStructure()
      requires FRAME_HEADER <= bufferRead.ReadableBytes() ==> 0 < Missing(bufferRead.Contents()) <= bufferRead.WritableBytes()
      modifies bufferRead, readStore
      ensures ReadStructure() && bufferRead.Contents() == old(bufferRead.Contents())
      ensures 0 < Missing(bufferRead.Contents()) <= bufferRead.WritableBytes()
    {
      if bufferRead.ReadableBytes() == 0 { bufferRead.RetrieveAll(); }
      if bufferRead.ReadableBytes() < FRAME_HEADER {
        bufferRead.EnsureWritableBytes(FRAME_HEADER - bufferRead.ReadableBytes());
      }
    }

    method TakeChunk(chunk: seq<byte>) returns (status: Status)
      requires Valid() && connected && |chunk| <= bufferRead.WritableBytes()
      modifies this`received, this`receiveBuffer, this`dispatched, this`echoes
      modifies this`cacheWrite, this`pushed, this`lent, this`lentAt, this`sent
      modifies bufferRead, readStore, bufferWrite, writeStore
      ensures received == old(received) + chunk && ReadStructure() && WriteOk() && SentOk()
      ensures status == Consume(FRESH, received).status
      ensures status != Lost ==> Consume(FRESH, received) == Intake(State(), bufferRead.Contents(), status)
      ensures status == Reading && FRAME_HEADER <= bufferRead.ReadableBytes() ==> 0 < Missing(bufferRead.Contents()) <= bufferRead.WritableBytes()
      ensures status != Lost ==> Echoed(old(sent), old(echoes), sent, echoes)
      ensures status != Lost ==> Answered(old(received), old(sent), received, sent)
    {
      ReadChunk(chunk);
      status := TakeFrames();
      if status != Lost { AnswersGrow(old(received), old(sent), old(echoes), received, sent, echoes); }
    }

    /** handle_read without error: the socket has put chunk behind the read buffer.
        Every assertion holds if and only if the bytes received so far do not lead to a
        length from -20 to -1.  Then the session stands exactly where reading all of
        them, in one piece, would have brought it. */
    method HandleRead(chunk: seq<byte>) returns (ok: bool)
      requires Valid() && connected && |chunk| <= bufferRead.WritableBytes()
      modifies this`connected, this`received, this`receiveBuffer, this`dispatched, this`echoes
      modifies this`cacheWrite, this`pushed, this`lent, this`lentAt, this`sent
      modifies bufferRead, readStore, bufferWrite, writeStore
      ensures received == old(received) + chunk
      ensures ok <==> Consume(FRESH, received).status != Lost
      ensures ok ==> Valid()
      ensures ok ==> State() == Consume(FRESH, received).reader
      ensures ok ==> (connected <==> Consume(FRESH, received).status == Reading)
      ensures ok ==> Echoed(old(sent), old(echoes), sent, echoes)
      ensures ok ==> Answered(old(received), old(sent), received, sent)
    {
      var status := TakeChunk(chunk);
      if status == Reading {
        MakeRoomForHeader();
      } else if status == Stopped {
        Stop();
      }
      ok := status != Lost;
    }
  }

  /** End to end: b reads what a's socket has taken, in order, in chunks of any
      size, after any sequence of sends, partial writes and reads on both sides; the
      socket may have taken bytes of the outstanding write that are not yet reported.
      What b has dispatched is a prefix of what a has sent, and all of it once b has
      read everything. */
  lemma {:induction false} EndToEnd(a: Session, b: Session)
    requires a.Valid() && b.Valid() && a.connected && b.connected && AllWhole(a.sent)
    requires b.received <= a.acked + a.lent
    ensures b.dispatched <= Messages(a.sent)
    ensures b.received == a.pushed ==> b.dispatched == Messages(a.sent) && b.receiveBuffer == []
    ensures b.received == a.acked && a.lent == [] ==> b.received == a.pushed
  {
    TakenIsSent(a);
    StreamArrives(a.sent, FramesOf(a.sent), b.received);
    if a.lent == [] { assert a.acked + [] + [] == a.pushed; }
  }

  // What the socket may have taken is the front of what was pushed.
  lemma {:induction false} TakenIsSent(a: Session)
    requires a.Valid() && a.connected
    ensures a.acked + a.lent <= a.pushed == Stream(FramesOf(a.sent))
  {
    var readable := a.bufferWrite.Contents();
    assert a.acked + readable == a.acked + a.lent + readable[|a.lent|..];
  }

  // A reader whose peer is a session never stops and never meets a length it
  // cannot cope with.
  lemma {:induction false} PeerIsSafe(a: Session, b: Session, chunk: seq<byte>)
    requires a.Valid() && b.Valid() && a.connected && b.connected && AllWhole(a.sent)
    requires b.received + chunk <= a.acked + a.lent
    ensures Consume(FRESH, b.received + chunk).status == Reading
  {
    TakenIsSent(a);
    StreamArrives(a.sent, FramesOf(a.sent), b.received + chunk);
  }
}
