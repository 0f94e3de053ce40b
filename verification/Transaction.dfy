/** transaction.h: a frame is a packed 20-byte header and a body.

    The header is transaction_head (body length, type: two 32-bit integers) and
    transaction_additional (16-bit serial number, has-next and total length as
    32-bit integers, two bytes of user data), little-endian as on the machines
    the library is built for. */
module Transactions {

  import opened Bytes
  import opened Options

  const HEAD_LENGTH := 8
  const ADDITIONAL_LENGTH := 12
  const FRAME_HEADER := HEAD_LENGTH + ADDITIONAL_LENGTH
  const HEARTBEAT_CLIENT := 1
  const HEARTBEAT_SERVER := 2

  predicate Int32(x: int) {
    -0x8000_0000 <= x < 0x8000_0000
  }

  predicate Int16(x: int) {
    -0x8000 <= x < 0x8000
  }

  datatype Head = Head(bodyLength: int, type': int)
  datatype Additional = Additional(serial: int, hasNext: int, total: int, user: seq<byte>)

  predicate HeadOk(h: Head) {
    Int32(h.bodyLength) && Int32(h.type')
  }

  predicate AdditionalOk(a: Additional) {
    Int16(a.serial) && Int32(a.hasNext) && Int32(a.total) && |a.user| == 2
  }

  const NO_ADDITIONAL := Additional(0, 0, 0, [0, 0])

  // ---------------------------------------------------------------------
  // Integers in memory.

  // Four bytes as an unsigned number, least significant first.
  function Unsigned(b: seq<byte>): (u: int)
    requires |b| == 4
    ensures 0 <= u < 0x1_0000_0000
  {
    var b0: int, b1: int, b2: int, b3: int := b[0], b[1], b[2], b[3];
    b0 + 0x100 * (b1 + 0x100 * (b2 + 0x100 * b3))
  }

  function Split(u: int): (b: seq<byte>)
    requires 0 <= u < 0x1_0000_0000
    ensures |b| == 4
  {
    [u % 0x100, u / 0x100 % 0x100, u / 0x100 / 0x100 % 0x100, u / 0x100 / 0x100 / 0x100]
  }

  lemma SplitUnsigned(u: int)
    requires 0 <= u < 0x1_0000_0000
    ensures Unsigned(Split(u)) == u
  {
    var v := u / 0x100;
    var w := v / 0x100;
    assert w == w % 0x100 + 0x100 * (w / 0x100);
    assert v == v % 0x100 + 0x100 * w;
    assert u == u % 0x100 + 0x100 * v;
  }

  lemma UnsignedSplits(b: seq<byte>)
    requires |b| == 4
    ensures Split(Unsigned(b)) == b
  {
    var u := Unsigned(b);
    var b1: int, b2: int, b3: int := b[1], b[2], b[3];
    assert u / 0x100 == b1 + 0x100 * (b2 + 0x100 * b3) && u % 0x100 == b[0];
    assert u / 0x100 / 0x100 == b2 + 0x100 * b3;
  }

  function Encode32(x: int): (b: seq<byte>)
    requires Int32(x)
    ensures |b| == 4
  {
    Split(if x < 0 then x + 0x1_0000_0000 else x)
  }

  function Decode32(b: seq<byte>): (x: int)
    requires |b| == 4
    ensures Int32(x)
  {
    var u := Unsigned(b);
    if u < 0x8000_0000 then u else u - 0x1_0000_0000
  }

  lemma RoundTrip32(x: int)
    requires Int32(x)
    ensures Decode32(Encode32(x)) == x
  {
    SplitUnsigned(if x < 0 then x + 0x1_0000_0000 else x);
  }

  function Encode16(x: int): (b: seq<byte>)
    requires Int16(x)
    ensures |b| == 2 && Decode16(b) == x
  {
    var u := if x < 0 then x + 0x1_0000 else x;
    [u % 0x100, u / 0x100]
  }

  function Decode16(b: seq<byte>): (x: int)
    requires |b| == 2
    ensures Int16(x)
  {
    var b0: int, b1: int := b[0], b[1];
    var u := b0 + 0x100 * b1;
    if u < 0x8000 then u else u - 0x1_0000
  }

  // ---------------------------------------------------------------------
  // Frames as byte strings.

  function HeadBytes(h: Head): (b: seq<byte>)
    requires HeadOk(h)
    ensures |b| == HEAD_LENGTH
  {
    Encode32(h.bodyLength) + Encode32(h.type')
  }

  function AdditionalBytes(a: Additional): (b: seq<byte>)
    requires AdditionalOk(a)
    ensures |b| == ADDITIONAL_LENGTH
  {
    Encode16(a.serial) + Encode32(a.hasNext) + Encode32(a.total) + a.user
  }

  function FrameBytes(h: Head, a: Additional, body: seq<byte>): (b: seq<byte>)
    requires HeadOk(h) && AdditionalOk(a)
    ensures |b| == FRAME_HEADER + |body|
  {
    HeadBytes(h) + AdditionalBytes(a) + body
  }

  function HeadOf(b: seq<byte>): (h: Head)
    requires HEAD_LENGTH <= |b|
    ensures HeadOk(h)
  {
    Head(Decode32(b[0..4]), Decode32(b[4..8]))
  }

  function AdditionalOf(b: seq<byte>): (a: Additional)
    requires ADDITIONAL_LENGTH <= |b|
    ensures AdditionalOk(a)
  {
    Additional(Decode16(b[0..2]), Decode32(b[2..6]), Decode32(b[6..10]), b[10..12])
  }

  // Reading a frame gives back what it was built from, whatever follows it.
  lemma HeaderRoundTrip(h: Head, a: Additional, body: seq<byte>, rest: seq<byte>)
    requires HeadOk(h) && AdditionalOk(a)
    ensures var b := FrameBytes(h, a, body) + rest;
            HeadOf(b) == h && AdditionalOf(b[HEAD_LENGTH..]) == a && b[FRAME_HEADER..FRAME_HEADER + |body|] == body
  {
    RoundTrip32(h.bodyLength);
    RoundTrip32(h.type');
    RoundTrip32(a.hasNext);
    RoundTrip32(a.total);
    var b := FrameBytes(h, a, body) + rest;
    assert b[0..4] == Encode32(h.bodyLength);
    assert b[4..8] == Encode32(h.type');
    var c := b[HEAD_LENGTH..];
    assert c == AdditionalBytes(a) + body + rest;
    assert c[0..2] == Encode16(a.serial);
    assert c[2..6] == Encode32(a.hasNext);
    assert c[6..10] == Encode32(a.total);
    assert c[10..12] == a.user;
  }

  // Every byte string of a header's length is the image of some header.
  lemma BytesRoundTrip(b: seq<byte>)
    requires FRAME_HEADER <= |b|
    ensures FrameBytes(HeadOf(b), AdditionalOf(b[HEAD_LENGTH..]), b[FRAME_HEADER..]) == b
  {
    UnsignedSplits(b[0..4]);
    UnsignedSplits(b[4..8]);
    var c := b[HEAD_LENGTH..];
    UnsignedSplits(c[2..6]);
    UnsignedSplits(c[6..10]);
    var s := c[0..2];
    assert Encode16(Decode16(s)) == s;
  }

  // ---------------------------------------------------------------------
  // The layout, byte by byte.

  // Bytes as a number, each worth 256 times the one before.
  function LittleEndian(b: seq<byte>): (n: nat) {
    if b == [] then 0 else b[0] + 0x100 * LittleEndian(b[1..])
  }

  lemma {:induction false} FourBytes(b: seq<byte>)
    requires |b| == 4
    ensures LittleEndian(b) == Unsigned(b)
  {
    var x, y, z, none := b[1..], b[2..], b[3..], b[4..];
    assert x[1..] == y && y[1..] == z && z[1..] == none;
    assert LittleEndian(z) == z[0] + 0x100 * LittleEndian(none);
    assert LittleEndian(y) == y[0] + 0x100 * LittleEndian(z);
    assert LittleEndian(x) == x[0] + 0x100 * LittleEndian(y);
  }

  lemma {:induction false} Encoded32(x: int)
    requires Int32(x)
    ensures LittleEndian(Encode32(x)) == if x < 0 then x + 0x1_0000_0000 else x
  {
    FourBytes(Encode32(x));
    SplitUnsigned(if x < 0 then x + 0x1_0000_0000 else x);
  }

  lemma {:induction false} Encoded16(x: int)
    requires Int16(x)
    ensures LittleEndian(Encode16(x)) == if x < 0 then x + 0x1_0000 else x
  {
    var b := Encode16(x);
    assert b[1..][1..] == [] && LittleEndian(b[1..]) == b[1];
  }

  // A number in two's complement.
  predicate Shows(b: seq<byte>, x: int) {
    LittleEndian(b) == if x < 0 then x + Modulus(|b|) else x
  }

  function Modulus(n: nat): nat {
    if n == 0 then 1 else 0x100 * Modulus(n - 1)
  }

  /** Where each field of a frame lies: body length at 0 and type at 4, serial number at 8,
      has-next at 10, total length at 14, user data at 18, the body from 20 on. */
  lemma {:induction false} FrameLayout(h: Head, a: Additional, body: seq<byte>)
    requires HeadOk(h) && AdditionalOk(a)
    ensures var b := FrameBytes(h, a, body);
      && |b| == 20 + |body| && Shows(b[0..4], h.bodyLength) && Shows(b[4..8], h.type') && Shows(b[8..10], a.serial)
      && Shows(b[10..14], a.hasNext) && Shows(b[14..18], a.total) && b[18..20] == a.user && b[20..] == body
  {
    var b := FrameBytes(h, a, body);
    Encoded32(h.bodyLength);
    Encoded32(h.type');
    Encoded16(a.serial);
    Encoded32(a.hasNext);
    Encoded32(a.total);
    assert Modulus(2) == 0x1_0000 && Modulus(4) == 0x1_0000 * Modulus(2);
    FieldsAt(h, a, body, b);
  }

  lemma FieldsAt(h: Head, a: Additional, body: seq<byte>, b: seq<byte>)
    requires HeadOk(h) && AdditionalOk(a) && b == FrameBytes(h, a, body)
    ensures b[0..4] == Encode32(h.bodyLength) && b[4..8] == Encode32(h.type') && b[8..10] == Encode16(a.serial)
    ensures b[10..14] == Encode32(a.hasNext) && b[14..18] == Encode32(a.total) && b[18..20] == a.user && b[20..] == body
  {
  }

  // ---------------------------------------------------------------------
  // The class itself: one heap block, filled in by the constructors.

  method MemCpy(dst: array<byte>, at: nat, src: seq<byte>)
    requires at + |src| <= dst.Length
    modifies dst
    ensures dst[..] == old(dst[..at]) + src + old(dst[at + |src|..])
  {
    for i := 0 to |src|
      invariant dst[..] == old(dst[..at]) + src[..i] + old(dst[at + i..])
    {
      dst[at + i] := src[i];
      assert src[..i + 1] == src[..i] + [src[i]];
    }
    assert src[..|src|] == src;
  }

  class Transaction {
    const block: array<byte>

    // transaction(phead, padditional, pbody)
    constructor WithAdditional(head: Head, additional: Additional, body: Option<seq<byte>>)
      requires HeadOk(head) && AdditionalOk(additional) && 0 <= head.bodyLength
      requires body.Some? ==> head.bodyLength <= |body.value|
      ensures fresh(block)
      ensures block[..] == FrameBytes(head, additional, if body.Some? then body.value[..head.bodyLength] else Zeros(head.bodyLength))
    {
      var length := FRAME_HEADER + head.bodyLength;
      block := new byte[length](_ => 0);
      new;
      assert block[..] == Zeros(length);
      MemCpy(block, 0, HeadBytes(head));
      MemCpy(block, HEAD_LENGTH, AdditionalBytes(additional));
      assert block[..] == HeadBytes(head) + AdditionalBytes(additional) + Zeros(head.bodyLength);
      if body.Some? && head.bodyLength != 0 {
        MemCpy(block, FRAME_HEADER, body.value[..head.bodyLength]);
      }
    }

    // transaction(phead) and, with a body, transaction(phead, pbody): no additional part
    constructor (head: Head, body: Option<seq<byte>>)
      requires HeadOk(head) && 0 <= head.bodyLength
      requires body.Some? ==> head.bodyLength <= |body.value|
      ensures fresh(block)
      ensures block[..] == FrameBytes(head, NO_ADDITIONAL, if body.Some? then body.value[..head.bodyLength] else Zeros(head.bodyLength))
    {
      var length := FRAME_HEADER + head.bodyLength;
      block := new byte[length](_ => 0);
      new;
      assert block[..] == Zeros(length);
      MemCpy(block, 0, HeadBytes(head));
      assert AdditionalBytes(NO_ADDITIONAL) == Zeros(ADDITIONAL_LENGTH);
      assert block[..] == HeadBytes(head) + AdditionalBytes(NO_ADDITIONAL) + Zeros(head.bodyLength);
      if body.Some? && head.bodyLength != 0 {
        MemCpy(block, FRAME_HEADER, body.value[..head.bodyLength]);
      }
    }

    // get_head_ptr
    method GetHead(ghost head: Head, ghost additional: Additional, ghost body: seq<byte>) returns (h: Head)
      requires HeadOk(head) && AdditionalOk(additional) && block[..] == FrameBytes(head, additional, body)
      ensures h == head
    {
      HeaderRoundTrip(head, additional, body, []);
      assert FrameBytes(head, additional, body) + [] == block[..];
      h := HeadOf(block[..]);
    }

    // trasaction_length
    function Length(): (n: int)
      requires FRAME_HEADER <= block.Length
      reads block
    {
      FRAME_HEADER + HeadOf(block[..]).bodyLength
    }

    // get_body_string: on a block that holds a frame, the frame's body
    method BodyString(ghost head: Head, ghost additional: Additional, ghost body: seq<byte>) returns (s: seq<byte>)
      requires HeadOk(head) && AdditionalOk(additional) && head.bodyLength == |body|
      requires block[..] == FrameBytes(head, additional, body)
      ensures s == body && Length() == block.Length
    {
      HeaderRoundTrip(head, additional, body, []);
      assert FrameBytes(head, additional, body) + [] == block[..];
      s := block[FRAME_HEADER..FRAME_HEADER + HeadOf(block[..]).bodyLength];
    }
  }

  function Zeros(n: nat): (z: seq<byte>)
    ensures |z| == n && forall i :: 0 <= i < n ==> z[i] == 0
  {
    seq(n, _ => 0)
  }
}
