/** The conversion loops of pugixml.cpp: decoders that fold any Traits over the
    codes they find, once to count and once to write. */
module Transcoding {
  import opened Bytes
  import opened Utf
  import opened Reloading

  // A Traits class with the value it accumulates.
  datatype Traits<!R> = Traits(low: (R, nat) -> R, high: (R, nat) -> R)

  function Apply<R>(t: Traits<R>, r: R, c: Code): R {
    if c.Low? then t.low(r, c.ch) else t.high(r, c.ch)
  }

  function Fold<R>(t: Traits<R>, r: R, codes: seq<Code>): R {
    if codes == [] then r else Fold(t, Apply(t, r, codes[0]), codes[1..])
  }

  lemma {:induction false} FoldSum<R>(t: Traits<R>, r: R, a: seq<Code>, b: seq<Code>)
    ensures Fold(t, r, a + b) == Fold(t, Fold(t, r, a), b)
    decreases |a|
  {
    if a == [] {
      assert a + b == b;
    } else {
      assert (a + b)[1..] == a[1..] + b;
      FoldSum(t, Apply(t, r, a[0]), a[1..], b);
    }
  }

  // ---------------------------------------------------------------------
  // utf8_decoder::process

  // Behind n bytes that stand for c.
  lemma {:induction false} FoldStep<R>(t: Traits<R>, r: R, d: seq<byte>, i: nat, n: nat, c: seq<Code>)
    requires i < |d| && Lead(d[i..]) == (n, c)
    ensures i + n <= |d|
    ensures Fold(t, r, Codes(d[i..])) == Fold(t, if c == [] then r else Apply(t, r, c[0]), Codes(d[i + n..]))
  {
    assert d[i..][n..] == d[i + n..];
    FoldSum(t, r, c, Codes(d[i + n..]));
    if c != [] { assert c[1..] == []; }
  }

  lemma AsciiLead(d: seq<byte>, i: nat)
    requires i < |d| && d[i] < 0x80
    ensures Lead(d[i..]) == (1, [Low(d[i])])
  {
  }

  // With what is still to come from position i on, r makes all.
  ghost predicate Towards<R>(t: Traits<R>, data: seq<byte>, i: nat, r: R, all: R) {
    i <= |data| && Fold(t, r, Codes(data[i..])) == all
  }

  lemma {:induction false} Start<R>(t: Traits<R>, data: seq<byte>, r: R)
    ensures Towards(t, data, 0, r, Fold(t, r, Codes(data)))
  {
    assert data[0..] == data;
  }

  lemma {:induction false} End<R>(t: Traits<R>, data: seq<byte>, i: nat, r: R, all: R)
    requires Towards(t, data, i, r, all) && |data| <= i
    ensures r == all
  {
    assert data[i..] == [];
  }

  method Ascii<R>(data: seq<byte>, i: nat, t: Traits<R>, r0: R, ghost all: R) returns (r: R)
    requires i < |data| && data[i] < 0x80 && Towards(t, data, i, r0, all)
    ensures Towards(t, data, i + 1, r, all)
  {
    AsciiLead(data, i);
    FoldStep(t, r0, data, i, 1, [Low(data[i])]);
    r := t.low(r0, data[i]);
  }

  // The aligned path: four bytes at a time while none has its top bit set.
  method AsciiBlocks<R>(data: seq<byte>, i0: nat, t: Traits<R>, r0: R, ghost all: R) returns (i: nat, r: R)
    requires Towards(t, data, i0, r0, all)
    ensures i0 <= i && Towards(t, data, i, r, all)
  {
    i, r := i0, r0;
    while i + 4 <= |data| && data[i] < 0x80 && data[i + 1] < 0x80 && data[i + 2] < 0x80 && data[i + 3] < 0x80
      invariant i0 <= i && Towards(t, data, i, r, all)
      decreases |data| - i
    {
      r := Ascii(data, i, t, r, all);
      r := Ascii(data, i + 1, t, r, all);
      r := Ascii(data, i + 2, t, r, all);
      r := Ascii(data, i + 3, t, r, all);
      i := i + 4;
    }
  }

  // A sequence of more than one byte, or a byte that is skipped.
  method Sequence<R>(data: seq<byte>, i: nat, t: Traits<R>, r0: R, ghost all: R) returns (n: nat, r: R)
    requires i < |data| && 0x80 <= data[i] && Towards(t, data, i, r0, all)
    ensures 1 <= n && Towards(t, data, i + n, r, all)
  {
    var lead: int := data[i];
    var size := |data| - i;
    ghost var c: seq<Code>;
    if 0xC0 <= lead < 0xE0 && size >= 2 && Cont(data[i + 1]) {
      var ch := (lead - 0xC0) * 0x40 + Tail(data[i + 1]);
      n, c, r := 2, [Low(ch)], t.low(r0, ch);
    } else if 0xE0 <= lead < 0xF0 && size >= 3 && Cont(data[i + 1]) && Cont(data[i + 2]) {
      var ch := (lead - 0xE0) * 0x1000 + Tail(data[i + 1]) * 0x40 + Tail(data[i + 2]);
      n, c, r := 3, [Low(ch)], t.low(r0, ch);
    } else if 0xF0 <= lead < 0xF8 && size >= 4 && Cont(data[i + 1]) && Cont(data[i + 2]) && Cont(data[i + 3]) {
      var ch := (lead - 0xF0) * 0x4_0000 + Tail(data[i + 1]) * 0x1000 + Tail(data[i + 2]) * 0x40 + Tail(data[i + 3]);
      n, c, r := 4, [High(ch)], t.high(r0, ch);
    } else {
      n, c, r := 1, [], r0;
    }
    assert Lead(data[i..]) == (n, c);
    FoldStep(t, r0, data, i, n, c);
  }

  /** utf8_decoder::process, for any Traits and wherever the data lie in memory. */
  method Process8<R>(data: seq<byte>, address: nat, t: Traits<R>, r0: R) returns (r: R)
    ensures r == Fold(t, r0, Codes(data))
  {
    ghost var all := Fold(t, r0, Codes(data));
    var i := 0;
    r := r0;
    Start(t, data, r0);
    while i < |data|
      invariant Towards(t, data, i, r, all)
      decreases |data| - i
    {
      if data[i] < 0x80 {
        r := Ascii(data, i, t, r, all);
        i := i + 1;
        if (address + i) % 4 == 0 { i, r := AsciiBlocks(data, i, t, r, all); }
      } else {
        var n;
        n, r := Sequence(data, i, t, r, all);
        i := i + n;
      }
    }
    End(t, data, i, r, all);
  }

  // ---------------------------------------------------------------------
  // The other decoders.

  method Process16<R>(data: seq<nat>, swap: bool, t: Traits<R>, r0: R) returns (r: R)
    requires forall k :: 0 <= k < |data| ==> data[k] < 0x1_0000
    ensures r == Fold(t, r0, Codes16(Native16(data, swap)))
  {
    var i := 0;
    r := r0;
    ghost var u := Native16(data, swap);
    assert u[0..] == u;
    while i < |data|
      invariant i <= |data| && Fold(t, r, Codes16(u[i..])) == Fold(t, r0, Codes16(u))
    {
      var n;
      n, r := Unit16(data, swap, u, i, t, r);
      i := i + n;
    }
    assert u[i..] == [];
  }

  method Unit16<R>(data: seq<nat>, swap: bool, ghost u: seq<nat>, i: nat, t: Traits<R>, r0: R) returns (n: nat, r: R)
    requires forall k :: 0 <= k < |u| ==> u[k] < 0x1_0000
    requires i < |data| == |u| && forall k :: 0 <= k < |data| ==> data[k] < 0x1_0000 && u[k] == if swap then Swap16(data[k]) else data[k]
    ensures 1 <= n && i + n <= |u| && Fold(t, r, Codes16(u[i + n..])) == Fold(t, r0, Codes16(u[i..]))
  {
    var lead := if swap then Swap16(data[i]) else data[i];
    ghost var c: seq<Code> := [];
    n, r := 1, r0;
    if lead < 0xD800 || 0xE000 <= lead {
      c, r := [Low(lead)], t.low(r0, lead);
    } else if lead < 0xDC00 && i + 2 <= |data| {
      var next := if swap then Swap16(data[i + 1]) else data[i + 1];
      if 0xDC00 <= next < 0xE000 {
        var ch := 0x1_0000 + (lead - 0xD800) * 0x400 + (next - 0xDC00);
        n, c, r := 2, [High(ch)], t.high(r0, ch);
      }
    }
    assert Lead16(u[i..]) == (n, c);
    Fold16Step(t, r0, u, i, n, c);
  }

  lemma {:induction false} Fold16Step<R>(t: Traits<R>, r: R, u: seq<nat>, i: nat, n: nat, c: seq<Code>)
    requires i < |u| && (forall k :: 0 <= k < |u| ==> u[k] < 0x1_0000) && Lead16(u[i..]) == (n, c)
    ensures i + n <= |u|
    ensures Fold(t, r, Codes16(u[i..])) == Fold(t, if c == [] then r else Apply(t, r, c[0]), Codes16(u[i + n..]))
  {
    assert u[i..][n..] == u[i + n..];
    FoldSum(t, r, c, Codes16(u[i + n..]));
    if c != [] { assert c[1..] == []; }
  }

  function Swap16(u: nat): (v: nat)
    requires u < 0x1_0000
    ensures v < 0x1_0000
  {
    u % 0x100 * 0x100 + u / 0x100
  }

  function Swap32(u: nat): (v: nat)
    requires u < WORD
    ensures v < WORD
  {
    u % 0x100 * 0x100_0000 + u / 0x100 % 0x100 * 0x1_0000 + u / 0x1_0000 % 0x100 * 0x100 + u / 0x100_0000
  }

  function Native16(u: seq<nat>, swap: bool): (v: seq<nat>)
    requires forall k :: 0 <= k < |u| ==> u[k] < 0x1_0000
    ensures |v| == |u| && forall k :: 0 <= k < |v| ==> v[k] == if swap then Swap16(u[k]) else u[k]
  {
    if u == [] then [] else [if swap then Swap16(u[0]) else u[0]] + Native16(u[1..], swap)
  }

  function Native32(u: seq<nat>, swap: bool): (v: seq<nat>)
    requires forall k :: 0 <= k < |u| ==> u[k] < WORD
    ensures |v| == |u| && forall k :: 0 <= k < |v| ==> v[k] == if swap then Swap32(u[k]) else u[k]
  {
    if u == [] then [] else [if swap then Swap32(u[0]) else u[0]] + Native32(u[1..], swap)
  }

  // utf32_decoder, and latin1_decoder for units below 256
  method Process32<R>(data: seq<nat>, swap: bool, t: Traits<R>, r0: R) returns (r: R)
    requires forall k :: 0 <= k < |data| ==> data[k] < WORD
    ensures r == Fold(t, r0, Codes32(Native32(data, swap)))
  {
    r := r0;
    ghost var codes := Codes32(Native32(data, swap));
    assert codes[0..] == codes;
    for i := 0 to |data|
      invariant Fold(t, r, codes[i..]) == Fold(t, r0, codes)
    {
      assert codes[i..][0] == codes[i] && codes[i..][1..] == codes[i + 1..];
      var lead := if swap then Swap32(data[i]) else data[i];
      r := if lead < 0x1_0000 then t.low(r, lead) else t.high(r, lead);
    }
  }

  // ---------------------------------------------------------------------
  // Counters and writers.

  function CounterLow(e: Encoding, n: nat, ch: nat): nat {
    if !e.Utf8? || ch < 0x80 then n + 1 else if ch < 0x800 then n + 2 else n + 3
  }

  function CounterHigh(e: Encoding, n: nat): nat {
    n + if e.Utf8? then 4 else if e.Utf16? then 2 else 1
  }

  // utf8_counter, utf16_counter, utf32_counter
  function Counter(e: Encoding): Traits<nat> {
    Traits((n: nat, ch: nat) => CounterLow(e, n, ch), (n: nat, ch: nat) => CounterHigh(e, n))
  }

  // utf8_writer, utf16_writer, utf32_writer, latin1_writer.  The numbers they get are
  // those of codes.
  function Writer(e: Encoding): Traits<seq<nat>> {
    Traits((s: seq<nat>, ch: nat) => s + Units(e, Low(ch % 0x1_0000)), (s: seq<nat>, ch: nat) => s + Units(e, High(ch % WORD)))
  }

  /** The counter predicts what the writer writes. */
  lemma {:induction false} CounterPredicts(e: Encoding, codes: seq<Code>, n: nat)
    ensures Fold(Counter(e), n, codes) == n + |AllUnits(e, codes)|
    decreases |codes|
  {
    if codes != [] {
      var c := codes[0];
      assert Apply(Counter(e), n, c) == n + |Units(e, c)|;
      CounterPredicts(e, codes[1..], n + |Units(e, c)|);
    }
  }

  lemma {:induction false} WriterWrites(e: Encoding, codes: seq<Code>, s: seq<nat>)
    ensures Fold(Writer(e), s, codes) == s + AllUnits(e, codes)
    decreases |codes|
  {
    if codes != [] {
      var c := codes[0];
      var u := Units(e, c);
      WriteOne(e, c, s);
      WriterWrites(e, codes[1..], s + u);
      SumAssociates(s, u, AllUnits(e, codes[1..]));
    }
  }

  lemma WriteOne(e: Encoding, c: Code, s: seq<nat>)
    ensures Apply(Writer(e), s, c) == s + Units(e, c)
  {
    assert c.ch % WORD == c.ch && (c.Low? ==> c.ch % 0x1_0000 == c.ch);
  }

  // Units as they lie in native memory.
  function Swapped(e: Encoding, u: nat): (v: nat)
    requires u < Limit(e)
    ensures v < Limit(e) && UnitBytes(Small(e), v) == UnitBytes(e, u)
  {
    match e
    case Utf16(big) => if big then Swap16(u) else u
    case Utf32(big) => if big then (SwapBytes(u); Swap32(u)) else u
    case _ => u
  }

  lemma SwapBytes(u: nat)
    requires u < WORD
    ensures Swap32(u) % 0x100 == u / 0x100_0000 && Swap32(u) / 0x100 % 0x100 == u / 0x1_0000 % 0x100
    ensures Swap32(u) / 0x1_0000 % 0x100 == u / 0x100 % 0x100 && Swap32(u) / 0x100_0000 == u % 0x100
  {
    BytesOf(u % 0x100, u / 0x100 % 0x100, u / 0x1_0000 % 0x100, u / 0x100_0000);
  }

  lemma BytesOf(a: nat, b: nat, c: nat, d: nat)
    requires a < 0x100 && b < 0x100 && c < 0x100 && d < 0x100
    ensures var v := a * 0x100_0000 + b * 0x1_0000 + c * 0x100 + d;
            v % 0x100 == d && v / 0x100 % 0x100 == c && v / 0x1_0000 % 0x100 == b && v / 0x100_0000 == a
  {
    var v := a * 0x100_0000 + b * 0x1_0000 + c * 0x100 + d;
    assert v / 0x100 == a * 0x1_0000 + b * 0x100 + c;
    assert v / 0x1_0000 == a * 0x100 + b;
  }

  // The same encoding in native order.
  function Small(e: Encoding): Encoding {
    match e
    case Utf16(_) => Utf16(false)
    case Utf32(_) => Utf32(false)
    case _ => e
  }

  /** convert_buffer_output: writes units, swaps them in place and hands over their bytes. */
  method ConvertOutput(e: Encoding, data: seq<byte>, address: nat) returns (r: seq<byte>)
    requires !e.Utf8?
    ensures r == Convert(e, data) && |r| <= 4 * |data|
  {
    var units := Process8(data, address, Writer(e), []);
    WriterWrites(e, Codes(data), []);
    assert units == AllUnits(e, Codes(data));
    r := StoreUnits(e, units);
    ConvertFits(e, data);
  }

  // Swaps the units that lie in native order, and hands over their bytes.
  method StoreUnits(e: Encoding, units: seq<nat>) returns (r: seq<byte>)
    requires UnitsFit(e, units)
    ensures r == Store(e, units)
  {
    r := [];
    for i := 0 to |units|
      invariant r == Store(e, units[..i])
    {
      var v := Swapped(e, units[i]);
      r := r + UnitBytes(Small(e), v);
      StoreMore(e, units, i);
    }
    assert units[..|units|] == units;
  }

  lemma {:induction false} StoreMore(e: Encoding, all: seq<nat>, i: nat)
    requires i < |all| && UnitsFit(e, all)
    ensures Store(e, all[..i + 1]) == Store(e, all[..i]) + UnitBytes(e, all[i])
  {
    assert all[..i + 1] == all[..i] + [all[i]];
    StoreSum(e, all[..i], [all[i]]);
    assert [all[i]][1..] == [] && Store(e, [all[i]]) == UnitBytes(e, all[i]) + [];
  }

  // ---------------------------------------------------------------------
  // Input.

  lemma {:induction false} NativeUnits(e: Encoding, b: seq<byte>)
    ensures e.Utf16? ==> Native16(ReadUnits(Small(e), b), e.big) == ReadUnits(e, b)
    ensures e.Utf32? ==> Native32(ReadUnits(Small(e), b), e.big) == ReadUnits(e, b)
    decreases |b|
  {
    if Width(e) <= |b| {
      NativeUnits(e, b[Width(e)..]);
      SwapRead(e, b);
    }
  }

  lemma SwapRead(e: Encoding, b: seq<byte>)
    requires Width(e) <= |b|
    ensures e.Utf16? && e.big ==> Swap16(ReadUnit(Small(e), b)) == ReadUnit(e, b)
    ensures e.Utf32? && e.big ==> Swap32(ReadUnit(Small(e), b)) == ReadUnit(e, b)
  {
    if e.Utf32? { BytesOf(b[3], b[2], b[1], b[0]); }
  }

  // D::process for the encoding of the input
  method DecodeInput<R>(e: Encoding, contents: seq<byte>, t: Traits<R>, r0: R) returns (r: R)
    requires !e.Utf8?
    ensures r == Fold(t, r0, CodesIn(e, contents))
  {
    NativeUnits(e, contents);
    var units := ReadUnits(Small(e), contents);
    match e
    case Utf16(big) => r := Process16(units, big, t, r0);
    case Utf32(big) => r := Process32(units, big, t, r0);
    case Latin1 =>
      Unswapped(units);
      r := Process32(units, false, t, r0);
  }

  lemma {:induction false} Unswapped(u: seq<nat>)
    requires forall k :: 0 <= k < |u| ==> u[k] < WORD
    ensures Native32(u, false) == u
  {
  }

  // First pass.
  method Measure(e: Encoding, contents: seq<byte>) returns (length: nat)
    requires !e.Utf8?
    ensures length == |Load(e, contents)|
  {
    length := DecodeInput(e, contents, Counter(Utf8), 0);
    CounterPredicts(Utf8, CodesIn(e, contents), 0);
  }

  // Second pass.
  method WriteOut(e: Encoding, contents: seq<byte>) returns (text: seq<nat>)
    requires !e.Utf8?
    ensures text == Load(e, contents)
  {
    text := DecodeInput(e, contents, Writer(Utf8), []);
    WriterWrites(Utf8, CodesIn(e, contents), []);
    StoreBytes(AllUnits(Utf8, CodesIn(e, contents)));
  }

  /** convert_buffer: one pass to learn the length, one to write; the second fills
      exactly the buffer that the first one sized. */
  method ConvertBuffer(e: Encoding, contents: seq<byte>) returns (buffer: array<byte>)
    requires !e.Utf8?
    ensures buffer[..] == Load(e, contents) + [NUL]
  {
    var length := Measure(e, contents);
    buffer := new byte[length + 1];
    var text := WriteOut(e, contents);
    Fill(buffer, text, Load(e, contents));
  }

  method Fill(buffer: array<byte>, text: seq<nat>, ghost d: seq<byte>)
    requires text == d && buffer.Length == |d| + 1
    modifies buffer
    ensures buffer[..] == d + [NUL]
  {
    for i := 0 to |text|
      invariant forall k :: 0 <= k < i ==> buffer[k] == d[k]
    {
      buffer[i] := text[i];
    }
    buffer[|text|] := NUL;
  }
}
