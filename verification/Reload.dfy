/** What was saved in another encoding and is loaded again (pugixml.cpp,
    convert_buffer_output and convert_buffer). */
module Reloading {
  import opened Bytes
  import opened Utf
  import Unescape

  // ---------------------------------------------------------------------
  // The decoders for input.

  function ReadUnits(e: Encoding, b: seq<byte>): (u: seq<nat>)
    ensures UnitsFit(e, u)
    decreases |b|
  {
    if |b| < Width(e) then [] else [ReadUnit(e, b)] + ReadUnits(e, b[Width(e)..])
  }

  function ReadUnit(e: Encoding, b: seq<byte>): (u: nat)
    requires Width(e) <= |b|
    ensures u < Limit(e)
  {
    match e
    case Utf16(big) => if big then b[0] as int * 0x100 + b[1] as int else b[1] as int * 0x100 + b[0] as int
    case Utf32(big) =>
      if big then b[0] as int * 0x100_0000 + b[1] as int * 0x1_0000 + b[2] as int * 0x100 + b[3] as int
      else b[3] as int * 0x100_0000 + b[2] as int * 0x1_0000 + b[1] as int * 0x100 + b[0] as int
    case _ => b[0]
  }

  // The front of UTF-16 text: a unit, a surrogate pair, or half of one, which is dropped.
  function Lead16(u: seq<nat>): (r: (nat, seq<Code>))
    requires u != [] && forall k :: 0 <= k < |u| ==> u[k] < 0x1_0000
    ensures 1 <= r.0 <= |u| && |r.1| <= 1
    ensures r.1 != [] ==> Scalar(r.1[0])
  {
    var lead := u[0];
    if lead < 0xD800 || 0xE000 <= lead then (1, [Low(lead)])
    else if lead < 0xDC00 && 2 <= |u| && 0xDC00 <= u[1] < 0xE000 then
      (2, [High(0x1_0000 + (lead - 0xD800) * 0x400 + (u[1] - 0xDC00))])
    else (1, [])
  }

  function Codes16(u: seq<nat>): (r: seq<Code>)
    requires forall k :: 0 <= k < |u| ==> u[k] < 0x1_0000
    ensures forall i :: 0 <= i < |r| ==> Scalar(r[i])
  {
    if u == [] then [] else Lead16(u).1 + Codes16(u[Lead16(u).0..])
  }

  function Code32(u: nat): (c: Code)
    requires u < WORD
  {
    if u < 0x1_0000 then Low(u) else High(u)
  }

  function Codes32(u: seq<nat>): (r: seq<Code>)
    requires forall k :: 0 <= k < |u| ==> u[k] < WORD
    ensures |r| == |u| && forall i :: 0 <= i < |r| ==> r[i] == Code32(u[i])
  {
    if u == [] then [] else [Code32(u[0])] + Codes32(u[1..])
  }

  function CodesIn(e: Encoding, b: seq<byte>): seq<Code> {
    match e
    case Utf8 => Codes(b)
    case Utf16(_) => Codes16(ReadUnits(e, b))
    case _ => Codes32(ReadUnits(e, b))
  }

  // convert_buffer: UTF-8 is taken as it is.
  function Load(e: Encoding, b: seq<byte>): (d: seq<byte>) {
    if e.Utf8? then b else Emit(Utf8, CodesIn(e, b))
  }

  // ---------------------------------------------------------------------
  // Round trips.

  predicate Scalar(c: Code) {
    if c.Low? then !(0xD800 <= c.ch < 0xE000) else 0x1_0000 <= c.ch < 0x11_0000
  }

  // Codes that an encoding can hold.
  predicate Faithful(e: Encoding, c: Code) {
    match e
    case Utf8 => c.ch < 0x20_0000
    case Utf16(_) => Scalar(c)
    case Utf32(_) => c.High? ==> 0x1_0000 <= c.ch
    case Latin1 => c.Low? && c.ch < 0x100
  }

  ghost predicate AllFaithful(e: Encoding, codes: seq<Code>) {
    forall i :: 0 <= i < |codes| ==> Faithful(e, codes[i])
  }

  lemma {:induction false} ReadStored(e: Encoding, u: seq<nat>)
    requires UnitsFit(e, u)
    ensures ReadUnits(e, Store(e, u)) == u
    decreases |u|
  {
    if u != [] {
      var b, rest := UnitBytes(e, u[0]), Store(e, u[1..]);
      ReadOne(e, u[0], rest);
      ReadStored(e, u[1..]);
      assert (b + rest)[Width(e)..] == rest;
    }
  }

  lemma ReadOne(e: Encoding, u: nat, rest: seq<byte>)
    requires u < Limit(e)
    ensures ReadUnit(e, UnitBytes(e, u) + rest) == u
  {
    var b := UnitBytes(e, u);
    assert forall k :: 0 <= k < |b| ==> (b + rest)[k] == b[k];
    Quarters(u);
  }

  lemma Quarters(u: nat)
    ensures u == u / 0x100 * 0x100 + u % 0x100
    ensures u / 0x100 == u / 0x1_0000 * 0x100 + u / 0x100 % 0x100
    ensures u / 0x1_0000 == u / 0x100_0000 * 0x100 + u / 0x1_0000 % 0x100
  {
  }

  lemma {:induction false} Codes16Of(codes: seq<Code>, big: bool)
    requires AllFaithful(Utf16(big), codes)
    ensures Codes16(AllUnits(Utf16(big), codes)) == codes
    decreases |codes|
  {
    if codes != [] {
      var u, rest := Units(Utf16(big), codes[0]), AllUnits(Utf16(big), codes[1..]);
      assert Lead16(u + rest) == (|u|, [codes[0]]);
      assert (u + rest)[|u|..] == rest;
      Codes16Of(codes[1..], big);
    }
  }

  // What comes back as what it was.
  function Canonical(e: Encoding, c: Code): Code {
    if e.Latin1? then Low(if c.Low? && c.ch <= 255 then c.ch else 63) else Code32(c.ch)
  }

  lemma {:induction false} Codes32Of(e: Encoding, codes: seq<Code>)
    requires e.Utf32? || e.Latin1?
    ensures |AllUnits(e, codes)| == |codes|
    ensures forall i :: 0 <= i < |codes| ==> Code32(AllUnits(e, codes)[i]) == Canonical(e, codes[i])
    decreases |codes|
  {
    if codes != [] { Codes32Of(e, codes[1..]); }
  }

  /** Text written in another encoding is read back: every code that the encoding can
      hold, and nothing that it cannot. */
  lemma {:induction false} CodesReload(e: Encoding, codes: seq<Code>)
    requires !e.Utf8?
    ensures AllFaithful(e, codes) ==> CodesIn(e, Emit(e, codes)) == codes
    ensures AllFaithful(e, CodesIn(e, Emit(e, codes)))
    ensures (forall i :: 0 <= i < |codes| ==> codes[i].ch < 0x20_0000) ==>
            forall i :: 0 <= i < |CodesIn(e, Emit(e, codes))| ==> CodesIn(e, Emit(e, codes))[i].ch < 0x20_0000
  {
    ReadStored(e, AllUnits(e, codes));
    match e
    case Utf16(big) =>
      if AllFaithful(e, codes) { Codes16Of(codes, big); }
    case _ =>
      Codes32Of(e, codes);
  }

  lemma {:induction false} Codes8Of(codes: seq<Code>)
    requires forall i :: 0 <= i < |codes| ==> codes[i].ch < 0x20_0000
    ensures Codes(Emit(Utf8, codes)) == codes
    decreases |codes|
  {
    if codes != [] {
      var c, rest := codes[0], codes[1..];
      var b := Emit(Utf8, [c]);
      assert codes == [c] + rest;
      EmitSum(Utf8, [c], rest);
      LeadOfCode(c, Emit(Utf8, rest));
      assert (b + Emit(Utf8, rest))[|b|..] == Emit(Utf8, rest);
      Codes8Of(rest);
    }
  }

  lemma {:induction false} LeadOfCode(c: Code, rest: seq<byte>)
    requires c.ch < 0x20_0000
    ensures Lead(Emit(Utf8, [c]) + rest) == (|Emit(Utf8, [c])|, [c])
  {
    var u := Units(Utf8, c);
    StoreBytes(u);
    assert [c][1..] == [] && AllUnits(Utf8, [c]) == u + [] == u;
    assert Emit(Utf8, [c]) == u;
    LeadOfUnits(c, u, rest);
  }

  lemma {:induction false} StoreBytes(u: seq<nat>)
    requires UnitsFit(Utf8, u)
    ensures Store(Utf8, u) == u
    decreases |u|
  {
    if u != [] { StoreBytes(u[1..]); }
  }

  lemma LeadOfUnits(c: Code, b: seq<byte>, rest: seq<byte>)
    requires c.ch < 0x20_0000 && b == Units(Utf8, c)
    ensures Lead(b + rest) == (|b|, [c])
  {
    assert forall k :: 0 <= k < |b| ==> (b + rest)[k] == b[k];
    Sextets(c.ch);
  }

  lemma Sextets(ch: nat)
    ensures ch == ch / 0x40 * 0x40 + ch % 0x40
    ensures ch / 0x40 == ch / 0x1000 * 0x40 + ch / 0x40 % 0x40
    ensures ch / 0x1000 == ch / 0x4_0000 * 0x40 + ch / 0x1000 % 0x40
    ensures ch < 0x20_0000 ==> ch / 0x4_0000 % 0x10 == ch / 0x4_0000 < 8
    ensures ch < 0x1_0000 ==> ch / 0x1000 < 0x10
    ensures ch < 0x800 ==> ch / 0x40 < 0x20
  {
  }

  /** Saving and loading: a UTF-8 string comes back as it was if and only if it is
      well-formed and the encoding can hold its characters. */
  lemma {:induction false} ReloadKeepsText(e: Encoding, d: seq<byte>)
    ensures Load(e, Convert(e, d)) == d <==> e.Utf8? || (Emit(Utf8, Codes(d)) == d && AllFaithful(e, Codes(d)))
  {
    if !e.Utf8? {
      var codes := Codes(d);
      var back := CodesIn(e, Emit(e, codes));
      CodesReload(e, codes);
      Codes8Of(back);
      if Emit(Utf8, back) == d {
        assert codes == back;
      }
    }
  }

  /** What the parser writes for a character reference (utf8_writer::any) is a sequence
      for that character. */
  lemma ReferenceIsRead(ch: nat)
    requires ch < 0x20_0000
    ensures Codes(Unescape.Utf8(ch)) == [Code32(ch)]
  {
    assert Unescape.Utf8(ch) == Units(Utf8, Code32(ch));
    StoreBytes(Unescape.Utf8(ch));
    assert [Code32(ch)][1..] == [] && AllUnits(Utf8, [Code32(ch)]) == Unescape.Utf8(ch) + [] == Unescape.Utf8(ch);
    Codes8Of([Code32(ch)]);
  }
}
