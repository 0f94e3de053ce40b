/** Character encodings of pugixml.cpp (utf8_decoder, utf16_decoder, the unit
    writers, get_valid_length) as functions: what text means, what writing it in
    another encoding gives, and where it may be cut. */
module Utf {
  import opened Bytes

  const WORD := 0x1_0000_0000

  // What a decoder hands to its Traits: low up to U+FFFF, high above.  Overlong
  // sequences can make a high code of a small number.
  datatype AnyCode = Low(ch: nat) | High(ch: nat)

  type Code = c: AnyCode | c.ch < (if c.Low? then 0x1_0000 else WORD) witness Low(0)

  predicate Cont(b: byte) {
    0x80 <= b < 0xC0
  }

  function Tail(b: byte): (n: nat)
    requires Cont(b)
    ensures n < 0x40
  {
    b - 0x80
  }

  // ---------------------------------------------------------------------
  // UTF-8.

  // The sequence at the front: its length and the code it stands for; a byte that
  // starts no sequence stands for nothing.
  function Lead(d: seq<byte>): (r: (nat, seq<Code>))
    requires d != []
    ensures 1 <= r.0 <= 4 && r.0 <= |d| && |r.1| <= 1 && (1 < r.0 ==> |r.1| == 1 && !Cont(d[0]))
    ensures forall k :: 1 <= k < r.0 ==> Cont(d[k])
    ensures r.1 != [] ==> r.1[0].ch < 0x20_0000
  {
    var lead: int := d[0];
    if lead < 0x80 then (1, [Low(lead)])
    else if 0xC0 <= lead < 0xE0 && 2 <= |d| && Cont(d[1]) then
      (2, [Low((lead - 0xC0) * 0x40 + Tail(d[1]))])
    else if 0xE0 <= lead < 0xF0 && 3 <= |d| && Cont(d[1]) && Cont(d[2]) then
      (3, [Low((lead - 0xE0) * 0x1000 + Tail(d[1]) * 0x40 + Tail(d[2]))])
    else if 0xF0 <= lead < 0xF8 && 4 <= |d| && Cont(d[1]) && Cont(d[2]) && Cont(d[3]) then
      (4, [High((lead - 0xF0) * 0x4_0000 + Tail(d[1]) * 0x1000 + Tail(d[2]) * 0x40 + Tail(d[3]))])
    else (1, [])
  }

  function Codes(d: seq<byte>): (r: seq<Code>)
    ensures |r| <= |d| && forall i :: 0 <= i < |r| ==> r[i].ch < 0x20_0000
  {
    if d == [] then [] else Lead(d).1 + Codes(d[Lead(d).0..])
  }

  // A sequence of x + y that begins in x and ends in y.
  predicate Straddles(x: seq<byte>, y: seq<byte>)
    decreases |x|
  {
    x != [] && (Lead(x + y).0 > |x| || Straddles(x[Lead(x + y).0..], y))
  }

  lemma LeadOfPrefix(x: seq<byte>, y: seq<byte>)
    requires x != [] && Lead(x + y).0 <= |x|
    ensures Lead(x) == Lead(x + y)
  {
  }

  lemma {:induction false} ContsVanish(z: seq<byte>, y: seq<byte>)
    requires forall k :: 0 <= k < |z| ==> Cont(z[k])
    ensures Codes(z + y) == Codes(y)
    decreases |z|
  {
    if z == [] {
      assert z + y == y;
    } else {
      assert (z + y)[1..] == z[1..] + y;
      ContsVanish(z[1..], y);
    }
  }

  /** Converting two pieces one after the other is converting the whole, unless a
      sequence was cut in two: then its character is lost. */
  lemma {:induction false} SplitCodes(x: seq<byte>, y: seq<byte>)
    ensures !Straddles(x, y) ==> Codes(x + y) == Codes(x) + Codes(y)
    ensures Straddles(x, y) ==> |Codes(x + y)| == |Codes(x)| + |Codes(y)| + 1
    decreases |x|
  {
    if x == [] {
      assert x + y == y;
    } else {
      var n, c := Lead(x + y).0, Lead(x + y).1;
      if n > |x| {
        StraddlingLead(x, y, n, c);
      } else {
        SplitStep(x, y, n, c);
        SplitCodes(x[n..], y);
        SumAssociates(c, Codes(x[n..]), Codes(y));
      }
    }
  }

  lemma SumAssociates<T>(a: seq<T>, b: seq<T>, c: seq<T>)
    ensures a + (b + c) == (a + b) + c
  {
  }

  lemma {:induction false} SplitStep(x: seq<byte>, y: seq<byte>, n: nat, c: seq<Code>)
    requires x != [] && Lead(x + y) == (n, c) && n <= |x|
    ensures Codes(x + y) == c + Codes(x[n..] + y) && Codes(x) == c + Codes(x[n..])
    ensures Lead(x) == (n, c) && (Straddles(x, y) <==> Straddles(x[n..], y))
  {
    LeadOfPrefix(x, y);
    assert (x + y)[n..] == x[n..] + y;
  }

  lemma {:induction false} StraddlingLead(x: seq<byte>, y: seq<byte>, n: nat, c: seq<Code>)
    requires x != [] && Lead(x + y) == (n, c) && n > |x|
    ensures |c| == 1 && Codes(x) == [] && Codes(x + y) == c + Codes(y)
  {
    HalfSequence(x, y, n);
    RestOfHalf(x + y, x, y, n, c);
  }

  lemma {:induction false} RestOfHalf(d: seq<byte>, x: seq<byte>, y: seq<byte>, n: nat, c: seq<Code>)
    requires x != [] && d == x + y && Lead(d) == (n, c) && n > |x|
    ensures Codes(d) == c + Codes(y)
  {
    var z, rest := y[..n - |x|], y[n - |x|..];
    assert forall k :: 0 <= k < |z| ==> z[k] == d[|x| + k];
    ContsVanish(z, rest);
    assert z + rest == y && d[n..] == rest;
  }

  lemma {:induction false} HalfSequence(x: seq<byte>, y: seq<byte>, n: nat)
    requires x != [] && Lead(x + y).0 == n && n > |x|
    ensures Codes(x) == []
  {
    CutLead(x, y, n);
    ContsVanish(x[1..], []);
    assert x[1..] + [] == x[1..];
  }

  lemma CutLead(x: seq<byte>, y: seq<byte>, n: nat)
    requires x != [] && Lead(x + y).0 == n && n > |x|
    ensures Lead(x) == (1, []) && forall k :: 1 <= k < |x| ==> Cont(x[k])
  {
    var d := x + y;
    assert forall k :: 0 <= k < |x| ==> x[k] == d[k];
  }

  lemma StraddleEnds(x: seq<byte>, y: seq<byte>)
    requires x != [] && Lead(x + y).0 > |x|
    ensures |x| <= 3 && !Cont(x[0]) && y != [] && Cont(y[0])
  {
    var d := x + y;
    assert d[0] == x[0];
    assert d[|x|] == y[0];
  }

  lemma {:induction false} NotBeforeLead(x: seq<byte>, y: seq<byte>)
    requires y == [] || !Cont(y[0])
    ensures !Straddles(x, y)
    decreases |x|
  {
    if x != [] {
      var n := Lead(x + y).0;
      if n > |x| { StraddleEnds(x, y); } else { NotBeforeLead(x[n..], y); }
    }
  }

  // The last three bytes continue a sequence, which then cannot go on.
  predicate Broken(x: seq<byte>) {
    forall k :: 0 <= k < |x| && |x| - 3 <= k ==> Cont(x[k])
  }

  lemma {:induction false} NotBehindTail(x: seq<byte>, y: seq<byte>)
    requires Broken(x)
    ensures !Straddles(x, y)
    decreases |x|
  {
    if x != [] {
      var n := Lead(x + y).0;
      if n > |x| {
        StraddleEnds(x, y);
      } else {
        assert forall k :: 0 <= k < |x[n..]| ==> x[n..][k] == x[n + k];
        NotBehindTail(x[n..], y);
      }
    }
  }

  // ---------------------------------------------------------------------
  // Encodings.  The native byte order is little-endian.

  datatype Encoding = Utf8 | Utf16(big: bool) | Utf32(big: bool) | Latin1

  function Units(e: Encoding, c: Code): (u: seq<nat>)
    ensures 1 <= |u| <= 4 && forall k :: 0 <= k < |u| ==> u[k] < Limit(e)
  {
    match e
    case Utf8 =>
      if c.High? then [0xF0 + c.ch / 0x4_0000 % 0x10, 0x80 + c.ch / 0x1000 % 0x40, 0x80 + c.ch / 0x40 % 0x40, 0x80 + c.ch % 0x40]
      else if c.ch < 0x80 then [c.ch]
      else if c.ch < 0x800 then [0xC0 + c.ch / 0x40, 0x80 + c.ch % 0x40]
      else [0xE0 + c.ch / 0x1000, 0x80 + c.ch / 0x40 % 0x40, 0x80 + c.ch % 0x40]
    case Utf16(_) =>
      if c.Low? then [c.ch]
      else var v := (c.ch - 0x1_0000) % WORD; [(0xD800 + v / 0x400) % 0x1_0000, 0xDC00 + v % 0x400]
    case Utf32(_) => [c.ch]
    case Latin1 => [if c.Low? && c.ch <= 255 then c.ch else 63]
  }

  function Limit(e: Encoding): nat {
    match e
    case Utf16(_) => 0x1_0000
    case Utf32(_) => WORD
    case _ => 0x100
  }

  // A unit in memory.
  function UnitBytes(e: Encoding, u: nat): (b: seq<byte>)
    requires u < Limit(e)
    ensures |b| == Width(e)
  {
    match e
    case Utf16(big) => if big then [u / 0x100, u % 0x100] else [u % 0x100, u / 0x100]
    case Utf32(big) =>
      if big then [u / 0x100_0000, u / 0x1_0000 % 0x100, u / 0x100 % 0x100, u % 0x100]
      else [u % 0x100, u / 0x100 % 0x100, u / 0x1_0000 % 0x100, u / 0x100_0000]
    case _ => [u]
  }

  function Width(e: Encoding): nat {
    match e
    case Utf16(_) => 2
    case Utf32(_) => 4
    case _ => 1
  }

  ghost predicate UnitsFit(e: Encoding, u: seq<nat>) {
    forall k :: 0 <= k < |u| ==> u[k] < Limit(e)
  }

  function AllUnits(e: Encoding, codes: seq<Code>): (u: seq<nat>)
    ensures UnitsFit(e, u) && |codes| <= |u|
  {
    if codes == [] then [] else Units(e, codes[0]) + AllUnits(e, codes[1..])
  }

  function Store(e: Encoding, u: seq<nat>): (b: seq<byte>)
    requires UnitsFit(e, u)
    ensures |b| == Width(e) * |u|
  {
    if u == [] then [] else UnitBytes(e, u[0]) + Store(e, u[1..])
  }

  function Emit(e: Encoding, codes: seq<Code>): (b: seq<byte>) {
    Store(e, AllUnits(e, codes))
  }

  // What a UTF-8 string is in another encoding (convert_buffer_output; UTF-8 itself
  // is written as it is).
  function Convert(e: Encoding, d: seq<byte>): (b: seq<byte>) {
    if e.Utf8? then d else Emit(e, Codes(d))
  }

  lemma {:induction false} AllUnitsSum(e: Encoding, a: seq<Code>, b: seq<Code>)
    ensures AllUnits(e, a + b) == AllUnits(e, a) + AllUnits(e, b)
    decreases |a|
  {
    if a == [] {
      assert a + b == b;
    } else {
      assert (a + b)[1..] == a[1..] + b;
      AllUnitsSum(e, a[1..], b);
    }
  }

  lemma {:induction false} StoreSum(e: Encoding, u: seq<nat>, v: seq<nat>)
    requires UnitsFit(e, u) && UnitsFit(e, v)
    ensures UnitsFit(e, u + v) && Store(e, u + v) == Store(e, u) + Store(e, v)
    decreases |u|
  {
    if u == [] {
      assert u + v == v;
    } else {
      assert (u + v)[1..] == u[1..] + v;
      StoreSum(e, u[1..], v);
    }
  }

  lemma {:induction false} EmitSum(e: Encoding, a: seq<Code>, b: seq<Code>)
    ensures Emit(e, a + b) == Emit(e, a) + Emit(e, b)
  {
    AllUnitsSum(e, a, b);
    StoreSum(e, AllUnits(e, a), AllUnits(e, b));
  }

  // How many bytes a code needs: never more than four times those it was read from.
  lemma {:induction false} ConvertFits(e: Encoding, d: seq<byte>)
    ensures |Convert(e, d)| <= 4 * |d|
    decreases |d|
  {
    if d != [] && !e.Utf8? {
      var n, rest := Lead(d).0, d[Lead(d).0..];
      ConvertFits(e, rest);
      EmitSum(e, Lead(d).1, Codes(rest));
      OneFits(e, d);
    }
  }

  lemma {:induction false} OneFits(e: Encoding, d: seq<byte>)
    requires d != [] && !e.Utf8?
    ensures |Emit(e, Lead(d).1)| <= 4 * Lead(d).0
  {
    var c := Lead(d).1;
    if c != [] { assert c[1..] == [] && AllUnits(e, c) == Units(e, c[0]) + []; }
  }

  /** Where a string may be cut for conversion. */
  lemma {:induction false} ConvertCut(e: Encoding, x: seq<byte>, y: seq<byte>)
    ensures Convert(e, x + y) == Convert(e, x) + Convert(e, y) <==> e.Utf8? || !Straddles(x, y)
  {
    if !e.Utf8? {
      SplitCodes(x, y);
      EmitSum(e, Codes(x), Codes(y));
      if Straddles(x, y) { LostCharacter(e, x, y); }
    }
  }

  lemma {:induction false} LostCharacter(e: Encoding, x: seq<byte>, y: seq<byte>)
    requires Straddles(x, y)
    ensures |Emit(e, Codes(x + y))| > |Emit(e, Codes(x))| + |Emit(e, Codes(y))|
    decreases |x|
  {
    var n, c := Lead(x + y).0, Lead(x + y).1;
    if n > |x| {
      StraddlingLead(x, y, n, c);
      EmitSum(e, c, Codes(y));
      EmitSome(e, c);
    } else {
      SplitStep(x, y, n, c);
      LostCharacter(e, x[n..], y);
      EmitSum(e, c, Codes(x[n..] + y));
      EmitSum(e, c, Codes(x[n..]));
    }
  }

  lemma {:induction false} EmitSome(e: Encoding, codes: seq<Code>)
    requires codes != []
    ensures |Emit(e, codes)| >= 1
  {
    var u := AllUnits(e, codes);
    assert 1 <= |u| && |Store(e, u)| == Width(e) * |u|;
  }

  // get_valid_length
  function ValidLength(d: seq<byte>): (v: nat)
    ensures v <= |d| && (5 <= |d| ==> 1 <= v)
  {
    if |d| < 5 then 0
    else if !Cont(d[|d| - 1]) then |d| - 1
    else if !Cont(d[|d| - 2]) then |d| - 2
    else if !Cont(d[|d| - 3]) then |d| - 3
    else if !Cont(d[|d| - 4]) then |d| - 4
    else |d|
  }

  // A place to cut: nothing in front, the start of a sequence behind, or three bytes
  // in front that continue one.
  predicate CutOk(x: seq<byte>, y: seq<byte>) {
    y == [] || !Cont(y[0]) || Broken(x)
  }

  lemma {:induction false} CutOkIsClean(x: seq<byte>, y: seq<byte>)
    requires CutOk(x, y)
    ensures !Straddles(x, y)
  {
    if Broken(x) { NotBehindTail(x, y); } else { NotBeforeLead(x, y); }
  }

  /** Where get_valid_length cuts no sequence is split, whatever stands in front of the
      data and whatever follows. */
  lemma {:induction false} ValidLengthCuts(x: seq<byte>, d: seq<byte>, more: seq<byte>)
    requires 0 < ValidLength(d)
    ensures CutOk(x + d[..ValidLength(d)], d[ValidLength(d)..] + more)
    ensures !Straddles(x + d[..ValidLength(d)], d[ValidLength(d)..] + more)
  {
    var v := ValidLength(d);
    if v == |d| {
      var z := x + d[..v];
      forall k | 0 <= k < |z| && |z| - 3 <= k ensures Cont(z[k]) { assert z[k] == d[k - |x|]; }
    } else {
      assert (d[v..] + more)[0] == d[v];
    }
    CutOkIsClean(x + d[..v], d[v..] + more);
  }
}
