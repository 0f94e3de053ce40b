/** What the bytes of each encoding are worth: UTF-8 by its digits (RFC 3629), UTF-16 by
    its words (RFC 2781), UTF-32 and Latin-1 by their units, in either byte order. */
module EncodingValues {
  import opened Bytes
  import opened Utf
  import opened Reloading

  // ---------------------------------------------------------------------
  // UTF-8.

  // One sequence of two, three or four bytes, by the leading bits of each.
  predicate Sequence8(d: seq<byte>) {
    && 2 <= |d| <= 4 && (forall k :: 1 <= k < |d| ==> d[k] / 0x40 == 2)
    && (|d| == 2 ==> d[0] / 0x20 == 6) && (|d| == 3 ==> d[0] / 0x10 == 14) && (|d| == 4 ==> d[0] / 8 == 30)
  }

  // The bits behind the leading ones, six to a byte.
  function Bits8(d: seq<byte>): (n: nat)
    requires 2 <= |d| <= 4
  {
    match |d|
    case 2 => 0x40 * (d[0] as int % 0x20) + d[1] % 0x40
    case 3 => 0x1000 * (d[0] as int % 0x10) + 0x40 * (d[1] as int % 0x40) + d[2] % 0x40
    case _ => 0x4_0000 * (d[0] as int % 8) + 0x1000 * (d[1] as int % 0x40) + 0x40 * (d[2] as int % 0x40) + d[3] % 0x40
  }

  /** A sequence stands for the number its bits spell, a byte below 128 for itself, and a
      stray byte for nothing. */
  lemma {:induction false} Utf8Value(d: seq<byte>)
    ensures Sequence8(d) ==> |Codes(d)| == 1 && Codes(d)[0].ch == Bits8(d) && (Codes(d)[0].High? <==> |d| == 4)
    ensures |d| == 1 ==> Codes(d) == if d[0] < 0x80 then [Low(d[0])] else []
  {
    if Sequence8(d) {
      SequenceIsLead(d);
      assert d[|d|..] == [] && Codes(d) == Lead(d).1 + Codes([]);
    } else if |d| == 1 {
      assert d[1..] == [] && Codes(d) == Lead(d).1 + Codes([]);
    }
  }

  lemma SequenceIsLead(d: seq<byte>)
    requires Sequence8(d)
    ensures Lead(d).0 == |d| && |Lead(d).1| == 1 && Lead(d).1[0].ch == Bits8(d) && (Lead(d).1[0].High? <==> |d| == 4)
  {
    assert forall k :: 1 <= k < |d| ==> Cont(d[k]) && d[k] % 0x40 == d[k] - 0x80;
    match |d|
    case 2 => assert d[0] % 0x20 == d[0] - 0xC0;
    case 3 => assert d[0] % 0x10 == d[0] - 0xE0;
    case _ => assert d[0] % 8 == d[0] - 0xF0;
  }

  // ---------------------------------------------------------------------
  // Words of two and of four bytes.

  // The most significant byte first if big, else last.
  function Word2(big: bool, b: seq<byte>, i: nat): (n: nat)
    requires i + 2 <= |b|
  {
    var x: int, y: int := b[i], b[i + 1];
    if big then 0x100 * x + y else 0x100 * y + x
  }

  function Word4(big: bool, b: seq<byte>, i: nat): (n: nat)
    requires i + 4 <= |b|
  {
    if big then 0x1_0000 * Word2(big, b, i) + Word2(big, b, i + 2) else 0x1_0000 * Word2(big, b, i + 2) + Word2(big, b, i)
  }

  lemma {:induction false} OneCode(e: Encoding, d: seq<byte>, c: Code)
    requires Codes(d) == [c] && !e.Utf8?
    ensures Convert(e, d) == Store(e, Units(e, c))
  {
    var codes: seq<Code> := [c];
    var u := Units(e, c);
    assert codes[1..] == [] && AllUnits(e, codes) == u + [] == u;
  }

  lemma StoreOne(e: Encoding, u: nat)
    requires u < Limit(e)
    ensures Store(e, [u]) == UnitBytes(e, u)
  {
    assert [u][1..] == [] && UnitBytes(e, u) + [] == UnitBytes(e, u);
  }

  lemma StoreTwo(e: Encoding, u: nat, v: nat)
    requires u < Limit(e) && v < Limit(e)
    ensures Store(e, [u, v]) == UnitBytes(e, u) + UnitBytes(e, v)
  {
    assert [u, v][1..] == [v];
    StoreOne(e, v);
  }

  lemma UnitValue(e: Encoding, u: nat)
    requires u < Limit(e)
    ensures e.Utf16? ==> Word2(e.big, UnitBytes(e, u), 0) == u
    ensures e.Utf32? ==> Word4(e.big, UnitBytes(e, u), 0) == u
  {
    if e.Utf32? { FourDigits(u); }
  }

  lemma FourDigits(u: nat)
    requires u < WORD
    ensures 0x1_0000 * (0x100 * (u / 0x100_0000) + u / 0x1_0000 % 0x100) + (0x100 * (u / 0x100 % 0x100) + u % 0x100) == u
  {
    var v, w := u / 0x1_0000, u % 0x1_0000;
    assert v / 0x100 == u / 0x100_0000 && v == 0x100 * (v / 0x100) + v % 0x100;
    assert w / 0x100 == u / 0x100 % 0x100 && w % 0x100 == u % 0x100 && w == 0x100 * (w / 0x100) + w % 0x100;
  }

  /** UTF-16: up to U+FFFF one word, which is the code; above, a high and a low surrogate that
      combine to it. */
  lemma {:induction false} Utf16Value(big: bool, d: seq<byte>, c: Code)
    requires Codes(d) == [c]
    ensures var b := Convert(Utf16(big), d);
      && (c.Low? ==> |b| == 2 && Word2(big, b, 0) == c.ch)
      && (c.High? && 0x1_0000 <= c.ch < 0x11_0000 ==>
           |b| == 4 && 0xD800 <= Word2(big, b, 0) < 0xDC00 && 0xDC00 <= Word2(big, b, 2) < 0xE000
           && 0x1_0000 + 0x400 * (Word2(big, b, 0) - 0xD800) + (Word2(big, b, 2) - 0xDC00) == c.ch)
  {
    if c.Low? { OneWord(big, d, c); } else if 0x1_0000 <= c.ch < 0x11_0000 { TwoWords(big, d, c); }
  }

  lemma {:induction false} OneWord(big: bool, d: seq<byte>, c: Code)
    requires Codes(d) == [c] && c.Low?
    ensures |Convert(Utf16(big), d)| == 2 && Word2(big, Convert(Utf16(big), d), 0) == c.ch
  {
    OneCode(Utf16(big), d, c);
    StoreOne(Utf16(big), c.ch);
    UnitValue(Utf16(big), c.ch);
  }

  lemma {:induction false} TwoWords(big: bool, d: seq<byte>, c: Code)
    requires Codes(d) == [c] && c.High? && 0x1_0000 <= c.ch < 0x11_0000
    ensures var b, v := Convert(Utf16(big), d), c.ch - 0x1_0000;
            |b| == 4 && Word2(big, b, 0) == 0xD800 + v / 0x400 && Word2(big, b, 2) == 0xDC00 + v % 0x400
  {
    var e, v := Utf16(big), c.ch - 0x1_0000;
    OneCode(e, d, c);
    Surrogates(big, c);
    TwoStored(big, 0xD800 + v / 0x400, 0xDC00 + v % 0x400);
  }

  lemma Surrogates(big: bool, c: Code)
    requires c.High? && 0x1_0000 <= c.ch < 0x11_0000
    ensures var v := c.ch - 0x1_0000; Units(Utf16(big), c) == [0xD800 + v / 0x400, 0xDC00 + v % 0x400] && v / 0x400 < 0x400
  {
  }

  lemma TwoStored(big: bool, u: nat, v: nat)
    requires u < 0x1_0000 && v < 0x1_0000
    ensures var b := Store(Utf16(big), [u, v]); |b| == 4 && Word2(big, b, 0) == u && Word2(big, b, 2) == v
  {
    StoreTwo(Utf16(big), u, v);
    UnitValue(Utf16(big), u);
    UnitValue(Utf16(big), v);
  }

  /** UTF-32: every code is four bytes, which are worth it; of any text. */
  lemma {:induction false} Utf32Value(big: bool, d: seq<byte>, k: nat)
    requires k < |Codes(d)|
    ensures |Convert(Utf32(big), d)| == 4 * |Codes(d)| && Word4(big, Convert(Utf32(big), d), 4 * k) == Codes(d)[k].ch
  {
    Stored32(big, Codes(d), k);
  }

  lemma {:induction false} Stored32(big: bool, codes: seq<Code>, k: nat)
    requires k < |codes|
    ensures var b := Emit(Utf32(big), codes); |b| == 4 * |codes| && Word4(big, b, 4 * k) == codes[k].ch
    decreases |codes|
  {
    var e := Utf32(big);
    var rest := codes[1..];
    var x, y := UnitBytes(e, codes[0].ch), Emit(e, rest);
    assert AllUnits(e, codes) == [codes[0].ch] + AllUnits(e, rest);
    assert AllUnits(e, codes)[1..] == AllUnits(e, rest);
    assert Emit(e, codes) == x + y;
    if k == 0 {
      UnitValue(e, codes[0].ch);
      if rest != [] { Stored32(big, rest, 0); } else { assert y == []; }
    } else {
      Stored32(big, rest, k - 1);
      Behind4(big, x, y, 4 * (k - 1));
    }
  }

  lemma Behind4(big: bool, x: seq<byte>, y: seq<byte>, i: nat)
    requires |x| == 4 && i + 4 <= |y|
    ensures Word4(big, x + y, 4 + i) == Word4(big, y, i)
  {
  }

  /** Latin-1: the code itself, or a question mark. */
  lemma {:induction false} Latin1Value(d: seq<byte>, c: Code)
    requires Codes(d) == [c]
    ensures Convert(Latin1, d) == if c.Low? && c.ch < 0x100 then [c.ch] else ['?' as int]
  {
    OneCode(Latin1, d, c);
    StoreOne(Latin1, if c.Low? && c.ch <= 255 then c.ch else 63);
  }

  // ---------------------------------------------------------------------
  // The two byte orders.

  // The bytes of each unit the other way round.
  function Swapped(n: nat, b: seq<byte>): (s: seq<byte>)
    requires n == 2 || n == 4
    ensures |s| <= |b|
    decreases |b|
  {
    if |b| < n then []
    else (if n == 2 then [b[1], b[0]] else [b[3], b[2], b[1], b[0]]) + Swapped(n, b[n..])
  }

  lemma {:induction false} StoredSwapped(e: Encoding, f: Encoding, u: seq<nat>)
    requires (e == Utf16(true) && f == Utf16(false)) || (e == Utf32(true) && f == Utf32(false))
    requires UnitsFit(e, u)
    ensures Store(f, u) == Swapped(Width(e), Store(e, u))
    decreases |u|
  {
    if u != [] {
      StoredSwapped(e, f, u[1..]);
      var x, y := UnitBytes(e, u[0]), Store(e, u[1..]);
      assert Store(e, u) == x + y && (x + y)[Width(e)..] == y;
    }
  }

  /** Little-endian output is big-endian output with the bytes of each unit exchanged. */
  lemma {:induction false} LittleIsSwapped(d: seq<byte>)
    ensures Convert(Utf16(false), d) == Swapped(2, Convert(Utf16(true), d))
    ensures Convert(Utf32(false), d) == Swapped(4, Convert(Utf32(true), d))
  {
    var c := Codes(d);
    SameUnits(c);
    StoredSwapped(Utf16(true), Utf16(false), AllUnits(Utf16(true), c));
    StoredSwapped(Utf32(true), Utf32(false), AllUnits(Utf32(true), c));
  }

  lemma {:induction false} SameUnits(c: seq<Code>)
    ensures AllUnits(Utf16(false), c) == AllUnits(Utf16(true), c) && AllUnits(Utf32(false), c) == AllUnits(Utf32(true), c)
    decreases |c|
  {
    if c != [] { SameUnits(c[1..]); }
  }

  // ---------------------------------------------------------------------
  // Input.

  /** Reading UTF-16: a word that is no surrogate is its code, a high and a low surrogate are
      one code above U+FFFF, half a pair is nothing. */
  lemma {:induction false} Utf16Read(big: bool, b: seq<byte>)
    ensures |b| == 2 ==> var w := Word2(big, b, 0); CodesIn(Utf16(big), b) == if 0xD800 <= w < 0xE000 then [] else [Low(w)]
    ensures |b| == 4 && 0xD800 <= Word2(big, b, 0) < 0xDC00 && 0xDC00 <= Word2(big, b, 2) < 0xE000 ==>
      CodesIn(Utf16(big), b) == [High(0x1_0000 + 0x400 * (Word2(big, b, 0) - 0xD800) + (Word2(big, b, 2) - 0xDC00))]
  {
    var e := Utf16(big);
    if |b| == 2 {
      var u: seq<nat> := [Word2(big, b, 0)];
      assert b[2..] == [] && ReadUnits(e, b) == u + [] == u;
      assert u[1..] == [] && Codes16(u) == Lead16(u).1 + Codes16([]);
    } else if |b| == 4 {
      var u: seq<nat>, rest := [Word2(big, b, 0), Word2(big, b, 2)], b[2..];
      assert rest[2..] == [] && ReadUnits(e, rest) == [Word2(big, b, 2)] + [];
      assert ReadUnits(e, b) == [Word2(big, b, 0)] + ReadUnits(e, rest) == u;
      assert u[2..] == [] && Codes16(u) == Lead16(u).1 + Codes16(u[Lead16(u).0..]);
    }
  }

  /** Reading UTF-32, of any text: each four bytes are the code they are worth. */
  lemma {:induction false} Utf32Read(big: bool, b: seq<byte>, k: nat)
    requires 4 * k + 4 <= |b|
    ensures k < |CodesIn(Utf32(big), b)| == |b| / 4 && CodesIn(Utf32(big), b)[k].ch == Word4(big, b, 4 * k)
  {
    Read32(big, b, k);
  }

  lemma {:induction false} Read32(big: bool, b: seq<byte>, k: nat)
    requires 4 * k + 4 <= |b|
    ensures k < |ReadUnits(Utf32(big), b)| == |b| / 4 && ReadUnits(Utf32(big), b)[k] == Word4(big, b, 4 * k)
    decreases |b|
  {
    var e, rest := Utf32(big), b[4..];
    assert ReadUnits(e, b) == [ReadUnit(e, b)] + ReadUnits(e, rest);
    if k == 0 {
      if 4 <= |rest| { Read32(big, rest, 0); } else { assert ReadUnits(e, rest) == []; }
    } else {
      Read32(big, rest, k - 1);
      assert b == b[..4] + rest;
      Behind4(big, b[..4], rest, 4 * (k - 1));
    }
  }

  /** Reading one byte order is reading the other with the bytes of each unit exchanged. */
  lemma {:induction false} ReadSwapped(b: seq<byte>)
    ensures CodesIn(Utf16(false), Swapped(2, b)) == CodesIn(Utf16(true), b)
    ensures CodesIn(Utf32(false), Swapped(4, b)) == CodesIn(Utf32(true), b)
  {
    UnitsSwapped(Utf16(true), Utf16(false), b);
    UnitsSwapped(Utf32(true), Utf32(false), b);
  }

  lemma {:induction false} UnitsSwapped(e: Encoding, f: Encoding, b: seq<byte>)
    requires (e == Utf16(true) && f == Utf16(false)) || (e == Utf32(true) && f == Utf32(false))
    ensures ReadUnits(f, Swapped(Width(e), b)) == ReadUnits(e, b)
    decreases |b|
  {
    var n := Width(e);
    if n <= |b| {
      UnitsSwapped(e, f, b[n..]);
      var s := Swapped(n, b);
      assert s[n..] == Swapped(n, b[n..]);
    }
  }
}
