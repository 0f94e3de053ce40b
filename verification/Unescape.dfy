/** What the text conversions of pugixml.cpp compute (strconv_pcdata,
    strconv_attribute, text_output_escaped), as functions on strings, and that
    decoding undoes escaping. */
module Unescape {
  import opened Bytes
  import opened Options

  // Which conversions apply up to which delimiter.  parse_wconv turns white space
  // characters into spaces, parse_wnorm whole runs of them into one.
  datatype Mode = Mode(stop: byte, eol: bool, wconv: bool, wnorm: bool, escape: bool)

  // The byte at a position; reading ends at a NUL.
  function ByteAt(b: seq<byte>, i: nat): byte {
    if i < |b| then b[i] else NUL
  }

  // ---------------------------------------------------------------------
  // Character references (XML 1.0 section 4.1) and predefined entities (4.6).

  function DigitValue(c: byte, hex: bool): (d: int)
    ensures -1 <= d < 16
  {
    if 48 <= c <= 57 then c - 48
    else if hex && 97 <= c <= 102 then c - 97 + 10
    else if hex && 65 <= c <= 70 then c - 65 + 10
    else -1
  }

  const WORD := 0x1_0000_0000

  // Digits from position j: where they end and their value in 32 bits.
  function ScanNumber(b: seq<byte>, j: nat, hex: bool, acc: nat): (r: (nat, nat))
    ensures j <= r.0 && (j <= |b| ==> r.0 <= |b|)
    ensures acc < WORD ==> r.1 < WORD
    ensures forall k :: j <= k < r.0 ==> k < |b| && DigitValue(b[k], hex) >= 0
    decreases |b| - j
  {
    if j < |b| && DigitValue(b[j], hex) >= 0
    then ScanNumber(b, j + 1, hex, ((if hex then 16 else 10) * acc + DigitValue(b[j], hex)) % WORD)
    else (j, acc)
  }

  // utf8_writer::any
  function Utf8(ch: nat): (s: seq<byte>)
    requires ch < WORD
    ensures 1 <= |s| <= 4
  {
    if ch < 0x80 then [ch]
    else if ch < 0x800 then [0xC0 + ch / 0x40, 0x80 + ch % 0x40]
    else if ch < 0x1_0000 then [0xE0 + ch / 0x1000, 0x80 + ch / 0x40 % 0x40, 0x80 + ch % 0x40]
    else [0xF0 + ch / 0x4_0000 % 0x10, 0x80 + ch / 0x1000 % 0x40, 0x80 + ch / 0x40 % 0x40, 0x80 + ch % 0x40]
  }

  const AMP_NAME: seq<byte> := [38, 97, 109, 112, 59]         // &amp;
  const APOS_NAME: seq<byte> := [38, 97, 112, 111, 115, 59]   // &apos;
  const GT_NAME: seq<byte> := [38, 103, 116, 59]              // &gt;
  const LT_NAME: seq<byte> := [38, 108, 116, 59]              // &lt;
  const QUOT_NAME: seq<byte> := [38, 113, 117, 111, 116, 59]  // &quot;

  predicate Lit(b: seq<byte>, i: nat, name: seq<byte>) {
    i + |name| <= |b| && forall j :: 0 <= j < |name| ==> b[i + j] == name[j]
  }

  // The first digit of a reference at position i.
  function DigitsAt(b: seq<byte>, i: nat): nat {
    if ByteAt(b, i + 2) == 120 then i + 3 else i + 2
  }

  function Numeric(b: seq<byte>, i: nat): (r: Option<(nat, seq<byte>)>)
    requires i < |b|
    ensures r.Some? ==> 4 <= r.value.0 && i + r.value.0 <= |b| && 1 <= |r.value.1| <= 4
  {
    var j := DigitsAt(b, i);
    var (end, v) := ScanNumber(b, j, ByteAt(b, i + 2) == 120, 0);
    if j < end && ByteAt(b, end) == SEMI then Some((end + 1 - i, Utf8(v))) else None
  }

  function Named(b: seq<byte>, i: nat): (r: Option<(nat, seq<byte>)>)
    requires i < |b|
    ensures r.Some? ==> 4 <= r.value.0 && i + r.value.0 <= |b| && |r.value.1| == 1
  {
    if Lit(b, i, AMP_NAME) then Some((5, [AMP]))
    else if Lit(b, i, APOS_NAME) then Some((6, [APOS]))
    else if Lit(b, i, GT_NAME) then Some((4, [GT]))
    else if Lit(b, i, LT_NAME) then Some((4, [LT]))
    else if Lit(b, i, QUOT_NAME) then Some((6, [QUOT]))
    else None
  }

  // The reference at position i, if there is one: its length and what it stands for.
  function Reference(b: seq<byte>, i: nat): (r: Option<(nat, seq<byte>)>)
    requires i < |b|
    ensures r.Some? ==> 4 <= r.value.0 && i + r.value.0 <= |b| && 1 <= |r.value.1| <= 4
  {
    if ByteAt(b, i + 1) == HASH then Numeric(b, i) else Named(b, i)
  }

  // ---------------------------------------------------------------------
  // Decoding.

  predicate Stops(m: Mode, b: seq<byte>, i: nat) {
    i >= |b| || b[i] == m.stop || b[i] == NUL
  }

  // The length of the white space at position i.
  function SpaceRun(b: seq<byte>, i: nat): (n: nat)
    ensures i <= |b| ==> i + n <= |b|
    ensures forall k :: i <= k < i + n ==> k < |b| && IsSpace(b[k])
    ensures i + n < |b| ==> !IsSpace(b[i + n])
    decreases |b| - i
  {
    if i < |b| && IsSpace(b[i]) then 1 + SpaceRun(b, i + 1) else 0
  }

  // One character, line end, run of white space or reference: how much is read and what it becomes
  // (XML 1.0 sections 2.11 and 3.3.3).
  function Token(m: Mode, b: seq<byte>, i: nat): (r: (nat, seq<byte>))
    requires i < |b|
    ensures 1 <= r.0 && i + r.0 <= |b| && 1 <= |r.1| <= r.0
  {
    if m.wnorm && IsSpace(b[i]) then (SpaceRun(b, i), [SPACE])
    else if (m.eol || m.wconv) && b[i] == CR then (if ByteAt(b, i + 1) == LF then 2 else 1, [if m.wconv then SPACE else LF])
    else if m.wconv && IsSpace(b[i]) then (1, [SPACE])
    else if m.escape && b[i] == AMP && Reference(b, i).Some? then Reference(b, i).value
    else (1, [b[i]])
  }

  function Decode(m: Mode, b: seq<byte>, i: nat): (text: seq<byte>)
    decreases |b| - i
  {
    if Stops(m, b, i) then [] else Token(m, b, i).1 + Decode(m, b, i + Token(m, b, i).0)
  }

  // Where decoding ends.
  function DecodeEnd(m: Mode, b: seq<byte>, i: nat): (end: nat)
    ensures i <= end && (i <= |b| ==> end <= |b|) && Stops(m, b, end)
    ensures !Stops(m, b, i) ==> i < end
    decreases |b| - i
  {
    if Stops(m, b, i) then i else DecodeEnd(m, b, i + Token(m, b, i).0)
  }

  // Without trailing white space.
  function TrimEnd(s: seq<byte>): (t: seq<byte>)
    ensures |t| <= |s| && t == s[..|t|]
    ensures t != [] ==> !IsSpace(t[|t| - 1])
    ensures forall k :: |t| <= k < |s| ==> IsSpace(s[k])
  {
    if s != [] && IsSpace(s[|s| - 1]) then TrimEnd(s[..|s| - 1]) else s
  }

  // ---------------------------------------------------------------------
  // Escaping (text_output_escaped).

  datatype Kind = Pcdata | Attribute

  // ctx_special_pcdata and ctx_special_attr
  predicate Special(k: Kind, c: byte) {
    || c == AMP || c == LT || c == GT
    || (c < 32 && c != TAB && (k == Pcdata ==> c != LF && c != CR))
    || (k == Attribute && c == QUOT)
  }

  function EscapeByte(k: Kind, c: byte): (s: seq<byte>)
    ensures 1 <= |s|
  {
    if !Special(k, c) then [c]
    else if c == AMP then AMP_NAME
    else if c == LT then LT_NAME
    else if c == GT then GT_NAME
    else if c == QUOT then QUOT_NAME
    else [AMP, HASH, c / 10 + 48, c % 10 + 48, SEMI]
  }

  function Escape(k: Kind, s: seq<byte>): (t: seq<byte>)
    ensures |s| <= |t|
  {
    if s == [] then [] else EscapeByte(k, s[0]) + Escape(k, s[1..])
  }

  predicate NulFree(s: seq<byte>) {
    forall i :: 0 <= i < |s| ==> s[i] != NUL
  }

  // What a decoder that reads what the printer wrote has to be set to.
  function ReadBack(k: Kind, wconv: bool): Mode {
    Mode(if k == Pcdata then LT else QUOT, !wconv, wconv, false, true)
  }

  // Characters that come back as themselves: not escaped and not converted.
  predicate Survives(k: Kind, wconv: bool, c: byte) {
    Special(k, c) || !((c == CR) || (wconv && IsSpace(c) && c != SPACE))
  }

  lemma LitAt(b: seq<byte>, i: nat, name: seq<byte>, j: nat)
    requires Lit(b, i, name) && j < |name|
    ensures b[i + j] == name[j]
  {
  }

  lemma ReferenceEnds(b: seq<byte>, i: nat)
    requires i < |b| && Reference(b, i).Some?
    ensures b[i + Reference(b, i).value.0 - 1] == SEMI
  {
    if Lit(b, i, AMP_NAME) { LitAt(b, i, AMP_NAME, 4); }
    if Lit(b, i, APOS_NAME) { LitAt(b, i, APOS_NAME, 5); }
    if Lit(b, i, GT_NAME) { LitAt(b, i, GT_NAME, 3); }
    if Lit(b, i, LT_NAME) { LitAt(b, i, LT_NAME, 3); }
    if Lit(b, i, QUOT_NAME) { LitAt(b, i, QUOT_NAME, 5); }
  }

  // The predefined names differ in their second or third character.
  lemma OtherName(b: seq<byte>, i: nat, name: seq<byte>, other: seq<byte>)
    requires Lit(b, i, name) && 3 <= |name| && 3 <= |other| && (name[1] != other[1] || name[2] != other[2])
    ensures !Lit(b, i, other)
  {
    var j := if name[1] != other[1] then 1 else 2;
    LitAt(b, i, name, j);
    if Lit(b, i, other) { LitAt(b, i, other, j); }
  }

  lemma NameIsRead(b: seq<byte>, i: nat, name: seq<byte>, c: byte)
    requires i < |b| && Lit(b, i, name)
    requires (name == AMP_NAME && c == AMP) || (name == GT_NAME && c == GT) || (name == LT_NAME && c == LT) || (name == QUOT_NAME && c == QUOT)
    ensures Reference(b, i) == Some((|name|, [c]))
  {
    LitAt(b, i, name, 1);
    if name != AMP_NAME { OtherName(b, i, name, AMP_NAME); }
    if name != GT_NAME { OtherName(b, i, name, GT_NAME); }
    if name != LT_NAME { OtherName(b, i, name, LT_NAME); }
    OtherName(b, i, name, APOS_NAME);
  }

  lemma {:induction false} EscapeIsReference(k: Kind, c: byte, b: seq<byte>, i: nat)
    requires c != NUL && Special(k, c) && Lit(b, i, EscapeByte(k, c))
    ensures b[i] == AMP && Reference(b, i) == Some((|EscapeByte(k, c)|, [c]))
  {
    var e := EscapeByte(k, c);
    LitAt(b, i, e, 0);
    if c < 32 {
      LitAt(b, i, e, 1);
      LitAt(b, i, e, 2);
      LitAt(b, i, e, 3);
      LitAt(b, i, e, 4);
      NumberIsRead(c, b, i);
    } else {
      NameIsRead(b, i, e, c);
    }
  }

  // An escaped character is read back as one token.
  lemma {:induction false} EscapeIsToken(k: Kind, wconv: bool, c: byte, b: seq<byte>, i: nat)
    requires c != NUL && Special(k, c) && Lit(b, i, EscapeByte(k, c))
    ensures !Stops(ReadBack(k, wconv), b, i) && Token(ReadBack(k, wconv), b, i) == (|EscapeByte(k, c)|, [c])
  {
    EscapeIsReference(k, c, b, i);
  }

  lemma {:induction false} NumberIsRead(c: byte, b: seq<byte>, i: nat)
    requires c < 32 && i + 5 <= |b| && b[i] == AMP && b[i + 1] == HASH
    requires b[i + 2] == c / 10 + 48 && b[i + 3] == c % 10 + 48 && b[i + 4] == SEMI
    ensures Reference(b, i) == Some((5, [c]))
  {
    TwoDigits(b, i + 2, c / 10, c % 10);
  }

  lemma {:induction false} TwoDigits(b: seq<byte>, j: nat, x: nat, y: nat)
    requires j + 3 <= |b| && x < 10 && y < 10 && b[j] == x + 48 && b[j + 1] == y + 48 && b[j + 2] == SEMI
    ensures ScanNumber(b, j, false, 0) == (j + 2, 10 * x + y)
  {
    assert ScanNumber(b, j + 2, false, 10 * x + y) == (j + 2, 10 * x + y);
    assert ScanNumber(b, j + 1, false, x) == ScanNumber(b, j + 2, false, 10 * x + y);
  }

  lemma {:induction false} PlainIsToken(k: Kind, wconv: bool, c: byte, b: seq<byte>, i: nat)
    requires c != NUL && i < |b| && b[i] == c && !Special(k, c) && Survives(k, wconv, c)
    ensures !Stops(ReadBack(k, wconv), b, i) && Token(ReadBack(k, wconv), b, i) == (1, [c])
  {
  }

  ghost predicate AllSurvive(k: Kind, wconv: bool, s: seq<byte>) {
    forall i :: 0 <= i < |s| ==> Survives(k, wconv, s[i])
  }

  // The token from i to j is read as c.
  ghost predicate ReadAs(m: Mode, b: seq<byte>, i: nat, j: nat, c: byte) {
    !Stops(m, b, i) && i <= j && Token(m, b, i) == (j - i, [c])
  }

  lemma {:induction false} EscapedToken(k: Kind, wconv: bool, c: byte, b: seq<byte>, i: nat)
    requires c != NUL && Survives(k, wconv, c) && Lit(b, i, EscapeByte(k, c))
    ensures ReadAs(ReadBack(k, wconv), b, i, i + |EscapeByte(k, c)|, c)
  {
    if Special(k, c) {
      EscapeIsToken(k, wconv, c, b, i);
    } else {
      LitAt(b, i, EscapeByte(k, c), 0);
      PlainIsToken(k, wconv, c, b, i);
    }
  }

  // ends marks off tokens that are read as the characters of s.
  ghost predicate ReadsAs(m: Mode, b: seq<byte>, ends: seq<nat>, s: seq<byte>) {
    |ends| == |s| + 1 && forall j :: 0 <= j < |s| ==> ReadAs(m, b, ends[j], ends[j + 1], s[j])
  }

  lemma {:induction false} DecodeTokens(m: Mode, b: seq<byte>, ends: seq<nat>, s: seq<byte>)
    requires ReadsAs(m, b, ends, s)
    ensures Decode(m, b, ends[0]) == s + Decode(m, b, ends[|s|])
    ensures DecodeEnd(m, b, ends[0]) == DecodeEnd(m, b, ends[|s|])
    decreases |s|
  {
    if s != [] {
      assert ReadAs(m, b, ends[0], ends[1], s[0]);
      TokensTail(m, b, ends, s);
      DecodeTokens(m, b, ends[1..], s[1..]);
      DecodeToken(m, b, ends[0], ends[1] - ends[0], [s[0]]);
      assert s == [s[0]] + s[1..];
    }
  }

  lemma {:induction false} TokensTail(m: Mode, b: seq<byte>, ends: seq<nat>, s: seq<byte>)
    requires ReadsAs(m, b, ends, s) && s != []
    ensures ReadsAs(m, b, ends[1..], s[1..])
  {
    forall j | 0 <= j < |s| - 1 ensures ReadAs(m, b, ends[1..][j], ends[1..][j + 1], s[1..][j]) {
      assert ReadAs(m, b, ends[j + 1], ends[j + 2], s[j + 1]);
    }
  }

  lemma {:induction false} DecodeToken(m: Mode, b: seq<byte>, i: nat, n: nat, text: seq<byte>)
    requires !Stops(m, b, i) && Token(m, b, i) == (n, text)
    ensures Decode(m, b, i) == text + Decode(m, b, i + n)
    ensures DecodeEnd(m, b, i) == DecodeEnd(m, b, i + n)
  {
  }

  // Where the escaped text is, its tokens are the characters of the text.
  lemma {:induction false} EscapedEnds(k: Kind, wconv: bool, s: seq<byte>, b: seq<byte>, i: nat) returns (ends: seq<nat>)
    requires NulFree(s) && AllSurvive(k, wconv, s) && Lit(b, i, Escape(k, s))
    ensures ReadsAs(ReadBack(k, wconv), b, ends, s) && ends[0] == i && ends[|s|] == i + |Escape(k, s)|
    decreases |s|
  {
    if s == [] {
      ends := [i];
    } else {
      var e := EscapeByte(k, s[0]);
      LitSplit(b, i, e, Escape(k, s[1..]));
      EscapedToken(k, wconv, s[0], b, i);
      var rest := EscapedEnds(k, wconv, s[1..], b, i + |e|);
      ends := [i] + rest;
      TokensMore(ReadBack(k, wconv), b, i, rest, s);
    }
  }

  lemma {:induction false} TokensMore(m: Mode, b: seq<byte>, i: nat, rest: seq<nat>, s: seq<byte>)
    requires s != [] && ReadsAs(m, b, rest, s[1..]) && ReadAs(m, b, i, rest[0], s[0])
    ensures ReadsAs(m, b, [i] + rest, s)
  {
    var ends := [i] + rest;
    forall j | 0 <= j < |s| ensures ReadAs(m, b, ends[j], ends[j + 1], s[j]) {
      if 0 < j { assert ReadAs(m, b, rest[j - 1], rest[j], s[1..][j - 1]); }
    }
  }

  lemma LitSplit(b: seq<byte>, i: nat, x: seq<byte>, y: seq<byte>)
    requires Lit(b, i, x + y)
    ensures Lit(b, i, x) && Lit(b, i + |x|, y)
  {
    forall j | 0 <= j < |x| ensures b[i + j] == x[j] { assert (x + y)[j] == x[j]; }
    forall j | 0 <= j < |y| ensures b[i + |x| + j] == y[j] { assert (x + y)[|x| + j] == y[j]; }
  }

  // A character that does not survive comes back as another one.
  lemma {:induction false} ConvertedToken(k: Kind, wconv: bool, c: byte, b: seq<byte>, i: nat)
    requires c != NUL && !Survives(k, wconv, c) && i < |b| && b[i] == c
    ensures var m := ReadBack(k, wconv); !Stops(m, b, i) && Token(m, b, i).1[0] != c
  {
  }

  lemma {:induction false} EscapeOfSum(k: Kind, s: seq<byte>, t: seq<byte>)
    ensures Escape(k, s + t) == Escape(k, s) + Escape(k, t)
    decreases |s|
  {
    if s == [] {
      assert s + t == t;
    } else {
      assert (s + t)[1..] == s[1..] + t;
      EscapeOfSum(k, s[1..], t);
    }
  }

  // The characters that survive, and the first that does not.
  lemma {:induction false} FirstLost(k: Kind, wconv: bool, s: seq<byte>) returns (p: nat)
    requires !AllSurvive(k, wconv, s)
    ensures p < |s| && !Survives(k, wconv, s[p]) && AllSurvive(k, wconv, s[..p])
    decreases |s|
  {
    var before := s[..|s| - 1];
    if AllSurvive(k, wconv, before) {
      p := |s| - 1;
    } else {
      p := FirstLost(k, wconv, before);
      assert before[..p] == s[..p];
    }
  }

  lemma {:induction false} DecodeDiffers(k: Kind, wconv: bool, s: seq<byte>, b: seq<byte>, i: nat)
    requires NulFree(s) && !AllSurvive(k, wconv, s) && Lit(b, i, Escape(k, s))
    ensures Decode(ReadBack(k, wconv), b, i) != s
  {
    var m := ReadBack(k, wconv);
    var p := FirstLost(k, wconv, s);
    assert s == s[..p] + s[p..];
    EscapeOfSum(k, s[..p], s[p..]);
    LitSplit(b, i, Escape(k, s[..p]), Escape(k, s[p..]));
    DiffersBehind(k, wconv, s[..p], s[p..], b, i);
  }

  // x survives and the first character of y does not.
  lemma {:induction false} DiffersBehind(k: Kind, wconv: bool, x: seq<byte>, y: seq<byte>, b: seq<byte>, i: nat)
    requires NulFree(x) && NulFree(y) && AllSurvive(k, wconv, x) && y != [] && !Survives(k, wconv, y[0])
    requires Lit(b, i, Escape(k, x)) && Lit(b, i + |Escape(k, x)|, Escape(k, y))
    ensures Decode(ReadBack(k, wconv), b, i) != x + y
  {
    var m := ReadBack(k, wconv);
    var ends := EscapedEnds(k, wconv, x, b, i);
    DecodeTokens(m, b, ends, x);
    LostIsOther(k, wconv, y, b, ends[|x|]);
    SamePrefix(x, Decode(m, b, ends[|x|]), y);
  }

  lemma SamePrefix(p: seq<byte>, x: seq<byte>, y: seq<byte>)
    requires x != y
    ensures p + x != p + y
  {
    assert (p + x)[|p|..] == x && (p + y)[|p|..] == y;
  }

  lemma {:induction false} LostIsOther(k: Kind, wconv: bool, s: seq<byte>, b: seq<byte>, i: nat)
    requires s != [] && s[0] != NUL && !Survives(k, wconv, s[0]) && Lit(b, i, Escape(k, s))
    ensures Decode(ReadBack(k, wconv), b, i) != s
  {
    LitAt(b, i, Escape(k, s), 0);
    ConvertedToken(k, wconv, s[0], b, i);
    var m := ReadBack(k, wconv);
    DecodeToken(m, b, i, Token(m, b, i).0, Token(m, b, i).1);
  }

  /** Reading back what was printed: text with any character except carriage
      return, attribute values with any character (or, when white space is
      converted, any except tab) come back as they were, and no others do. */
  lemma {:induction false} EscapeRoundTrip(k: Kind, wconv: bool, s: seq<byte>)
    requires NulFree(s)
    ensures var m := ReadBack(k, wconv);
            Decode(m, Escape(k, s) + [m.stop], 0) == s <==> AllSurvive(k, wconv, s)
    ensures AllSurvive(k, wconv, s) ==> DecodeEnd(ReadBack(k, wconv), Escape(k, s) + [ReadBack(k, wconv).stop], 0) == |Escape(k, s)|
  {
    var m := ReadBack(k, wconv);
    var b := Escape(k, s) + [m.stop];
    if AllSurvive(k, wconv, s) {
      var ends := EscapedEnds(k, wconv, s, b, 0);
      DecodeTokens(m, b, ends, s);
    } else {
      DecodeDiffers(k, wconv, s, b, 0);
    }
  }

  lemma SurvivorsByKind(wconv: bool, c: byte)
    ensures !wconv ==> (Survives(Pcdata, wconv, c) <==> c != CR) && Survives(Attribute, wconv, c)
    ensures wconv ==> (Survives(Attribute, wconv, c) <==> c != TAB)
  {
  }

  // The printer's output never contains a delimiter of the parser.
  lemma {:induction false} EscapedIsClean(k: Kind, s: seq<byte>)
    requires NulFree(s)
    ensures forall i :: 0 <= i < |Escape(k, s)| ==>
              var c := Escape(k, s)[i]; c != NUL && c != LT && c != GT && (k == Attribute ==> c != QUOT)
    decreases |s|
  {
    if s != [] { EscapedIsClean(k, s[1..]); }
  }
}
