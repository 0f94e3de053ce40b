/** The in-place text conversions of pugixml.cpp (gap, strconv_escape,
    strconv_pcdata_impl, strconv_attribute_impl): text shrinks as it is decoded,
    and the hole this leaves is carried along and closed lazily.  Each conversion
    is proved to leave exactly what Unescape.Decode says. */
module InPlace {
  import opened Bytes
  import opened Options
  import opened Unescape

  // The text converted so far: from begin to s, without the hole [end - size, end).
  ghost function TextOf(b: seq<byte>, begin: nat, s: nat, end: int, size: nat): (t: seq<byte>)
    requires begin <= s <= |b| && (0 <= end ==> begin + size <= end <= s)
  {
    if end < 0 then b[begin..s] else b[begin..end - size] + b[end..s]
  }

  // memmove towards the front
  method MemMove(b: array<byte>, to: nat, from: nat, n: nat)
    requires to <= from && from + n <= b.Length
    modifies b
    ensures b[to..to + n] == old(b[from..from + n])
    ensures b[..to] == old(b[..to]) && b[to + n..] == old(b[to + n..])
  {
    ghost var o := b[..];
    for i := 0 to n
      invariant b[to..to + i] == o[from..from + i]
      invariant b[..to] == o[..to] && b[to + i..] == o[to + i..]
    {
      assert b[from + i] == b[to + i..][from - to] == o[from + i];
      b[to + i] := b[from + i];
      assert o[from..from + i + 1] == o[from..from + i] + [o[from + i]];
      assert b[to..to + i + 1] == b[to..to + i] + [b[to + i]];
    }
  }

  class Gap {
    var end: int
    var size: nat

    constructor ()
      ensures end == -1 && size == 0
    {
      end, size := -1, 0;
    }

    ghost predicate Ok(b: array<byte>, begin: nat, s: nat)
      reads this
    {
      begin <= s <= b.Length && (if end < 0 then size == 0 else begin + size <= end <= s)
    }

    ghost function Text(b: array<byte>, begin: nat, s: nat): (t: seq<byte>)
      requires Ok(b, begin, s)
      reads this, b
    {
      TextOf(b[..], begin, s, end, size)
    }

    // push: a new hole of count bytes at s; the one before it is closed.
    method Push(b: array<byte>, ghost begin: nat, s: nat, count: nat) returns (s': nat)
      requires Ok(b, begin, s) && s + count <= b.Length
      modifies this, b
      ensures Ok(b, begin, s') && s' == s + count
      ensures Text(b, begin, s') == old(Text(b, begin, s))
      ensures b[s..] == old(b[s..]) && b[..begin] == old(b[..begin])
    {
      ghost var o := b[..];
      if 0 <= end {
        MemMove(b, end - size, end, s - end);
        Moved(o, b[..], begin, s, end, size);
      }
      s' := s + count;
      end := s';
      size := size + count;
      assert b[end..s'] == [];
    }

    // flush: closes the hole; the text ends where it says.
    method Flush(b: array<byte>, ghost begin: nat, s: nat) returns (e: nat)
      requires Ok(b, begin, s)
      modifies b
      ensures begin <= e <= s && b[begin..e] == old(Text(b, begin, s))
      ensures b[s..] == old(b[s..]) && b[..begin] == old(b[..begin])
    {
      if end < 0 { return s; }
      ghost var o := b[..];
      MemMove(b, end - size, end, s - end);
      Moved(o, b[..], begin, s, end, size);
      e := s - size;
    }
  }

  lemma Moved(o: seq<byte>, n: seq<byte>, begin: nat, s: nat, end: nat, size: nat)
    requires |o| == |n| && begin + size <= end <= s <= |o|
    requires n[end - size..s - size] == o[end..s] && n[..end - size] == o[..end - size] && n[s - size..] == o[s - size..]
    ensures n[begin..s - size] == TextOf(o, begin, s, end, size)
    ensures n[s..] == o[s..] && n[..begin] == o[..begin]
  {
    assert n[begin..end - size] == n[..end - size][begin..] == o[begin..end - size];
    assert n[begin..s - size] == n[begin..end - size] + n[end - size..s - size];
    assert n[s..] == n[s - size..][size..];
    assert n[..begin] == n[..end - size][..begin];
  }

  // ---------------------------------------------------------------------
  // strconv_escape

  // Writes text at s, in front of a reference that it replaces.
  method Put(b: array<byte>, g: Gap, ghost begin: nat, s: nat, text: seq<byte>) returns (s': nat)
    requires g.Ok(b, begin, s) && s + |text| <= b.Length
    modifies b
    ensures s' == s + |text| && g.Ok(b, begin, s')
    ensures g.Text(b, begin, s') == old(g.Text(b, begin, s)) + text
    ensures b[s'..] == old(b[s'..]) && b[..begin] == old(b[..begin])
  {
    ghost var o := b[..];
    for i := 0 to |text|
      invariant b[..] == o[..s] + text[..i] + o[s + i..]
    {
      b[s + i] := text[i];
      assert text[..i + 1] == text[..i] + [text[i]];
    }
    s' := s + |text|;
    assert text[..|text|] == text;
    Appended(o, b[..], begin, s, g.end, g.size, text);
  }

  lemma Appended(o: seq<byte>, n: seq<byte>, begin: nat, s: nat, end: int, size: nat, text: seq<byte>)
    requires begin <= s && s + |text| <= |o| && (0 <= end ==> begin + size <= end <= s)
    requires n == o[..s] + text + o[s + |text|..]
    ensures |n| == |o| && TextOf(n, begin, s + |text|, end, size) == TextOf(o, begin, s, end, size) + text
    ensures n[s + |text|..] == o[s + |text|..] && n[..begin] == o[..begin]
  {
    if end < 0 {
      assert n[begin..s + |text|] == o[begin..s] + text;
    } else {
      assert n[begin..end - size] == o[begin..end - size];
      assert n[end..s + |text|] == o[end..s] + text;
    }
  }

  // Characters that may be part of a reference and stand for themselves.
  predicate IsWord(c: byte) {
    c == HASH || 48 <= c <= 57 || 65 <= c <= 70 || 97 <= c <= 122
  }

  // The digits from position j.
  method ReadNumber(b: array<byte>, j: nat, hex: bool) returns (end: nat, ucsc: nat)
    requires j < b.Length && b[b.Length - 1] == NUL
    ensures (end, ucsc) == ScanNumber(b[..], j, hex, 0) && end < b.Length && ucsc < WORD
  {
    end, ucsc := j, 0;
    while DigitValue(b[end], hex) >= 0
      invariant j <= end < b.Length && ucsc < WORD
      invariant ScanNumber(b[..], end, hex, ucsc) == ScanNumber(b[..], j, hex, 0)
      decreases b.Length - end
    {
      ucsc := ((if hex then 16 else 10) * ucsc + DigitValue(b[end], hex)) % WORD;
      end := end + 1;
    }
  }

  // *++stre == name[1] && ...: how far the name matches.
  method Match(b: array<byte>, s: nat, name: seq<byte>) returns (stre: nat, ok: bool)
    requires s < b.Length && b[b.Length - 1] == NUL && 2 <= |name| && b[s] == name[0] == AMP
    requires name[|name| - 1] == SEMI && forall k :: 1 <= k < |name| - 1 ==> IsWord(name[k])
    ensures ok <==> Lit(b[..], s, name)
    ensures ok ==> stre == s + |name| <= b.Length
    ensures !ok ==> s < stre < b.Length && forall k :: s < k < stre ==> IsWord(b[k])
  {
    stre := s + 1;
    while stre < s + |name|
      invariant s < stre <= s + |name| && stre <= b.Length
      invariant forall k :: s <= k < stre ==> b[k] == name[k - s]
      invariant stre < s + |name| ==> stre < b.Length
    {
      if b[stre] != name[stre - s] {
        assert b[..][s + (stre - s)] != name[stre - s];
        return stre, false;
      }
      stre := stre + 1;
    }
    forall j | 0 <= j < |name| ensures b[..][s + j] == name[j] {
      assert b[s + j] == name[s + j - s];
    }
    ok := true;
  }

  // Everything strconv_escape promises about a reference at s.
  ghost predicate Escaped(o: seq<byte>, s: nat, s': nat, before: seq<byte>, after: seq<byte>)
    requires s < |o|
  {
    match Reference(o, s)
    case Some((n, t)) => s' == s + n && after == before + t
    case None => s < s' < |o| && after == before + o[s..s'] && forall k :: s < k < s' ==> IsWord(o[k])
  }

  // Replaces the reference between s and stre.
  method Replace(b: array<byte>, g: Gap, ghost begin: nat, s: nat, stre: nat, text: seq<byte>)
    requires g.Ok(b, begin, s) && |text| <= 4 && s + 4 <= stre <= b.Length
    modifies b, g
    ensures g.Ok(b, begin, stre) && g.Text(b, begin, stre) == old(g.Text(b, begin, s)) + text
    ensures b[stre..] == old(b[stre..]) && b[..begin] == old(b[..begin])
  {
    ghost var o := b[..];
    var s1 := Put(b, g, begin, s, text);
    assert b[stre..] == b[s1..][stre - s1..] == o[s1..][stre - s1..] == o[stre..];
    ghost var o1 := b[..];
    var s2 := g.Push(b, begin, s1, stre - s1);
    assert b[stre..] == b[s1..][stre - s1..] == o1[s1..][stre - s1..];
  }

  // name is the only predefined name that can be at s.
  ghost predicate OnlyName(o: seq<byte>, s: nat, name: seq<byte>, c: byte)
    requires s < |o|
  {
    && (Lit(o, s, name) ==> Reference(o, s) == Some((|name|, [c])))
    && (!Lit(o, s, name) ==> Reference(o, s) == None)
  }

  method StrConvName(b: array<byte>, g: Gap, ghost begin: nat, s: nat, name: seq<byte>, c: byte) returns (s': nat)
    requires g.Ok(b, begin, s) && s < b.Length && b[s] == AMP && b[b.Length - 1] == NUL
    requires 4 <= |name| && name[0] == AMP && name[|name| - 1] == SEMI && forall k :: 1 <= k < |name| - 1 ==> IsWord(name[k])
    requires OnlyName(b[..], s, name, c)
    modifies b, g
    ensures g.Ok(b, begin, s') && b[s'..] == old(b[s'..]) && b[..begin] == old(b[..begin])
    ensures Escaped(old(b[..]), s, s', old(g.Text(b, begin, s)), g.Text(b, begin, s'))
  {
    var ok;
    s', ok := Match(b, s, name);
    if ok {
      Replace(b, g, begin, s, s', [c]);
    } else {
      TextGrows(b[..], begin, s, s', g.end, g.size);
    }
  }

  lemma TextGrows(b: seq<byte>, begin: nat, s: nat, s': nat, end: int, size: nat)
    requires begin <= s <= s' <= |b| && (0 <= end ==> begin + size <= end <= s)
    ensures TextOf(b, begin, s', end, size) == TextOf(b, begin, s, end, size) + b[s..s']
  {
    if end < 0 {
      assert b[begin..s'] == b[begin..s] + b[s..s'];
    } else {
      assert b[end..s'] == b[end..s] + b[s..s'];
    }
  }

  method StrConvNumber(b: array<byte>, g: Gap, ghost begin: nat, s: nat) returns (s': nat)
    requires g.Ok(b, begin, s) && s < b.Length && b[s] == AMP && b[b.Length - 1] == NUL
    requires s + 1 < b.Length && b[s + 1] == HASH
    modifies b, g
    ensures g.Ok(b, begin, s') && b[s'..] == old(b[s'..]) && b[..begin] == old(b[..begin])
    ensures Escaped(old(b[..]), s, s', old(g.Text(b, begin, s)), g.Text(b, begin, s'))
  {
    ghost var o := b[..];
    var hex := b[s + 2] == 120;
    var j := if hex then s + 3 else s + 2;
    assert j == DigitsAt(o, s);
    var end, ucsc := ReadNumber(b, j, hex);
    if j < end && b[end] == SEMI {
      assert Reference(o, s) == Some((end + 1 - s, Utf8(ucsc)));
      s' := end + 1;
      Replace(b, g, begin, s, s', Utf8(ucsc));
    } else {
      s' := end;
      TextGrows(o, begin, s, s', g.end, g.size);
    }
  }

  lemma NameAt(o: seq<byte>, s: nat)
    requires s + 2 < |o| && o[s] == AMP
    ensures o[s + 1] == 97 && o[s + 2] == 109 ==> OnlyName(o, s, AMP_NAME, AMP)
    ensures o[s + 1] == 97 && o[s + 2] != 109 ==> OnlyName(o, s, APOS_NAME, APOS)
    ensures o[s + 1] == 103 ==> OnlyName(o, s, GT_NAME, GT)
    ensures o[s + 1] == 108 ==> OnlyName(o, s, LT_NAME, LT)
    ensures o[s + 1] == 113 ==> OnlyName(o, s, QUOT_NAME, QUOT)
  {
    NotThere(o, s, AMP_NAME);
    NotThere(o, s, APOS_NAME);
    NotThere(o, s, GT_NAME);
    NotThere(o, s, LT_NAME);
    NotThere(o, s, QUOT_NAME);
  }

  lemma NotThere(o: seq<byte>, s: nat, name: seq<byte>)
    requires s < |o| && 3 <= |name|
    ensures s + 1 < |o| && o[s + 1] != name[1] ==> !Lit(o, s, name)
    ensures s + 2 < |o| && o[s + 2] != name[2] ==> !Lit(o, s, name)
    ensures |o| <= s + 2 ==> !Lit(o, s, name)
  {
    if Lit(o, s, name) {
      LitAt(o, s, name, 1);
      LitAt(o, s, name, 2);
    }
  }

  lemma NoReference(o: seq<byte>, s: nat)
    requires s < |o| && o[s] == AMP && ByteAt(o, s + 1) != HASH
    requires ByteAt(o, s + 1) != 97 && ByteAt(o, s + 1) != 103 && ByteAt(o, s + 1) != 108 && ByteAt(o, s + 1) != 113
    ensures Reference(o, s) == None
  {
    NotThere(o, s, AMP_NAME);
    NotThere(o, s, APOS_NAME);
    NotThere(o, s, GT_NAME);
    NotThere(o, s, LT_NAME);
    NotThere(o, s, QUOT_NAME);
  }

  method StrConvEscape(b: array<byte>, g: Gap, ghost begin: nat, s: nat) returns (s': nat)
    requires g.Ok(b, begin, s) && s < b.Length && b[s] == AMP && b[b.Length - 1] == NUL
    modifies b, g
    ensures g.Ok(b, begin, s') && b[s'..] == old(b[s'..]) && b[..begin] == old(b[..begin])
    ensures Escaped(old(b[..]), s, s', old(g.Text(b, begin, s)), g.Text(b, begin, s'))
  {
    var c := b[s + 1];
    if c == HASH {
      s' := StrConvNumber(b, g, begin, s);
    } else if c == 97 || c == 103 || c == 108 || c == 113 {
      NameAt(b[..], s);
      if c == 97 {
        if b[s + 2] == 109 { s' := StrConvName(b, g, begin, s, AMP_NAME, AMP); } else { s' := StrConvName(b, g, begin, s, APOS_NAME, APOS); }
      } else if c == 103 {
        s' := StrConvName(b, g, begin, s, GT_NAME, GT);
      } else if c == 108 {
        s' := StrConvName(b, g, begin, s, LT_NAME, LT);
      } else {
        s' := StrConvName(b, g, begin, s, QUOT_NAME, QUOT);
      }
    } else {
      NoReference(b[..], s);
      s' := s + 1;
      TextGrows(b[..], begin, s, s', g.end, g.size);
    }
  }

  // ---------------------------------------------------------------------
  // The scanning loops.

  predicate Delimiter(c: byte) {
    c == LT || c == QUOT || c == APOS
  }

  // From s to s' the text has grown by what decoding makes of the bytes between.
  ghost predicate Advanced(m: Mode, o: seq<byte>, s: nat, s': nat, before: seq<byte>, after: seq<byte>) {
    && s < s' < |o| && |before| <= |after| && after[..|before|] == before
    && Decode(m, o, s) == after[|before|..] + Decode(m, o, s')
    && DecodeEnd(m, o, s) == DecodeEnd(m, o, s')
  }

  lemma Advance(m: Mode, o: seq<byte>, s: nat, s': nat, before: seq<byte>, after: seq<byte>, all: seq<byte>)
    requires Advanced(m, o, s, s', before, after) && all == before + Decode(m, o, s)
    ensures all == after + Decode(m, o, s')
  {
    assert after == before + after[|before|..];
  }

  lemma {:induction false} TokenAdvances(m: Mode, o: seq<byte>, s: nat, n: nat, before: seq<byte>, text: seq<byte>)
    requires s < |o| && !Stops(m, o, s) && Token(m, o, s) == (n, text) && s + n < |o|
    ensures Advanced(m, o, s, s + n, before, before + text)
  {
    DecodeToken(m, o, s, n, text);
    assert (before + text)[|before|..] == text;
  }

  lemma {:induction false} RawToken(m: Mode, o: seq<byte>, i: nat)
    requires Delimiter(m.stop) && i < |o| && (IsWord(o[i]) || (o[i] == AMP && Reference(o, i) == None))
    ensures !Stops(m, o, i) && Token(m, o, i) == (1, [o[i]])
  {
  }

  // Characters that stand for themselves: words, and perhaps a raw ampersand first.
  lemma {:induction false} RawPasses(m: Mode, o: seq<byte>, i: nat, j: nat)
    requires Delimiter(m.stop) && i <= j <= |o| && forall k :: i < k < j ==> IsWord(o[k])
    requires i < j ==> IsWord(o[i]) || (o[i] == AMP && Reference(o, i) == None)
    ensures Decode(m, o, i) == o[i..j] + Decode(m, o, j) && DecodeEnd(m, o, i) == DecodeEnd(m, o, j)
    decreases j - i
  {
    if i < j {
      RawPasses(m, o, i + 1, j);
      RawToken(m, o, i);
      DecodeToken(m, o, i, 1, [o[i]]);
      RawJoin(o, i, j, Decode(m, o, j));
    } else {
      assert o[i..j] == [];
    }
  }

  lemma RawJoin(o: seq<byte>, i: nat, j: nat, t: seq<byte>)
    requires i < j <= |o|
    ensures [o[i]] + (o[i + 1..j] + t) == o[i..j] + t
  {
  }

  lemma {:induction false} EscapeAdvances(m: Mode, o: seq<byte>, s: nat, s': nat, before: seq<byte>, after: seq<byte>)
    requires Delimiter(m.stop) && m.escape && s < |o| && o[s] == AMP && o[|o| - 1] == NUL && Escaped(o, s, s', before, after)
    ensures Advanced(m, o, s, s', before, after)
  {
    match Reference(o, s)
    case Some((n, t)) =>
      ReferenceEnds(o, s);
      TokenAdvances(m, o, s, n, before, t);
    case None =>
      RawPasses(m, o, s, s');
      assert after[|before|..] == o[s..s'];
  }

  // *s++ = c, and a hole for the other n - 1 characters read with the first.
  method Collapse(b: array<byte>, g: Gap, ghost begin: nat, s: nat, c: byte, n: nat)
    requires g.Ok(b, begin, s) && 1 <= n && s + n <= b.Length
    modifies b, g
    ensures g.Ok(b, begin, s + n) && g.Text(b, begin, s + n) == old(g.Text(b, begin, s)) + [c]
    ensures b[s + n..] == old(b[s + n..]) && b[..begin] == old(b[..begin])
  {
    ghost var o := b[..];
    var s1 := Put(b, g, begin, s, [c]);
    ghost var o1 := b[..];
    if n != 1 {
      var s2 := g.Push(b, begin, s1, n - 1);
      assert b[s + n..] == b[s1..][n - 1..] == o1[s1..][n - 1..] == o[s1..][n - 1..] == o[s + n..];
    }
  }

  // do ++str; while (ct_space)
  method CountSpace(b: array<byte>, s: nat) returns (n: nat)
    requires s < b.Length && b[b.Length - 1] == NUL
    ensures n == SpaceRun(b[..], s) && s + n < b.Length
  {
    n := 0;
    while IsSpace(b[s + n])
      invariant s + n < b.Length && SpaceRun(b[..], s) == n + SpaceRun(b[..], s + n)
      decreases b.Length - n
    {
      n := n + 1;
    }
  }

  // Reads a token of n characters that becomes the single character c.
  method ConvertToken(b: array<byte>, g: Gap, ghost begin: nat, s: nat, ghost m: Mode, c: byte, n: nat)
    requires g.Ok(b, begin, s) && s < b.Length && !Stops(m, b[..], s) && Token(m, b[..], s) == (n, [c]) && s + n < b.Length
    modifies b, g
    ensures g.Ok(b, begin, s + n) && b[s + n..] == old(b[s + n..]) && b[..begin] == old(b[..begin])
    ensures Advanced(m, old(b[..]), s, s + n, old(g.Text(b, begin, s)), g.Text(b, begin, s + n))
  {
    TokenAdvances(m, b[..], s, n, g.Text(b, begin, s), [c]);
    Collapse(b, g, begin, s, c, n);
  }

  // Steps over a character that stands for itself.
  method KeepOne(b: array<byte>, g: Gap, ghost begin: nat, s: nat, ghost m: Mode)
    requires g.Ok(b, begin, s) && s + 1 < b.Length && !Stops(m, b[..], s) && Token(m, b[..], s) == (1, [b[s]])
    ensures g.Ok(b, begin, s + 1)
    ensures Advanced(m, b[..], s, s + 1, g.Text(b, begin, s), g.Text(b, begin, s + 1))
  {
    TokenAdvances(m, b[..], s, 1, g.Text(b, begin, s), [b[s]]);
    TextGrows(b[..], begin, s, s + 1, g.end, g.size);
    assert b[..][s..s + 1] == [b[s]];
  }

  method ConvertReference(b: array<byte>, g: Gap, ghost begin: nat, s: nat, ghost m: Mode) returns (s': nat)
    requires g.Ok(b, begin, s) && s < b.Length && b[b.Length - 1] == NUL && Delimiter(m.stop) && m.escape && b[s] == AMP
    modifies b, g
    ensures g.Ok(b, begin, s') && s' < b.Length && b[s'..] == old(b[s'..]) && b[..begin] == old(b[..begin])
    ensures Advanced(m, old(b[..]), s, s', old(g.Text(b, begin, s)), g.Text(b, begin, s'))
  {
    s' := StrConvEscape(b, g, begin, s);
    EscapeAdvances(m, old(b[..]), s, s', old(g.Text(b, begin, s)), g.Text(b, begin, s'));
  }

  // How many white space characters are read together, and what they become.
  method SpaceToken(b: array<byte>, s: nat, m: Mode) returns (n: nat, c: byte)
    requires s < b.Length && b[b.Length - 1] == NUL && IsSpace(b[s])
    requires m.wnorm || m.wconv || (m.eol && b[s] == CR)
    ensures Token(m, b[..], s) == (n, [c]) && s + n < b.Length
  {
    if m.wnorm {
      n := CountSpace(b, s);
      c := SPACE;
    } else if b[s] == CR {
      n := if b[s + 1] == LF then 2 else 1;
      c := if m.wconv then SPACE else LF;
    } else {
      n := 1;
      c := SPACE;
    }
  }

  // One round of the loop, at a character that is neither the delimiter nor NUL.
  method ConvertOne(b: array<byte>, g: Gap, ghost begin: nat, s: nat, m: Mode) returns (s': nat)
    requires g.Ok(b, begin, s) && s < b.Length && b[b.Length - 1] == NUL && Delimiter(m.stop) && !Stops(m, b[..], s)
    modifies b, g
    ensures g.Ok(b, begin, s') && s' < b.Length && b[s'..] == old(b[s'..]) && b[..begin] == old(b[..begin])
    ensures Advanced(m, old(b[..]), s, s', old(g.Text(b, begin, s)), g.Text(b, begin, s'))
  {
    if IsSpace(b[s]) && (m.wnorm || m.wconv || (m.eol && b[s] == CR)) {
      var n, c := SpaceToken(b, s, m);
      ConvertToken(b, g, begin, s, m, c, n);
      s' := s + n;
    } else if m.escape && b[s] == AMP {
      s' := ConvertReference(b, g, begin, s, m);
    } else {
      PlainToken(m, b[..], s);
      KeepOne(b, g, begin, s, m);
      s' := s + 1;
    }
  }

  lemma {:induction false} PlainToken(m: Mode, o: seq<byte>, s: nat)
    requires s < |o| && !(IsSpace(o[s]) && (m.wnorm || m.wconv || (m.eol && o[s] == CR))) && !(m.escape && o[s] == AMP)
    ensures Token(m, o, s) == (1, [o[s]])
  {
  }

  // The loop: converts up to the delimiter or NUL.
  method Scan(b: array<byte>, g: Gap, ghost begin: nat, s0: nat, m: Mode) returns (s: nat)
    requires g.Ok(b, begin, s0) && s0 < b.Length && b[b.Length - 1] == NUL && Delimiter(m.stop) && g.Text(b, begin, s0) == []
    modifies b, g
    ensures g.Ok(b, begin, s) && s0 <= s < b.Length && b[s..] == old(b[s..]) && b[..begin] == old(b[..begin])
    ensures s == DecodeEnd(m, old(b[..]), s0) && Stops(m, b[..], s)
    ensures g.Text(b, begin, s) == Decode(m, old(b[..]), s0)
  {
    ghost var o := b[..];
    ghost var all := Decode(m, o, s0);
    s := s0;
    while b[s] != m.stop && b[s] != NUL
      invariant g.Ok(b, begin, s) && s0 <= s < b.Length && b[s..] == o[s..] && b[..begin] == o[..begin]
      invariant all == g.Text(b, begin, s) + Decode(m, o, s) && DecodeEnd(m, o, s) == DecodeEnd(m, o, s0)
      decreases b.Length - s
    {
      ghost var before, o1, s1 := g.Text(b, begin, s), b[..], s;
      Unread(m, o, o1, s);
      s := ConvertOne(b, g, begin, s, m);
      assert b[s..] == o1[s..] == o1[s1..][s - s1..] == o[s..];
      AdvanceOver(m, o, o1, s1, s, before, g.Text(b, begin, s), all);
    }
  }

  // Decoding looks at nothing before its position.
  lemma {:induction false} Unread(m: Mode, o: seq<byte>, n: seq<byte>, i: nat)
    requires |o| == |n| && i <= |o| && o[i..] == n[i..]
    ensures Decode(m, n, i) == Decode(m, o, i) && DecodeEnd(m, n, i) == DecodeEnd(m, o, i)
    decreases |o| - i
  {
    Suffix(o, n, i);
    if !Stops(m, o, i) {
      SameToken(m, o, n, i);
      var k, text := i + Token(m, o, i).0, Token(m, o, i).1;
      assert o[k..] == o[i..][k - i..] == n[k..];
      Unread(m, o, n, k);
      DecodeToken(m, o, i, k - i, text);
      DecodeToken(m, n, i, k - i, text);
    }
  }

  lemma Suffix(o: seq<byte>, n: seq<byte>, i: nat)
    requires |o| == |n| && i <= |o| && o[i..] == n[i..]
    ensures forall k :: i <= k < |o| ==> o[k] == n[k]
  {
    forall k | i <= k < |o| ensures o[k] == n[k] { assert o[i..][k - i] == n[i..][k - i]; }
  }

  lemma {:induction false} SameToken(m: Mode, o: seq<byte>, n: seq<byte>, i: nat)
    requires |o| == |n| && i < |o| && forall k :: i <= k < |o| ==> o[k] == n[k]
    ensures Token(m, n, i) == Token(m, o, i)
  {
    SameRun(o, n, i);
    SameReference(o, n, i);
  }

  lemma {:induction false} SameRun(o: seq<byte>, n: seq<byte>, i: nat)
    requires |o| == |n| && i <= |o| && forall k :: i <= k < |o| ==> o[k] == n[k]
    ensures SpaceRun(n, i) == SpaceRun(o, i)
    decreases |o| - i
  {
    if i < |o| { SameRun(o, n, i + 1); }
  }

  lemma {:induction false} SameNumber(o: seq<byte>, n: seq<byte>, i: nat, j: nat, hex: bool, acc: nat)
    requires |o| == |n| && i <= j && forall k :: i <= k < |o| ==> o[k] == n[k]
    ensures ScanNumber(n, j, hex, acc) == ScanNumber(o, j, hex, acc)
    decreases |o| - j
  {
    if j < |o| { SameNumber(o, n, i, j + 1, hex, ((if hex then 16 else 10) * acc + DigitValue(o[j], hex)) % WORD); }
  }

  lemma {:induction false} SameReference(o: seq<byte>, n: seq<byte>, i: nat)
    requires |o| == |n| && i < |o| && forall k :: i <= k < |o| ==> o[k] == n[k]
    ensures Reference(n, i) == Reference(o, i)
  {
    SameNumeric(o, n, i);
    SameNamed(o, n, i);
  }

  lemma {:induction false} SameNumeric(o: seq<byte>, n: seq<byte>, i: nat)
    requires |o| == |n| && i < |o| && forall k :: i <= k < |o| ==> o[k] == n[k]
    ensures Numeric(n, i) == Numeric(o, i)
  {
    SameNumber(o, n, i, DigitsAt(o, i), ByteAt(o, i + 2) == 120, 0);
  }

  lemma {:induction false} SameNamed(o: seq<byte>, n: seq<byte>, i: nat)
    requires |o| == |n| && i < |o| && forall k :: i <= k < |o| ==> o[k] == n[k]
    ensures Named(n, i) == Named(o, i)
  {
    SameLit(o, n, i, AMP_NAME);
    SameLit(o, n, i, APOS_NAME);
    SameLit(o, n, i, GT_NAME);
    SameLit(o, n, i, LT_NAME);
    SameLit(o, n, i, QUOT_NAME);
  }

  lemma SameLit(o: seq<byte>, n: seq<byte>, i: nat, name: seq<byte>)
    requires |o| == |n| && i < |o| && forall k :: i <= k < |o| ==> o[k] == n[k]
    ensures Lit(n, i, name) <==> Lit(o, i, name)
  {
  }

  // A round on the buffer as it is now, for decoding the buffer as it was.
  lemma {:induction false} AdvanceOver(m: Mode, o: seq<byte>, o1: seq<byte>, s1: nat, s: nat, before: seq<byte>, after: seq<byte>, all: seq<byte>)
    requires |o| == |o1| && s1 <= |o| && o[s1..] == o1[s1..] && Advanced(m, o1, s1, s, before, after)
    requires all == before + Decode(m, o, s1)
    ensures all == after + Decode(m, o, s) && DecodeEnd(m, o, s) == DecodeEnd(m, o, s1)
  {
    Unread(m, o, o1, s1);
    assert o[s..] == o[s1..][s - s1..] == o1[s..];
    Unread(m, o, o1, s);
    Advance(m, o1, s1, s, before, after, all);
  }

  // ---------------------------------------------------------------------
  // The conversions as the parser calls them.

  // The converted text lies at begin, with a NUL behind it.
  ghost predicate Holds(b: seq<byte>, begin: nat, text: seq<byte>) {
    begin + |text| < |b| && b[begin..begin + |text|] == text && b[begin + |text|] == NUL
  }

  lemma Ended(b: seq<byte>, begin: nat, e: nat, text: seq<byte>)
    requires begin <= e < |b| && text <= b[begin..e]
    ensures Holds(b[begin + |text| := NUL], begin, text)
  {
    var n := b[begin + |text| := NUL];
    assert n[begin..begin + |text|] == b[begin..e][..|text|];
  }

  // while (end > begin && ct_space) --end
  method Trim(b: array<byte>, begin: nat, end0: nat) returns (end: nat)
    requires begin <= end0 <= b.Length
    ensures begin <= end <= end0 && b[begin..end] == TrimEnd(b[begin..end0])
  {
    end := end0;
    while end > begin && IsSpace(b[end - 1])
      invariant begin <= end <= end0 && TrimEnd(b[begin..end]) == TrimEnd(b[begin..end0])
    {
      assert b[begin..end][..end - begin - 1] == b[begin..end - 1];
      end := end - 1;
    }
  }

  // Closes the hole and ends the text, trimmed or not; s is where the scan stopped.
  method FinishText(b: array<byte>, g: Gap, begin: nat, s: nat, trim: bool, ghost t: seq<byte>) returns (next: nat)
    requires g.Ok(b, begin, s) && g.Text(b, begin, s) == t && s < b.Length && (b[s] == LT || b[s] == NUL)
    modifies b
    ensures Holds(b[..], begin, if trim then TrimEnd(t) else t)
    ensures next == (if old(b[s]) == LT then s + 1 else s)
    ensures b[next..] == old(b[..])[next..] && b[..begin] == old(b[..begin])
  {
    ghost var o1 := b[..];
    var atTag := b[s] == LT;
    var e := g.Flush(b, begin, s);
    ghost var o2 := b[..];
    ghost var text := if trim then TrimEnd(t) else t;
    var end := e;
    if trim { end := Trim(b, begin, e); }
    assert text <= b[begin..e] && end == begin + |text|;
    Ended(o2, begin, e, text);
    b[end] := NUL;
    assert b[..] == o2[end := NUL] && b[..begin] == o2[..begin];
    next := if atTag then s + 1 else s;
    AfterEnd(o1, o2, s, end, next);
  }

  // Behind the delimiter nothing has changed.
  lemma AfterEnd(o1: seq<byte>, o2: seq<byte>, s: nat, end: nat, next: nat)
    requires |o1| == |o2| && end <= s < |o1| && o2[s..] == o1[s..]
    requires next == s + 1 || (next == s && o1[s] == NUL)
    ensures o2[end := NUL][next..] == o1[next..]
  {
    var n := o2[end := NUL];
    assert o2[s] == o2[s..][0] == o1[s..][0] == o1[s];
    forall k | next <= k < |o1| ensures n[k] == o1[k] { assert o2[k] == o2[s..][k - s] == o1[s..][k - s] == o1[k]; }
  }

  lemma BehindScan(o: seq<byte>, o1: seq<byte>, s: nat, next: nat)
    requires |o| == |o1| && s <= next <= |o| && o1[s..] == o[s..]
    ensures o1[next..] == o[next..] && (s < |o| ==> o1[s] == o[s])
  {
    assert o1[next..] == o1[s..][next - s..] == o[s..][next - s..];
    if s < |o| { assert o1[s] == o1[s..][0] == o[s..][0]; }
  }

  /** strconv_pcdata: the text up to the next tag or the end of the buffer.
      Returns where to go on: behind the '<', or at the final NUL. */
  method ParsePcdata(b: array<byte>, begin: nat, trim: bool, eol: bool, escape: bool, ghost e: nat, ghost t: seq<byte>) returns (next: nat)
    requires begin < b.Length && b[b.Length - 1] == NUL
    requires t == Decode(Mode(LT, eol, false, false, escape), b[..], begin) && e == DecodeEnd(Mode(LT, eol, false, false, escape), b[..], begin)
    modifies b
    ensures Holds(b[..], begin, if trim then TrimEnd(t) else t)
    ensures begin <= e < b.Length && next == (if old(b[..])[e] == LT then e + 1 else e)
    ensures b[next..] == old(b[..])[next..] && b[..begin] == old(b[..begin])
  {
    var g := new Gap();
    ghost var o := b[..];
    assert b[begin..begin] == [];
    var s := Scan(b, g, begin, begin, Mode(LT, eol, false, false, escape));
    ghost var o1 := b[..];
    BehindScan(o, o1, s, s);
    next := FinishText(b, g, begin, s, trim, t);
    BehindScan(o, o1, s, next);
  }

  method FinishAttribute(b: array<byte>, g: Gap, begin: nat, s: nat, ghost t: seq<byte>)
    requires g.Ok(b, begin, s) && g.Text(b, begin, s) == t && s < b.Length
    modifies b
    ensures Holds(b[..], begin, t) && b[s + 1..] == old(b[..])[s + 1..] && b[..begin] == old(b[..begin])
  {
    ghost var o1 := b[..];
    var e := g.Flush(b, begin, s);
    ghost var o2 := b[..];
    Ended(o2, begin, e, t);
    b[e] := NUL;
    assert b[..] == o2[e := NUL] && b[..begin] == o2[..begin];
    AfterEnd(o1, o2, s, e, s + 1);
  }

  /** parse_simple, parse_eol and parse_wconv: an attribute value up to its quote.
      Returns the position behind the quote, or -1 (null) if there is none. */
  method ParseAttribute(b: array<byte>, begin: nat, quote: byte, eol: bool, wconv: bool, escape: bool, ghost e: nat, ghost t: seq<byte>) returns (next: int)
    requires begin < b.Length && b[b.Length - 1] == NUL && (quote == QUOT || quote == APOS)
    requires t == Decode(Mode(quote, eol, wconv, false, escape), b[..], begin) && e == DecodeEnd(Mode(quote, eol, wconv, false, escape), b[..], begin)
    modifies b
    ensures e < b.Length && next == (if old(b[..])[e] == quote then e + 1 else -1)
    ensures next != -1 ==> Holds(b[..], begin, t) && b[next..] == old(b[..])[next..]
    ensures b[..begin] == old(b[..begin])
  {
    var g := new Gap();
    ghost var o := b[..];
    assert b[begin..begin] == [];
    var s := Scan(b, g, begin, begin, Mode(quote, eol, wconv, false, escape));
    BehindScan(o, b[..], s, s);
    if b[s] != quote { return -1; }
    BehindScan(o, b[..], s, s + 1);
    FinishAttribute(b, g, begin, s, t);
    next := s + 1;
  }

  /** parse_wnorm: leading and trailing white space goes, runs inside become one space. */
  method ParseAttributeNormalized(b: array<byte>, begin: nat, quote: byte, escape: bool, ghost e: nat, ghost t: seq<byte>) returns (next: int)
    requires 0 < begin < b.Length && b[b.Length - 1] == NUL && (quote == QUOT || quote == APOS) && b[begin - 1] == quote
    requires t == Decode(Mode(quote, false, false, true, escape), b[..], begin + SpaceRun(b[..], begin))
    requires e == DecodeEnd(Mode(quote, false, false, true, escape), b[..], begin + SpaceRun(b[..], begin))
    modifies b
    ensures e < b.Length && next == (if old(b[..])[e] == quote then e + 1 else -1)
    ensures next != -1 ==> Holds(b[..], begin, TrimEnd(t)) && b[next..] == old(b[..])[next..]
    ensures b[..begin] == old(b[..begin])
  {
    var g := new Gap();
    ghost var o := b[..];
    var s := ScanNormalized(b, g, begin, Mode(quote, false, false, true, escape));
    assert s == e && g.Text(b, begin, s) == t;
    if b[s] != quote { return -1; }
    BehindScan(o, b[..], s, s + 1);
    assert b[begin - 1] == b[..begin][begin - 1] == o[..begin][begin - 1];
    FinishNormalized(b, g, begin, s, quote, t);
    next := s + 1;
  }

  method ScanNormalized(b: array<byte>, g: Gap, begin: nat, m: Mode) returns (s: nat)
    requires begin < b.Length && b[b.Length - 1] == NUL && g.end == -1 && g.size == 0 && Delimiter(m.stop)
    modifies b, g
    ensures g.Ok(b, begin, s) && s < b.Length && b[s..] == old(b[s..]) && b[..begin] == old(b[..begin]) && b[s] == old(b[..])[s]
    ensures var first := begin + SpaceRun(old(b[..]), begin);
            s == DecodeEnd(m, old(b[..]), first) && g.Text(b, begin, s) == Decode(m, old(b[..]), first)
  {
    ghost var o := b[..];
    var s0 := SkipSpace(b, g, begin);
    s := Scan(b, g, begin, s0, m);
    assert b[s] == b[s..][0] == o[s..][0];
  }

  // Leading white space becomes the first hole.
  method SkipSpace(b: array<byte>, g: Gap, begin: nat) returns (s0: nat)
    requires begin < b.Length && b[b.Length - 1] == NUL && g.end == -1 && g.size == 0
    modifies b, g
    ensures s0 == begin + SpaceRun(old(b[..]), begin) && s0 < b.Length && b[..] == old(b[..])
    ensures g.Ok(b, begin, s0) && g.Text(b, begin, s0) == []
  {
    ghost var o := b[..];
    assert b[begin..begin] == [];
    var n := CountSpace(b, begin);
    s0 := begin;
    if n != 0 {
      s0 := g.Push(b, begin, begin, n);
      assert b[..] == b[..begin] + b[begin..];
      assert o == o[..begin] + o[begin..];
    }
  }

  method FinishNormalized(b: array<byte>, g: Gap, begin: nat, s: nat, quote: byte, ghost t: seq<byte>)
    requires g.Ok(b, begin, s) && g.Text(b, begin, s) == t && 0 < begin && s < b.Length && b[begin - 1] == quote && !IsSpace(quote)
    modifies b
    ensures Holds(b[..], begin, TrimEnd(t)) && b[s + 1..] == old(b[..])[s + 1..] && b[..begin] == old(b[..begin])
  {
    ghost var o1 := b[..];
    var e := g.Flush(b, begin, s);
    assert b[begin - 1] == b[..begin][begin - 1] == o1[..begin][begin - 1];
    ghost var o2 := b[..];
    BehindScan(o1, o2, s, s + 1);
    var end := ZeroTail(b, begin, e, s, quote, t);
  }

  // do *str-- = 0; while (ct_space): stops at the opening quote at the latest.
  method ZeroTail(b: array<byte>, begin: nat, e: nat, ghost s: nat, quote: byte, ghost t: seq<byte>) returns (end: nat)
    requires 0 < begin <= e <= s < b.Length && b[begin - 1] == quote && !IsSpace(quote) && b[begin..e] == t
    modifies b
    ensures end == begin + |TrimEnd(t)| && Holds(b[..], begin, TrimEnd(t))
    ensures b[s + 1..] == old(b[..])[s + 1..] && b[..begin] == old(b[..begin])
  {
    ghost var o := b[..];
    end := e;
    b[end] := NUL;
    while IsSpace(b[end - 1])
      invariant begin <= end <= e && b[end] == NUL
      invariant forall k :: 0 <= k < end || s < k < b.Length ==> b[k] == o[k]
      invariant TrimEnd(o[begin..end]) == TrimEnd(t)
      decreases end
    {
      if end != begin { assert o[begin..end][..end - begin - 1] == o[begin..end - 1]; }
      end := end - 1;
      b[end] := NUL;
    }
    assert end != begin ==> o[begin..end][end - begin - 1] == o[end - 1];
    assert o[begin..end] == TrimEnd(t);
    assert b[..][begin..end] == o[begin..end];
  }
}
