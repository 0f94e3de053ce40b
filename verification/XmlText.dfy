/** What is written and read, spelled out in characters: the predefined entities (XML 1.0
    section 4.6), escaped characters, and the layout of tags in raw output. */
module XmlText {
  import opened Bytes
  import opened Options
  import opened Unescape
  import opened XmlSyntax

  /** The bytes from i on are these characters. */
  predicate SpelledAt(b: seq<byte>, i: nat, s: string) {
    i + |s| <= |b| && forall j :: 0 <= j < |s| ==> b[i + j] == s[j] as int
  }

  predicate Spelled(b: seq<byte>, s: string) {
    |b| == |s| && SpelledAt(b, 0, s)
  }

  // The predefined entities.
  predicate Entity(s: string, c: char) {
    (s == "&amp;" && c == '&') || (s == "&lt;" && c == '<') || (s == "&gt;" && c == '>') || (s == "&quot;" && c == '"') || (s == "&apos;" && c == '\'')
  }

  lemma NameSpelled(b: seq<byte>, i: nat, s: string, name: seq<byte>)
    requires SpelledAt(b, i, s) && Spelled(name, s)
    ensures Lit(b, i, name)
  {
    forall j | 0 <= j < |name| ensures b[i + j] == name[j] { assert name[0 + j] == s[j] as int; }
  }

  lemma Names()
    ensures Spelled(AMP_NAME, "&amp;") && Spelled(LT_NAME, "&lt;") && Spelled(GT_NAME, "&gt;")
    ensures Spelled(QUOT_NAME, "&quot;") && Spelled(APOS_NAME, "&apos;")
  {
  }

  /** An entity is read as its character, whatever stands around it. */
  lemma {:induction false} EntityIsRead(s: string, c: char, b: seq<byte>, i: nat)
    requires Entity(s, c) && SpelledAt(b, i, s)
    ensures Reference(b, i) == Some((|s|, [c as int as byte]))
  {
    Names();
    if c == '\'' {
      NameSpelled(b, i, s, APOS_NAME);
      LitAt(b, i, APOS_NAME, 1);
      OtherName(b, i, APOS_NAME, AMP_NAME);
    } else {
      var name := if c == '&' then AMP_NAME else if c == '<' then LT_NAME else if c == '>' then GT_NAME else QUOT_NAME;
      NameSpelled(b, i, s, name);
      NameIsRead(b, i, name, c as int as byte);
    }
  }

  function Digit(d: nat): char
    requires d < 10
  {
    "0123456789"[d]
  }

  /** What is written for a character: entities, two decimal digits for control characters,
      itself for any other. */
  lemma {:induction false} CharacterWritten(k: Kind, c: byte)
    ensures c == '&' as int ==> Spelled(EscapeByte(k, c), "&amp;")
    ensures c == '<' as int ==> Spelled(EscapeByte(k, c), "&lt;")
    ensures c == '>' as int ==> Spelled(EscapeByte(k, c), "&gt;")
    ensures c == '"' as int ==> Spelled(EscapeByte(k, c), if k == Attribute then "&quot;" else "\"")
    ensures c < 32 && c != TAB && (k == Attribute || (c != LF && c != CR)) ==>
              Spelled(EscapeByte(k, c), ['&', '#', Digit(c / 10), Digit(c % 10), ';'])
    ensures c >= 32 && c != '&' as int && c != '<' as int && c != '>' as int && c != '"' as int ==> EscapeByte(k, c) == [c]
    ensures c == TAB || (k == Pcdata && (c == LF || c == CR)) ==> EscapeByte(k, c) == [c]
  {
    Names();
  }

  predicate Unescaped(k: Kind, s: seq<byte>) {
    forall i :: 0 <= i < |s| ==> !Special(k, s[i])
  }

  lemma {:induction false} WrittenAsIs(k: Kind, s: seq<byte>)
    requires Unescaped(k, s)
    ensures Escape(k, s) == s
  {
    if s != [] { WrittenAsIs(k, s[1..]); }
  }

  predicate Narrow(s: string) {
    forall i :: 0 <= i < |s| ==> s[i] as int < 256
  }

  function Chars(s: string): (b: seq<byte>)
    requires Narrow(s)
    ensures Spelled(b, s)
  {
    seq(|s|, i requires 0 <= i < |s| && s[i] as int < 256 => s[i] as int)
  }

  /** The layout of raw output: <name attribute="value">text</name> and <name />. */
  lemma {:induction false} PrintedPlainly(n: seq<byte>, m: seq<byte>, v: seq<byte>, x: seq<byte>)
    requires Unescaped(Attribute, v) && Unescaped(Pcdata, x)
    ensures Print(Elem(n, [Attr(m, v)], [Text(x)])) ==
            Chars("<") + n + Chars(" ") + m + Chars("=\"") + v + Chars("\">") + x + Chars("</") + n + Chars(">")
    ensures Print(Elem(n, [], [])) == Chars("<") + n + Chars(" />")
  {
    Marks();
    PrintedFull(n, m, v, x);
    PrintedEmpty(n);
    Layout(n, m, v, x, Chars("<"), Chars(" "), Chars("=\""), Chars("\">"), Chars("</"), Chars(">"));
  }

  lemma Marks()
    ensures Chars("<") == [LT] && Chars(" ") == [SPACE] && Chars("=\"") == [EQUALS, QUOT] && Chars("\">") == [QUOT] + [GT]
    ensures Chars("</") == [LT, SLASH] && Chars(">") == [GT] && Chars(" />") == [SPACE, SLASH, GT]
  {
  }

  lemma {:induction false} PrintedFull(n: seq<byte>, m: seq<byte>, v: seq<byte>, x: seq<byte>)
    requires Unescaped(Attribute, v) && Unescaped(Pcdata, x)
    ensures Print(Elem(n, [Attr(m, v)], [Text(x)])) ==
            [LT] + n + ([SPACE] + m + [EQUALS, QUOT] + v + [QUOT]) + [GT] + x + ([LT, SLASH] + n + [GT])
  {
    WrittenAsIs(Attribute, v);
    WrittenAsIs(Pcdata, x);
    var a, k := Attr(m, v), Text(x);
    assert [a][1..] == [] && PrintAttrs([a]) == PrintAttr(a);
    assert [k][1..] == [] && PrintAll([k]) == Print(k) == x;
  }

  lemma {:induction false} PrintedEmpty(n: seq<byte>)
    ensures Print(Elem(n, [], [])) == [LT] + n + [SPACE, SLASH, GT]
  {
    assert PrintAttrs([]) == [];
  }

  lemma Layout(n: seq<byte>, m: seq<byte>, v: seq<byte>, x: seq<byte>, o: seq<byte>, s: seq<byte>, e: seq<byte>, g: seq<byte>, c: seq<byte>, z: seq<byte>)
    requires o == [LT] && s == [SPACE] && e == [EQUALS, QUOT] && g == [QUOT] + [GT] && c == [LT, SLASH] && z == [GT]
    ensures [LT] + n + ([SPACE] + m + [EQUALS, QUOT] + v + [QUOT]) + [GT] + x + ([LT, SLASH] + n + [GT]) == o + n + s + m + e + v + g + x + c + n + z
  {
  }
}
