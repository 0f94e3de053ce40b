/** Which trees come back from printing and parsing (pugixml.cpp, node_output and
    parse_tree): exactly the good ones.  Whatever is parsed has proper names and no NUL in
    a value; parsed from printed text, it is good. */
module XmlExact {
  import opened Bytes
  import opened Options
  import opened Unescape
  import opened XmlSyntax
  import opened XmlRoundTrip

  // ---------------------------------------------------------------------
  // Trees as the parser builds them: from any text, and (strict) from printed text.

  predicate ShapedAttr(a: Attr, strict: bool) {
    GoodName(a.name) && NulFree(a.value) && (strict ==> GoodAttr(a))
  }

  predicate ShapedText(v: seq<byte>, strict: bool) {
    NulFree(v) && (strict ==> GoodText(v))
  }

  predicate Shaped(t: Tree, strict: bool)
    decreases t, 0
  {
    match t
    case Text(v) => ShapedText(v, strict)
    case Elem(name, attrs, kids) => GoodName(name) && (forall i :: 0 <= i < |attrs| ==> ShapedAttr(attrs[i], strict)) && ShapedAll(kids, strict)
  }

  predicate ShapedAll(kids: seq<Tree>, strict: bool)
    decreases kids, 1
  {
    && (forall i :: 0 <= i < |kids| ==> Shaped(kids[i], strict))
    && (forall i :: 0 <= i < |kids| - 1 ==> kids[i].Elem? || kids[i + 1].Elem?)
  }

  predicate AllElements(kids: seq<Tree>) {
    forall i :: 0 <= i < |kids| ==> kids[i].Elem?
  }

  lemma {:induction false} ShapedIsGood(t: Tree)
    requires Shaped(t, true)
    ensures Good(t)
    decreases t, 0
  {
    if t.Elem? { ShapedAreGood(t.kids); }
  }

  lemma {:induction false} ShapedAreGood(kids: seq<Tree>)
    requires ShapedAll(kids, true)
    ensures GoodAll(kids)
    decreases kids, 1
  {
    forall i | 0 <= i < |kids| ensures Good(kids[i]) { ShapedIsGood(kids[i]); }
  }

  // ---------------------------------------------------------------------
  // Clean text: every '&' begins something that the printer writes for a character, and
  // line ends are written so in tags only.

  ghost predicate InTagFrom(b: seq<byte>, j: nat, i: nat) {
    j < i <= |b| && b[j] == LT && forall k :: j < k < i ==> b[k] != GT
  }

  ghost predicate InTag(b: seq<byte>, i: nat) {
    exists j :: InTagFrom(b, j, i)
  }

  ghost predicate OutsideFrom(b: seq<byte>, j: nat, s: nat) {
    j <= s <= |b| && (j == 0 || b[j - 1] == GT) && forall k :: j <= k < s ==> b[k] != LT
  }

  ghost predicate Outside(b: seq<byte>, s: nat) {
    exists j :: OutsideFrom(b, j, s)
  }

  lemma NotBoth(b: seq<byte>, i: nat)
    requires Outside(b, i)
    ensures !InTag(b, i)
  {
    var j :| OutsideFrom(b, j, i);
    forall l: nat ensures !InTagFrom(b, l, i) { }
  }

  lemma OutsideOn(b: seq<byte>, s: nat, e: nat)
    requires s <= e <= |b| && Outside(b, s) && forall k :: s <= k < e ==> b[k] != LT
    ensures Outside(b, e)
  {
    var j :| OutsideFrom(b, j, s);
    assert OutsideFrom(b, j, e);
  }

  lemma OutsideBehind(b: seq<byte>, e: nat)
    requires e < |b| && b[e] == GT
    ensures Outside(b, e + 1)
  {
    assert OutsideFrom(b, e + 1, e + 1);
  }

  ghost predicate IsEscape(b: seq<byte>, i: nat, k: Kind, c: byte) {
    Special(k, c) && c != NUL && Lit(b, i, EscapeByte(k, c))
  }

  predicate AmpAt(b: seq<byte>, i: nat) {
    i < |b| && b[i] == AMP
  }

  ghost predicate CleanAt(b: seq<byte>, i: nat) {
    exists k, c :: IsEscape(b, i, k, c) && (c == LF || c == CR ==> InTag(b, i))
  }

  ghost predicate Clean(b: seq<byte>) {
    forall i: nat :: AmpAt(b, i) ==> CleanAt(b, i)
  }

  // part is in the text at n.
  predicate PartAt(part: seq<byte>, n: nat, b: seq<byte>) {
    n + |part| <= |b| && forall k :: n <= k < n + |part| ==> b[k] == part[k - n]
  }

  lemma Parts(x: seq<byte>, y: seq<byte>)
    ensures PartAt(x, 0, x + y) && PartAt(y, |x|, x + y)
  {
  }

  lemma EscapeMoves(part: seq<byte>, i: nat, k: Kind, c: byte, n: nat, b: seq<byte>)
    requires IsEscape(part, i, k, c) && PartAt(part, n, b)
    ensures IsEscape(b, n + i, k, c)
  {
    var e := EscapeByte(k, c);
    forall j | 0 <= j < |e| ensures b[n + i + j] == e[j] { LitAt(part, i, e, j); }
  }

  lemma InTagMoves(part: seq<byte>, i: nat, n: nat, b: seq<byte>)
    requires InTag(part, i) && PartAt(part, n, b)
    ensures InTag(b, n + i)
  {
    var j: nat :| InTagFrom(part, j, i);
    assert InTagFrom(b, n + j, n + i);
  }

  lemma CleanMoves(part: seq<byte>, i: nat, n: nat, b: seq<byte>)
    requires CleanAt(part, i) && PartAt(part, n, b)
    ensures CleanAt(b, n + i)
  {
    var k, c :| IsEscape(part, i, k, c) && (c == LF || c == CR ==> InTag(part, i));
    EscapeMoves(part, i, k, c, n, b);
    if InTag(part, i) { InTagMoves(part, i, n, b); }
  }

  lemma CleanPart(part: seq<byte>, n: nat, b: seq<byte>, i: nat)
    requires Clean(part) && PartAt(part, n, b) && n <= i < n + |part| && AmpAt(b, i)
    ensures CleanAt(b, i)
  {
    assert AmpAt(part, i - n);
    CleanMoves(part, i - n, n, b);
  }

  lemma CleanSum(x: seq<byte>, y: seq<byte>)
    requires Clean(x) && Clean(y)
    ensures Clean(x + y)
  {
    var b := x + y;
    Parts(x, y);
    forall i: nat | AmpAt(b, i) ensures CleanAt(b, i) {
      if i < |x| { CleanPart(x, 0, b, i); } else { CleanPart(y, |x|, b, i); }
    }
  }

  lemma PlainClean(x: seq<byte>)
    requires forall i :: 0 <= i < |x| ==> x[i] != AMP
    ensures Clean(x)
  {
  }

  // ---------------------------------------------------------------------
  // What is printed is clean.

  // Inside a tag.
  ghost predicate EscapedAt(x: seq<byte>, i: nat) {
    exists k, c :: IsEscape(x, i, k, c)
  }

  ghost predicate Tagged(x: seq<byte>) {
    && (forall i :: 0 <= i < |x| ==> x[i] != GT)
    && forall i: nat :: AmpAt(x, i) ==> EscapedAt(x, i)
  }

  lemma EscapedPart(part: seq<byte>, n: nat, b: seq<byte>, i: nat)
    requires Tagged(part) && PartAt(part, n, b) && n <= i < n + |part| && AmpAt(b, i)
    ensures EscapedAt(b, i)
  {
    assert AmpAt(part, i - n);
    var k, c :| IsEscape(part, i - n, k, c);
    EscapeMoves(part, i - n, k, c, n, b);
  }

  lemma TaggedSum(x: seq<byte>, y: seq<byte>)
    requires Tagged(x) && Tagged(y)
    ensures Tagged(x + y)
  {
    var b := x + y;
    Parts(x, y);
    forall i: nat | AmpAt(b, i) ensures EscapedAt(b, i) {
      if i < |x| { EscapedPart(x, 0, b, i); } else { EscapedPart(y, |x|, b, i); }
    }
  }

  lemma TagIsClean(x: seq<byte>)
    requires Tagged(x)
    ensures Clean([LT] + x)
  {
    var b := [LT] + x;
    Parts([LT], x);
    forall i: nat | AmpAt(b, i) ensures CleanAt(b, i) {
      EscapedPart(x, 1, b, i);
      EscapedInTag(b, 0, i);
    }
  }

  lemma EscapedInTag(b: seq<byte>, j: nat, i: nat)
    requires EscapedAt(b, i) && InTagFrom(b, j, i)
    ensures CleanAt(b, i)
  {
    var k, c :| IsEscape(b, i, k, c);
  }

  // What is written for one character.
  lemma EscapedByte(k: Kind, c: byte)
    requires c != NUL
    ensures var e := EscapeByte(k, c);
            && (e[0] == AMP ==> IsEscape(e, 0, k, c)) && (forall j :: 0 < j < |e| ==> e[j] != AMP)
            && (forall j :: 0 <= j < |e| ==> e[j] != GT && (Special(k, c) ==> e[j] != LT))
  {
    var e := EscapeByte(k, c);
    if Special(k, c) { assert Lit(e, 0, e); }
  }

  lemma {:induction false} ValueTagged(s: seq<byte>)
    requires NulFree(s)
    ensures Tagged(Escape(Attribute, s))
    decreases |s|
  {
    if s != [] {
      EscapedByte(Attribute, s[0]);
      ValueTagged(s[1..]);
      TaggedSum(EscapeByte(Attribute, s[0]), Escape(Attribute, s[1..]));
    }
  }

  lemma {:induction false} TextClean(s: seq<byte>)
    requires NulFree(s)
    ensures Clean(Escape(Pcdata, s))
    decreases |s|
  {
    if s != [] {
      var e := EscapeByte(Pcdata, s[0]);
      EscapedByte(Pcdata, s[0]);
      assert e[0] == AMP ==> CleanAt(e, 0);
      TextClean(s[1..]);
      CleanSum(e, Escape(Pcdata, s[1..]));
    }
  }

  lemma NameTagged(n: seq<byte>)
    requires GoodName(n)
    ensures Tagged(n)
  {
  }

  lemma {:induction false} AttrTagged(a: Attr)
    requires GoodName(a.name) && NulFree(a.value)
    ensures Tagged(PrintAttr(a))
  {
    NameTagged(a.name);
    ValueTagged(a.value);
    TaggedSum([SPACE], a.name);
    TaggedSum([SPACE] + a.name, [EQUALS, QUOT]);
    TaggedSum([SPACE] + a.name + [EQUALS, QUOT], Escape(Attribute, a.value));
    TaggedSum([SPACE] + a.name + [EQUALS, QUOT] + Escape(Attribute, a.value), [QUOT]);
  }

  lemma {:induction false} AttrsTagged(attrs: seq<Attr>)
    requires forall i :: 0 <= i < |attrs| ==> ShapedAttr(attrs[i], false)
    ensures Tagged(PrintAttrs(attrs))
    decreases |attrs|
  {
    if attrs != [] {
      AttrTagged(attrs[0]);
      AttrsTagged(attrs[1..]);
      TaggedSum(PrintAttr(attrs[0]), PrintAttrs(attrs[1..]));
    }
  }

  lemma {:induction false} OpenClean(t: Tree)
    requires t.Elem? && Shaped(t, false)
    ensures Clean(PrintOpen(t))
  {
    NameTagged(t.name);
    AttrsTagged(t.attrs);
    TaggedSum(t.name, PrintAttrs(t.attrs));
    TagIsClean(t.name + PrintAttrs(t.attrs));
    assert [LT] + (t.name + PrintAttrs(t.attrs)) == PrintOpen(t);
  }

  lemma {:induction false} PrintClean(t: Tree)
    requires Shaped(t, false)
    ensures Clean(Print(t))
    decreases t, 0
  {
    match t
    case Text(v) => TextClean(v);
    case Elem(name, attrs, kids) =>
      OpenClean(t);
      if kids == [] {
        CleanSum(PrintOpen(t), [SPACE, SLASH, GT]);
      } else {
        PrintAllClean(kids);
        PlainClean(PrintClose(t));
        CleanSum(PrintOpen(t), [GT]);
        CleanSum(PrintOpen(t) + [GT], PrintAll(kids));
        CleanSum(PrintOpen(t) + [GT] + PrintAll(kids), PrintClose(t));
      }
  }

  lemma {:induction false} PrintAllClean(kids: seq<Tree>)
    requires ShapedAll(kids, false)
    ensures Clean(PrintAll(kids))
    decreases kids, 1
  {
    if kids != [] {
      PrintClean(kids[0]);
      var rest := kids[1..];
      forall i | 0 <= i < |rest| - 1 ensures rest[i].Elem? || rest[i + 1].Elem? { assert kids[i + 1].Elem? || kids[i + 2].Elem?; }
      PrintAllClean(kids[1..]);
      CleanSum(Print(kids[0]), PrintAll(kids[1..]));
    }
  }

  lemma LastCut(p: seq<byte>, b: seq<byte>)
    requires p != [] && Clean(p) && p[|p| - 1] == GT && b == p[..|p| - 1] + [NUL]
    ensures Clean(b)
  {
    forall i: nat | AmpAt(b, i) ensures CleanAt(b, i) {
      assert AmpAt(p, i);
      var k, c :| IsEscape(p, i, k, c) && (c == LF || c == CR ==> InTag(p, i));
      EscapeBefore(p, b, i, k, c);
      if j: nat :| InTagFrom(p, j, i) { assert InTagFrom(b, j, i); }
    }
  }

  lemma EscapeBefore(p: seq<byte>, b: seq<byte>, i: nat, k: Kind, c: byte)
    requires p != [] && p[|p| - 1] == GT && b == p[..|p| - 1] + [NUL] && IsEscape(p, i, k, c)
    ensures IsEscape(b, i, k, c)
  {
    var e := EscapeByte(k, c);
    EscapedByte(k, c);
    LitAt(p, i, e, |e| - 1);
    forall j | 0 <= j < |e| ensures b[i + j] == e[j] { LitAt(p, i, e, j); }
  }

  // ---------------------------------------------------------------------
  // What is read from clean text.

  lemma {:induction false} CleanReference(b: seq<byte>, i: nat) returns (n: nat, c: byte)
    requires Clean(b) && AmpAt(b, i)
    ensures Reference(b, i) == Some((n, [c])) && i + n <= |b| && c != NUL && c != TAB && c != SPACE
    ensures forall k :: i <= k < i + n ==> b[k] != LT
    ensures Outside(b, i) ==> !IsSpace(c)
  {
    var k: Kind, x: byte :| IsEscape(b, i, k, x) && (x == LF || x == CR ==> InTag(b, i));
    c := x;
    var e := EscapeByte(k, c);
    n := |e|;
    EscapeIsReference(k, c, b, i);
    EscapedByte(k, c);
    forall j | i <= j < i + n ensures b[j] != LT { LitAt(b, i, e, j - i); }
    if Outside(b, i) { NotBoth(b, i); }
  }

  // One token of text outside tags.
  lemma {:induction false} TextToken(b: seq<byte>, s: nat) returns (n: nat, c: byte)
    requires Clean(b) && s <= |b| && Outside(b, s) && !Stops(TEXT_MODE, b, s)
    ensures Token(TEXT_MODE, b, s) == (n, [c]) && 1 <= n && s + n <= |b| && c != NUL && c != CR && Outside(b, s + n)
    ensures IsSpace(c) <==> IsSpace(b[s])
    ensures IsSpace(b[s]) ==> forall k :: s <= k < s + n ==> IsSpace(b[k])
  {
    if b[s] == AMP {
      n, c := CleanReference(b, s);
      ReferenceToken(TEXT_MODE, b, s, n, c);
    } else {
      n, c := PlainToken(b, s);
    }
    OutsideOn(b, s, s + n);
  }

  lemma {:induction false} ReferenceToken(m: Mode, b: seq<byte>, s: nat, n: nat, c: byte)
    requires s < |b| && b[s] == AMP && m.escape && Reference(b, s) == Some((n, [c]))
    ensures Token(m, b, s) == (n, [c]) && 1 <= n
  {
  }

  lemma {:induction false} PlainToken(b: seq<byte>, s: nat) returns (n: nat, c: byte)
    requires !Stops(TEXT_MODE, b, s) && b[s] != AMP
    ensures Token(TEXT_MODE, b, s) == (n, [c]) && 1 <= n && s + n <= |b| && c != NUL && c != CR
    ensures forall k :: s <= k < s + n ==> b[k] != LT
    ensures IsSpace(c) <==> IsSpace(b[s])
    ensures IsSpace(b[s]) ==> forall k :: s <= k < s + n ==> IsSpace(b[k])
  {
    var t := Token(TEXT_MODE, b, s);
    n, c := t.0, t.1[0];
  }

  predicate Lacks(d: seq<byte>, c: byte) {
    forall k :: 0 <= k < |d| ==> d[k] != NUL && d[k] != c
  }

  lemma LacksMore(x: byte, d: seq<byte>, c: byte)
    requires x != NUL && x != c && Lacks(d, c)
    ensures Lacks([x] + d, c)
  {
  }

  lemma {:induction false} TextRead(b: seq<byte>, s: nat)
    requires Clean(b) && s <= |b| && Outside(b, s)
    ensures Lacks(Decode(TEXT_MODE, b, s), CR)
    decreases |b| - s
  {
    if !Stops(TEXT_MODE, b, s) {
      var n, c := TextToken(b, s);
      TextRead(b, s + n);
      LacksMore(c, Decode(TEXT_MODE, b, s + n), CR);
      DecodeToken(TEXT_MODE, b, s, n, [c]);
    }
  }

  // Text that begins with white space and goes on is not all white space.
  lemma {:induction false} NotBlank(b: seq<byte>, s: nat, p: nat) returns (k: nat)
    requires Clean(b) && s <= |b| && Outside(b, s) && p == AfterSpace(b, s) && !Stops(TEXT_MODE, b, p)
    ensures k < |Decode(TEXT_MODE, b, s)| && !IsSpace(Decode(TEXT_MODE, b, s)[k])
    decreases |b| - s
  {
    if p == s {
      var n, c := TextToken(b, s);
      k := 0;
    } else {
      assert IsSpace(b[s]);
      var n, c := TextToken(b, s);
      SpaceOn(b, s, n);
      k := NotBlank(b, s + n, p);
      k := k + 1;
    }
  }

  lemma {:induction false} SpaceOn(b: seq<byte>, s: nat, n: nat)
    requires s + n <= |b| && forall k :: s <= k < s + n ==> IsSpace(b[k])
    ensures AfterSpace(b, s + n) == AfterSpace(b, s)
    decreases n
  {
    if n > 0 { SpaceOn(b, s + 1, n - 1); }
  }

  lemma {:induction false} ValueRead(b: seq<byte>, v: nat, m: Mode)
    requires Clean(b) && m.wconv && !m.wnorm && m.escape
    ensures Lacks(Decode(m, b, v), TAB)
    decreases |b| - v
  {
    if !Stops(m, b, v) {
      var n, c := ValueToken(b, v, m);
      ValueRead(b, v + n, m);
      LacksMore(c, Decode(m, b, v + n), TAB);
      DecodeToken(m, b, v, n, [c]);
    }
  }

  lemma {:induction false} ValueToken(b: seq<byte>, v: nat, m: Mode) returns (n: nat, c: byte)
    requires Clean(b) && m.wconv && !m.wnorm && m.escape && !Stops(m, b, v)
    ensures Token(m, b, v) == (n, [c]) && 1 <= n && c != NUL && c != TAB
  {
    if b[v] == AMP {
      n, c := CleanReference(b, v);
      ReferenceToken(m, b, v, n, c);
    } else {
      var t := Token(m, b, v);
      n, c := t.0, t.1[0];
    }
  }

  // ---------------------------------------------------------------------
  // What the parser keeps.

  ghost predicate OpenShaped(o: Open, strict: bool) {
    GoodName(o.name) && (forall i :: 0 <= i < |o.attrs| ==> ShapedAttr(o.attrs[i], strict)) && ShapedAll(o.kids, strict)
  }

  ghost predicate StackShaped(stack: seq<Open>, strict: bool) {
    && stack != [] && ShapedAll(stack[0].kids, strict) && AllElements(stack[0].kids)
    && forall i :: 1 <= i < |stack| ==> OpenShaped(stack[i], strict)
  }

  // The last child so far is no text.
  ghost predicate NoTextLast(stack: seq<Open>) {
    stack != [] && var kids := stack[|stack| - 1].kids; kids == [] || kids[|kids| - 1].Elem?
  }

  ghost predicate Keeps(b: seq<byte>, x: State, strict: bool) {
    match x
    case Done(r) => r.Ok? ==> ShapedAll(r.kids, strict) && AllElements(r.kids)
    case At(phase, s, stack) =>
      && StackShaped(stack, strict) && (phase == Content || phase == Attributes ==> NoTextLast(stack))
      && (strict && phase == Content && s < |b| ==> b[s] == NUL || Outside(b, s))
  }

  lemma {:induction false} KidAdded(stack: seq<Open>, t: Tree, strict: bool)
    requires StackShaped(stack, strict) && Shaped(t, strict) && (t.Text? ==> 2 <= |stack| && NoTextLast(stack))
    ensures StackShaped(AddKid(stack, t), strict) && (t.Elem? ==> NoTextLast(AddKid(stack, t)))
  {
    var top := stack[|stack| - 1];
    var kids := top.kids + [t];
    forall i | 0 <= i < |kids| - 1 ensures kids[i].Elem? || kids[i + 1].Elem? {
      if i + 1 < |top.kids| { assert top.kids[i].Elem? || top.kids[i + 1].Elem?; }
    }
    assert ShapedAll(kids, strict);
  }

  lemma {:induction false} Popped(stack: seq<Open>, strict: bool)
    requires 2 <= |stack| && StackShaped(stack, strict)
    ensures StackShaped(Pop(stack), strict) && NoTextLast(Pop(stack))
  {
    var top := stack[|stack| - 1];
    assert OpenShaped(top, strict);
    KidAdded(stack[..|stack| - 1], Elem(top.name, top.attrs, top.kids), strict);
  }

  lemma {:induction false} Pushed(stack: seq<Open>, name: seq<byte>, strict: bool)
    requires StackShaped(stack, strict) && GoodName(name)
    ensures var inner := stack + [Open(name, [], [])]; StackShaped(inner, strict) && NoTextLast(inner)
  {
    assert ShapedAll([], strict);
  }

  lemma {:induction false} AttrAdded(stack: seq<Open>, a: Attr, strict: bool)
    requires 2 <= |stack| && StackShaped(stack, strict) && NoTextLast(stack) && ShapedAttr(a, strict)
    ensures StackShaped(AddAttr(stack, a), strict) && NoTextLast(AddAttr(stack, a))
  {
    assert OpenShaped(stack[|stack| - 1], strict);
  }

  lemma {:induction false} ContentKeeps(b: seq<byte>, endch: byte, s: nat, stack: seq<Open>, strict: bool)
    requires s < |b| && StackShaped(stack, strict) && NoTextLast(stack) && (strict ==> Clean(b) && (b[s] == NUL || Outside(b, s)))
    ensures Keeps(b, NextContent(b, endch, s, stack), strict)
  {
    if b[s] != NUL && b[s] != LT {
      var p := AfterSpace(b, s);
      if p > s && (ByteAt(b, p) == LT || ByteAt(b, p) == NUL) {
        if strict { OutsideOn(b, s, p); }
      } else if |stack| > 1 {
        TextKept(b, s, p, Decode(TEXT_MODE, b, s), strict);
        KidAdded(stack, Text(CString(Decode(TEXT_MODE, b, s))), strict);
      }
    }
  }

  lemma {:induction false} TextKept(b: seq<byte>, s: nat, p: nat, d: seq<byte>, strict: bool)
    requires s < |b| && (strict ==> Clean(b) && Outside(b, s)) && b[s] != NUL && b[s] != LT
    requires p == AfterSpace(b, s) && !(p > s && (ByteAt(b, p) == LT || ByteAt(b, p) == NUL))
    requires d == Decode(TEXT_MODE, b, s)
    ensures ShapedText(CString(d), strict)
  {
    CStringNulFree(d);
    if strict {
      TextRead(b, s);
      var k := NotBlank(b, s, p);
      LacksIsGood(d, k);
    }
  }

  lemma LacksIsGood(d: seq<byte>, k: nat)
    requires Lacks(d, CR) && k < |d| && !IsSpace(d[k])
    ensures CString(d) == d && GoodText(d)
  {
    CStringOf(d);
  }

  lemma {:induction false} CStringNulFree(d: seq<byte>)
    ensures NulFree(CString(d))
  {
    var n := CLength(d, 0);
    assert forall k :: 0 <= k < n ==> d[k] != NUL;
  }

  // Behind a '>' or at the end there is content.
  lemma {:induction false} ContentAt(b: seq<byte>, p: nat, stack: seq<Open>, strict: bool)
    requires StackShaped(stack, strict) && NoTextLast(stack)
    ensures ByteAt(b, p) == GT ==> Keeps(b, At(Content, p + 1, stack), strict)
    ensures ByteAt(b, p) == NUL ==> Keeps(b, At(Content, p, stack), strict)
  {
    if ByteAt(b, p) == GT { OutsideBehind(b, p); }
  }

  lemma {:induction false} TagKeeps(b: seq<byte>, endch: byte, s: nat, stack: seq<Open>, strict: bool)
    requires s < |b| && StackShaped(stack, strict)
    ensures Keeps(b, NextTag(b, endch, s, stack), strict)
  {
    if IsStart(b[s]) {
      var e := s + SymbolRun(b, s);
      NameShaped(b, s);
      var inner := stack + [Open(b[s..e], [], [])];
      Pushed(stack, b[s..e], strict);
      Popped(inner, strict);
      StartKeeps(b, endch, s, stack, e, inner, Pop(inner), strict);
    }
  }

  lemma {:induction false} StartKeeps(b: seq<byte>, endch: byte, s: nat, stack: seq<Open>, e: nat, inner: seq<Open>, outer: seq<Open>, strict: bool)
    requires s < |b| && stack != [] && IsStart(b[s]) && e == s + SymbolRun(b, s)
    requires inner == stack + [Open(b[s..e], [], [])] && outer == Pop(inner)
    requires StackShaped(inner, strict) && NoTextLast(inner) && StackShaped(outer, strict) && NoTextLast(outer)
    ensures Keeps(b, NextTag(b, endch, s, stack), strict)
  {
    ContentAt(b, e, inner, strict);
    ContentAt(b, e + 1, outer, strict);
    StartLeads(b, endch, s, stack, e, inner, outer, NextTag(b, endch, s, stack));
  }

  // Where a start tag leads.
  lemma {:induction false} StartLeads(b: seq<byte>, endch: byte, s: nat, stack: seq<Open>, e: nat, inner: seq<Open>, outer: seq<Open>, r: State)
    requires s < |b| && stack != [] && IsStart(b[s]) && e == s + SymbolRun(b, s) && r == NextTag(b, endch, s, stack)
    requires inner == stack + [Open(b[s..e], [], [])] && outer == Pop(inner)
    ensures r == Done(Error) || r == At(Attributes, e + 1, inner)
         || (r == At(Content, e + 1, inner) && ByteAt(b, e) == GT) || (r == At(Content, e, inner) && ByteAt(b, e) == NUL)
         || (r == At(Content, e + 2, outer) && ByteAt(b, e + 1) == GT) || (r == At(Content, e + 1, outer) && ByteAt(b, e + 1) == NUL)
  {
  }

  lemma {:induction false} EndKeeps(b: seq<byte>, endch: byte, s: nat, stack: seq<Open>, strict: bool)
    requires s < |b| && StackShaped(stack, strict)
    ensures Keeps(b, NextEnd(b, endch, s, stack), strict)
  {
    var p := AfterSpace(b, s + SymbolRun(b, s));
    if 2 <= |stack| {
      Popped(stack, strict);
      ContentAt(b, p, Pop(stack), strict);
    }
  }

  lemma {:induction false} AttributesKeep(b: seq<byte>, endch: byte, s0: nat, stack: seq<Open>, strict: bool)
    requires s0 < |b| && 2 <= |stack| && StackShaped(stack, strict) && NoTextLast(stack) && (strict ==> Clean(b))
    ensures Keeps(b, NextAttributes(b, endch, s0, stack), strict)
  {
    var s := AfterSpace(b, s0);
    if IsStart(ByteAt(b, s)) {
      var f := ReadAttribute(b, s);
      if f.Found? {
        AttributeShaped(b, s, strict);
        AttrAdded(stack, f.attr, strict);
      }
    } else {
      Popped(stack, strict);
      ContentAt(b, s, stack, strict);
      ContentAt(b, s + 1, Pop(stack), strict);
    }
  }

  lemma {:induction false} AttributeShaped(b: seq<byte>, s: nat, strict: bool)
    requires IsStart(ByteAt(b, s)) && ReadAttribute(b, s).Found? && (strict ==> Clean(b))
    ensures ShapedAttr(ReadAttribute(b, s).attr, strict)
  {
    var v := ValueAt(b, s);
    ReadsWith(b, s, v);
    ValueShaped(b, v, ValueMode(b[v - 1]), Decode(ValueMode(b[v - 1]), b, v), strict);
    NameShaped(b, s);
  }

  lemma {:induction false} ValueShaped(b: seq<byte>, v: nat, m: Mode, d: seq<byte>, strict: bool)
    requires (strict ==> Clean(b)) && m.wconv && !m.wnorm && m.escape && d == Decode(m, b, v)
    ensures NulFree(CString(d)) && (strict ==> Lacks(CString(d), TAB))
  {
    CStringNulFree(d);
    if strict {
      ValueRead(b, v, m);
      CStringOf(d);
    }
  }

  lemma {:induction false} NameShaped(b: seq<byte>, s: nat)
    requires IsStart(ByteAt(b, s)) && s + SymbolRun(b, s) <= |b|
    ensures GoodName(b[s..s + SymbolRun(b, s)])
  {
  }

  lemma {:induction false} NextKeeps(b: seq<byte>, endch: byte, x: State, strict: bool)
    requires x.At? && StackOk(x) && Keeps(b, x, strict) && (strict ==> Clean(b))
    ensures Keeps(b, Next(b, endch, x), strict)
  {
    if x.s < |b| {
      match x.phase
      case Content => ContentKeeps(b, endch, x.s, x.stack, strict);
      case Tag => TagKeeps(b, endch, x.s, x.stack, strict);
      case EndTag => EndKeeps(b, endch, x.s, x.stack, strict);
      case Attributes => AttributesKeep(b, endch, x.s, x.stack, strict);
    }
  }

  lemma {:induction false} RunKeeps(b: seq<byte>, endch: byte, x: State, strict: bool)
    requires StackOk(x) && Keeps(b, x, strict) && (strict ==> Clean(b))
    ensures Keeps(b, Done(Run(b, endch, x)), strict)
    decreases if x.Done? then 0 else 1, if x.Done? || x.s > |b| then 0 else |b| - x.s, if x.Done? then 0 else Rank(x.phase)
  {
    if x.At? && x.s < |b| {
      NextKeeps(b, endch, x, strict);
      RunKeeps(b, endch, Next(b, endch, x), strict);
    }
  }

  /** Whatever the parser accepts gives elements with proper names and values without NUL;
      strict, for printed text: good ones. */
  lemma {:induction false} ParsedIsShaped(buffer: seq<byte>, strict: bool)
    requires Parse(buffer).Ok? && (strict ==> Clean(buffer) && buffer[|buffer| - 1] == GT)
    ensures Parse(buffer).kids != [] && ShapedAll(Parse(buffer).kids, strict) && AllElements(Parse(buffer).kids)
  {
    var e := |buffer| - 1;
    var b := buffer[..e] + [NUL];
    var s := if Lit(b, 0, BOM) then 3 else 0;
    if strict { LastCut(buffer, b); }
    forall k | 0 <= k < s ensures b[k] != LT { LitAt(b, 0, BOM, k); }
    var x := At(Content, s, [DOCUMENT]);
    assert ShapedAll([], strict);
    assert OutsideFrom(b, 0, 0);
    OutsideOn(b, 0, s);
    RunKeeps(b, buffer[e], x, strict);
  }

  /** Printing and parsing gives the same trees back if and only if they are good elements:
      proper names, no NUL in values, no tab in attributes, no text of white space only or
      with carriage returns, and no text next to text. */
  lemma {:induction false} RoundTripExactly(kids: seq<Tree>)
    ensures Parse(PrintAll(kids)) == Ok(kids) <==> kids != [] && GoodAll(kids) && AllElements(kids)
  {
    if kids != [] && GoodAll(kids) && AllElements(kids) { PrintParse(kids); }
    if Parse(PrintAll(kids)) == Ok(kids) {
      ParsedIsShaped(PrintAll(kids), false);
      PrintAllClean(kids);
      ForestEnds(kids);
      ParsedIsShaped(PrintAll(kids), true);
      ShapedAreGood(kids);
    }
  }
}
