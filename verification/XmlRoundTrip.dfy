/** Parsing what was printed gives back the tree (pugixml.cpp, parse_tree on the
    output of node_output). */
module XmlRoundTrip {
  import opened Bytes
  import opened Unescape
  import opened XmlSyntax
  import Runs

  // ---------------------------------------------------------------------
  // Trees that come back.

  predicate GoodName(n: seq<byte>) {
    n != [] && IsStart(n[0]) && forall i :: 0 <= i < |n| ==> IsSymbol(n[i])
  }

  predicate GoodAttr(a: Attr) {
    GoodName(a.name) && NulFree(a.value) && forall i :: 0 <= i < |a.value| ==> a.value[i] != TAB
  }

  // Text without carriage returns, and not only white space.
  predicate GoodText(v: seq<byte>) {
    NulFree(v) && (forall i :: 0 <= i < |v| ==> v[i] != CR) && exists i :: 0 <= i < |v| && !IsSpace(v[i])
  }

  predicate Good(t: Tree)
    decreases t, 0
  {
    match t
    case Text(v) => GoodText(v)
    case Elem(name, attrs, kids) => GoodName(name) && (forall i :: 0 <= i < |attrs| ==> GoodAttr(attrs[i])) && GoodAll(kids)
  }

  predicate GoodAll(kids: seq<Tree>)
    decreases kids, 1
  {
    && (forall i :: 0 <= i < |kids| ==> Good(kids[i]))
    && (forall i :: 0 <= i < |kids| - 1 ==> kids[i].Elem? || kids[i + 1].Elem?)
  }

  // The final '>' may be the character that was kept aside.
  predicate GtAt(b: seq<byte>, endch: byte, i: nat) {
    ByteAt(b, i) == GT || (ByteAt(b, i) == NUL && endch == GT)
  }

  function After(b: seq<byte>, i: nat): nat {
    if ByteAt(b, i) == GT then i + 1 else i
  }

  // ---------------------------------------------------------------------
  // Names and values.

  lemma LitAll(b: seq<byte>, i: nat, name: seq<byte>)
    requires Lit(b, i, name)
    ensures b[i..i + |name|] == name
  {
  }

  lemma {:induction false} NameRead(b: seq<byte>, s: nat, name: seq<byte>)
    requires Lit(b, s, name) && (forall i :: 0 <= i < |name| ==> IsSymbol(name[i])) && !IsSymbol(ByteAt(b, s + |name|))
    ensures SymbolRun(b, s) == |name|
    decreases |name|
  {
    if name != [] {
      LitAt(b, s, name, 0);
      LitTail(b, s, name);
      NameRead(b, s + 1, name[1..]);
    }
  }

  lemma LitTail(b: seq<byte>, s: nat, x: seq<byte>)
    requires Lit(b, s, x) && x != []
    ensures Lit(b, s + 1, x[1..])
  {
    forall j | 0 <= j < |x| - 1 ensures b[s + 1 + j] == x[1..][j] { LitAt(b, s, x, j + 1); }
  }

  lemma {:induction false} ValueRead(b: seq<byte>, v: nat, value: seq<byte>)
    requires NulFree(value) && (forall i :: 0 <= i < |value| ==> value[i] != TAB)
    requires Lit(b, v, Escape(Attribute, value)) && ByteAt(b, v + |Escape(Attribute, value)|) == QUOT
    ensures Decode(ValueMode(QUOT), b, v) == value && DecodeEnd(ValueMode(QUOT), b, v) == v + |Escape(Attribute, value)|
  {
    forall i | 0 <= i < |value| ensures Survives(Attribute, true, value[i]) { SurvivorsByKind(true, value[i]); }
    var ends := EscapedEnds(Attribute, true, value, b, v);
    DecodeTokens(ValueMode(QUOT), b, ends, value);
  }

  lemma {:induction false} TextRead(b: seq<byte>, s: nat, value: seq<byte>)
    requires NulFree(value) && (forall i :: 0 <= i < |value| ==> value[i] != CR)
    requires Lit(b, s, Escape(Pcdata, value)) && ByteAt(b, s + |Escape(Pcdata, value)|) == LT
    ensures Decode(TEXT_MODE, b, s) == value && DecodeEnd(TEXT_MODE, b, s) == s + |Escape(Pcdata, value)|
  {
    forall i | 0 <= i < |value| ensures Survives(Pcdata, false, value[i]) { SurvivorsByKind(false, value[i]); }
    var ends := EscapedEnds(Pcdata, false, value, b, s);
    DecodeTokens(TEXT_MODE, b, ends, value);
  }

  // ---------------------------------------------------------------------
  // Attributes.

  lemma {:induction false} AttrParts(b: seq<byte>, s: nat, a: Attr)
    requires Lit(b, s, PrintAttr(a)) && GoodAttr(a)
    ensures var e := s + 1 + |a.name|; var v := e + 2;
            && ByteAt(b, s) == SPACE && Lit(b, s + 1, a.name) && ByteAt(b, e) == EQUALS && ByteAt(b, e + 1) == QUOT
            && Lit(b, v, Escape(Attribute, a.value)) && ByteAt(b, v + |Escape(Attribute, a.value)|) == QUOT
            && s + |PrintAttr(a)| == v + |Escape(Attribute, a.value)| + 1
  {
    var x := Escape(Attribute, a.value);
    assert PrintAttr(a) == [SPACE] + (a.name + ([EQUALS, QUOT] + (x + [QUOT])));
    LitSplit(b, s, [SPACE], a.name + ([EQUALS, QUOT] + (x + [QUOT])));
    LitSplit(b, s + 1, a.name, [EQUALS, QUOT] + (x + [QUOT]));
    LitSplit(b, s + 1 + |a.name|, [EQUALS, QUOT], x + [QUOT]);
    LitSplit(b, s + 1 + |a.name| + 2, x, [QUOT]);
    LitAt(b, s, [SPACE], 0);
    LitAt(b, s + 1 + |a.name|, [EQUALS, QUOT], 0);
    LitAt(b, s + 1 + |a.name|, [EQUALS, QUOT], 1);
    LitAt(b, s + 1 + |a.name| + 2 + |x|, [QUOT], 0);
  }

  lemma {:induction false} NotSpace(b: seq<byte>, i: nat)
    requires !IsSpace(ByteAt(b, i))
    ensures AfterSpace(b, i) == i
  {
  }

  lemma {:induction false} OneSpace(b: seq<byte>, i: nat)
    requires ByteAt(b, i) == SPACE
    ensures AfterSpace(b, i) == AfterSpace(b, i + 1)
  {
  }

  // ---------------------------------------------------------------------
  // Runs of the parser.

  ghost predicate IsNext(b: seq<byte>, endch: byte, x: State, y: State) {
    StackOk(x) && x.At? && x.s < |b| && Next(b, endch, x) == y
  }

  ghost function Step(b: seq<byte>, endch: byte): (State, State) -> bool {
    (x: State, y: State) => IsNext(b, endch, x, y)
  }

  ghost predicate Reads(b: seq<byte>, endch: byte, x: State, y: State) {
    Runs.Leads(Step(b, endch), x, y)
  }

  lemma {:induction false} One(b: seq<byte>, endch: byte, x: State, y: State)
    requires IsNext(b, endch, x, y)
    ensures Reads(b, endch, x, y)
  {
    Runs.OneStep(Step(b, endch), x, y);
  }

  lemma {:induction false} Then(b: seq<byte>, endch: byte, x: State, y: State, z: State)
    requires Reads(b, endch, x, y) && Reads(b, endch, y, z)
    ensures Reads(b, endch, x, z)
  {
    Runs.Then(Step(b, endch), x, y, z);
  }

  lemma {:induction false} RunSteps(b: seq<byte>, endch: byte, n: nat, x: State, y: State)
    requires StackOk(x) && Runs.Steps(Step(b, endch), n, x, y)
    ensures StackOk(y) && Run(b, endch, x) == Run(b, endch, y)
    decreases n
  {
    if n != 0 {
      var z :| Step(b, endch)(x, z) && Runs.Steps(Step(b, endch), n - 1, z, y);
      RunOnce(b, endch, x, z);
      RunSteps(b, endch, n - 1, z, y);
    }
  }

  lemma {:induction false} RunOnce(b: seq<byte>, endch: byte, x: State, y: State)
    requires IsNext(b, endch, x, y)
    ensures StackOk(y) && Run(b, endch, x) == Run(b, endch, y)
  {
  }

  // ---------------------------------------------------------------------
  // Attributes are read one after the other.

  lemma {:induction false} AttrName(b: seq<byte>, s: nat, a: Attr)
    requires Lit(b, s, PrintAttr(a)) && GoodAttr(a)
    ensures var n := s + 1;
            && AfterSpace(b, s) == n && AfterSpace(b, n) == n && IsStart(ByteAt(b, n)) && SymbolRun(b, n) == |a.name|
            && n + |a.name| <= |b| && b[n..n + |a.name|] == a.name
  {
    AttrParts(b, s, a);
    OneSpace(b, s);
    NameAt(b, s + 1, a.name);
  }

  lemma {:induction false} NameAt(b: seq<byte>, n: nat, name: seq<byte>)
    requires Lit(b, n, name) && GoodName(name) && !IsSymbol(ByteAt(b, n + |name|))
    ensures AfterSpace(b, n) == n && IsStart(ByteAt(b, n)) && SymbolRun(b, n) == |name|
    ensures n + |name| <= |b| && b[n..n + |name|] == name
  {
    LitAt(b, n, name, 0);
    NotSpace(b, n);
    NameRead(b, n, name);
    LitAll(b, n, name);
  }

  lemma {:induction false} AttrValueAt(b: seq<byte>, s: nat, a: Attr)
    requires Lit(b, s, PrintAttr(a)) && GoodAttr(a)
    ensures ValueAt(b, s + 1) == s + |a.name| + 3
  {
    AttrName(b, s, a);
    AttrParts(b, s, a);
    NotSpace(b, s + |a.name| + 2);
  }

  lemma {:induction false} AttrValue(b: seq<byte>, s: nat, a: Attr, v: nat, e: nat)
    requires Lit(b, s, PrintAttr(a)) && GoodAttr(a) && v == s + |a.name| + 3 && e == s + |PrintAttr(a)| - 1
    ensures 0 < v <= |b| && b[v - 1] == QUOT && ByteAt(b, e) == QUOT && e < |b|
    ensures CString(Decode(ValueMode(QUOT), b, v)) == a.value && DecodeEnd(ValueMode(QUOT), b, v) == e
  {
    AttrParts(b, s, a);
    ValueRead(b, v, a.value);
    CStringOf(a.value);
  }

  lemma {:induction false} AttributesStep(b: seq<byte>, endch: byte, s: nat, stack: seq<Open>, y: State)
    requires 2 <= |stack| && s < |b| && NextAttributes(b, endch, s, stack) == y
    ensures Reads(b, endch, At(Attributes, s, stack), y)
  {
    One(b, endch, At(Attributes, s, stack), y);
  }

  // An attribute lies between s and e, as the parser finds it.
  ghost predicate AttrAt(b: seq<byte>, s: nat, e: nat, a: Attr) {
    s + 1 < |b| && AfterSpace(b, s) == s + 1 && AfterSpace(b, s + 1) == s + 1 && IsStart(b[s + 1]) && ReadAttribute(b, s + 1) == Found(a, e)
  }

  lemma {:induction false} AttrFound(b: seq<byte>, s: nat, v: nat, e: nat, a: Attr)
    requires s + |a.name| <= |b| && b[s..s + |a.name|] == a.name && SymbolRun(b, s) == |a.name| && v <= |b|
    requires CString(Decode(ValueMode(QUOT), b, v)) == a.value && DecodeEnd(ValueMode(QUOT), b, v) == e
    requires ByteAt(b, e) == QUOT && !IsStart(ByteAt(b, e + 1))
    ensures AttributeWith(b, s, v, QUOT) == Found(a, e + 1)
  {
  }

  lemma {:induction false} AttrIsAt(b: seq<byte>, s: nat, a: Attr)
    requires Lit(b, s, PrintAttr(a)) && GoodAttr(a) && !IsStart(ByteAt(b, s + |PrintAttr(a)|))
    ensures AttrAt(b, s, s + |PrintAttr(a)|, a)
  {
    var v, e := s + |a.name| + 3, s + |PrintAttr(a)| - 1;
    AttrName(b, s, a);
    AttrValueAt(b, s, a);
    AttrTail(b, s, a, v, e);
    AttrAtIs(b, s, v, AttributeWith(b, s + 1, v, QUOT), a, e + 1);
  }

  lemma {:induction false} AttrAtIs(b: seq<byte>, s: nat, v: nat, f: Found, a: Attr, e: nat)
    requires AfterSpace(b, s) == s + 1 && AfterSpace(b, s + 1) == s + 1 && IsStart(ByteAt(b, s + 1))
    requires 0 < v <= |b| && ValueAt(b, s + 1) == v && b[v - 1] == QUOT && AttributeWith(b, s + 1, v, QUOT) == f == Found(a, e)
    ensures AttrAt(b, s, e, a)
  {
    ReadsWith(b, s + 1, v);
  }

  lemma {:induction false} AttrTail(b: seq<byte>, s: nat, a: Attr, v: nat, e: nat)
    requires Lit(b, s, PrintAttr(a)) && GoodAttr(a) && v == s + |a.name| + 3 && e == s + |PrintAttr(a)| - 1
    requires !IsStart(ByteAt(b, e + 1))
    ensures 0 < v <= |b| && b[v - 1] == QUOT && AttributeWith(b, s + 1, v, QUOT) == Found(a, e + 1)
  {
    AttrName(b, s, a);
    AttrValue(b, s, a, v, e);
    AttrFound(b, s + 1, v, e, a);
  }

  // Reading may start at the space in front of the attribute or behind it.
  lemma {:induction false} AttrNext(b: seq<byte>, endch: byte, s: nat, e: nat, s0: nat, a: Attr, stack: seq<Open>)
    requires 2 <= |stack| && AttrAt(b, s, e, a) && (s0 == s || s0 == s + 1)
    ensures s0 < |b| && NextAttributes(b, endch, s0, stack) == At(Attributes, e, AddAttr(stack, a))
  {
  }

  lemma {:induction false} AttrRead(b: seq<byte>, endch: byte, s: nat, e: nat, a: Attr, stack: seq<Open>)
    requires 2 <= |stack| && AttrAt(b, s, e, a)
    ensures Reads(b, endch, At(Attributes, s, stack), At(Attributes, e, AddAttr(stack, a)))
    ensures Reads(b, endch, At(Attributes, s + 1, stack), At(Attributes, e, AddAttr(stack, a)))
  {
    AttrNext(b, endch, s, e, s, a, stack);
    AttrNext(b, endch, s, e, s + 1, a, stack);
    AttributesStep(b, endch, s, stack, At(Attributes, e, AddAttr(stack, a)));
    AttributesStep(b, endch, s + 1, stack, At(Attributes, e, AddAttr(stack, a)));
  }

  function WithAttrs(stack: seq<Open>, attrs: seq<Attr>): (r: seq<Open>)
    requires stack != []
    ensures |r| == |stack|
  {
    var top := stack[|stack| - 1];
    stack[|stack| - 1 := top.(attrs := top.attrs + attrs)]
  }

  lemma AttrsStep(stack: seq<Open>, attrs: seq<Attr>)
    requires stack != []
    ensures attrs == [] ==> WithAttrs(stack, attrs) == stack
    ensures attrs != [] ==> WithAttrs(AddAttr(stack, attrs[0]), attrs[1..]) == WithAttrs(stack, attrs)
  {
    var top := stack[|stack| - 1];
    if attrs == [] {
      assert top.attrs + [] == top.attrs;
    } else {
      assert top.attrs + [attrs[0]] + attrs[1..] == top.attrs + attrs;
    }
  }

  // Where the first attribute ends, the next begins or the tag ends.
  lemma {:induction false} AttrsSplit(b: seq<byte>, s: nat, attrs: seq<Attr>)
    requires Lit(b, s, PrintAttrs(attrs)) && attrs != [] && !IsStart(ByteAt(b, s + |PrintAttrs(attrs)|))
    ensures var x, rest := PrintAttr(attrs[0]), PrintAttrs(attrs[1..]);
            Lit(b, s, x) && Lit(b, s + |x|, rest) && |PrintAttrs(attrs)| == |x| + |rest| && !IsStart(ByteAt(b, s + |x|))
  {
    var x, rest := PrintAttr(attrs[0]), PrintAttrs(attrs[1..]);
    LitSplit(b, s, x, rest);
    if rest != [] { LitAt(b, s + |x|, rest, 0); }
  }

  lemma {:induction false} AttrsPrinted(b: seq<byte>, endch: byte, s: nat, attrs: seq<Attr>, stack: seq<Open>, end: nat)
    requires 2 <= |stack| && Lit(b, s, PrintAttrs(attrs)) && (forall i :: 0 <= i < |attrs| ==> GoodAttr(attrs[i]))
    requires end == s + |PrintAttrs(attrs)| && !IsStart(ByteAt(b, end))
    ensures Reads(b, endch, At(Attributes, s, stack), At(Attributes, end, WithAttrs(stack, attrs)))
    ensures attrs != [] ==> Reads(b, endch, At(Attributes, s + 1, stack), At(Attributes, end, WithAttrs(stack, attrs)))
    decreases |attrs|
  {
    AttrsStep(stack, attrs);
    if attrs == [] {
      Runs.NoStep(Step(b, endch), At(Attributes, s, stack));
    } else {
      var e := s + |PrintAttr(attrs[0])|;
      var goal := At(Attributes, end, WithAttrs(stack, attrs));
      AttrsSplit(b, s, attrs);
      AttrsPrinted(b, endch, e, attrs[1..], AddAttr(stack, attrs[0]), end);
      assert Reads(b, endch, At(Attributes, e, AddAttr(stack, attrs[0])), goal);
      FirstAttr(b, endch, s, e, attrs[0], stack, goal);
    }
  }

  lemma {:induction false} FirstAttr(b: seq<byte>, endch: byte, s: nat, e: nat, a: Attr, stack: seq<Open>, goal: State)
    requires 2 <= |stack| && Lit(b, s, PrintAttr(a)) && GoodAttr(a) && e == s + |PrintAttr(a)| && !IsStart(ByteAt(b, e))
    requires Reads(b, endch, At(Attributes, e, AddAttr(stack, a)), goal)
    ensures Reads(b, endch, At(Attributes, s, stack), goal) && Reads(b, endch, At(Attributes, s + 1, stack), goal)
  {
    AttrIsAt(b, s, a);
    AttrThenRest(b, endch, s, e, a, stack, goal);
  }

  lemma {:induction false} AttrThenRest(b: seq<byte>, endch: byte, s: nat, e: nat, a: Attr, stack: seq<Open>, goal: State)
    requires 2 <= |stack| && AttrAt(b, s, e, a)
    requires Reads(b, endch, At(Attributes, e, AddAttr(stack, a)), goal)
    ensures Reads(b, endch, At(Attributes, s, stack), goal) && Reads(b, endch, At(Attributes, s + 1, stack), goal)
  {
    AttrRead(b, endch, s, e, a, stack);
    Then(b, endch, At(Attributes, s, stack), At(Attributes, e, AddAttr(stack, a)), goal);
    Then(b, endch, At(Attributes, s + 1, stack), At(Attributes, e, AddAttr(stack, a)), goal);
  }

  // ---------------------------------------------------------------------
  // Tags.

  lemma {:induction false} TagStep(b: seq<byte>, endch: byte, s: nat, stack: seq<Open>, y: State)
    requires stack != [] && s < |b| && NextTag(b, endch, s, stack) == y
    ensures Reads(b, endch, At(Tag, s, stack), y)
  {
    One(b, endch, At(Tag, s, stack), y);
  }

  lemma {:induction false} EndStep(b: seq<byte>, endch: byte, s: nat, stack: seq<Open>, y: State)
    requires stack != [] && s < |b| && NextEnd(b, endch, s, stack) == y
    ensures Reads(b, endch, At(EndTag, s, stack), y)
  {
    One(b, endch, At(EndTag, s, stack), y);
  }

  lemma {:induction false} ContentStep(b: seq<byte>, endch: byte, s: nat, stack: seq<Open>, y: State)
    requires stack != [] && s < |b| && NextContent(b, endch, s, stack) == y
    ensures Reads(b, endch, At(Content, s, stack), y)
  {
    One(b, endch, At(Content, s, stack), y);
  }

  // A new element on the stack.
  function Entered(stack: seq<Open>, name: seq<byte>, attrs: seq<Attr>): (r: seq<Open>)
    ensures |r| == |stack| + 1
  {
    stack + [Open(name, attrs, [])]
  }

  // Behind the name of a tag or its attributes: '>', then content, or a space.
  ghost predicate TagGoesOn(b: seq<byte>, endch: byte, e: nat) {
    e < |b| && (GtAt(b, endch, e) || b[e] == SPACE)
  }

  function BehindName(b: seq<byte>, e: nat, stack: seq<Open>): State {
    if ByteAt(b, e) == SPACE then At(Attributes, e + 1, stack) else At(Content, After(b, e), stack)
  }

  lemma {:induction false} NameOfTag(b: seq<byte>, endch: byte, s: nat, name: seq<byte>, stack: seq<Open>)
    requires stack != [] && Lit(b, s, name) && GoodName(name) && TagGoesOn(b, endch, s + |name|)
    ensures Reads(b, endch, At(Tag, s, stack), BehindName(b, s + |name|, Entered(stack, name, [])))
  {
    LitAt(b, s, name, 0);
    NameRead(b, s, name);
    LitAll(b, s, name);
    TagStep(b, endch, s, stack, BehindName(b, s + |name|, Entered(stack, name, [])));
  }

  lemma {:induction false} OpenParts(b: seq<byte>, s: nat, t: Tree)
    requires t.Elem? && Lit(b, s, PrintOpen(t))
    ensures ByteAt(b, s) == LT && Lit(b, s + 1, t.name) && Lit(b, s + 1 + |t.name|, PrintAttrs(t.attrs))
    ensures |PrintOpen(t)| == 1 + |t.name| + |PrintAttrs(t.attrs)|
    ensures t.attrs != [] ==> ByteAt(b, s + 1 + |t.name|) == SPACE
  {
    var attrs := PrintAttrs(t.attrs);
    assert PrintOpen(t) == [LT] + (t.name + attrs);
    LitSplit(b, s, [LT], t.name + attrs);
    LitSplit(b, s + 1, t.name, attrs);
    LitAt(b, s, [LT], 0);
    if t.attrs != [] { LitAt(b, s + 1 + |t.name|, attrs, 0); }
  }

  // The whole opening tag, with '>' or a space behind it.
  lemma {:induction false} OpenPlain(b: seq<byte>, endch: byte, s: nat, t: Tree, stack: seq<Open>, e: nat)
    requires stack != [] && t.Elem? && Good(t) && Lit(b, s, PrintOpen(t)) && e == s + |PrintOpen(t)| && t.attrs == []
    requires TagGoesOn(b, endch, e)
    ensures Reads(b, endch, At(Tag, s + 1, stack), BehindName(b, e, Entered(stack, t.name, [])))
  {
    OpenParts(b, s, t);
    NameOfTag(b, endch, s + 1, t.name, stack);
  }

  lemma {:induction false} OpenWithAttrs(b: seq<byte>, endch: byte, s: nat, t: Tree, stack: seq<Open>, e: nat)
    requires stack != [] && t.Elem? && Good(t) && Lit(b, s, PrintOpen(t)) && e == s + |PrintOpen(t)| && t.attrs != []
    requires TagGoesOn(b, endch, e)
    ensures Reads(b, endch, At(Tag, s + 1, stack), At(Attributes, e, Entered(stack, t.name, t.attrs)))
  {
    OpenParts(b, s, t);
    var n := s + 1 + |t.name|;
    NameOfTag(b, endch, s + 1, t.name, stack);
    AttrsOfTag(b, endch, n, t, stack, e);
    Then(b, endch, At(Tag, s + 1, stack), At(Attributes, n + 1, Entered(stack, t.name, [])), At(Attributes, e, Entered(stack, t.name, t.attrs)));
  }

  lemma {:induction false} AttrsOfTag(b: seq<byte>, endch: byte, n: nat, t: Tree, stack: seq<Open>, e: nat)
    requires stack != [] && t.Elem? && Good(t) && t.attrs != [] && Lit(b, n, PrintAttrs(t.attrs)) && e == n + |PrintAttrs(t.attrs)|
    requires TagGoesOn(b, endch, e)
    ensures Reads(b, endch, At(Attributes, n + 1, Entered(stack, t.name, [])), At(Attributes, e, Entered(stack, t.name, t.attrs)))
  {
    AttrsPrinted(b, endch, n, t.attrs, Entered(stack, t.name, []), e);
    WithAttrsEntered(stack, t.name, t.attrs);
  }

  lemma WithAttrsEntered(stack: seq<Open>, name: seq<byte>, attrs: seq<Attr>)
    ensures WithAttrs(Entered(stack, name, []), attrs) == Entered(stack, name, attrs)
  {
    assert [] + attrs == attrs;
  }

  // '>' behind the attributes
  lemma {:induction false} EndOfOpen(b: seq<byte>, endch: byte, e: nat, stack: seq<Open>)
    requires 2 <= |stack| && e < |b| && GtAt(b, endch, e)
    ensures Reads(b, endch, At(Attributes, e, stack), At(Content, After(b, e), stack))
  {
    NotSpace(b, e);
    AttributesStep(b, endch, e, stack, At(Content, After(b, e), stack));
  }

  // The opening tag of an element with children.
  lemma {:induction false} OpenFull(b: seq<byte>, endch: byte, s: nat, t: Tree, stack: seq<Open>, e: nat)
    requires stack != [] && t.Elem? && Good(t) && Lit(b, s, PrintOpen(t)) && e == s + |PrintOpen(t)| && e < |b| && GtAt(b, endch, e)
    ensures Reads(b, endch, At(Tag, s + 1, stack), At(Content, After(b, e), Entered(stack, t.name, t.attrs)))
  {
    if t.attrs == [] {
      OpenPlain(b, endch, s, t, stack, e);
    } else {
      OpenWithAttrs(b, endch, s, t, stack, e);
      EndOfOpen(b, endch, e, Entered(stack, t.name, t.attrs));
      Then(b, endch, At(Tag, s + 1, stack), At(Attributes, e, Entered(stack, t.name, t.attrs)), At(Content, After(b, e), Entered(stack, t.name, t.attrs)));
    }
  }

  // ' />', of which the '>' may have been kept aside
  lemma {:induction false} EndOfEmpty(b: seq<byte>, endch: byte, s0: nat, p: nat, stack: seq<Open>)
    requires 2 <= |stack| && s0 < |b| && AfterSpace(b, s0) == p && ByteAt(b, p) == SLASH && GtAt(b, endch, p + 1)
    ensures Reads(b, endch, At(Attributes, s0, stack), At(Content, After(b, p + 1), Pop(stack)))
  {
    AttributesStep(b, endch, s0, stack, At(Content, After(b, p + 1), Pop(stack)));
  }

  lemma PopEntered(stack: seq<Open>, t: Tree)
    requires stack != [] && t.Elem?
    ensures var inner := Entered(stack, t.name, t.attrs);
            Pop(inner[|stack| := inner[|stack|].(kids := t.kids)]) == AddKid(stack, t)
  {
    var inner := Entered(stack, t.name, t.attrs);
    var full := inner[|stack| := inner[|stack|].(kids := t.kids)];
    assert full[..|full| - 1] == stack;
  }

  // An element without children.
  lemma {:induction false} EmptyPrinted(b: seq<byte>, endch: byte, s: nat, t: Tree, stack: seq<Open>, e: nat)
    requires stack != [] && t.Elem? && Good(t) && t.kids == [] && Lit(b, s, PrintOpen(t)) && e == s + |PrintOpen(t)|
    requires ByteAt(b, e) == SPACE && ByteAt(b, e + 1) == SLASH && GtAt(b, endch, e + 2)
    ensures Reads(b, endch, At(Tag, s + 1, stack), At(Content, After(b, e + 2), AddKid(stack, t)))
  {
    var inner := Entered(stack, t.name, t.attrs);
    NotSpace(b, e + 1);
    OneSpace(b, e);
    PopEntered(stack, t);
    assert inner[|stack| := inner[|stack|].(kids := t.kids)] == inner;
    if t.attrs == [] {
      OpenPlain(b, endch, s, t, stack, e);
      EndOfEmpty(b, endch, e + 1, e + 1, inner);
      Then(b, endch, At(Tag, s + 1, stack), At(Attributes, e + 1, inner), At(Content, After(b, e + 2), AddKid(stack, t)));
    } else {
      OpenWithAttrs(b, endch, s, t, stack, e);
      EndOfEmpty(b, endch, e, e + 1, inner);
      Then(b, endch, At(Tag, s + 1, stack), At(Attributes, e, inner), At(Content, After(b, e + 2), AddKid(stack, t)));
    }
  }

  // '</', behind the '<'
  lemma {:induction false} ToEndTag(b: seq<byte>, endch: byte, s: nat, stack: seq<Open>)
    requires stack != [] && s + 2 < |b| && b[s + 1] == SLASH
    ensures Reads(b, endch, At(Tag, s + 1, stack), At(EndTag, s + 2, stack))
  {
    TagStep(b, endch, s + 1, stack, At(EndTag, s + 2, stack));
  }

  lemma {:induction false} EndName(b: seq<byte>, endch: byte, s: nat, name: seq<byte>, stack: seq<Open>, e: nat)
    requires 2 <= |stack| && GoodName(name) && stack[|stack| - 1].name == name
    requires Lit(b, s, name) && e == s + |name| && GtAt(b, endch, e) && e < |b|
    ensures Reads(b, endch, At(EndTag, s, stack), At(Content, After(b, e), Pop(stack)))
  {
    NameRead(b, s, name);
    LitAll(b, s, name);
    NotSpace(b, e);
    EndStep(b, endch, s, stack, At(Content, After(b, e), Pop(stack)));
  }

  // A closing tag, behind its '<'.
  lemma {:induction false} ClosePrinted(b: seq<byte>, endch: byte, s: nat, name: seq<byte>, stack: seq<Open>, e: nat)
    requires 2 <= |stack| && GoodName(name) && stack[|stack| - 1].name == name
    requires Lit(b, s, [LT, SLASH] + name) && e == s + 2 + |name| && GtAt(b, endch, e) && e < |b|
    ensures Reads(b, endch, At(Tag, s + 1, stack), At(Content, After(b, e), Pop(stack)))
  {
    LitSplit(b, s, [LT, SLASH], name);
    LitAt(b, s, [LT, SLASH], 1);
    ToEndTag(b, endch, s, stack);
    EndName(b, endch, s + 2, name, stack, e);
    Then(b, endch, At(Tag, s + 1, stack), At(EndTag, s + 2, stack), At(Content, After(b, e), Pop(stack)));
  }

  // ---------------------------------------------------------------------
  // Text.

  // White space at the front of text is followed by something else of the text.
  lemma {:induction false} SpaceEnds(b: seq<byte>, s: nat, x: seq<byte>, k: nat)
    requires Lit(b, s, x) && k < |x| && !IsSpace(x[k])
    ensures AfterSpace(b, s) <= s + k
  {
    LitAt(b, s, x, k);
    assert !IsSpace(b[s + k]);
  }

  lemma {:induction false} EscapeHasText(k: Kind, v: seq<byte>, i: nat) returns (j: nat)
    requires i < |v| && !IsSpace(v[i])
    ensures j < |Escape(k, v)| && !IsSpace(Escape(k, v)[j])
    decreases i
  {
    if i == 0 {
      j := 0;
      assert !IsSpace(EscapeByte(k, v[0])[0]);
    } else {
      j := EscapeHasText(k, v[1..], i - 1);
      j := j + |EscapeByte(k, v[0])|;
    }
  }

  // The first characters of text: the main loop takes it for text.
  lemma {:induction false} TextStarts(b: seq<byte>, s: nat, v: seq<byte>)
    requires GoodText(v) && Lit(b, s, Escape(Pcdata, v))
    ensures var p := AfterSpace(b, s); s < |b| && b[s] != NUL && b[s] != LT && ByteAt(b, p) != LT && ByteAt(b, p) != NUL
  {
    var x := Escape(Pcdata, v);
    var i :| 0 <= i < |v| && !IsSpace(v[i]);
    var j := EscapeHasText(Pcdata, v, i);
    EscapedIsClean(Pcdata, v);
    SpaceEnds(b, s, x, j);
    LitAt(b, s, x, 0);
    LitAt(b, s, x, AfterSpace(b, s) - s);
  }

  lemma {:induction false} TextPrinted(b: seq<byte>, endch: byte, s: nat, v: seq<byte>, stack: seq<Open>, e: nat)
    requires 2 <= |stack| && GoodText(v) && Lit(b, s, Escape(Pcdata, v)) && e == s + |Escape(Pcdata, v)|
    requires ByteAt(b, e) == LT && ByteAt(b, e + 1) != NUL
    ensures Reads(b, endch, At(Content, s, stack), At(Tag, e + 1, AddKid(stack, Text(v))))
  {
    TextStarts(b, s, v);
    TextRead(b, s, v);
    CStringOf(v);
    TextStep(b, endch, s, v, stack, e);
  }

  lemma {:induction false} TextStep(b: seq<byte>, endch: byte, s: nat, v: seq<byte>, stack: seq<Open>, e: nat)
    requires 2 <= |stack| && s < |b| && b[s] != NUL && b[s] != LT
    requires ByteAt(b, AfterSpace(b, s)) != LT && ByteAt(b, AfterSpace(b, s)) != NUL
    requires CString(Decode(TEXT_MODE, b, s)) == v && DecodeEnd(TEXT_MODE, b, s) == e && ByteAt(b, e) == LT && ByteAt(b, e + 1) != NUL
    ensures Reads(b, endch, At(Content, s, stack), At(Tag, e + 1, AddKid(stack, Text(v))))
  {
    ContentStep(b, endch, s, stack, At(Tag, e + 1, AddKid(stack, Text(v))));
  }

  // ---------------------------------------------------------------------
  // Trees.

  function AddKids(stack: seq<Open>, kids: seq<Tree>): (r: seq<Open>)
    requires stack != []
    ensures |r| == |stack|
  {
    var top := stack[|stack| - 1];
    stack[|stack| - 1 := top.(kids := top.kids + kids)]
  }

  lemma KidsStep(stack: seq<Open>, kids: seq<Tree>)
    requires stack != []
    ensures kids == [] ==> AddKids(stack, kids) == stack
    ensures kids != [] ==> AddKids(AddKid(stack, kids[0]), kids[1..]) == AddKids(stack, kids)
  {
    var top := stack[|stack| - 1];
    if kids == [] {
      assert top.kids + [] == top.kids;
    } else {
      assert top.kids + [kids[0]] + kids[1..] == top.kids + kids;
    }
  }

  // All of a printed element but its last character, which is a '>' or the one kept aside.
  ghost predicate ElementAt(b: seq<byte>, endch: byte, s: nat, t: Tree, e: nat)
    requires t.Elem?
  {
    && e == s + |Print(t)| - 1 && e < |b| && GtAt(b, endch, e)
    && Lit(b, s, Print(t)[..|Print(t)| - 1])
  }

  lemma PrintEndsWithGt(t: Tree)
    requires t.Elem?
    ensures |Print(t)| >= 1 && Print(t)[|Print(t)| - 1] == GT
  {
  }

  lemma LitPrefix(b: seq<byte>, s: nat, x: seq<byte>, n: nat)
    requires Lit(b, s, x) && n <= |x|
    ensures Lit(b, s, x[..n])
  {
    forall j | 0 <= j < n ensures b[s + j] == x[..n][j] { LitAt(b, s, x, j); }
  }

  lemma {:induction false} WholeElement(b: seq<byte>, endch: byte, s: nat, t: Tree)
    requires t.Elem? && Lit(b, s, Print(t))
    ensures ElementAt(b, endch, s, t, s + |Print(t)| - 1) && ByteAt(b, s + |Print(t)| - 1) == GT
  {
    PrintEndsWithGt(t);
    LitPrefix(b, s, Print(t), |Print(t)| - 1);
    LitAt(b, s, Print(t), |Print(t)| - 1);
  }

  lemma {:induction false} EmptyElement(b: seq<byte>, endch: byte, s: nat, t: Tree, stack: seq<Open>, e: nat)
    requires stack != [] && t.Elem? && t.kids == [] && Good(t) && ElementAt(b, endch, s, t, e)
    ensures ByteAt(b, s) == LT && Reads(b, endch, At(Tag, s + 1, stack), At(Content, After(b, e), AddKid(stack, t)))
  {
    EmptyText(t);
    EmptyParts(b, s, PrintOpen(t), s + |PrintOpen(t)|);
    OpenParts(b, s, t);
    EmptyPrinted(b, endch, s, t, stack, s + |PrintOpen(t)|);
  }

  lemma EmptyText(t: Tree)
    requires t.Elem? && t.kids == []
    ensures Print(t)[..|Print(t)| - 1] == PrintOpen(t) + [SPACE, SLASH] && |Print(t)| == |PrintOpen(t)| + 3
  {
  }

  lemma EmptyParts(b: seq<byte>, s: nat, x: seq<byte>, o: nat)
    requires Lit(b, s, x + [SPACE, SLASH]) && o == s + |x|
    ensures Lit(b, s, x) && ByteAt(b, o) == SPACE && ByteAt(b, o + 1) == SLASH
  {
    LitSplit(b, s, x, [SPACE, SLASH]);
    LitAt(b, o, [SPACE, SLASH], 0);
    LitAt(b, o, [SPACE, SLASH], 1);
  }

  lemma FullText(t: Tree)
    requires t.Elem? && t.kids != []
    ensures Print(t)[..|Print(t)| - 1] == PrintOpen(t) + ([GT] + (PrintAll(t.kids) + ([LT, SLASH] + t.name)))
    ensures |Print(t)| == |PrintOpen(t)| + 1 + |PrintAll(t.kids)| + 2 + |t.name| + 1
  {
    var x, y, z := PrintOpen(t), PrintAll(t.kids), [LT, SLASH] + t.name;
    assert Print(t) == x + [GT] + y + (z + [GT]);
    assert x + [GT] + y + (z + [GT]) == x + ([GT] + (y + z)) + [GT];
  }

  // Where the parts of an element with children lie.
  lemma {:induction false} FullParts(b: seq<byte>, s: nat, x: seq<byte>, y: seq<byte>, name: seq<byte>, o: nat, c: nat)
    requires Lit(b, s, x + ([GT] + (y + ([LT, SLASH] + name)))) && o == s + |x| && c == o + 1 + |y|
    ensures Lit(b, s, x) && ByteAt(b, o) == GT && Lit(b, o + 1, y) && Lit(b, c, [LT, SLASH] + name)
    ensures ByteAt(b, c) == LT && ByteAt(b, c + 1) == SLASH
  {
    var z := [LT, SLASH] + name;
    LitSplit(b, s, x, [GT] + (y + z));
    LitSplit(b, o, [GT], y + z);
    LitSplit(b, o + 1, y, z);
    LitAt(b, o, [GT], 0);
    LitAt(b, c, z, 0);
    LitAt(b, c, z, 1);
  }

  lemma {:induction false} StartPrinted(b: seq<byte>, endch: byte, s: nat, t: Tree, stack: seq<Open>, e: nat, o: nat, c: nat)
    requires stack != [] && t.Elem? && t.kids != [] && Good(t) && ElementAt(b, endch, s, t, e)
    requires o == s + |PrintOpen(t)| && c == o + 1 + |PrintAll(t.kids)|
    ensures ByteAt(b, s) == LT && Reads(b, endch, At(Tag, s + 1, stack), At(Content, o + 1, Entered(stack, t.name, t.attrs)))
    ensures Lit(b, o + 1, PrintAll(t.kids)) && ByteAt(b, c) == LT && ByteAt(b, c + 1) == SLASH
    ensures Lit(b, c, [LT, SLASH] + t.name) && e == c + 2 + |t.name|
  {
    StartParts(b, endch, s, t, e, o, c, PrintOpen(t), PrintAll(t.kids), Print(t));
    OpenParts(b, s, t);
    OpenFull(b, endch, s, t, stack, o);
  }

  lemma {:induction false} StartParts(b: seq<byte>, endch: byte, s: nat, t: Tree, e: nat, o: nat, c: nat, x: seq<byte>, y: seq<byte>, p: seq<byte>)
    requires t.Elem? && t.kids != [] && ElementAt(b, endch, s, t, e) && x == PrintOpen(t) && y == PrintAll(t.kids) && p == Print(t)
    requires o == s + |x| && c == o + 1 + |y|
    ensures Lit(b, s, x) && ByteAt(b, o) == GT && Lit(b, o + 1, y) && ByteAt(b, c) == LT && ByteAt(b, c + 1) == SLASH
    ensures Lit(b, c, [LT, SLASH] + t.name) && e == c + 2 + |t.name|
  {
    FullText(t);
    FullParts(b, s, x, y, t.name, o, c);
  }

  lemma {:induction false} TreePrinted(b: seq<byte>, endch: byte, s: nat, t: Tree, stack: seq<Open>, e: nat)
    requires stack != [] && t.Elem? && Good(t) && ElementAt(b, endch, s, t, e)
    ensures ByteAt(b, s) == LT && Reads(b, endch, At(Tag, s + 1, stack), At(Content, After(b, e), AddKid(stack, t)))
    decreases t, 0
  {
    if t.kids == [] {
      EmptyElement(b, endch, s, t, stack, e);
    } else {
      var o := s + |PrintOpen(t)|;
      var c := o + 1 + |PrintAll(t.kids)|;
      StartPrinted(b, endch, s, t, stack, e, o, c);
      KidsPrinted(b, endch, o + 1, t.kids, Entered(stack, t.name, t.attrs), c);
      FullElement(b, endch, s, t, stack, e, o, c);
    }
  }

  lemma {:induction false} FullElement(b: seq<byte>, endch: byte, s: nat, t: Tree, stack: seq<Open>, e: nat, o: nat, c: nat)
    requires stack != [] && t.Elem? && GoodName(t.name)
    requires Reads(b, endch, At(Tag, s + 1, stack), At(Content, o + 1, Entered(stack, t.name, t.attrs)))
    requires Reads(b, endch, At(Content, o + 1, Entered(stack, t.name, t.attrs)), At(Tag, c + 1, AddKids(Entered(stack, t.name, t.attrs), t.kids)))
    requires Lit(b, c, [LT, SLASH] + t.name) && e == c + 2 + |t.name| && GtAt(b, endch, e) && e < |b|
    ensures Reads(b, endch, At(Tag, s + 1, stack), At(Content, After(b, e), AddKid(stack, t)))
  {
    var inner := Entered(stack, t.name, t.attrs);
    var full := AddKids(inner, t.kids);
    assert [] + t.kids == t.kids;
    PopEntered(stack, t);
    ClosePrinted(b, endch, c, t.name, full, e);
    Then(b, endch, At(Tag, s + 1, stack), At(Content, o + 1, inner), At(Tag, c + 1, full));
    Then(b, endch, At(Tag, s + 1, stack), At(Tag, c + 1, full), At(Content, After(b, e), AddKid(stack, t)));
  }

  // Children, up to the closing tag of their parent.  Behind text the parser is
  // already behind the next '<'.
  lemma {:induction false} KidsPrinted(b: seq<byte>, endch: byte, s: nat, kids: seq<Tree>, stack: seq<Open>, e: nat)
    requires 2 <= |stack| && GoodAll(kids) && Lit(b, s, PrintAll(kids)) && e == s + |PrintAll(kids)|
    requires ByteAt(b, e) == LT && ByteAt(b, e + 1) != NUL
    ensures Reads(b, endch, At(Content, s, stack), At(Tag, e + 1, AddKids(stack, kids)))
    ensures ByteAt(b, s) == LT ==> Reads(b, endch, At(Tag, s + 1, stack), At(Tag, e + 1, AddKids(stack, kids)))
    ensures kids != [] && kids[0].Elem? ==> ByteAt(b, s) == LT && ByteAt(b, s + 1) != NUL
    decreases kids, 1
  {
    var goal := At(Tag, e + 1, AddKids(stack, kids));
    KidsStep(stack, kids);
    if kids == [] {
      Runs.NoStep(Step(b, endch), goal);
      ContentStep(b, endch, s, stack, goal);
    } else {
      var n := s + |Print(kids[0])|;
      KidsParts(b, s, kids);
      KidsPrinted(b, endch, n, kids[1..], AddKid(stack, kids[0]), e);
      FirstKid(b, endch, s, kids, stack, n, goal);
    }
  }

  lemma {:induction false} FirstKid(b: seq<byte>, endch: byte, s: nat, kids: seq<Tree>, stack: seq<Open>, n: nat, goal: State)
    requires 2 <= |stack| && kids != [] && GoodAll(kids) && Lit(b, s, Print(kids[0])) && n == s + |Print(kids[0])|
    requires Good(kids[0]) && (kids[0].Text? ==> GoodText(kids[0].value) && Print(kids[0]) == Escape(Pcdata, kids[0].value))
    requires kids[0].Text? ==> ByteAt(b, n) == LT && ByteAt(b, n + 1) != NUL
    requires Reads(b, endch, At(Content, n, AddKid(stack, kids[0])), goal)
    requires ByteAt(b, n) == LT ==> Reads(b, endch, At(Tag, n + 1, AddKid(stack, kids[0])), goal)
    ensures Reads(b, endch, At(Content, s, stack), goal)
    ensures ByteAt(b, s) == LT ==> Reads(b, endch, At(Tag, s + 1, stack), goal)
    ensures kids[0].Elem? ==> ByteAt(b, s) == LT && ByteAt(b, s + 1) != NUL
    decreases kids, 0
  {
    if kids[0].Elem? {
      FirstElement(b, endch, s, kids[0], stack, goal);
    } else {
      TextThenRest(b, endch, s, kids[0].value, stack, n, goal);
    }
  }

  lemma KidsParts(b: seq<byte>, s: nat, kids: seq<Tree>)
    requires GoodAll(kids) && kids != [] && Lit(b, s, PrintAll(kids))
    ensures Good(kids[0]) && GoodAll(kids[1..]) && Lit(b, s, Print(kids[0])) && Lit(b, s + |Print(kids[0])|, PrintAll(kids[1..]))
    ensures |PrintAll(kids)| == |Print(kids[0])| + |PrintAll(kids[1..])|
    ensures kids[0].Text? ==> GoodText(kids[0].value) && Print(kids[0]) == Escape(Pcdata, kids[0].value)
    ensures kids[0].Text? && kids[1..] != [] ==> kids[1..][0].Elem?
  {
    PrintAllParts(kids);
    LitSplit(b, s, Print(kids[0]), PrintAll(kids[1..]));
    GoodRest(kids);
    GoodTextKid(kids[0]);
    TextBeforeElement(kids);
  }

  lemma GoodTextKid(t: Tree)
    requires Good(t)
    ensures t.Text? ==> GoodText(t.value) && Print(t) == Escape(Pcdata, t.value)
  {
  }

  lemma TextBeforeElement(kids: seq<Tree>)
    requires GoodAll(kids) && kids != []
    ensures kids[0].Text? && kids[1..] != [] ==> kids[1..][0].Elem?
  {
  }

  lemma {:induction false} FirstElement(b: seq<byte>, endch: byte, s: nat, t: Tree, stack: seq<Open>, goal: State)
    requires stack != [] && t.Elem? && Good(t) && Lit(b, s, Print(t))
    requires Reads(b, endch, At(Content, s + |Print(t)|, AddKid(stack, t)), goal)
    ensures Reads(b, endch, At(Tag, s + 1, stack), goal) && Reads(b, endch, At(Content, s, stack), goal)
    ensures ByteAt(b, s) == LT && ByteAt(b, s + 1) != NUL
    decreases t, 2
  {
    WholeElement(b, endch, s, t);
    TreePrinted(b, endch, s, t, stack, s + |Print(t)| - 1);
    ElementThenRest(b, endch, s, t, stack, s + |Print(t)|, goal);
  }

  lemma {:induction false} ElementThenRest(b: seq<byte>, endch: byte, s: nat, t: Tree, stack: seq<Open>, n: nat, goal: State)
    requires stack != [] && t.Elem? && GoodName(t.name) && Lit(b, s, Print(t))
    requires Reads(b, endch, At(Tag, s + 1, stack), At(Content, n, AddKid(stack, t)))
    requires Reads(b, endch, At(Content, n, AddKid(stack, t)), goal)
    ensures Reads(b, endch, At(Tag, s + 1, stack), goal) && Reads(b, endch, At(Content, s, stack), goal)
    ensures ByteAt(b, s) == LT && ByteAt(b, s + 1) != NUL
  {
    TagStart(b, s, t);
    Then(b, endch, At(Tag, s + 1, stack), At(Content, n, AddKid(stack, t)), goal);
    ContentStep(b, endch, s, stack, At(Tag, s + 1, stack));
    Then(b, endch, At(Content, s, stack), At(Tag, s + 1, stack), goal);
  }

  lemma TagStart(b: seq<byte>, s: nat, t: Tree)
    requires t.Elem? && GoodName(t.name) && Lit(b, s, Print(t))
    ensures s + 1 < |b| && b[s] == LT && b[s + 1] != NUL
  {
    assert Print(t)[0] == LT && Print(t)[1] == t.name[0];
    LitAt(b, s, Print(t), 0);
    LitAt(b, s, Print(t), 1);
  }

  lemma {:induction false} TextThenRest(b: seq<byte>, endch: byte, s: nat, v: seq<byte>, stack: seq<Open>, n: nat, goal: State)
    requires 2 <= |stack| && GoodText(v) && Lit(b, s, Escape(Pcdata, v)) && n == s + |Escape(Pcdata, v)|
    requires ByteAt(b, n) == LT && ByteAt(b, n + 1) != NUL
    requires Reads(b, endch, At(Tag, n + 1, AddKid(stack, Text(v))), goal)
    ensures Reads(b, endch, At(Content, s, stack), goal) && ByteAt(b, s) != LT
  {
    TextPrinted(b, endch, s, v, stack, n);
    TextStarts(b, s, v);
    Then(b, endch, At(Content, s, stack), At(Tag, n + 1, AddKid(stack, Text(v))), goal);
  }

  lemma GoodRest(kids: seq<Tree>)
    requires GoodAll(kids) && kids != []
    ensures GoodAll(kids[1..]) && Good(kids[0])
  {
    var rest := kids[1..];
    forall i | 0 <= i < |rest| - 1 ensures rest[i].Elem? || rest[i + 1].Elem? { assert kids[i + 1].Elem? || kids[i + 2].Elem?; }
  }

  // ---------------------------------------------------------------------
  // Documents.

  // Elements one after the other, the last '>' perhaps kept aside.
  ghost predicate ForestAt(b: seq<byte>, endch: byte, s: nat, kids: seq<Tree>, e: nat) {
    var p := PrintAll(kids);
    p != [] && Lit(b, s, p[..|p| - 1]) && e == s + |p| - 1 && e < |b| && GtAt(b, endch, e)
  }

  lemma {:induction false} LastOfForest(b: seq<byte>, endch: byte, s: nat, kids: seq<Tree>, stack: seq<Open>, e: nat)
    requires stack != [] && |kids| == 1 && kids[0].Elem? && Good(kids[0]) && ForestAt(b, endch, s, kids, e)
    ensures Reads(b, endch, At(Content, s, stack), At(Content, After(b, e), AddKids(stack, kids)))
  {
    assert PrintAll(kids) == Print(kids[0]);
    KidsStep(stack, kids);
    KidsStep(AddKid(stack, kids[0]), []);
    LastElement(b, endch, s, kids[0], stack, e);
  }

  lemma {:induction false} ForestPrinted(b: seq<byte>, endch: byte, s: nat, kids: seq<Tree>, stack: seq<Open>, e: nat, goal: State)
    requires stack != [] && kids != [] && GoodAll(kids) && (forall i :: 0 <= i < |kids| ==> kids[i].Elem?) && ForestAt(b, endch, s, kids, e)
    requires goal == At(Content, After(b, e), AddKids(stack, kids))
    ensures Reads(b, endch, At(Content, s, stack), goal)
    decreases |kids|
  {
    var k, rest := kids[0], kids[1..];
    GoodRest(kids);
    KidsStep(stack, kids);
    if rest == [] {
      LastOfForest(b, endch, s, kids, stack, e);
    } else {
      ForestTail(b, endch, s, kids, e, PrintAll(kids), Print(k), PrintAll(rest));
      ForestPrinted(b, endch, s + |Print(k)|, rest, AddKid(stack, k), e, goal);
      FirstElement(b, endch, s, k, stack, goal);
    }
  }

  lemma ForestTail(b: seq<byte>, endch: byte, s: nat, kids: seq<Tree>, e: nat, p: seq<byte>, x: seq<byte>, rest: seq<byte>)
    requires 2 <= |kids| && kids[1].Elem? && p == PrintAll(kids) && x == Print(kids[0]) && rest == PrintAll(kids[1..])
    requires ForestAt(b, endch, s, kids, e)
    ensures Lit(b, s, x) && ForestAt(b, endch, s + |x|, kids[1..], e)
  {
    PrintAllParts(kids);
    ElementPrints(kids[1..]);
    LitAllButLast(b, s, p, x, rest);
  }

  lemma PrintAllParts(kids: seq<Tree>)
    requires kids != []
    ensures PrintAll(kids) == Print(kids[0]) + PrintAll(kids[1..])
  {
  }

  lemma ElementPrints(kids: seq<Tree>)
    requires kids != [] && kids[0].Elem?
    ensures PrintAll(kids) != []
  {
    PrintEndsWithGt(kids[0]);
  }

  lemma LitAllButLast(b: seq<byte>, s: nat, p: seq<byte>, x: seq<byte>, y: seq<byte>)
    requires p == x + y && y != [] && Lit(b, s, p[..|p| - 1])
    ensures |p| == |x| + |y| && Lit(b, s, x) && Lit(b, s + |x|, y[..|y| - 1])
  {
    assert p[..|p| - 1] == x + y[..|y| - 1];
    LitSplit(b, s, x, y[..|y| - 1]);
  }

  lemma {:induction false} LastElement(b: seq<byte>, endch: byte, s: nat, t: Tree, stack: seq<Open>, e: nat)
    requires stack != [] && t.Elem? && Good(t) && ElementAt(b, endch, s, t, e)
    ensures Reads(b, endch, At(Content, s, stack), At(Content, After(b, e), AddKid(stack, t)))
  {
    TreePrinted(b, endch, s, t, stack, e);
    ContentStep(b, endch, s, stack, At(Tag, s + 1, stack));
    Then(b, endch, At(Content, s, stack), At(Tag, s + 1, stack), At(Content, After(b, e), AddKid(stack, t)));
  }

  lemma {:induction false} ForestEnds(kids: seq<Tree>)
    requires kids != [] && forall i :: 0 <= i < |kids| ==> kids[i].Elem?
    ensures PrintAll(kids) != [] && PrintAll(kids)[0] == LT && PrintAll(kids)[|PrintAll(kids)| - 1] == GT
    decreases |kids|
  {
    PrintEndsWithGt(kids[0]);
    if kids[1..] != [] { ForestEnds(kids[1..]); }
  }

  lemma NoBom(b: seq<byte>)
    requires b != [] && b[0] == LT
    ensures !Lit(b, 0, BOM)
  {
    if Lit(b, 0, BOM) { LitAt(b, 0, BOM, 0); }
  }

  /** Printing and parsing: elements with any attributes and children come back
      as they were. */
  lemma {:induction false} PrintParse(kids: seq<Tree>)
    requires kids != [] && GoodAll(kids) && forall i :: 0 <= i < |kids| ==> kids[i].Elem?
    ensures Parse(PrintAll(kids)) == Ok(kids)
  {
    var p := PrintAll(kids);
    ForestEnds(kids);
    var e := |p| - 1;
    var b := p[..e] + [NUL];
    NoBom(b);
    RunForest(b, GT, kids, [DOCUMENT], e);
    assert [] + kids == kids;
  }

  lemma {:induction false} RunForest(b: seq<byte>, endch: byte, kids: seq<Tree>, stack: seq<Open>, e: nat)
    requires kids != [] && GoodAll(kids) && (forall i :: 0 <= i < |kids| ==> kids[i].Elem?) && |stack| == 1
    requires ForestAt(b, endch, 0, kids, e) && b[e] == NUL
    ensures Run(b, endch, At(Content, 0, stack)) == Ok(stack[0].kids + kids)
  {
    var last, r := At(Content, e, AddKids(stack, kids)), Ok(stack[0].kids + kids);
    ForestPrinted(b, endch, 0, kids, stack, e, last);
    RunReads(b, endch, At(Content, 0, stack), last);
    assert Next(b, endch, last) == Done(r);
    RunOnce(b, endch, last, Done(r));
  }

  lemma {:induction false} RunReads(b: seq<byte>, endch: byte, x: State, y: State)
    requires StackOk(x) && Reads(b, endch, x, y)
    ensures StackOk(y) && Run(b, endch, x) == Run(b, endch, y)
  {
    var n: nat :| Runs.Steps(Step(b, endch), n, x, y);
    RunSteps(b, endch, n, x, y);
  }

  // The conditions are needed: text next to text runs together.
  lemma AdjacentTextMerges(v: seq<byte>, w: seq<byte>)
    ensures Print(Text(v)) + Print(Text(w)) == Print(Text(v + w))
  {
    EscapeOfSum(Pcdata, v, w);
  }
}
