/** The language the parser accepts (pugixml.cpp, parse_tree, for documents of elements,
    attributes and text), as a grammar, and that it accepts exactly that. */
module XmlGrammar {
  import opened Bytes
  import opened Unescape
  import opened XmlSyntax
  import opened XmlRoundTrip
  import LineEnds

  // ---------------------------------------------------------------------
  // The grammar.  Every predicate says that the text from i up to j is something.

  predicate CharAt(t: seq<byte>, i: nat, c: byte) {
    i < |t| && t[i] == c
  }

  predicate SpaceFrom(t: seq<byte>, i: nat, j: nat) {
    i <= j <= |t| && forall k :: i <= k < j ==> IsSpace(t[k])
  }

  predicate NoLtFrom(t: seq<byte>, i: nat, j: nat) {
    i <= j <= |t| && forall k :: i <= k < j ==> t[k] != LT
  }

  // A name is as long as it can be.
  predicate NameFrom(t: seq<byte>, i: nat, j: nat, name: seq<byte>) {
    i < j <= |t| && t[i..j] == name && GoodName(name) && !IsSymbol(ByteAt(t, j))
  }

  // A value in quotes of one kind, which do not occur in it.
  predicate ValueFrom(t: seq<byte>, i: nat, j: nat, value: seq<byte>) {
    && i + 2 <= j <= |t| && (t[i] == QUOT || t[i] == APOS) && t[j - 1] == t[i] && (forall k :: i < k < j - 1 ==> t[k] != t[i])
    && value == CString(Decode(ValueMode(t[i]), t[i + 1..j - 1], 0))
  }

  predicate AttributeParts(t: seq<byte>, i: nat, e: nat, p: nat, v: nat, j: nat, a: Attr) {
    && NameFrom(t, i, e, a.name) && SpaceFrom(t, e, p) && CharAt(t, p, EQUALS)
    && SpaceFrom(t, p + 1, v) && ValueFrom(t, v, j, a.value)
  }

  ghost predicate AttributeFrom(t: seq<byte>, i: nat, j: nat, a: Attr) {
    exists e, p, v :: AttributeParts(t, i, e, p, v, j, a)
  }

  // White space and an attribute.
  ghost predicate SpacedAttribute(t: seq<byte>, i: nat, s: nat, m: nat, a: Attr) {
    i < s && SpaceFrom(t, i, s) && AttributeFrom(t, s, m, a)
  }

  ghost predicate AttributesFrom(t: seq<byte>, i: nat, j: nat, attrs: seq<Attr>)
    decreases |attrs|
  {
    if attrs == [] then i == j <= |t|
    else exists s, m :: SpacedAttribute(t, i, s, m, attrs[0]) && AttributesFrom(t, m, j, attrs[1..])
  }

  // The tag that opens an element, up to what ends it.
  ghost predicate StartFrom(t: seq<byte>, i: nat, e: nat, f: nat, g: nat, name: seq<byte>, attrs: seq<Attr>) {
    CharAt(t, i, LT) && NameFrom(t, i + 1, e, name) && AttributesFrom(t, e, f, attrs) && SpaceFrom(t, f, g)
  }

  predicate CloseParts(t: seq<byte>, i: nat, k: nat, l: nat, j: nat, name: seq<byte>) {
    && CharAt(t, i, LT) && CharAt(t, i + 1, SLASH) && NameFrom(t, i + 2, k, name)
    && SpaceFrom(t, k, l) && CharAt(t, l, GT) && j == l + 1
  }

  ghost predicate CloseFrom(t: seq<byte>, i: nat, j: nat, name: seq<byte>) {
    exists k, l :: CloseParts(t, i, k, l, j, name)
  }

  // Text reaches up to the next tag and is not white space only.
  predicate TextFrom(t: seq<byte>, i: nat, j: nat, value: seq<byte>) {
    i < j && NoLtFrom(t, i, j) && CharAt(t, j, LT) && !SpaceFrom(t, i, j) && value == CString(Decode(TEXT_MODE, t[i..j], 0))
  }

  ghost predicate ElementFrom(t: seq<byte>, i: nat, j: nat, x: Tree)
    decreases x, 2
  {
    x.Elem? && exists e, f, g :: StartFrom(t, i, e, f, g, x.name, x.attrs) && RestFrom(t, g, j, x)
  }

  // '/>' or '>', content and the end tag of the same name
  ghost predicate RestFrom(t: seq<byte>, g: nat, j: nat, x: Tree)
    requires x.Elem?
    decreases x, 1
  {
    || (x.kids == [] && CharAt(t, g, SLASH) && CharAt(t, g + 1, GT) && j == g + 2)
    || (CharAt(t, g, GT) && exists h :: ContentFrom(t, g + 1, h, x.kids) && CloseFrom(t, h, j, x.name))
  }

  ghost predicate ContentFrom(t: seq<byte>, i: nat, j: nat, kids: seq<Tree>)
    decreases kids, 1
  {
    if kids == [] then SpaceFrom(t, i, j)
    else exists m :: KidFrom(t, i, m, kids[0]) && ContentFrom(t, m, j, kids[1..])
  }

  ghost predicate KidFrom(t: seq<byte>, i: nat, j: nat, x: Tree)
    decreases x, 3
  {
    match x
    case Text(v) => TextFrom(t, i, j, v)
    case Elem(_, _, _) => exists s :: SpaceFrom(t, i, s) && ElementFrom(t, s, j, x)
  }

  // Elements, with anything but '<' around them.
  ghost predicate DocumentFrom(t: seq<byte>, i: nat, kids: seq<Tree>)
    decreases |kids|
  {
    if kids == [] then NoLtFrom(t, i, |t|)
    else exists s, m :: NoLtFrom(t, i, s) && ElementFrom(t, s, m, kids[0]) && DocumentFrom(t, m, kids[1..])
  }

  // ---------------------------------------------------------------------
  // Texts have room for what they are.

  lemma {:induction false} AttributesGrow(t: seq<byte>, i: nat, j: nat, attrs: seq<Attr>)
    requires AttributesFrom(t, i, j, attrs)
    ensures i <= j <= |t|
    decreases |attrs|
  {
    if attrs != [] {
      var s, m :| SpacedAttribute(t, i, s, m, attrs[0]) && AttributesFrom(t, m, j, attrs[1..]);
      var e, p, v :| AttributeParts(t, s, e, p, v, m, attrs[0]);
      AttributesGrow(t, m, j, attrs[1..]);
    }
  }

  lemma {:induction false} ElementGrows(t: seq<byte>, i: nat, j: nat, x: Tree)
    requires ElementFrom(t, i, j, x)
    ensures i + 3 <= j <= |t|
    decreases x, 2
  {
    var e, f, g :| StartFrom(t, i, e, f, g, x.name, x.attrs) && RestFrom(t, g, j, x);
    AttributesGrow(t, e, f, x.attrs);
    RestGrows(t, g, j, x);
  }

  lemma {:induction false} RestGrows(t: seq<byte>, g: nat, j: nat, x: Tree)
    requires x.Elem? && RestFrom(t, g, j, x)
    ensures g + 1 <= j <= |t|
    decreases x, 1
  {
    if CharAt(t, g, GT) {
      var h :| ContentFrom(t, g + 1, h, x.kids) && CloseFrom(t, h, j, x.name);
      ContentGrows(t, g + 1, h, x.kids);
      CloseGrows(t, h, j, x.name);
    }
  }

  lemma CloseGrows(t: seq<byte>, i: nat, j: nat, name: seq<byte>)
    requires CloseFrom(t, i, j, name)
    ensures i + 4 <= j <= |t| && CharAt(t, i, LT) && CharAt(t, i + 1, SLASH)
  {
    var k, l :| CloseParts(t, i, k, l, j, name);
  }

  lemma {:induction false} ContentGrows(t: seq<byte>, i: nat, j: nat, kids: seq<Tree>)
    requires ContentFrom(t, i, j, kids)
    ensures i <= j <= |t|
    decreases kids, 1
  {
    if kids != [] {
      var m :| KidFrom(t, i, m, kids[0]) && ContentFrom(t, m, j, kids[1..]);
      KidGrows(t, i, m, kids[0]);
      ContentGrows(t, m, j, kids[1..]);
    }
  }

  lemma {:induction false} KidGrows(t: seq<byte>, i: nat, j: nat, x: Tree)
    requires KidFrom(t, i, j, x)
    ensures i < j <= |t|
    decreases x, 3
  {
    if x.Elem? {
      var s :| SpaceFrom(t, i, s) && ElementFrom(t, s, j, x);
      ElementGrows(t, s, j, x);
    }
  }

  // ---------------------------------------------------------------------
  // The buffer of the parser: the last character is kept aside.

  ghost predicate Kept(t: seq<byte>, b: seq<byte>, endch: byte) {
    t != [] && NulFree(t) && b == t[..|t| - 1] + [NUL] && endch == t[|t| - 1]
  }

  // Behind the last character the parser still stands on it.
  function Pos(t: seq<byte>, g: nat): nat
    requires t != []
  {
    if g < |t| then g else |t| - 1
  }

  lemma KeptBytes(t: seq<byte>, b: seq<byte>, endch: byte)
    requires Kept(t, b, endch)
    ensures |b| == |t| && ByteAt(b, |t| - 1) == NUL && forall k :: 0 <= k < |t| - 1 ==> b[k] == t[k] && b[k] != NUL
  {
  }

  lemma GtKept(t: seq<byte>, b: seq<byte>, endch: byte, i: nat)
    requires Kept(t, b, endch) && i < |t|
    ensures GtAt(b, endch, i) <==> t[i] == GT
    ensures t[i] == GT ==> GtAt(b, endch, i) && After(b, i) == Pos(t, i + 1)
  {
    KeptBytes(t, b, endch);
  }

  // The outcome is the same from both states.
  ghost predicate SameRun(b: seq<byte>, endch: byte, x: State, y: State) {
    StackOk(x) && StackOk(y) && Run(b, endch, x) == Run(b, endch, y)
  }

  lemma {:induction false} ByStep(b: seq<byte>, endch: byte, x: State, y: State)
    requires IsNext(b, endch, x, y)
    ensures SameRun(b, endch, x, y)
  {
    RunOnce(b, endch, x, y);
  }

  lemma {:induction false} SpaceIs(b: seq<byte>, i: nat, j: nat)
    requires i <= j <= |b| && (forall k :: i <= k < j ==> IsSpace(b[k])) && !IsSpace(ByteAt(b, j))
    ensures AfterSpace(b, i) == j
    decreases j - i
  {
    if i < j { SpaceIs(b, i + 1, j); }
  }

  lemma SpaceKept(t: seq<byte>, b: seq<byte>, endch: byte, i: nat, j: nat)
    requires Kept(t, b, endch) && SpaceFrom(t, i, j) && j < |t| && !IsSpace(t[j])
    ensures AfterSpace(b, i) == j
  {
    KeptBytes(t, b, endch);
    SpaceIs(b, i, j);
  }

  // What the parser finds in its buffer.
  predicate NameOf(b: seq<byte>, i: nat, j: nat, name: seq<byte>) {
    i < j <= |b| && i + SymbolRun(b, i) == j && b[i..j] == name && IsStart(b[i])
  }

  predicate ValueOf(b: seq<byte>, v: nat, j: nat, value: seq<byte>, quote: byte) {
    && v < j <= |b| && b[j - 1] == quote
    && DecodeEnd(ValueMode(quote), b, v) == j - 1 && CString(Decode(ValueMode(quote), b, v)) == value
  }

  lemma {:induction false} NameKept(t: seq<byte>, b: seq<byte>, endch: byte, i: nat, j: nat, name: seq<byte>)
    requires Kept(t, b, endch) && NameFrom(t, i, j, name) && j < |t|
    ensures NameOf(b, i, j, name)
  {
    KeptBytes(t, b, endch);
    forall k | 0 <= k < |name| ensures b[i + k] == name[k] { assert t[i..j][k] == t[i + k]; }
    NameRead(b, i, name);
    LitAll(b, i, name);
  }

  // ---------------------------------------------------------------------
  // What the grammar describes is read: attributes.

  lemma {:induction false} ValueBehindName(t: seq<byte>, b: seq<byte>, endch: byte, e: nat, p: nat, v: nat)
    requires Kept(t, b, endch) && SpaceFrom(t, e, p) && CharAt(t, p, EQUALS) && SpaceFrom(t, p + 1, v)
    requires v + 1 < |t| && (t[v] == QUOT || t[v] == APOS)
    ensures ValueBehind(b, e) == v + 1
  {
    KeptBytes(t, b, endch);
    SpaceKept(t, b, endch, e, p);
    SpaceKept(t, b, endch, p + 1, v);
    assert EqualsAt(b, e) == p;
  }

  lemma {:induction false} ValueKept(t: seq<byte>, b: seq<byte>, endch: byte, v: nat, j: nat, value: seq<byte>, quote: byte)
    requires Kept(t, b, endch) && ValueFrom(t, v, j, value) && j < |t| && quote == t[v]
    ensures ValueOf(b, v + 1, j, value, quote) && b[v] == quote
  {
    var m := ValueMode(quote);
    KeptBytes(t, b, endch);
    var r := b[v + 1..j - 1];
    assert r == t[v + 1..j - 1];
    LineEnds.RawDecodes(m, b, v + 1, j - 1, v + 1, 0, r);
  }

  lemma {:induction false} AttributeKept(t: seq<byte>, b: seq<byte>, endch: byte, i: nat, e: nat, p: nat, v: nat, j: nat, a: Attr)
    requires Kept(t, b, endch) && AttributeParts(t, i, e, p, v, j, a) && j < |t| && !IsStart(t[j])
    ensures IsStart(ByteAt(b, i)) && ReadAttribute(b, i) == Found(a, j)
  {
    NameKept(t, b, endch, i, e, a.name);
    ValueBehindName(t, b, endch, e, p, v);
    ValueKept(t, b, endch, v, j, a.value, t[v]);
    NoStartKept(t, b, endch, j);
    AttributeIs(b, i, e, v + 1, j, a, t[v]);
  }

  lemma NoStartKept(t: seq<byte>, b: seq<byte>, endch: byte, j: nat)
    requires Kept(t, b, endch) && j < |t| && !IsStart(t[j])
    ensures !IsStart(ByteAt(b, j))
  {
    KeptBytes(t, b, endch);
  }

  lemma {:induction false} AttributeIs(b: seq<byte>, i: nat, e: nat, v: nat, j: nat, a: Attr, q: byte)
    requires NameOf(b, i, e, a.name) && ValueBehind(b, e) == v && 0 < v && ValueOf(b, v, j, a.value, q) && b[v - 1] == q && !IsStart(ByteAt(b, j))
    ensures IsStart(ByteAt(b, i)) && ReadAttribute(b, i) == Found(a, j)
  {
    ReadsWith(b, i, v);
    AttributeWithIs(b, i, e, v, j, a, q);
  }

  lemma {:induction false} AttributeWithIs(b: seq<byte>, i: nat, e: nat, v: nat, j: nat, a: Attr, q: byte)
    requires NameOf(b, i, e, a.name) && ValueOf(b, v, j, a.value, q) && !IsStart(ByteAt(b, j))
    ensures AttributeWith(b, i, v, q) == Found(a, j)
  {
  }

  // White space at the front changes nothing behind a tag's name.
  lemma {:induction false} SpaceBefore(b: seq<byte>, endch: byte, i: nat, j: nat, stack: seq<Open>)
    requires 2 <= |stack| && i <= j < |b| && AfterSpace(b, i) == AfterSpace(b, j)
    ensures SameRun(b, endch, At(Attributes, i, stack), At(Attributes, j, stack))
  {
    SameNext(b, endch, i, j, stack);
    var y := Next(b, endch, At(Attributes, j, stack));
    ByStep(b, endch, At(Attributes, i, stack), y);
    ByStep(b, endch, At(Attributes, j, stack), y);
  }

  lemma SameNext(b: seq<byte>, endch: byte, i: nat, j: nat, stack: seq<Open>)
    requires 2 <= |stack| && i <= j < |b| && AfterSpace(b, i) == AfterSpace(b, j)
    ensures Next(b, endch, At(Attributes, i, stack)) == Next(b, endch, At(Attributes, j, stack))
  {
  }

  lemma {:induction false} OneAttribute(t: seq<byte>, b: seq<byte>, endch: byte, i: nat, s: nat, m: nat, a: Attr, stack: seq<Open>)
    requires Kept(t, b, endch) && SpacedAttribute(t, i, s, m, a) && m < |t| && !IsStart(t[m]) && 2 <= |stack|
    ensures SameRun(b, endch, At(Attributes, i, stack), At(Attributes, m, AddAttr(stack, a)))
  {
    var e, p, v :| AttributeParts(t, s, e, p, v, m, a);
    AttributeKept(t, b, endch, s, e, p, v, m, a);
    NotSpaceName(t, s, e, a.name);
    SpaceKept(t, b, endch, i, s);
    ByStep(b, endch, At(Attributes, i, stack), At(Attributes, m, AddAttr(stack, a)));
  }

  lemma NotSpaceName(t: seq<byte>, s: nat, e: nat, name: seq<byte>)
    requires NameFrom(t, s, e, name)
    ensures IsStart(t[s]) && !IsSpace(t[s])
  {
    assert t[s] == t[s..e][0];
  }

  lemma {:induction false} AttributesKept(t: seq<byte>, b: seq<byte>, endch: byte, i: nat, j: nat, attrs: seq<Attr>, stack: seq<Open>)
    requires Kept(t, b, endch) && AttributesFrom(t, i, j, attrs) && j < |t| && !IsStart(t[j]) && 2 <= |stack|
    ensures SameRun(b, endch, At(Attributes, i, stack), At(Attributes, j, WithAttrs(stack, attrs)))
    decreases |attrs|
  {
    AttrsStep(stack, attrs);
    if attrs != [] {
      var s, m :| SpacedAttribute(t, i, s, m, attrs[0]) && AttributesFrom(t, m, j, attrs[1..]);
      NoStartBehind(t, m, j, attrs[1..]);
      OneAttribute(t, b, endch, i, s, m, attrs[0], stack);
      AttributesKept(t, b, endch, m, j, attrs[1..], AddAttr(stack, attrs[0]));
    }
  }

  lemma {:induction false} NoStartBehind(t: seq<byte>, m: nat, j: nat, attrs: seq<Attr>)
    requires AttributesFrom(t, m, j, attrs) && j < |t| && !IsStart(t[j])
    ensures m < |t| && !IsStart(t[m])
  {
    AttributesGrow(t, m, j, attrs);
    if attrs != [] {
      AttributesStart(t, m, j, attrs);
    }
  }

  // ---------------------------------------------------------------------
  // Tags.

  // What ends a tag at g, and where the parser goes from there.
  predicate EndsTag(t: seq<byte>, g: nat) {
    CharAt(t, g, GT) || (CharAt(t, g, SLASH) && CharAt(t, g + 1, GT))
  }

  function BehindTag(t: seq<byte>, g: nat, stack: seq<Open>): (x: State)
    requires EndsTag(t, g) && 2 <= |stack|
    ensures StackOk(x)
  {
    if t[g] == GT then At(Content, Pos(t, g + 1), stack) else At(Content, Pos(t, g + 2), Pop(stack))
  }

  lemma {:induction false} TagEnds(t: seq<byte>, b: seq<byte>, endch: byte, f: nat, g: nat, stack: seq<Open>)
    requires Kept(t, b, endch) && SpaceFrom(t, f, g) && EndsTag(t, g) && 2 <= |stack|
    ensures SameRun(b, endch, At(Attributes, f, stack), BehindTag(t, g, stack))
  {
    KeptBytes(t, b, endch);
    SpaceKept(t, b, endch, f, g);
    ByStep(b, endch, At(Attributes, f, stack), BehindTag(t, g, stack));
  }

  // Behind the name, the same as behind white space there.
  lemma {:induction false} BehindTagName(t: seq<byte>, b: seq<byte>, endch: byte, i: nat, e: nat, name: seq<byte>, stack: seq<Open>)
    requires Kept(t, b, endch) && NameFrom(t, i, e, name) && NameGoesOn(t, e) && stack != []
    ensures SameRun(b, endch, At(Tag, i, stack), At(Attributes, e, Entered(stack, name, [])))
  {
    var inner := Entered(stack, name, []);
    KeptBytes(t, b, endch);
    NameKept(t, b, endch, i, e, name);
    if IsSpace(t[e]) {
      NameThenSpace(b, endch, i, e, inner, stack);
    } else {
      NameThenEnd(t, b, endch, i, e, inner, stack);
    }
  }

  lemma {:induction false} NameThenSpace(b: seq<byte>, endch: byte, i: nat, e: nat, inner: seq<Open>, stack: seq<Open>)
    requires i < e && e + 1 < |b| && stack != [] && IsStart(b[i]) && i + SymbolRun(b, i) == e && inner == Entered(stack, b[i..e], []) && IsSpace(b[e])
    ensures SameRun(b, endch, At(Tag, i, stack), At(Attributes, e, inner))
  {
    NameNext(b, endch, i, e, inner, stack);
    Meeting(b, endch, At(Tag, i, stack), At(Attributes, e, inner));
  }

  // x is one step in front of a state that goes on as z.
  ghost predicate Meet(b: seq<byte>, endch: byte, x: State, z: State) {
    exists y :: IsNext(b, endch, x, y) && StackOk(z) && y.At? && z.At? && y.s < |b| && z.s < |b| && Next(b, endch, y) == Next(b, endch, z)
  }

  lemma {:induction false} Meeting(b: seq<byte>, endch: byte, x: State, z: State)
    requires Meet(b, endch, x, z)
    ensures SameRun(b, endch, x, z)
  {
    var y :| IsNext(b, endch, x, y) && StackOk(z) && y.At? && z.At? && y.s < |b| && z.s < |b| && Next(b, endch, y) == Next(b, endch, z);
    ByStep(b, endch, x, y);
    ByStep(b, endch, y, Next(b, endch, y));
    ByStep(b, endch, z, Next(b, endch, y));
  }

  lemma {:induction false} NameNext(b: seq<byte>, endch: byte, i: nat, e: nat, inner: seq<Open>, stack: seq<Open>)
    requires i < e && e + 1 < |b| && stack != [] && IsStart(b[i]) && i + SymbolRun(b, i) == e && inner == Entered(stack, b[i..e], []) && IsSpace(b[e])
    ensures Meet(b, endch, At(Tag, i, stack), At(Attributes, e, inner))
  {
    assert IsNext(b, endch, At(Tag, i, stack), At(Attributes, e + 1, inner));
    SameNext(b, endch, e, e + 1, inner);
  }

  lemma {:induction false} NameThenEnd(t: seq<byte>, b: seq<byte>, endch: byte, i: nat, e: nat, inner: seq<Open>, stack: seq<Open>)
    requires Kept(t, b, endch) && i < e < |b| && stack != [] && IsStart(b[i]) && i + SymbolRun(b, i) == e && inner == Entered(stack, b[i..e], []) && EndsTag(t, e)
    ensures SameRun(b, endch, At(Tag, i, stack), At(Attributes, e, inner))
  {
    KeptBytes(t, b, endch);
    ByStep(b, endch, At(Tag, i, stack), BehindTag(t, e, inner));
    TagEnds(t, b, endch, e, e, inner);
  }

  lemma {:induction false} StartKept(t: seq<byte>, b: seq<byte>, endch: byte, i: nat, e: nat, f: nat, g: nat, name: seq<byte>, attrs: seq<Attr>, stack: seq<Open>, inner: seq<Open>)
    requires Kept(t, b, endch) && StartFrom(t, i, e, f, g, name, attrs) && EndsTag(t, g) && stack != [] && inner == Entered(stack, name, attrs)
    ensures SameRun(b, endch, At(Tag, i + 1, stack), BehindTag(t, g, inner))
  {
    SpaceOrEnd(t, e, f, g, attrs);
    WithAttrsEntered(stack, name, attrs);
    var bare := Entered(stack, name, []);
    NameThenAttributes(t, b, endch, i, e, f, g, name, attrs, stack, bare, inner, At(Attributes, e, bare), BehindTag(t, g, inner));
  }

  // Behind the name of a tag is white space or what ends the tag.
  predicate NameGoesOn(t: seq<byte>, e: nat) {
    (e + 1 < |t| && IsSpace(t[e])) || EndsTag(t, e)
  }

  lemma {:induction false} NameThenAttributes(t: seq<byte>, b: seq<byte>, endch: byte, i: nat, e: nat, f: nat, g: nat, name: seq<byte>, attrs: seq<Attr>,
                                              stack: seq<Open>, bare: seq<Open>, inner: seq<Open>, x: State, y: State)
    requires Kept(t, b, endch) && StartFrom(t, i, e, f, g, name, attrs) && EndsTag(t, g) && NameGoesOn(t, e) && f < |t| && !IsStart(t[f]) && stack != []
    requires bare == Entered(stack, name, []) && inner == WithAttrs(bare, attrs) && x == At(Attributes, e, bare) && y == BehindTag(t, g, inner)
    ensures SameRun(b, endch, At(Tag, i + 1, stack), y)
  {
    AttributesThenEnd(t, b, endch, i, e, f, g, name, attrs, bare, inner, x, y);
    NameFirst(t, b, endch, i, e, f, g, name, attrs, stack, bare, x, y);
  }

  lemma {:induction false} NameFirst(t: seq<byte>, b: seq<byte>, endch: byte, i: nat, e: nat, f: nat, g: nat, name: seq<byte>, attrs: seq<Attr>,
                                     stack: seq<Open>, bare: seq<Open>, x: State, y: State)
    requires Kept(t, b, endch) && StartFrom(t, i, e, f, g, name, attrs) && NameGoesOn(t, e) && stack != []
    requires bare == Entered(stack, name, []) && x == At(Attributes, e, bare) && SameRun(b, endch, x, y)
    ensures SameRun(b, endch, At(Tag, i + 1, stack), y)
  {
    BehindTagName(t, b, endch, i + 1, e, name, stack);
  }

  lemma {:induction false} AttributesThenEnd(t: seq<byte>, b: seq<byte>, endch: byte, i: nat, e: nat, f: nat, g: nat, name: seq<byte>, attrs: seq<Attr>,
                                             bare: seq<Open>, inner: seq<Open>, x: State, y: State)
    requires Kept(t, b, endch) && StartFrom(t, i, e, f, g, name, attrs) && EndsTag(t, g) && f < |t| && !IsStart(t[f])
    requires 2 <= |bare| && inner == WithAttrs(bare, attrs) && x == At(Attributes, e, bare) && y == BehindTag(t, g, inner)
    ensures SameRun(b, endch, x, y)
  {
    AttributesKept(t, b, endch, e, f, attrs, bare);
    TagEnds(t, b, endch, f, g, inner);
  }

  lemma {:induction false} SpaceOrEnd(t: seq<byte>, e: nat, f: nat, g: nat, attrs: seq<Attr>)
    requires AttributesFrom(t, e, f, attrs) && SpaceFrom(t, f, g) && EndsTag(t, g)
    ensures e <= f <= g < |t| && !IsStart(t[f]) && NameGoesOn(t, e)
  {
    AttributesGrow(t, e, f, attrs);
    if attrs != [] { AttributesStart(t, e, f, attrs); }
  }

  lemma {:induction false} AttributesStart(t: seq<byte>, e: nat, f: nat, attrs: seq<Attr>)
    requires AttributesFrom(t, e, f, attrs) && attrs != []
    ensures e + 1 < f <= |t| && IsSpace(t[e])
  {
    var s, k :| SpacedAttribute(t, e, s, k, attrs[0]) && AttributesFrom(t, k, f, attrs[1..]);
    AttributesGrow(t, k, f, attrs[1..]);
    SpacedGrows(t, e, s, k, attrs[0]);
  }

  lemma {:induction false} SpacedGrows(t: seq<byte>, i: nat, s: nat, m: nat, a: Attr)
    requires SpacedAttribute(t, i, s, m, a)
    ensures i + 1 < m <= |t| && IsSpace(t[i])
  {
    var e, p, v :| AttributeParts(t, s, e, p, v, m, a);
  }

  lemma {:induction false} EndNext(b: seq<byte>, endch: byte, s: nat, k: nat, l: nat, stack: seq<Open>)
    requires 2 <= |stack| && k <= l < |b| && NameOf(b, s, k, stack[|stack| - 1].name) && AfterSpace(b, k) == l && GtAt(b, endch, l)
    ensures NextEnd(b, endch, s, stack) == At(Content, After(b, l), Pop(stack))
  {
  }

  lemma {:induction false} CloseKept(t: seq<byte>, b: seq<byte>, endch: byte, i: nat, j: nat, name: seq<byte>, stack: seq<Open>)
    requires Kept(t, b, endch) && CloseFrom(t, i, j, name) && 2 <= |stack| && stack[|stack| - 1].name == name
    ensures SameRun(b, endch, At(Content, i, stack), At(Content, Pos(t, j), Pop(stack)))
  {
    var k, l :| CloseParts(t, i, k, l, j, name);
    CloseNext(t, b, endch, i, k, l, j, name, stack);
    FromEnd(b, endch, i, stack, At(Content, Pos(t, j), Pop(stack)));
  }

  lemma {:induction false} FromEnd(b: seq<byte>, endch: byte, i: nat, stack: seq<Open>, y: State)
    requires i + 2 < |b| && b[i] == LT && b[i + 1] == SLASH && stack != [] && NextEnd(b, endch, i + 2, stack) == y
    ensures SameRun(b, endch, At(Content, i, stack), y)
  {
    ToEnd(b, endch, i, stack);
    ByStep(b, endch, At(EndTag, i + 2, stack), y);
  }

  lemma {:induction false} ToEnd(b: seq<byte>, endch: byte, i: nat, stack: seq<Open>)
    requires i + 2 < |b| && b[i] == LT && b[i + 1] == SLASH && stack != []
    ensures SameRun(b, endch, At(Content, i, stack), At(EndTag, i + 2, stack))
  {
    ByStep(b, endch, At(Content, i, stack), At(Tag, i + 1, stack));
    ByStep(b, endch, At(Tag, i + 1, stack), At(EndTag, i + 2, stack));
  }

  lemma {:induction false} CloseNext(t: seq<byte>, b: seq<byte>, endch: byte, i: nat, k: nat, l: nat, j: nat, name: seq<byte>, stack: seq<Open>)
    requires Kept(t, b, endch) && CloseParts(t, i, k, l, j, name) && 2 <= |stack| && stack[|stack| - 1].name == name
    ensures i + 2 < |b| && b[i] == LT && b[i + 1] == SLASH && NextEnd(b, endch, i + 2, stack) == At(Content, Pos(t, j), Pop(stack))
  {
    KeptBytes(t, b, endch);
    NameKept(t, b, endch, i + 2, k, name);
    SpaceKept(t, b, endch, k, l);
    GtKept(t, b, endch, l);
    EndNext(b, endch, i + 2, k, l, stack);
  }

  // ---------------------------------------------------------------------
  // Content.

  lemma {:induction false} TextKept(t: seq<byte>, b: seq<byte>, endch: byte, i: nat, j: nat, value: seq<byte>, stack: seq<Open>)
    requires Kept(t, b, endch) && TextFrom(t, i, j, value) && j + 2 < |t| && 2 <= |stack|
    ensures SameRun(b, endch, At(Content, i, stack), At(Content, j, AddKid(stack, Text(value))))
  {
    KeptBytes(t, b, endch);
    var r := b[i..j];
    assert r == t[i..j];
    LineEnds.RawDecodes(TEXT_MODE, b, i, j, i, 0, r);
    SpaceInText(t, b, endch, i, j);
    ByStep(b, endch, At(Content, i, stack), At(Tag, j + 1, AddKid(stack, Text(value))));
    ByStep(b, endch, At(Content, j, AddKid(stack, Text(value))), At(Tag, j + 1, AddKid(stack, Text(value))));
  }

  lemma {:induction false} SpaceInText(t: seq<byte>, b: seq<byte>, endch: byte, i: nat, j: nat)
    requires Kept(t, b, endch) && i < j && NoLtFrom(t, i, j) && !SpaceFrom(t, i, j) && j + 1 < |t|
    ensures var p := AfterSpace(b, i); ByteAt(b, p) != LT && ByteAt(b, p) != NUL
  {
    KeptBytes(t, b, endch);
    var p := AfterSpace(b, i);
    var k :| i <= k < j && !IsSpace(b[k]);
  }

  lemma {:induction false} SpaceToTag(t: seq<byte>, b: seq<byte>, endch: byte, i: nat, s: nat, stack: seq<Open>)
    requires Kept(t, b, endch) && SpaceFrom(t, i, s) && CharAt(t, s, LT) && s + 1 < |t| && stack != []
    ensures SameRun(b, endch, At(Content, i, stack), At(Content, s, stack))
  {
    KeptBytes(t, b, endch);
    if i < s {
      SpaceKept(t, b, endch, i, s);
      ByStep(b, endch, At(Content, i, stack), At(Content, s, stack));
    }
  }

  lemma {:induction false} ContentKept(t: seq<byte>, b: seq<byte>, endch: byte, i: nat, j: nat, kids: seq<Tree>, stack: seq<Open>)
    requires Kept(t, b, endch) && ContentFrom(t, i, j, kids) && CharAt(t, j, LT) && j + 2 < |t| && 2 <= |stack|
    ensures SameRun(b, endch, At(Content, i, stack), At(Content, j, AddKids(stack, kids)))
    decreases kids, 1
  {
    KidsStep(stack, kids);
    if kids == [] {
      SpaceToTag(t, b, endch, i, j, stack);
    } else {
      var m :| KidFrom(t, i, m, kids[0]) && ContentFrom(t, m, j, kids[1..]);
      ContentGrows(t, m, j, kids[1..]);
      KidKept(t, b, endch, i, m, kids[0], stack);
      ContentKept(t, b, endch, m, j, kids[1..], AddKid(stack, kids[0]));
    }
  }

  lemma {:induction false} KidKept(t: seq<byte>, b: seq<byte>, endch: byte, i: nat, j: nat, x: Tree, stack: seq<Open>)
    requires Kept(t, b, endch) && KidFrom(t, i, j, x) && j + 2 < |t| && 2 <= |stack|
    ensures SameRun(b, endch, At(Content, i, stack), At(Content, j, AddKid(stack, x)))
    decreases x, 3
  {
    match x
    case Text(v) => TextKept(t, b, endch, i, j, v, stack);
    case Elem(_, _, _) =>
      var s :| SpaceFrom(t, i, s) && ElementFrom(t, s, j, x);
      ElementGrows(t, s, j, x);
      ElementStarts(t, s, j, x);
      SpaceToTag(t, b, endch, i, s, stack);
      ElementKept(t, b, endch, s, j, x, stack);
  }

  lemma {:induction false} ElementStarts(t: seq<byte>, i: nat, j: nat, x: Tree)
    requires ElementFrom(t, i, j, x)
    ensures CharAt(t, i, LT) && i + 2 < |t|
  {
    ElementGrows(t, i, j, x);
    var e, f, g :| StartFrom(t, i, e, f, g, x.name, x.attrs) && RestFrom(t, g, j, x);
  }

  lemma {:induction false} ElementKept(t: seq<byte>, b: seq<byte>, endch: byte, i: nat, j: nat, x: Tree, stack: seq<Open>)
    requires Kept(t, b, endch) && ElementFrom(t, i, j, x) && stack != []
    ensures SameRun(b, endch, At(Content, i, stack), At(Content, Pos(t, j), AddKid(stack, x)))
    decreases x, 2
  {
    KeptBytes(t, b, endch);
    ElementStarts(t, i, j, x);
    ByStep(b, endch, At(Content, i, stack), At(Tag, i + 1, stack));
    var e, f, g :| StartFrom(t, i, e, f, g, x.name, x.attrs) && RestFrom(t, g, j, x);
    StartKept(t, b, endch, i, e, f, g, x.name, x.attrs, stack, Entered(stack, x.name, x.attrs));
    RestKept(t, b, endch, g, j, x, stack, Entered(stack, x.name, x.attrs));
  }

  lemma {:induction false} RestKept(t: seq<byte>, b: seq<byte>, endch: byte, g: nat, j: nat, x: Tree, stack: seq<Open>, inner: seq<Open>)
    requires Kept(t, b, endch) && x.Elem? && RestFrom(t, g, j, x) && stack != [] && inner == Entered(stack, x.name, x.attrs)
    ensures EndsTag(t, g) && SameRun(b, endch, BehindTag(t, g, inner), At(Content, Pos(t, j), AddKid(stack, x)))
    decreases x, 1
  {
    PopEntered(stack, x);
    if t[g] == SLASH {
      assert inner[|stack| := inner[|stack|].(kids := x.kids)] == inner;
    } else {
      var h :| ContentFrom(t, g + 1, h, x.kids) && CloseFrom(t, h, j, x.name);
      ContentGrows(t, g + 1, h, x.kids);
      CloseGrows(t, h, j, x.name);
      ContentKept(t, b, endch, g + 1, h, x.kids, inner);
      FullStack(stack, inner, x);
      CloseKept(t, b, endch, h, j, x.name, AddKids(inner, x.kids));
    }
  }

  lemma FullStack(stack: seq<Open>, inner: seq<Open>, x: Tree)
    requires x.Elem? && stack != [] && inner == Entered(stack, x.name, x.attrs)
    ensures AddKids(inner, x.kids)[|stack|].name == x.name && Pop(AddKids(inner, x.kids)) == AddKid(stack, x)
  {
    PopEntered(stack, x);
    assert [] + x.kids == x.kids;
  }

  // ---------------------------------------------------------------------
  // What is read the grammar describes.

  // The text is accepted from this state on.
  ghost predicate Accepted(b: seq<byte>, endch: byte, x: State) {
    StackOk(x) && Run(b, endch, x).Ok?
  }

  lemma {:induction false} AcceptedNext(b: seq<byte>, endch: byte, x: State)
    requires Accepted(b, endch, x) && x.At?
    ensures x.s < |b| && Accepted(b, endch, Next(b, endch, x))
  {
  }

  lemma {:induction false} NameSound(t: seq<byte>, b: seq<byte>, endch: byte, i: nat, e: nat)
    requires Kept(t, b, endch) && i < |t| && IsStart(ByteAt(b, i)) && e == i + SymbolRun(b, i) && (e == |t| - 1 ==> t[e] == GT)
    ensures e < |t| && NameFrom(t, i, e, t[i..e]) && b[i..e] == t[i..e]
  {
    KeptBytes(t, b, endch);
    forall k | 0 <= k < e - i ensures IsSymbol(t[i..e][k]) { assert t[i..e][k] == b[i + k]; }
  }

  lemma SpaceSound(t: seq<byte>, b: seq<byte>, endch: byte, i: nat, j: nat)
    requires Kept(t, b, endch) && i < |t| && j == AfterSpace(b, i)
    ensures j < |t| && SpaceFrom(t, i, j)
  {
    KeptBytes(t, b, endch);
    assert !IsSpace(b[|t| - 1]);
  }

  lemma {:induction false} EqualsSound(t: seq<byte>, b: seq<byte>, endch: byte, e: nat) returns (p: nat, v: nat)
    requires Kept(t, b, endch) && e < |t| && ValueBehind(b, e) != 0
    ensures SpaceFrom(t, e, p) && CharAt(t, p, EQUALS) && SpaceFrom(t, p + 1, v) && v + 1 < |t| && (t[v] == QUOT || t[v] == APOS)
    ensures ValueBehind(b, e) == v + 1 && b[v] == t[v]
  {
    KeptBytes(t, b, endch);
    p := EqualsAt(b, e);
    assert p == AfterSpace(b, e);
    SpaceSound(t, b, endch, e, p);
    v := AfterSpace(b, p + 1);
    SpaceSound(t, b, endch, p + 1, v);
  }

  lemma {:induction false} ValueSound(t: seq<byte>, b: seq<byte>, endch: byte, v: nat, j: nat, value: seq<byte>, quote: byte)
    requires Kept(t, b, endch) && v + 1 < |t| && t[v] == quote && (quote == QUOT || quote == APOS)
    requires ValueOf(b, v + 1, j, value, quote)
    ensures j < |t| && ValueFrom(t, v, j, value)
  {
    KeptBytes(t, b, endch);
    RawValue(b, v + 1, j, value, quote);
    DecodesAlone(t, b, endch, ValueMode(quote), v + 1, j - 1, t[v + 1..j - 1]);
  }

  lemma {:induction false} RawValue(b: seq<byte>, v: nat, j: nat, value: seq<byte>, quote: byte)
    requires ValueOf(b, v, j, value, quote) && (quote == QUOT || quote == APOS)
    ensures LineEnds.Raw(ValueMode(quote), b, v, j - 1)
  {
    LineEnds.NoStopInside(ValueMode(quote), b, v);
  }

  lemma {:induction false} DecodesAlone(t: seq<byte>, b: seq<byte>, endch: byte, m: Mode, v: nat, e: nat, r: seq<byte>)
    requires Kept(t, b, endch) && LineEnds.Raw(m, b, v, e) && r == t[v..e]
    ensures Decode(m, b, v) == Decode(m, r, 0)
  {
    KeptBytes(t, b, endch);
    assert r == b[v..e];
    LineEnds.RawDecodes(m, b, v, e, v, 0, r);
  }

  lemma {:induction false} AttributeSound(t: seq<byte>, b: seq<byte>, endch: byte, i: nat, a: Attr, j: nat)
    requires Kept(t, b, endch) && i < |t| && IsStart(ByteAt(b, i)) && ReadAttribute(b, i) == Found(a, j)
    ensures AttributeFrom(t, i, j, a) && j < |t| && !IsStart(ByteAt(b, j))
  {
    var e := i + SymbolRun(b, i);
    AttributeName(t, b, endch, i, e);
    var p, v := EqualsSound(t, b, endch, e);
    FoundIs(b, i, e, v + 1, a, j, t[v]);
    ValueSound(t, b, endch, v, j, a.value, t[v]);
    PartsAre(t, i, e, p, v, j, a);
  }

  lemma PartsAre(t: seq<byte>, i: nat, e: nat, p: nat, v: nat, j: nat, a: Attr)
    requires NameFrom(t, i, e, a.name) && SpaceFrom(t, e, p) && CharAt(t, p, EQUALS) && SpaceFrom(t, p + 1, v) && ValueFrom(t, v, j, a.value)
    ensures AttributeFrom(t, i, j, a)
  {
    assert AttributeParts(t, i, e, p, v, j, a);
  }

  lemma {:induction false} AttributeName(t: seq<byte>, b: seq<byte>, endch: byte, i: nat, e: nat)
    requires Kept(t, b, endch) && i < |t| && IsStart(ByteAt(b, i)) && ReadAttribute(b, i).Found? && e == i + SymbolRun(b, i)
    ensures e < |t| && NameFrom(t, i, e, t[i..e]) && b[i..e] == t[i..e] && ValueBehind(b, e) != 0
  {
    ReadsWith(b, i, ValueAt(b, i));
    NameEnds(t, b, endch, i, e);
    NameSound(t, b, endch, i, e);
  }

  lemma {:induction false} FoundIs(b: seq<byte>, i: nat, e: nat, v: nat, a: Attr, j: nat, q: byte)
    requires e == i + SymbolRun(b, i) && v == ValueBehind(b, e) && 0 < v <= |b| && q == b[v - 1] && q != NUL && ReadAttribute(b, i) == Found(a, j)
    ensures e <= |b| && a.name == b[i..e] && ValueOf(b, v, j, a.value, q) && !IsStart(ByteAt(b, j))
  {
    WithIs(b, i, v, q);
    FoundWith(b, i, e, v, q, a, j);
  }

  lemma {:induction false} WithIs(b: seq<byte>, i: nat, v: nat, q: byte)
    requires v == ValueBehind(b, i + SymbolRun(b, i)) && 0 < v <= |b| && q == b[v - 1]
    ensures ReadAttribute(b, i) == AttributeWith(b, i, v, q)
  {
    ReadsWith(b, i, v);
  }

  lemma {:induction false} FoundWith(b: seq<byte>, i: nat, e: nat, v: nat, q: byte, a: Attr, j: nat)
    requires e == i + SymbolRun(b, i) && v <= |b| && q != NUL && AttributeWith(b, i, v, q) == Found(a, j)
    ensures e <= |b| && a.name == b[i..e] && ValueOf(b, v, j, a.value, q) && !IsStart(ByteAt(b, j))
  {
  }

  lemma {:induction false} NameEnds(t: seq<byte>, b: seq<byte>, endch: byte, i: nat, e: nat)
    requires Kept(t, b, endch) && i < |t| && e == i + SymbolRun(b, i) && ValueBehind(b, e) != 0
    ensures e < |t| - 1
  {
    KeptBytes(t, b, endch);
    assert !IsSymbol(b[|t| - 1]);
  }

  // The attributes from i on and what ends the tag.
  lemma {:induction false} AttributesSound(t: seq<byte>, b: seq<byte>, endch: byte, i: nat, stack: seq<Open>) returns (attrs: seq<Attr>, f: nat, g: nat)
    requires Kept(t, b, endch) && 2 <= |stack| && i < |t| && !IsStart(ByteAt(b, i)) && Accepted(b, endch, At(Attributes, i, stack))
    ensures AttributesFrom(t, i, f, attrs) && SpaceFrom(t, f, g) && EndsTag(t, g)
    decreases |t| - i
  {
    KeptBytes(t, b, endch);
    var s := AfterSpace(b, i);
    SpaceSound(t, b, endch, i, s);
    AttributesNext(b, endch, i, s, stack);
    if IsStart(ByteAt(b, s)) {
      var a, m := ReadAttribute(b, s).attr, ReadAttribute(b, s).next;
      AttributeSound(t, b, endch, s, a, m);
      assert SpacedAttribute(t, i, s, m, a);
      var rest;
      rest, f, g := AttributesSound(t, b, endch, m, AddAttr(stack, a));
      attrs := [a] + rest;
      MoreAttributes(t, i, s, m, a, f, rest, attrs);
    } else {
      attrs, f, g := [], i, s;
      TagEndSound(t, b, endch, s);
    }
  }

  lemma {:induction false} AttributesNext(b: seq<byte>, endch: byte, i: nat, s: nat, stack: seq<Open>)
    requires 2 <= |stack| && i < |b| && s == AfterSpace(b, i) && Accepted(b, endch, At(Attributes, i, stack))
    ensures IsStart(ByteAt(b, s)) ==>
              var f := ReadAttribute(b, s); f.Found? && Accepted(b, endch, At(Attributes, f.next, AddAttr(stack, f.attr)))
    ensures !IsStart(ByteAt(b, s)) ==> GtAt(b, endch, s) || (ByteAt(b, s) == SLASH && GtAt(b, endch, s + 1))
  {
    AcceptedNext(b, endch, At(Attributes, i, stack));
  }

  lemma {:induction false} MoreAttributes(t: seq<byte>, i: nat, s: nat, m: nat, a: Attr, f: nat, rest: seq<Attr>, attrs: seq<Attr>)
    requires SpacedAttribute(t, i, s, m, a) && AttributesFrom(t, m, f, rest) && attrs != [] && attrs[0] == a && attrs[1..] == rest
    ensures AttributesFrom(t, i, f, attrs)
  {
  }

  lemma TagEndSound(t: seq<byte>, b: seq<byte>, endch: byte, g: nat)
    requires Kept(t, b, endch) && g < |t| && (GtAt(b, endch, g) || (ByteAt(b, g) == SLASH && GtAt(b, endch, g + 1)))
    ensures EndsTag(t, g)
  {
    KeptBytes(t, b, endch);
  }

  lemma {:induction false} TagStays(b: seq<byte>, endch: byte, s: nat, e: nat, stack: seq<Open>)
    requires stack != [] && s < |b| && b[s] != SLASH && e == s + SymbolRun(b, s) && NextTag(b, endch, s, stack) != Done(Error)
    ensures IsStart(b[s]) && s < e <= |b|
    ensures if IsSpace(ByteAt(b, e)) then NextTag(b, endch, s, stack) == At(Attributes, e + 1, Entered(stack, b[s..e], []))
            else GtAt(b, endch, e) || (ByteAt(b, e) == SLASH && GtAt(b, endch, e + 1))
  {
  }

  // What the next step behind '<' does.
  lemma {:induction false} TagNext(b: seq<byte>, endch: byte, s: nat, e: nat, stack: seq<Open>)
    requires stack != [] && s < |b| && b[s] != SLASH && e == s + SymbolRun(b, s) && Accepted(b, endch, At(Tag, s, stack))
    ensures IsStart(b[s]) && s < e <= |b|
    ensures if IsSpace(ByteAt(b, e)) then Accepted(b, endch, At(Attributes, e + 1, Entered(stack, b[s..e], [])))
            else GtAt(b, endch, e) || (ByteAt(b, e) == SLASH && GtAt(b, endch, e + 1))
  {
    AcceptedNext(b, endch, At(Tag, s, stack));
    TagStays(b, endch, s, e, stack);
  }

  lemma {:induction false} SpaceFirst(b: seq<byte>, endch: byte, e: nat, stack: seq<Open>)
    requires 2 <= |stack| && IsSpace(ByteAt(b, e)) && Accepted(b, endch, At(Attributes, e + 1, stack))
    ensures Accepted(b, endch, At(Attributes, e, stack))
  {
    AcceptedNext(b, endch, At(Attributes, e + 1, stack));
    SpaceBefore(b, endch, e, e + 1, stack);
  }

  lemma {:induction false} StartSound(t: seq<byte>, b: seq<byte>, endch: byte, i: nat, stack: seq<Open>)
    returns (e: nat, f: nat, g: nat, name: seq<byte>, attrs: seq<Attr>)
    requires Kept(t, b, endch) && stack != [] && CharAt(t, i, LT) && i + 1 < |t| && ByteAt(b, i + 1) != SLASH && Accepted(b, endch, At(Tag, i + 1, stack))
    ensures StartFrom(t, i, e, f, g, name, attrs) && EndsTag(t, g)
  {
    KeptBytes(t, b, endch);
    e := i + 1 + SymbolRun(b, i + 1);
    TagNext(b, endch, i + 1, e, stack);
    NameSound(t, b, endch, i + 1, e);
    name := t[i + 1..e];
    if IsSpace(ByteAt(b, e)) {
      var inner := Entered(stack, name, []);
      SpaceFirst(b, endch, e, inner);
      attrs, f, g := AttributesSound(t, b, endch, e, inner);
    } else {
      attrs, f, g := [], e, e;
      TagEndSound(t, b, endch, e);
    }
  }

  lemma {:induction false} CloseSound(t: seq<byte>, b: seq<byte>, endch: byte, i: nat, stack: seq<Open>) returns (j: nat)
    requires Kept(t, b, endch) && CharAt(t, i, LT) && i + 1 < |t| && ByteAt(b, i + 1) == SLASH && stack != [] && Accepted(b, endch, At(Content, i, stack))
    requires GoodName(stack[|stack| - 1].name)
    ensures 2 <= |stack| && CloseFrom(t, i, j, stack[|stack| - 1].name)
  {
    KeptBytes(t, b, endch);
    assert i + 2 < |b|;
    ToEnd(b, endch, i, stack);
    AcceptedNext(b, endch, At(EndTag, i + 2, stack));
    var k := i + 2 + SymbolRun(b, i + 2);
    var name := stack[|stack| - 1].name;
    assert b[i + 2..k] == name;
    var l := AfterSpace(b, k);
    assert IsStart(ByteAt(b, i + 2)) by { assert b[i + 2..k][0] == b[i + 2]; }
    CloseIs(t, b, endch, i, k, l, name);
    j := l + 1;
  }

  lemma {:induction false} CloseIs(t: seq<byte>, b: seq<byte>, endch: byte, i: nat, k: nat, l: nat, name: seq<byte>)
    requires Kept(t, b, endch) && CharAt(t, i, LT) && CharAt(t, i + 1, SLASH) && i + 2 < |t| && IsStart(ByteAt(b, i + 2))
    requires k == i + 2 + SymbolRun(b, i + 2) && k <= |b| && b[i + 2..k] == name && l == AfterSpace(b, k) && GtAt(b, endch, l)
    ensures CloseFrom(t, i, l + 1, name)
  {
    KeptBytes(t, b, endch);
    assert !IsSymbol(b[|t| - 1]);
    NameSound(t, b, endch, i + 2, k);
    SpaceSound(t, b, endch, k, l);
    GtKept(t, b, endch, l);
    assert CloseParts(t, i, k, l, l + 1, name);
  }

  // White space in front of content that begins with a tag belongs to it.
  lemma {:induction false} SpaceAndContent(t: seq<byte>, i: nat, p: nat, j: nat, kids: seq<Tree>)
    requires SpaceFrom(t, i, p) && CharAt(t, p, LT) && ContentFrom(t, p, j, kids)
    ensures ContentFrom(t, i, j, kids)
  {
    if kids != [] {
      var m :| KidFrom(t, p, m, kids[0]) && ContentFrom(t, m, j, kids[1..]);
      if kids[0].Elem? {
        var s :| SpaceFrom(t, p, s) && ElementFrom(t, s, m, kids[0]);
        assert SpaceFrom(t, i, s);
      }
      assert KidFrom(t, i, m, kids[0]);
    }
  }

  lemma {:induction false} MoreContent(t: seq<byte>, i: nat, m: nat, x: Tree, j: nat, rest: seq<Tree>, kids: seq<Tree>)
    requires KidFrom(t, i, m, x) && ContentFrom(t, m, j, rest) && kids != [] && kids[0] == x && kids[1..] == rest
    ensures ContentFrom(t, i, j, kids)
  {
  }

  // What the next step from content does.
  lemma {:induction false} ContentNext(b: seq<byte>, endch: byte, i: nat, p: nat, stack: seq<Open>)
    requires 2 <= |stack| && i < |b| && p == AfterSpace(b, i) && Accepted(b, endch, At(Content, i, stack))
    ensures b[i] != NUL
    ensures b[i] != LT && i < p && ByteAt(b, p) == LT ==> Accepted(b, endch, At(Content, p, stack))
  {
    AcceptedNext(b, endch, At(Content, i, stack));
    if b[i] != LT && i < p && ByteAt(b, p) == NUL { SpaceToEnd(b, endch, i, p, stack); }
  }

  lemma {:induction false} SpaceToEnd(b: seq<byte>, endch: byte, i: nat, p: nat, stack: seq<Open>)
    requires 2 <= |stack| && i < |b| && b[i] != LT && i < p && p == AfterSpace(b, i) && ByteAt(b, p) == NUL
    ensures Run(b, endch, At(Content, i, stack)) == Error
  {
    ByStep(b, endch, At(Content, i, stack), At(Content, p, stack));
    if p < |b| { ByStep(b, endch, At(Content, p, stack), Done(Error)); }
  }

  lemma {:induction false} TextNext(b: seq<byte>, endch: byte, i: nat, e: nat, value: seq<byte>, stack: seq<Open>)
    requires 2 <= |stack| && i < |b| && b[i] != NUL && b[i] != LT && Accepted(b, endch, At(Content, i, stack))
    requires !(i < AfterSpace(b, i) && ByteAt(b, AfterSpace(b, i)) == LT)
    requires e == DecodeEnd(TEXT_MODE, b, i) && value == CString(Decode(TEXT_MODE, b, i))
    ensures ByteAt(b, e) == LT && Accepted(b, endch, At(Tag, e + 1, AddKid(stack, Text(value))))
  {
    var p := AfterSpace(b, i);
    if i < p && ByteAt(b, p) == NUL { SpaceToEnd(b, endch, i, p, stack); }
    AcceptedNext(b, endch, At(Content, i, stack));
  }

  lemma {:induction false} TextSound(t: seq<byte>, b: seq<byte>, endch: byte, i: nat, e: nat, value: seq<byte>)
    requires Kept(t, b, endch) && i < |t| && b[i] != NUL && b[i] != LT && !(i < AfterSpace(b, i) && ByteAt(b, AfterSpace(b, i)) == LT)
    requires e == DecodeEnd(TEXT_MODE, b, i) && ByteAt(b, e) == LT && value == CString(Decode(TEXT_MODE, b, i))
    ensures i < e && TextFrom(t, i, e, value) && e < |t| - 1
  {
    KeptBytes(t, b, endch);
    LineEnds.NoStopInside(TEXT_MODE, b, i);
    var r := b[i..e];
    assert r == t[i..e];
    LineEnds.RawDecodes(TEXT_MODE, b, i, e, i, 0, r);
    if SpaceFrom(t, i, e) { SpaceIs(b, i, e); }
  }

  ghost predicate NamesGood(stack: seq<Open>) {
    forall k :: 1 <= k < |stack| ==> GoodName(stack[k].name)
  }

  lemma {:induction false} ContentSound(t: seq<byte>, b: seq<byte>, endch: byte, i: nat, stack: seq<Open>) returns (kids: seq<Tree>, h: nat, m: nat)
    requires Kept(t, b, endch) && 2 <= |stack| && NamesGood(stack) && i < |t| && Accepted(b, endch, At(Content, i, stack))
    ensures ContentFrom(t, i, h, kids) && CloseFrom(t, h, m, stack[|stack| - 1].name)
    decreases |t| - i, 1
  {
    KeptBytes(t, b, endch);
    var p := AfterSpace(b, i);
    ContentNext(b, endch, i, p, stack);
    if b[i] == LT && ByteAt(b, i + 1) == SLASH {
      kids, h := [], i;
      m := CloseSound(t, b, endch, i, stack);
    } else if b[i] == LT {
      var x, j := ElementSound(t, b, endch, i, stack);
      assert KidFrom(t, i, j, x);
      kids, h, m := RestSound(t, b, endch, i, j, x, stack);
    } else if i < p && ByteAt(b, p) == LT {
      SpaceSound(t, b, endch, i, p);
      kids, h, m := ContentSound(t, b, endch, p, stack);
      SpaceAndContent(t, i, p, h, kids);
    } else {
      var x, e := OneText(t, b, endch, i, stack);
      kids, h, m := RestSound(t, b, endch, i, e, x, stack);
    }
  }

  lemma {:induction false} OneText(t: seq<byte>, b: seq<byte>, endch: byte, i: nat, stack: seq<Open>) returns (x: Tree, e: nat)
    requires Kept(t, b, endch) && 2 <= |stack| && i < |t| && Accepted(b, endch, At(Content, i, stack)) && b[i] != NUL && b[i] != LT
    requires !(i < AfterSpace(b, i) && ByteAt(b, AfterSpace(b, i)) == LT)
    ensures i < e < |t| && KidFrom(t, i, e, x) && Accepted(b, endch, At(Content, e, AddKid(stack, x)))
  {
    var value := CString(Decode(TEXT_MODE, b, i));
    e, x := DecodeEnd(TEXT_MODE, b, i), Text(value);
    TextNext(b, endch, i, e, value, stack);
    TextSound(t, b, endch, i, e, value);
    BackToTag(b, endch, e, AddKid(stack, x));
  }

  lemma {:induction false} BackToTag(b: seq<byte>, endch: byte, e: nat, stack: seq<Open>)
    requires stack != [] && ByteAt(b, e) == LT && Accepted(b, endch, At(Tag, e + 1, stack))
    ensures Accepted(b, endch, At(Content, e, stack))
  {
    ByStep(b, endch, At(Content, e, stack), At(Tag, e + 1, stack));
  }

  // The content behind a child.
  lemma {:induction false} RestSound(t: seq<byte>, b: seq<byte>, endch: byte, i: nat, j: nat, x: Tree, stack: seq<Open>) returns (kids: seq<Tree>, h: nat, m: nat)
    requires Kept(t, b, endch) && 2 <= |stack| && NamesGood(stack) && i < j && KidFrom(t, i, j, x) && j <= |t| && Accepted(b, endch, At(Content, Pos(t, j), AddKid(stack, x)))
    ensures ContentFrom(t, i, h, kids) && CloseFrom(t, h, m, stack[|stack| - 1].name)
    decreases |t| - i, 0
  {
    KeptBytes(t, b, endch);
    var inner := AddKid(stack, x);
    if j == |t| { ContentNext(b, endch, |t| - 1, AfterSpace(b, |t| - 1), inner); }
    var rest;
    rest, h, m := ContentSound(t, b, endch, j, inner);
    kids := [x] + rest;
    MoreContent(t, i, j, x, h, rest, kids);
  }

  lemma {:induction false} ElementSound(t: seq<byte>, b: seq<byte>, endch: byte, i: nat, stack: seq<Open>) returns (x: Tree, m: nat)
    requires Kept(t, b, endch) && stack != [] && NamesGood(stack) && i + 1 < |t| && CharAt(b, i, LT) && ByteAt(b, i + 1) != SLASH && Accepted(b, endch, At(Content, i, stack))
    ensures i < m <= |t| && ElementFrom(t, i, m, x) && Accepted(b, endch, At(Content, Pos(t, m), AddKid(stack, x)))
    decreases |t| - i, 0
  {
    KeptBytes(t, b, endch);
    ByStep(b, endch, At(Content, i, stack), At(Tag, i + 1, stack));
    var e, f, g, name, attrs := StartSound(t, b, endch, i, stack);
    var inner := Entered(stack, name, attrs);
    StartKept(t, b, endch, i, e, f, g, name, attrs, stack, inner);
    StartGrows(t, i, e, f, g, name, attrs);
    var kids;
    kids, m := KidsSound(t, b, endch, g, name, attrs, inner);
    x := Elem(name, attrs, kids);
    WholeElement(t, i, e, f, g, m, x);
    ElementKept(t, b, endch, i, m, x, stack);
  }

  lemma {:induction false} StartGrows(t: seq<byte>, i: nat, e: nat, f: nat, g: nat, name: seq<byte>, attrs: seq<Attr>)
    requires StartFrom(t, i, e, f, g, name, attrs)
    ensures i + 1 < g && GoodName(name)
  {
    AttributesGrow(t, e, f, attrs);
  }

  lemma {:induction false} WholeElement(t: seq<byte>, i: nat, e: nat, f: nat, g: nat, m: nat, x: Tree)
    requires x.Elem? && StartFrom(t, i, e, f, g, x.name, x.attrs) && RestFrom(t, g, m, x)
    ensures ElementFrom(t, i, m, x) && i < m <= |t|
  {
    ElementGrows(t, i, m, x);
  }

  // What follows the name and the attributes of an element.
  lemma {:induction false} KidsSound(t: seq<byte>, b: seq<byte>, endch: byte, g: nat, name: seq<byte>, attrs: seq<Attr>, inner: seq<Open>) returns (kids: seq<Tree>, m: nat)
    requires Kept(t, b, endch) && EndsTag(t, g) && 2 <= |inner| && NamesGood(inner) && inner[|inner| - 1].name == name && Accepted(b, endch, BehindTag(t, g, inner))
    ensures RestFrom(t, g, m, Elem(name, attrs, kids))
    decreases |t| - g, 0
  {
    if t[g] == SLASH {
      kids, m := [], g + 2;
    } else {
      KeptBytes(t, b, endch);
      if g + 1 == |t| { ContentNext(b, endch, |t| - 1, AfterSpace(b, |t| - 1), inner); }
      var h;
      kids, h, m := ContentSound(t, b, endch, g + 1, inner);
    }
  }

  // ---------------------------------------------------------------------
  // Documents.

  // Up to the next tag the document holds nothing.
  lemma {:induction false} SkipKept(t: seq<byte>, b: seq<byte>, endch: byte, i: nat, s: nat, stack: seq<Open>)
    requires Kept(t, b, endch) && NoLtFrom(t, i, s) && CharAt(t, s, LT) && s + 1 < |t| && |stack| == 1
    ensures SameRun(b, endch, At(Content, i, stack), At(Content, s, stack))
    decreases s - i
  {
    KeptBytes(t, b, endch);
    if i < s {
      var p := AfterSpace(b, i);
      SpaceSound(t, b, endch, i, p);
      if i < p && ByteAt(b, p) == LT {
        NextTagAt(t, b, endch, i, s, p);
        ByStep(b, endch, At(Content, i, stack), At(Content, p, stack));
      } else {
        NoEndBefore(t, b, endch, i, s, p);
        ScanIs(b, i, s);
        ByStep(b, endch, At(Content, i, stack), At(Tag, s + 1, stack));
        ByStep(b, endch, At(Content, s, stack), At(Tag, s + 1, stack));
      }
    }
  }

  lemma NextTagAt(t: seq<byte>, b: seq<byte>, endch: byte, i: nat, s: nat, p: nat)
    requires Kept(t, b, endch) && NoLtFrom(t, i, s) && CharAt(t, s, LT) && SpaceFrom(t, i, p) && ByteAt(b, p) == LT
    ensures p == s
  {
    KeptBytes(t, b, endch);
    assert t[p] == LT;
  }

  lemma NoEndBefore(t: seq<byte>, b: seq<byte>, endch: byte, i: nat, s: nat, p: nat)
    requires Kept(t, b, endch) && NoLtFrom(t, i, s) && CharAt(t, s, LT) && s + 1 < |t| && SpaceFrom(t, i, p) && ByteAt(b, p) != LT
    ensures i < p ==> ByteAt(b, p) != NUL
  {
    KeptBytes(t, b, endch);
    assert !IsSpace(t[s]);
  }

  lemma {:induction false} ScanIs(b: seq<byte>, i: nat, s: nat)
    requires i <= s < |b| && (forall k :: i <= k < s ==> b[k] != LT && b[k] != NUL) && (b[s] == LT || b[s] == NUL)
    ensures ScanTag(b, i) == s
    decreases s - i
  {
    if i < s { ScanIs(b, i + 1, s); }
  }

  // No further tag: the document is what was read so far.
  lemma {:induction false} EndKept(t: seq<byte>, b: seq<byte>, endch: byte, i: nat, stack: seq<Open>)
    requires Kept(t, b, endch) && i < |t| && (forall k :: i <= k < |t| - 1 ==> t[k] != LT) && |stack| == 1
    ensures Run(b, endch, At(Content, i, stack)) == Ok(stack[0].kids)
    decreases |t| - i
  {
    KeptBytes(t, b, endch);
    var p := AfterSpace(b, i);
    SpaceSound(t, b, endch, i, p);
    if b[i] != NUL && i < p && ByteAt(b, p) == NUL {
      ByStep(b, endch, At(Content, i, stack), At(Content, p, stack));
      EndKept(t, b, endch, p, stack);
    } else {
      ScanIs(b, i, |t| - 1);
      ByStep(b, endch, At(Content, i, stack), Done(Ok(stack[0].kids)));
    }
  }

  lemma {:induction false} DocumentKept(t: seq<byte>, b: seq<byte>, endch: byte, i: nat, kids: seq<Tree>, stack: seq<Open>)
    requires Kept(t, b, endch) && DocumentFrom(t, i, kids) && |stack| == 1 && (i >= |t| ==> endch == GT)
    ensures Run(b, endch, At(Content, Pos(t, i), stack)) == Ok(stack[0].kids + kids) && endch != LT
    decreases |kids|
  {
    if kids == [] {
      EndKept(t, b, endch, Pos(t, i), stack);
      assert stack[0].kids + [] == stack[0].kids;
    } else {
      var x, rest := kids[0], kids[1..];
      var s, m := FirstElement(t, i, kids, x, rest);
      FirstKept(t, b, endch, i, s, m, x, stack);
      var more := AddKid(stack, x);
      DocumentKept(t, b, endch, m, rest, more);
      KidsJoin(stack, kids, x, rest);
      SameOutcome(b, endch, At(Content, i, stack), At(Content, Pos(t, m), more), stack[0].kids + kids);
    }
  }

  lemma KidsJoin(stack: seq<Open>, kids: seq<Tree>, x: Tree, rest: seq<Tree>)
    requires |stack| == 1 && kids != [] && x == kids[0] && rest == kids[1..]
    ensures AddKid(stack, x)[0].kids + rest == stack[0].kids + kids
  {
    assert stack[0].kids + [x] + rest == stack[0].kids + kids;
  }

  lemma {:induction false} SameOutcome(b: seq<byte>, endch: byte, x: State, y: State, kids: seq<Tree>)
    requires SameRun(b, endch, x, y) && Run(b, endch, y) == Ok(kids)
    ensures Run(b, endch, x) == Ok(kids)
  {
  }

  lemma {:induction false} FirstElement(t: seq<byte>, i: nat, kids: seq<Tree>, x: Tree, rest: seq<Tree>) returns (s: nat, m: nat)
    requires DocumentFrom(t, i, kids) && kids != [] && x == kids[0] && rest == kids[1..]
    ensures NoLtFrom(t, i, s) && ElementFrom(t, s, m, x) && DocumentFrom(t, m, rest) && s + 2 < |t|
  {
    s, m :| NoLtFrom(t, i, s) && ElementFrom(t, s, m, kids[0]) && DocumentFrom(t, m, kids[1..]);
    ElementStarts(t, s, m, kids[0]);
  }

  lemma {:induction false} FirstKept(t: seq<byte>, b: seq<byte>, endch: byte, i: nat, s: nat, m: nat, x: Tree, stack: seq<Open>)
    requires Kept(t, b, endch) && NoLtFrom(t, i, s) && ElementFrom(t, s, m, x) && |stack| == 1
    ensures SameRun(b, endch, At(Content, i, stack), At(Content, Pos(t, m), AddKid(stack, x))) && i <= |t| - 1 && (m >= |t| ==> endch == GT)
  {
    ElementSpans(t, s, m, x);
    SkipKept(t, b, endch, i, s, stack);
    ElementKept(t, b, endch, s, m, x, stack);
  }

  lemma {:induction false} ElementSpans(t: seq<byte>, s: nat, m: nat, x: Tree)
    requires ElementFrom(t, s, m, x)
    ensures CharAt(t, s, LT) && s + 2 < |t| && s < m <= |t| && t[m - 1] == GT
  {
    ElementStarts(t, s, m, x);
    ElementEnds(t, s, m, x);
  }

  lemma {:induction false} ElementEnds(t: seq<byte>, i: nat, j: nat, x: Tree)
    requires ElementFrom(t, i, j, x)
    ensures i < j <= |t| && t[j - 1] == GT
  {
    ElementGrows(t, i, j, x);
    var e, f, g :| StartFrom(t, i, e, f, g, x.name, x.attrs) && RestFrom(t, g, j, x);
    RestEnds(t, g, j, x);
  }

  lemma {:induction false} RestEnds(t: seq<byte>, g: nat, j: nat, x: Tree)
    requires x.Elem? && RestFrom(t, g, j, x)
    ensures 0 < j <= |t| && t[j - 1] == GT
  {
    if !CharAt(t, g, SLASH) {
      var h :| ContentFrom(t, g + 1, h, x.kids) && CloseFrom(t, h, j, x.name);
      CloseEnds(t, h, j, x.name);
    }
  }

  lemma CloseEnds(t: seq<byte>, h: nat, j: nat, name: seq<byte>)
    requires CloseFrom(t, h, j, name)
    ensures 0 < j <= |t| && t[j - 1] == GT
  {
    var k, l :| CloseParts(t, h, k, l, j, name);
  }

  lemma {:induction false} DocumentSound(t: seq<byte>, b: seq<byte>, endch: byte, i: nat, stack: seq<Open>) returns (kids: seq<Tree>)
    requires Kept(t, b, endch) && |stack| == 1 && i <= |t| && (i == |t| ==> endch == GT) && endch != LT && Accepted(b, endch, At(Content, Pos(t, i), stack))
    ensures DocumentFrom(t, i, kids)
    decreases |t| - i, 1
  {
    KeptBytes(t, b, endch);
    if s :| i <= s < |t| - 1 && t[s] == LT && NoLtFrom(t, i, s) {
      SkipKept(t, b, endch, i, s, stack);
      if ByteAt(b, s + 1) == SLASH { NoCloseHere(b, endch, s, stack); }
      var x, m := ElementSound(t, b, endch, s, stack);
      kids := RestOfDocument(t, b, endch, i, s, m, x, stack);
    } else {
      kids := [];
      NoTag(t, i);
    }
  }

  lemma {:induction false} RestOfDocument(t: seq<byte>, b: seq<byte>, endch: byte, i: nat, s: nat, m: nat, x: Tree, stack: seq<Open>) returns (kids: seq<Tree>)
    requires Kept(t, b, endch) && |stack| == 1 && endch != LT && NoLtFrom(t, i, s) && s < m && ElementFrom(t, s, m, x)
    requires Accepted(b, endch, At(Content, Pos(t, m), AddKid(stack, x)))
    ensures DocumentFrom(t, i, kids)
    decreases |t| - i, 0
  {
    ElementEnds(t, s, m, x);
    var rest := DocumentSound(t, b, endch, m, AddKid(stack, x));
    kids := [x] + rest;
    MoreDocument(t, i, s, m, x, rest, kids);
  }

  lemma {:induction false} NoCloseHere(b: seq<byte>, endch: byte, s: nat, stack: seq<Open>)
    requires s + 2 < |b| && b[s] == LT && |stack| == 1 && ByteAt(b, s + 1) == SLASH
    ensures Run(b, endch, At(Content, s, stack)) == Error
  {
    ToEnd(b, endch, s, stack);
    ByStep(b, endch, At(EndTag, s + 2, stack), Done(Error));
  }

  lemma {:induction false} MoreDocument(t: seq<byte>, i: nat, s: nat, m: nat, x: Tree, rest: seq<Tree>, kids: seq<Tree>)
    requires NoLtFrom(t, i, s) && ElementFrom(t, s, m, x) && DocumentFrom(t, m, rest) && kids != [] && kids[0] == x && kids[1..] == rest
    ensures DocumentFrom(t, i, kids)
  {
  }

  // The first '<' is the one with none before it.
  lemma {:induction false} NoTag(t: seq<byte>, i: nat)
    requires t != [] && i <= |t| && t[|t| - 1] != LT && forall s :: i <= s < |t| - 1 && t[s] == LT ==> !NoLtFrom(t, i, s)
    ensures NoLtFrom(t, i, |t|)
  {
    NoTagUpTo(t, i, |t|);
  }

  lemma {:induction false} NoTagUpTo(t: seq<byte>, i: nat, j: nat)
    requires t != [] && i <= j <= |t| && t[|t| - 1] != LT && forall s :: i <= s < |t| - 1 && t[s] == LT ==> !NoLtFrom(t, i, s)
    ensures NoLtFrom(t, i, j)
    decreases j - i
  {
    if i < j { NoTagUpTo(t, i, j - 1); }
  }

  // The byte order mark is nothing of the document.
  lemma {:induction false} MarkSkipped(t: seq<byte>, b: seq<byte>, endch: byte, kids: seq<Tree>)
    requires Kept(t, b, endch) && Lit(b, 0, BOM)
    ensures 3 < |t| && (DocumentFrom(t, 0, kids) <==> DocumentFrom(t, 3, kids))
  {
    KeptBytes(t, b, endch);
    LitAt(b, 0, BOM, 0);
    LitAt(b, 0, BOM, 1);
    LitAt(b, 0, BOM, 2);
    if DocumentFrom(t, 0, kids) { OtherStart(t, 0, 3, kids); }
    if DocumentFrom(t, 3, kids) { OtherStart(t, 3, 0, kids); }
  }

  lemma {:induction false} OtherStart(t: seq<byte>, i: nat, j: nat, kids: seq<Tree>)
    requires DocumentFrom(t, i, kids) && i <= 3 && j <= 3 < |t| && forall k :: 0 <= k < 3 ==> t[k] != LT
    ensures DocumentFrom(t, j, kids)
  {
    if kids != [] {
      var x, rest := kids[0], kids[1..];
      var s, m := FirstElement(t, i, kids, x, rest);
      ElementStarts(t, s, m, x);
      assert NoLtFrom(t, j, s);
      MoreDocument(t, j, s, m, x, rest, kids);
    }
  }

  /** The parser accepts exactly the documents of the grammar, and makes of one the elements
      that the grammar says are in it; there is only one way to read it. */
  lemma {:induction false} ParsesExactly(t: seq<byte>, kids: seq<Tree>)
    requires NulFree(t)
    ensures Parse(t) == Ok(kids) <==> kids != [] && DocumentFrom(t, 0, kids)
  {
    if t == [] {
      if kids != [] && DocumentFrom(t, 0, kids) { NotEmpty(t, kids); }
    } else {
      var b, endch := t[..|t| - 1] + [NUL], t[|t| - 1];
      ParsesKept(t, b, endch, kids, if Lit(b, 0, BOM) then 3 else 0);
    }
  }

  lemma {:induction false} NotEmpty(t: seq<byte>, kids: seq<Tree>)
    requires kids != [] && DocumentFrom(t, 0, kids)
    ensures t != []
  {
    var s, m := FirstElement(t, 0, kids, kids[0], kids[1..]);
  }

  lemma {:induction false} ParsesKept(t: seq<byte>, b: seq<byte>, endch: byte, kids: seq<Tree>, i: nat)
    requires Kept(t, b, endch) && i == if Lit(b, 0, BOM) then 3 else 0
    ensures Parse(t) == Ok(kids) <==> kids != [] && DocumentFrom(t, 0, kids)
  {
    var x := At(Content, i, [DOCUMENT]);
    if i == 3 { MarkSkipped(t, b, endch, kids); }
    if DocumentFrom(t, i, kids) {
      DocumentKept(t, b, endch, i, kids, [DOCUMENT]);
      assert [] + kids == kids;
    }
    if Run(b, endch, x) == Ok(kids) && endch != LT {
      var found := DocumentSound(t, b, endch, i, [DOCUMENT]);
      DocumentKept(t, b, endch, i, found, [DOCUMENT]);
      assert [] + found == found;
    }
  }
}
