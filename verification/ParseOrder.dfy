/** The parser of pugixml.cpp creates nodes and attributes in document order, and
    the names and values it points them to lie in the buffer in that order. */
module ParseOrder {
  import opened Bytes
  import opened Unescape
  import opened XmlSyntax

  // What a document consists of, in document order.
  datatype Item = ElementItem(name: seq<byte>) | AttributeItem(attr: Attr) | TextItem(text: seq<byte>)

  function AttrItems(attrs: seq<Attr>): (r: seq<Item>) {
    seq(|attrs|, i requires 0 <= i < |attrs| => AttributeItem(attrs[i]))
  }

  function Preorder(t: Tree): seq<Item>
    decreases t, 0
  {
    match t
    case Text(v) => [TextItem(v)]
    case Elem(name, attrs, kids) => [ElementItem(name)] + AttrItems(attrs) + PreorderAll(kids)
  }

  function PreorderAll(kids: seq<Tree>): seq<Item>
    decreases kids, 1
  {
    if kids == [] then [] else PreorderAll(kids[..|kids| - 1]) + Preorder(kids[|kids| - 1])
  }

  // What the parser creates: an item, and where its name (or text) and its value begin.
  datatype Mark = Mark(item: Item, at: nat, valueAt: nat)

  function TextMark(b: seq<byte>, s: nat, stack: seq<Open>): (r: seq<Mark>)
    requires s < |b|
  {
    var p := AfterSpace(b, s);
    var e := DecodeEnd(TEXT_MODE, b, s);
    if b[s] == NUL || b[s] == LT || (p > s && (ByteAt(b, p) == LT || ByteAt(b, p) == NUL)) || |stack| <= 1
       || ByteAt(b, e) != LT || ByteAt(b, e + 1) == NUL then []
    else [Mark(TextItem(CString(Decode(TEXT_MODE, b, s))), s, s)]
  }

  function ElementMark(b: seq<byte>, s: nat): (r: seq<Mark>)
    requires s < |b|
  {
    if IsStart(b[s]) then [Mark(ElementItem(b[s..s + SymbolRun(b, s)]), s, s)] else []
  }

  function AttributeMark(b: seq<byte>, s: nat): (r: seq<Mark>) {
    var p := AfterSpace(b, s);
    var f := ReadAttribute(b, p);
    if IsStart(ByteAt(b, p)) && f.Found? then [Mark(AttributeItem(f.attr), p, ValueAt(b, p))] else []
  }

  // What one step of the parser creates.
  function Emitted(b: seq<byte>, x: State): (r: seq<Mark>)
    requires x.At?
  {
    if x.s >= |b| then []
    else match x.phase
      case Content => TextMark(b, x.s, x.stack)
      case Tag => ElementMark(b, x.s)
      case EndTag => []
      case Attributes => AttributeMark(b, x.s)
  }

  function Trace(b: seq<byte>, endch: byte, x: State): (r: seq<Mark>)
    requires StackOk(x)
    decreases if x.Done? then 0 else 1, if x.Done? || x.s > |b| then 0 else |b| - x.s, if x.Done? then 0 else Rank(x.phase)
  {
    if x.Done? then []
    else if x.s >= |b| then []
    else Emitted(b, x) + Trace(b, endch, Next(b, endch, x))
  }

  function Items(marks: seq<Mark>): (r: seq<Item>)
    ensures |r| == |marks| && forall i :: 0 <= i < |r| ==> r[i] == marks[i].item
  {
    seq(|marks|, i requires 0 <= i < |marks| => marks[i].item)
  }

  // ---------------------------------------------------------------------
  // The open elements with what they have got so far.

  function PreorderOpen(stack: seq<Open>): seq<Item> {
    if stack == [] then []
    else
      var top := stack[|stack| - 1];
      if |stack| == 1 then PreorderAll(top.kids)
      else PreorderOpen(stack[..|stack| - 1]) + ([ElementItem(top.name)] + AttrItems(top.attrs) + PreorderAll(top.kids))
  }

  lemma {:induction false} KidAdded(stack: seq<Open>, t: Tree)
    requires stack != []
    ensures PreorderOpen(AddKid(stack, t)) == PreorderOpen(stack) + Preorder(t)
  {
    var top := stack[|stack| - 1];
    var kids := top.kids + [t];
    assert kids[..|kids| - 1] == top.kids;
    assert AddKid(stack, t)[..|stack| - 1] == stack[..|stack| - 1];
    if |stack| != 1 {
      Assoc(PreorderOpen(stack[..|stack| - 1]), [ElementItem(top.name)] + AttrItems(top.attrs), PreorderAll(top.kids), Preorder(t));
    }
  }

  lemma Assoc<X>(a: seq<X>, b: seq<X>, c: seq<X>, d: seq<X>)
    ensures a + (b + (c + d)) == a + (b + c) + d
  {
  }

  lemma {:induction false} ElementClosed(stack: seq<Open>)
    requires 2 <= |stack|
    ensures PreorderOpen(Pop(stack)) == PreorderOpen(stack)
  {
    var top := stack[|stack| - 1];
    KidAdded(stack[..|stack| - 1], Elem(top.name, top.attrs, top.kids));
  }

  lemma {:induction false} ElementOpened(stack: seq<Open>, name: seq<byte>)
    requires stack != []
    ensures PreorderOpen(stack + [Open(name, [], [])]) == PreorderOpen(stack) + [ElementItem(name)]
  {
    var s := stack + [Open(name, [], [])];
    assert s[..|s| - 1] == stack;
    assert [ElementItem(name)] + AttrItems([]) + PreorderAll([]) == [ElementItem(name)];
  }

  lemma {:induction false} AttrAdded(stack: seq<Open>, a: Attr)
    requires 2 <= |stack| && stack[|stack| - 1].kids == []
    ensures PreorderOpen(AddAttr(stack, a)) == PreorderOpen(stack) + [AttributeItem(a)]
  {
    var top := stack[|stack| - 1];
    assert AddAttr(stack, a)[..|stack| - 1] == stack[..|stack| - 1];
    assert AttrItems(top.attrs + [a]) == AttrItems(top.attrs) + [AttributeItem(a)];
    assert PreorderAll([]) == [];
    var low, x := PreorderOpen(stack[..|stack| - 1]), [ElementItem(top.name)];
    assert low + (x + (AttrItems(top.attrs) + [AttributeItem(a)]) + []) == low + (x + AttrItems(top.attrs) + []) + [AttributeItem(a)];
  }

  // ---------------------------------------------------------------------
  // One step.

  // An element that still gets attributes has no children yet.
  ghost predicate Fresh(x: State) {
    x.At? ==> x.stack != [] && (x.phase == Attributes ==> 2 <= |x.stack| && x.stack[|x.stack| - 1].kids == [])
  }

  // The step from x to y has added what it emitted.
  ghost predicate Adds(marks: seq<Mark>, x: State, y: State)
    requires x.At?
  {
    && Fresh(y)
    && (y.At? ==> PreorderOpen(y.stack) == PreorderOpen(x.stack) + Items(marks))
    && (y.Done? && y.r.Ok? ==> marks == [] && |x.stack| == 1 && y.r.kids == x.stack[0].kids)
  }

  lemma NoItems(l: seq<Item>)
    ensures Items([]) == [] && l + [] == l
  {
  }

  lemma {:induction false} ContentAdds(b: seq<byte>, endch: byte, s: nat, stack: seq<Open>)
    requires stack != [] && s < |b|
    ensures Adds(TextMark(b, s, stack), At(Content, s, stack), NextContent(b, endch, s, stack))
  {
    NoItems(PreorderOpen(stack));
    var m := TextMark(b, s, stack);
    if m != [] {
      KidAdded(stack, Text(m[0].item.text));
      assert Items(m) == Preorder(Text(m[0].item.text));
    }
  }

  lemma {:induction false} TagAdds(b: seq<byte>, endch: byte, s: nat, stack: seq<Open>)
    requires stack != [] && s < |b|
    ensures Adds(ElementMark(b, s), At(Tag, s, stack), NextTag(b, endch, s, stack))
  {
    NoItems(PreorderOpen(stack));
    if IsStart(b[s]) {
      var name := b[s..s + SymbolRun(b, s)];
      var inner := stack + [Open(name, [], [])];
      ElementOpened(stack, name);
      ElementClosed(inner);
      assert Items(ElementMark(b, s)) == [ElementItem(name)];
    }
  }

  lemma {:induction false} EndAdds(b: seq<byte>, endch: byte, s: nat, stack: seq<Open>)
    requires stack != [] && s < |b|
    ensures Adds([], At(EndTag, s, stack), NextEnd(b, endch, s, stack))
  {
    NoItems(PreorderOpen(stack));
    if 2 <= |stack| { ElementClosed(stack); }
  }

  lemma {:induction false} AttributesAdd(b: seq<byte>, endch: byte, s: nat, stack: seq<Open>)
    requires 2 <= |stack| && s < |b| && stack[|stack| - 1].kids == []
    ensures Adds(AttributeMark(b, s), At(Attributes, s, stack), NextAttributes(b, endch, s, stack))
  {
    NoItems(PreorderOpen(stack));
    ElementClosed(stack);
    var m := AttributeMark(b, s);
    if m != [] {
      AttrAdded(stack, m[0].item.attr);
      assert Items(m) == [m[0].item];
    }
  }

  lemma {:induction false} StepAdds(b: seq<byte>, endch: byte, x: State)
    requires x.At? && Fresh(x) && StackOk(x) && x.s < |b|
    ensures Adds(Emitted(b, x), x, Next(b, endch, x))
  {
    match x.phase
    case Content => ContentAdds(b, endch, x.s, x.stack);
    case Tag => TagAdds(b, endch, x.s, x.stack);
    case EndTag => EndAdds(b, endch, x.s, x.stack);
    case Attributes => AttributesAdd(b, endch, x.s, x.stack);
  }

  /** A parser that succeeds has created what is in the tree, in document order. */
  lemma {:induction false} CreatedInOrder(b: seq<byte>, endch: byte, x: State, kids: seq<Tree>)
    requires x.At? && Fresh(x) && StackOk(x) && Run(b, endch, x) == Ok(kids)
    ensures PreorderOpen(x.stack) + Items(Trace(b, endch, x)) == PreorderAll(kids)
    decreases if x.s > |b| then 0 else |b| - x.s, Rank(x.phase)
  {
    var y := Next(b, endch, x);
    var m, rest := Emitted(b, x), Trace(b, endch, y);
    StepAdds(b, endch, x);
    if y.At? {
      CreatedInOrder(b, endch, y, kids);
      ItemsSum(m, rest);
      Assoc3(PreorderOpen(x.stack), Items(m), Items(rest));
    } else {
      NoItems(PreorderOpen(x.stack));
      assert m + rest == [];
    }
  }

  lemma ItemsSum(a: seq<Mark>, b: seq<Mark>)
    ensures Items(a + b) == Items(a) + Items(b)
  {
  }

  lemma Assoc3<X>(a: seq<X>, b: seq<X>, c: seq<X>)
    ensures a + (b + c) == (a + b) + c
  {
  }

  // ---------------------------------------------------------------------
  // Positions.

  ghost predicate Increasing(marks: seq<Mark>) {
    && (forall i :: 0 <= i < |marks| ==> marks[i].at <= marks[i].valueAt)
    && (forall i, j :: 0 <= i < j < |marks| ==> marks[i].valueAt < marks[j].at)
  }

  ghost predicate Between(marks: seq<Mark>, s: nat, y: State) {
    && |marks| <= 1
    && (marks != [] ==> s <= marks[0].at <= marks[0].valueAt && (y.At? ==> marks[0].valueAt < y.s))
  }

  lemma {:induction false} EmittedBetween(b: seq<byte>, endch: byte, x: State)
    requires x.At? && StackOk(x) && x.s < |b|
    ensures Between(Emitted(b, x), x.s, Next(b, endch, x))
  {
    match x.phase
    case Content => ContentBetween(b, endch, x.s, x.stack);
    case Tag => TagBetween(b, endch, x.s, x.stack);
    case EndTag =>
    case Attributes => AttributeBetween(b, endch, x.s, x.stack);
  }

  lemma {:induction false} ContentBetween(b: seq<byte>, endch: byte, s: nat, stack: seq<Open>)
    requires stack != [] && s < |b|
    ensures Between(TextMark(b, s, stack), s, NextContent(b, endch, s, stack))
  {
  }

  lemma {:induction false} TagBetween(b: seq<byte>, endch: byte, s: nat, stack: seq<Open>)
    requires stack != [] && s < |b|
    ensures Between(ElementMark(b, s), s, NextTag(b, endch, s, stack))
  {
    if IsStart(b[s]) { assert SymbolRun(b, s) >= 1; }
  }

  lemma {:induction false} AttributeBetween(b: seq<byte>, endch: byte, s: nat, stack: seq<Open>)
    requires 2 <= |stack| && s < |b|
    ensures Between(AttributeMark(b, s), s, NextAttributes(b, endch, s, stack))
  {
    var p := AfterSpace(b, s);
    ReadsWith(b, p, ValueAt(b, p));
  }

  /** What is created later points further into the buffer. */
  lemma {:induction false} PositionsIncrease(b: seq<byte>, endch: byte, x: State)
    requires StackOk(x)
    ensures Increasing(Trace(b, endch, x)) && forall i :: x.At? && 0 <= i < |Trace(b, endch, x)| ==> x.s <= Trace(b, endch, x)[i].at
    decreases if x.Done? then 0 else 1, if x.Done? || x.s > |b| then 0 else |b| - x.s, if x.Done? then 0 else Rank(x.phase)
  {
    if x.At? && x.s < |b| {
      var y := Next(b, endch, x);
      EmittedBetween(b, endch, x);
      PositionsIncrease(b, endch, y);
    }
  }
}
