/** pugixml.cpp, parse_tree and node_output in raw mode, for documents of
    elements, attributes and text: what the printer writes and what the parser
    makes of it.  The conversions inside values are those of Unescape.dfy. */
module XmlSyntax {
  import opened Bytes
  import opened Unescape

  datatype Attr = Attr(name: seq<byte>, value: seq<byte>)
  datatype Tree = Elem(name: seq<byte>, attrs: seq<Attr>, kids: seq<Tree>) | Text(value: seq<byte>)

  const SLASH: byte := 47
  const EQUALS: byte := 61

  // ct_start_symbol
  predicate IsStart(c: byte) {
    c > 127 || 97 <= c <= 122 || 65 <= c <= 90 || c == 95 || c == 58
  }

  // ct_symbol
  predicate IsSymbol(c: byte) {
    IsStart(c) || 48 <= c <= 57 || c == 45 || c == 46
  }

  // ---------------------------------------------------------------------
  // Printing (node_output with format_raw), recursively.

  function PrintAttr(a: Attr): (s: seq<byte>) {
    [SPACE] + a.name + [EQUALS, QUOT] + Escape(Attribute, a.value) + [QUOT]
  }

  function PrintAttrs(attrs: seq<Attr>): (s: seq<byte>) {
    if attrs == [] then [] else PrintAttr(attrs[0]) + PrintAttrs(attrs[1..])
  }

  // The tag that opens an element, up to what follows the attributes.
  function PrintOpen(t: Tree): (s: seq<byte>)
    requires t.Elem?
  {
    [LT] + t.name + PrintAttrs(t.attrs)
  }

  function PrintClose(t: Tree): (s: seq<byte>)
    requires t.Elem?
  {
    [LT, SLASH] + t.name + [GT]
  }

  function Print(t: Tree): (s: seq<byte>)
    decreases t, 0
  {
    match t
    case Text(v) => Escape(Pcdata, v)
    case Elem(_, _, kids) =>
      if kids == [] then PrintOpen(t) + [SPACE, SLASH, GT]
      else PrintOpen(t) + [GT] + PrintAll(kids) + PrintClose(t)
  }

  function PrintAll(kids: seq<Tree>): (s: seq<byte>)
    decreases kids, 1
  {
    if kids == [] then [] else Print(kids[0]) + PrintAll(kids[1..])
  }

  // ---------------------------------------------------------------------
  // Parsing (parse_tree).

  // An element whose end has not been seen, with what it has got so far; the
  // bottom of the stack is the document.
  datatype Open = Open(name: seq<byte>, attrs: seq<Attr>, kids: seq<Tree>)

  datatype Result = Ok(kids: seq<Tree>) | Error

  const DOCUMENT := Open([], [], [])

  function AddKid(stack: seq<Open>, t: Tree): (r: seq<Open>)
    requires stack != []
    ensures |r| == |stack|
  {
    var top := stack[|stack| - 1];
    stack[|stack| - 1 := top.(kids := top.kids + [t])]
  }

  function AddAttr(stack: seq<Open>, a: Attr): (r: seq<Open>)
    requires stack != []
    ensures |r| == |stack|
  {
    var top := stack[|stack| - 1];
    stack[|stack| - 1 := top.(attrs := top.attrs + [a])]
  }

  // PUGI__POPNODE on an element
  function Pop(stack: seq<Open>): (r: seq<Open>)
    requires 2 <= |stack|
    ensures |r| == |stack| - 1
  {
    var top := stack[|stack| - 1];
    AddKid(stack[..|stack| - 1], Elem(top.name, top.attrs, top.kids))
  }

  function SymbolRun(b: seq<byte>, i: nat): (n: nat)
    ensures i <= |b| ==> i + n <= |b|
    ensures forall k :: i <= k < i + n ==> k < |b| && IsSymbol(b[k])
    ensures !IsSymbol(ByteAt(b, i + n))
    decreases |b| - i
  {
    if i < |b| && IsSymbol(b[i]) then 1 + SymbolRun(b, i + 1) else 0
  }

  function AfterSpace(b: seq<byte>, i: nat): (j: nat)
    ensures i <= j && (i <= |b| ==> j <= |b|)
  {
    i + SpaceRun(b, i)
  }

  // Where the next '<' or the end is.
  function ScanTag(b: seq<byte>, i: nat): (j: nat)
    ensures i <= j && (i <= |b| ==> j <= |b|)
    ensures ByteAt(b, j) == LT || ByteAt(b, j) == NUL
    decreases |b| - i
  {
    if i < |b| && b[i] != LT && b[i] != NUL then ScanTag(b, i + 1) else i
  }

  // A stored value ends at its first NUL, which only a reference can put there.
  function CString(s: seq<byte>): (t: seq<byte>)
    ensures |t| <= |s| && t == s[..|t|] && (|t| < |s| ==> s[|t|] == NUL)
  {
    s[..CLength(s, 0)]
  }

  function CLength(s: seq<byte>, i: nat): (n: nat)
    requires i <= |s|
    ensures i <= n <= |s| && (n < |s| ==> s[n] == NUL) && forall k :: i <= k < n ==> s[k] != NUL
    decreases |s| - i
  {
    if i < |s| && s[i] != NUL then CLength(s, i + 1) else i
  }

  lemma {:induction false} CStringOf(s: seq<byte>)
    requires NulFree(s)
    ensures CString(s) == s
  {
    assert CLength(s, 0) == |s|;
  }

  const TEXT_MODE := Mode(LT, true, false, false, true)

  function ValueMode(quote: byte): Mode {
    Mode(quote, false, true, false, true)
  }

  // Behind the name of an attribute: white space and '=', then white space and a quote.
  function EqualsAt(b: seq<byte>, e: nat): (q: nat)
    ensures e <= q
  {
    if IsSpace(ByteAt(b, e)) then AfterSpace(b, e + 1) else e
  }

  function QuoteAt(b: seq<byte>, q: nat): (v: nat)
    ensures v == 0 || q < v
  {
    var p := AfterSpace(b, q + 1);
    if ByteAt(b, p) == QUOT || ByteAt(b, p) == APOS then p + 1 else 0
  }

  // Where the value of the attribute starts whose name ends at e, 0 if something is missing.
  function ValueBehind(b: seq<byte>, e: nat): (v: nat)
    ensures v == 0 || e < v
  {
    var q := EqualsAt(b, e);
    if ByteAt(b, q) == EQUALS then QuoteAt(b, q) else 0
  }

  function ValueAt(b: seq<byte>, s: nat): (v: nat)
    ensures v == 0 || s < v
  {
    ValueBehind(b, s + SymbolRun(b, s))
  }

  datatype Found = Found(attr: Attr, next: nat) | Missing

  // The attribute at s, whose value starts at v, with the position behind it.
  function AttributeWith(b: seq<byte>, s: nat, v: nat, quote: byte): (f: Found)
    requires v <= |b|
    ensures f.Found? ==> v < f.next
  {
    var e := DecodeEnd(ValueMode(quote), b, v);
    if ByteAt(b, e) != quote || IsStart(ByteAt(b, e + 1)) || s + SymbolRun(b, s) > |b| then Missing
    else Found(Attr(b[s..s + SymbolRun(b, s)], CString(Decode(ValueMode(quote), b, v))), e + 1)
  }

  function ReadAttribute(b: seq<byte>, s: nat): (f: Found)
    ensures f.Found? ==> s < f.next
  {
    var v := ValueAt(b, s);
    if v == 0 || v > |b| then Missing else AttributeWith(b, s, v, b[v - 1])
  }

  lemma {:induction false} ReadsWith(b: seq<byte>, s: nat, v: nat)
    requires ValueAt(b, s) == v
    ensures ReadAttribute(b, s) == if v == 0 || v > |b| then Missing else AttributeWith(b, s, v, b[v - 1])
  {
  }

  // Where the parser is: at content, behind '<' (LOC_TAG), behind '</', or
  // behind the name of an element or an attribute value (LOC_ATTRIBUTES).
  datatype Phase = Content | Tag | EndTag | Attributes

  datatype State = At(phase: Phase, s: nat, stack: seq<Open>) | Done(r: Result)

  function Rank(p: Phase): nat {
    match p
    case Content => 0
    case EndTag => 1
    case Attributes => 2
    case Tag => 3
  }

  // Every step reads on, or stays where it is and comes closer to content.
  predicate Closer(x: State, y: State) {
    y.At? ==> x.At? && (x.s < y.s || (x.s == y.s && Rank(y.phase) < Rank(x.phase)))
  }

  ghost predicate StackOk(x: State) {
    x.At? ==> x.stack != [] && (x.phase == Attributes ==> 2 <= |x.stack|)
  }

  // The main loop.
  function NextContent(b: seq<byte>, endch: byte, s: nat, stack: seq<Open>): (r: State)
    requires stack != [] && s < |b|
    ensures Closer(At(Content, s, stack), r) && StackOk(r)
  {
    if b[s] == NUL then Done(if |stack| == 1 then Ok(stack[0].kids) else Error)
    else if b[s] == LT then At(Tag, s + 1, stack)
    else
      var p := AfterSpace(b, s);
      if p > s && (ByteAt(b, p) == LT || ByteAt(b, p) == NUL) then At(Content, p, stack)
      else if |stack| > 1 then
        var e := DecodeEnd(TEXT_MODE, b, s);
        if ByteAt(b, e) != LT || ByteAt(b, e + 1) == NUL then Done(Error)
        else At(Tag, e + 1, AddKid(stack, Text(CString(Decode(TEXT_MODE, b, s)))))
      else
        var e := ScanTag(b, s);
        if ByteAt(b, e) == NUL then Done(Ok(stack[0].kids)) else At(Tag, e + 1, stack)
  }

  function NextTag(b: seq<byte>, endch: byte, s: nat, stack: seq<Open>): (r: State)
    requires stack != [] && s < |b|
    ensures Closer(At(Tag, s, stack), r) && StackOk(r)
  {
    if IsStart(b[s]) then
      var e := s + SymbolRun(b, s);
      var inner := stack + [Open(b[s..e], [], [])];
      var ch := ByteAt(b, e);
      if ch == GT then At(Content, e + 1, inner)
      else if IsSpace(ch) then At(Attributes, e + 1, inner)
      else if ch == SLASH then
        if ByteAt(b, e + 1) == GT then At(Content, e + 2, Pop(inner))
        else if ByteAt(b, e + 1) == NUL && endch == GT then At(Content, e + 1, Pop(inner))
        else Done(Error)
      else if ch == NUL && endch == GT then At(Content, e, inner)
      else Done(Error)
    else if b[s] == SLASH then At(EndTag, s + 1, stack)
    else Done(Error)
  }

  function NextEnd(b: seq<byte>, endch: byte, s: nat, stack: seq<Open>): (r: State)
    requires stack != [] && s < |b|
    ensures Closer(At(EndTag, s, stack), r) && StackOk(r)
  {
    var e := s + SymbolRun(b, s);
    var p := AfterSpace(b, e);
    if |stack| == 1 || b[s..e] != stack[|stack| - 1].name then Done(Error)
    else if ByteAt(b, p) == NUL then (if endch == GT then At(Content, p, Pop(stack)) else Done(Error))
    else if b[p] == GT then At(Content, p + 1, Pop(stack))
    else Done(Error)
  }

  function NextAttributes(b: seq<byte>, endch: byte, s0: nat, stack: seq<Open>): (r: State)
    requires 2 <= |stack| && s0 < |b|
    ensures Closer(At(Attributes, s0, stack), r) && StackOk(r)
  {
    var s := AfterSpace(b, s0);
    var c := ByteAt(b, s);
    if IsStart(c) then
      var f := ReadAttribute(b, s);
      if f.Found? then At(Attributes, f.next, AddAttr(stack, f.attr)) else Done(Error)
    else if c == SLASH then
      if ByteAt(b, s + 1) == GT then At(Content, s + 2, Pop(stack))
      else if ByteAt(b, s + 1) == NUL && endch == GT then At(Content, s + 1, Pop(stack))
      else Done(Error)
    else if c == GT then At(Content, s + 1, stack)
    else if c == NUL && endch == GT then At(Content, s, stack)
    else Done(Error)
  }

  // One step; the buffer ends with a NUL, which no step passes.
  function Next(b: seq<byte>, endch: byte, x: State): (r: State)
    requires x.At? && StackOk(x)
    ensures Closer(x, r) && StackOk(r)
  {
    if x.s >= |b| then Done(Error)
    else match x.phase
      case Content => NextContent(b, endch, x.s, x.stack)
      case Tag => NextTag(b, endch, x.s, x.stack)
      case EndTag => NextEnd(b, endch, x.s, x.stack)
      case Attributes => NextAttributes(b, endch, x.s, x.stack)
  }

  function Run(b: seq<byte>, endch: byte, x: State): (r: Result)
    requires StackOk(x)
    decreases if x.Done? then 0 else 1, if x.Done? || x.s > |b| then 0 else |b| - x.s, if x.Done? then 0 else Rank(x.phase)
  {
    if x.Done? then x.r
    else if x.s >= |b| then Error
    else Run(b, endch, Next(b, endch, x))
  }

  const BOM: seq<byte> := [0xEF, 0xBB, 0xBF]

  // xml_parser::parse: the last character is kept aside and a NUL put in its place.
  function Parse(buffer: seq<byte>): Result {
    if buffer == [] then Error
    else
      var endch := buffer[|buffer| - 1];
      var b := buffer[..|buffer| - 1] + [NUL];
      var r := Run(b, endch, At(Content, if Lit(b, 0, BOM) then 3 else 0, [DOCUMENT]));
      if r.Ok? && (endch == LT || r.kids == []) then Error else r
  }
}
