/** pugixml.cpp, parse_tree at work: the parser overwrites the buffer it reads.
    Names and values are cut off by NULs and values are decoded in place; the
    result is nevertheless what XmlSyntax.Parse makes of the buffer as it was. */
module XmlParser {
  import opened Bytes
  import opened Unescape
  import opened XmlSyntax
  import InPlace

  // The buffer n is still what it was, o, from position i on.
  ghost predicate SameFrom(o: seq<byte>, n: seq<byte>, i: nat) {
    |o| == |n| && forall k :: i <= k < |o| ==> n[k] == o[k]
  }

  // A buffer with a NUL at its end.
  ghost predicate Ended(o: seq<byte>) {
    o != [] && o[|o| - 1] == NUL
  }

  lemma {:induction false} SameDecode(m: Mode, o: seq<byte>, n: seq<byte>, i: nat)
    requires SameFrom(o, n, i) && i <= |o|
    ensures Decode(m, n, i) == Decode(m, o, i) && DecodeEnd(m, n, i) == DecodeEnd(m, o, i)
  {
    assert o[i..] == n[i..];
    InPlace.Unread(m, o, n, i);
  }

  lemma SameTail(o: seq<byte>, n0: seq<byte>, n: seq<byte>, i: nat, j: nat)
    requires SameFrom(o, n0, i) && i <= j <= |o| && |n| == |n0| && n[j..] == n0[j..]
    ensures SameFrom(o, n, j)
  {
    forall k | j <= k < |o| ensures n[k] == o[k] { assert n[j..][k - j] == n0[j..][k - j]; }
  }

  // PUGI__SKIPWS
  method SkipSpace(b: array<byte>, ghost o: seq<byte>, s: nat) returns (p: nat)
    requires Ended(o) && SameFrom(o, b[..], s) && s < b.Length
    ensures p == AfterSpace(o, s) && s <= p < b.Length
  {
    p := s;
    while IsSpace(b[p])
      invariant s <= p < b.Length && AfterSpace(o, s) == AfterSpace(o, p)
      decreases b.Length - p
    {
      p := p + 1;
    }
  }

  // PUGI__SCANWHILE(ct_symbol)
  method ScanSymbols(b: array<byte>, ghost o: seq<byte>, s: nat) returns (e: nat)
    requires Ended(o) && SameFrom(o, b[..], s) && s < b.Length
    ensures e == s + SymbolRun(o, s) && s <= e < b.Length && b[s..e] == o[s..e] && b[e] == o[e]
  {
    e := s;
    while IsSymbol(b[e])
      invariant s <= e < b.Length && s + SymbolRun(o, s) == e + SymbolRun(o, e)
      decreases b.Length - e
    {
      e := e + 1;
    }
  }

  // PUGI__SCANFOR(*s == '<')
  method ScanForTag(b: array<byte>, ghost o: seq<byte>, s: nat) returns (e: nat)
    requires Ended(o) && SameFrom(o, b[..], s) && s < b.Length
    ensures e == ScanTag(o, s) && s <= e < b.Length && b[e] == o[e]
  {
    e := s;
    while b[e] != NUL && b[e] != LT
      invariant s <= e < b.Length && ScanTag(o, s) == ScanTag(o, e)
      decreases b.Length - e
    {
      e := e + 1;
    }
  }

  // What a stored value is to those who read it.
  method ReadString(b: array<byte>, begin: nat, ghost text: seq<byte>) returns (v: seq<byte>)
    requires InPlace.Holds(b[..], begin, text)
    ensures v == CString(text)
  {
    assert forall k :: 0 <= k < |text| ==> b[begin + k] == b[..][begin..begin + |text|][k] == text[k];
    var n := 0;
    while b[begin + n] != NUL
      invariant 0 <= n <= |text| && forall k :: 0 <= k < n ==> text[k] != NUL
      decreases |text| - n
    {
      n := n + 1;
    }
    assert CLength(text, 0) == n;
    v := b[begin..begin + n];
    assert v == text[..n];
  }

  // Text in an element, decoded in place up to the next '<': t, which ends at e.
  method DecodeText(b: array<byte>, ghost o: seq<byte>, s: nat, ghost e: nat, ghost t: seq<byte>) returns (next: nat)
    requires Ended(o) && SameFrom(o, b[..], s) && s < b.Length
    requires t == Decode(TEXT_MODE, o, s) && e == DecodeEnd(TEXT_MODE, o, s)
    modifies b
    ensures e < |o| && InPlace.Holds(b[..], s, t) && s <= next < b.Length && SameFrom(o, b[..], next)
    ensures next == if o[e] == LT then e + 1 else e
  {
    ghost var n0 := b[..];
    SameDecode(TEXT_MODE, o, n0, s);
    assert n0[|n0| - 1] == NUL;
    next := InPlace.ParsePcdata(b, s, false, true, true, e, t);
    ghost var n1 := b[..];
    SameTail(o, n0, n1, s, next);
    assert SameFrom(o, n1, next);
  }

  // The main loop, once.
  method StepContent(b: array<byte>, ghost o: seq<byte>, endch: byte, s: nat, stack: seq<Open>) returns (y: State)
    requires Ended(o) && SameFrom(o, b[..], s) && s < b.Length && stack != []
    modifies b
    ensures y == NextContent(o, endch, s, stack) && (y.At? ==> y.s < b.Length && SameFrom(o, b[..], y.s))
  {
    if b[s] == NUL { return Done(if |stack| == 1 then Ok(stack[0].kids) else Error); }
    if b[s] == LT { return At(Tag, s + 1, stack); }
    var p := SkipSpace(b, o, s);
    if p > s && (b[p] == LT || b[p] == NUL) { return At(Content, p, stack); }
    if |stack| > 1 {
      ghost var e, t := DecodeEnd(TEXT_MODE, o, s), Decode(TEXT_MODE, o, s);
      var next := DecodeText(b, o, s, e, t);
      var v := ReadString(b, s, t);
      if b[next] == NUL { return Done(Error); }
      y := At(Tag, next, AddKid(stack, Text(v)));
    } else {
      var e := ScanForTag(b, o, s);
      y := if b[e] == NUL then Done(Ok(stack[0].kids)) else At(Tag, e + 1, stack);
    }
  }

  // LOC_TAG: PUGI__ENDSEG cuts off the name.
  // The name of a start tag and what follows it.
  method StepStart(b: array<byte>, ghost o: seq<byte>, endch: byte, s: nat, stack: seq<Open>) returns (y: State)
    requires Ended(o) && SameFrom(o, b[..], s) && s < b.Length && stack != [] && IsStart(b[s])
    modifies b
    ensures y == NextTag(o, endch, s, stack) && (y.At? ==> y.s < b.Length && SameFrom(o, b[..], y.s))
  {
    var e := ScanSymbols(b, o, s);
    var inner := stack + [Open(b[s..e], [], [])];
    var ch := b[e];
    b[e] := NUL;
    if ch == GT { return At(Content, e + 1, inner); }
    if IsSpace(ch) { return At(Attributes, e + 1, inner); }
    if ch == SLASH {
      if b[e + 1] == GT { return At(Content, e + 2, Pop(inner)); }
      if b[e + 1] == NUL && endch == GT { return At(Content, e + 1, Pop(inner)); }
      return Done(Error);
    }
    y := if ch == NUL && endch == GT then At(Content, e, inner) else Done(Error);
  }

  method StepTag(b: array<byte>, ghost o: seq<byte>, endch: byte, s: nat, stack: seq<Open>) returns (y: State)
    requires Ended(o) && SameFrom(o, b[..], s) && s < b.Length && stack != []
    modifies b
    ensures y == NextTag(o, endch, s, stack) && (y.At? ==> y.s < b.Length && SameFrom(o, b[..], y.s))
  {
    if IsStart(b[s]) {
      y := StepStart(b, o, endch, s, stack);
    } else if b[s] == SLASH {
      y := At(EndTag, s + 1, stack);
    } else {
      y := Done(Error);
    }
  }

  // '</': the name has to be that of the element
  method StepEnd(b: array<byte>, ghost o: seq<byte>, endch: byte, s: nat, stack: seq<Open>) returns (y: State)
    requires Ended(o) && SameFrom(o, b[..], s) && s < b.Length && stack != []
    ensures y == NextEnd(o, endch, s, stack) && (y.At? ==> y.s < b.Length && SameFrom(o, b[..], y.s))
  {
    if |stack| == 1 { return Done(Error); }
    var e := ScanSymbols(b, o, s);
    if b[s..e] != stack[|stack| - 1].name { return Done(Error); }
    var p := SkipSpace(b, o, e);
    if b[p] == NUL { return if endch == GT then At(Content, p, Pop(stack)) else Done(Error); }
    y := if b[p] == GT then At(Content, p + 1, Pop(stack)) else Done(Error);
  }

  // Behind a name that ended with ch: the position of the '=', or of what is there instead.
  method FindEquals(b: array<byte>, ghost o: seq<byte>, e: nat, ch: byte) returns (q: nat, c: byte)
    requires Ended(o) && SameFrom(o, b[..], e + 1) && e < b.Length && o[e] == ch && b[e] == NUL
    ensures q == EqualsAt(o, e) && e <= q < b.Length && c == o[q]
  {
    q, c := e, ch;
    if IsSpace(ch) {
      q := SkipSpace(b, o, e + 1);
      c := b[q];
    }
  }

  // '=' and the opening quote.
  method TakeQuote(b: array<byte>, ghost o: seq<byte>, e: nat, ch: byte) returns (v: nat)
    requires Ended(o) && SameFrom(o, b[..], e + 1) && e < b.Length && o[e] == ch && b[e] == NUL
    ensures v == ValueBehind(o, e) && (v != 0 ==> e < v < b.Length && (o[v - 1] == QUOT || o[v - 1] == APOS) && b[v - 1] == o[v - 1])
  {
    var q, c := FindEquals(b, o, e, ch);
    v := 0;
    if c == EQUALS {
      var p := SkipSpace(b, o, q + 1);
      if b[p] == QUOT || b[p] == APOS { v := p + 1; }
    }
  }

  // The name of an attribute up to its opening quote.
  method TakeName(b: array<byte>, ghost o: seq<byte>, s: nat) returns (name: seq<byte>, v: nat)
    requires Ended(o) && SameFrom(o, b[..], s) && s < b.Length
    modifies b
    ensures v == ValueAt(o, s) && (v != 0 ==> s < v < b.Length && SameFrom(o, b[..], v) && (o[v - 1] == QUOT || o[v - 1] == APOS) && b[v - 1] == o[v - 1])
    ensures s + SymbolRun(o, s) <= |o| && name == o[s..s + SymbolRun(o, s)]
  {
    var e := ScanSymbols(b, o, s);
    name := b[s..e];
    var ch := b[e];
    b[e] := NUL;
    v := TakeQuote(b, o, e, ch);
  }

  // An attribute value, decoded in place: t, which ends at e; -1 if there is no quote.
  method DecodeValue(b: array<byte>, ghost o: seq<byte>, v: nat, quote: byte, ghost e: nat, ghost t: seq<byte>) returns (next: int)
    requires Ended(o) && SameFrom(o, b[..], v) && v < b.Length && (quote == QUOT || quote == APOS)
    requires t == Decode(ValueMode(quote), o, v) && e == DecodeEnd(ValueMode(quote), o, v)
    modifies b
    ensures e < |o| && if o[e] != quote then next == -1
                       else next == e + 1 < b.Length && InPlace.Holds(b[..], v, t) && SameFrom(o, b[..], next)
  {
    ghost var n0 := b[..];
    SameDecode(ValueMode(quote), o, n0, v);
    assert b[b.Length - 1] == NUL;
    next := InPlace.ParseAttribute(b, v, quote, false, true, true, e, t);
    if next != -1 { SameTail(o, n0, b[..], v, next); }
  }

  // The attribute whose value has been decoded, unless its name runs on.
  method TakeValue(b: array<byte>, v: nat, name: seq<byte>, next: nat, ghost t: seq<byte>) returns (f: Found)
    requires InPlace.Holds(b[..], v, t) && next < b.Length
    ensures f == if IsStart(b[next]) then Missing else Found(Attr(name, CString(t)), next)
  {
    var value := ReadString(b, v, t);
    f := if IsStart(b[next]) then Missing else Found(Attr(name, value), next);
  }

  method TakeWith(b: array<byte>, ghost o: seq<byte>, v: nat, name: seq<byte>, quote: byte, ghost e: nat, ghost t: seq<byte>) returns (f: Found)
    requires Ended(o) && SameFrom(o, b[..], v) && v < b.Length && (quote == QUOT || quote == APOS)
    requires t == Decode(ValueMode(quote), o, v) && e == DecodeEnd(ValueMode(quote), o, v)
    modifies b
    ensures f == (if ByteAt(o, e) != quote || IsStart(ByteAt(o, e + 1)) then Missing else Found(Attr(name, CString(t)), e + 1))
    ensures f.Found? ==> f.next < b.Length && SameFrom(o, b[..], f.next)
  {
    var next := DecodeValue(b, o, v, quote, e, t);
    if next == -1 { return Missing; }
    f := TakeValue(b, v, name, next, t);
  }

  lemma {:induction false} WithIs(o: seq<byte>, s: nat, v: nat, quote: byte, e: nat, t: seq<byte>)
    requires s + SymbolRun(o, s) <= |o| && v <= |o|
    requires t == Decode(ValueMode(quote), o, v) && e == DecodeEnd(ValueMode(quote), o, v)
    ensures AttributeWith(o, s, v, quote) ==
      if ByteAt(o, e) != quote || IsStart(ByteAt(o, e + 1)) then Missing else Found(Attr(o[s..s + SymbolRun(o, s)], CString(t)), e + 1)
  {
  }

  method TakeAttribute(b: array<byte>, ghost o: seq<byte>, s: nat) returns (f: Found)
    requires Ended(o) && SameFrom(o, b[..], s) && s < b.Length
    modifies b
    ensures f == ReadAttribute(o, s) && (f.Found? ==> f.next < b.Length && SameFrom(o, b[..], f.next))
  {
    var name, v := TakeName(b, o, s);
    ReadsWith(o, s, v);
    if v == 0 { return Missing; }
    ghost var e, t := DecodeEnd(ValueMode(o[v - 1]), o, v), Decode(ValueMode(o[v - 1]), o, v);
    WithIs(o, s, v, o[v - 1], e, t);
    f := TakeWith(b, o, v, name, b[v - 1], e, t);
  }

  // LOC_ATTRIBUTES
  method StepAttributes(b: array<byte>, ghost o: seq<byte>, endch: byte, s0: nat, stack: seq<Open>) returns (y: State)
    requires Ended(o) && SameFrom(o, b[..], s0) && s0 < b.Length && 2 <= |stack|
    modifies b
    ensures y == NextAttributes(o, endch, s0, stack) && (y.At? ==> y.s < b.Length && SameFrom(o, b[..], y.s))
  {
    var s := SkipSpace(b, o, s0);
    if IsStart(b[s]) {
      var f := TakeAttribute(b, o, s);
      y := if f.Found? then At(Attributes, f.next, AddAttr(stack, f.attr)) else Done(Error);
    } else if b[s] == SLASH {
      y := if b[s + 1] == GT then At(Content, s + 2, Pop(stack))
           else if b[s + 1] == NUL && endch == GT then At(Content, s + 1, Pop(stack))
           else Done(Error);
    } else if b[s] == GT {
      y := At(Content, s + 1, stack);
    } else {
      y := if b[s] == NUL && endch == GT then At(Content, s, stack) else Done(Error);
    }
  }

  /** parse_tree: the loop over the buffer. */
  method ParseTree(b: array<byte>, endch: byte, s: nat) returns (r: Result)
    requires Ended(b[..]) && s < b.Length
    modifies b
    ensures r == Run(old(b[..]), endch, At(Content, s, [DOCUMENT]))
  {
    ghost var o := b[..];
    var x := At(Content, s, [DOCUMENT]);
    while x.At?
      invariant StackOk(x) && Run(o, endch, x) == Run(o, endch, At(Content, s, [DOCUMENT]))
      invariant x.At? ==> x.s < b.Length && SameFrom(o, b[..], x.s)
      invariant |o| == b.Length && Ended(o)
      decreases x.At?, if x.At? then b.Length - x.s else 0, if x.At? then Rank(x.phase) else 0
    {
      ghost var y := Next(o, endch, x);
      assert Run(o, endch, x) == Run(o, endch, y);
      match x.phase
      case Content => x := StepContent(b, o, endch, x.s, x.stack);
      case Tag => x := StepTag(b, o, endch, x.s, x.stack);
      case EndTag => x := StepEnd(b, o, endch, x.s, x.stack);
      case Attributes => x := StepAttributes(b, o, endch, x.s, x.stack);
      assert x == y;
    }
    r := x.r;
  }

  /** xml_parser::parse, on a buffer that it may overwrite. */
  method ParseBuffer(b: array<byte>) returns (r: Result)
    modifies b
    ensures r == Parse(old(b[..]))
  {
    if b.Length == 0 { return Error; }
    ghost var o := b[..];
    var last := b.Length - 1;
    var endch := b[last];
    b[last] := NUL;
    assert b[..] == o[..last] + [NUL];
    var bom := 3 <= b.Length && b[0] == BOM[0] && b[1] == BOM[1] && b[2] == BOM[2];
    assert bom <==> Lit(b[..], 0, BOM);
    assert bom ==> 3 < b.Length;
    r := ParseTree(b, endch, if bom then 3 else 0);
    if r.Ok? && (endch == LT || r.kids == []) { r := Error; }
  }
}
