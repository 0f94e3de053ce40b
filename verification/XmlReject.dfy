/** What the parser refuses (pugixml.cpp, status_end_element_mismatch): an end tag of
    another name, and elements that are left open. */
module XmlReject {
  import opened Bytes
  import opened Unescape
  import opened XmlSyntax
  import opened XmlRoundTrip

  predicate GoodElements(fs: seq<Tree>) {
    forall i :: 0 <= i < |fs| ==> fs[i].Elem? && Good(fs[i])
  }

  // Elements one inside the other, each open, with the children it has so far.
  function PrintAround(fs: seq<Tree>): (s: seq<byte>)
    requires GoodElements(fs)
  {
    if fs == [] then [] else PrintOpen(fs[0]) + ([GT] + (PrintAll(fs[0].kids) + PrintAround(fs[1..])))
  }

  ghost function Inside(stack: seq<Open>, fs: seq<Tree>): (r: seq<Open>)
    requires GoodElements(fs)
    ensures |r| == |stack| + |fs|
    decreases |fs|
  {
    if fs == [] then stack else Inside(AddKids(Entered(stack, fs[0].name, fs[0].attrs), fs[0].kids), fs[1..])
  }

  lemma {:induction false} InsideName(stack: seq<Open>, fs: seq<Tree>)
    requires GoodElements(fs) && fs != []
    ensures var r := Inside(stack, fs); r[|r| - 1].name == fs[|fs| - 1].name
    decreases |fs|
  {
    var inner := AddKids(Entered(stack, fs[0].name, fs[0].attrs), fs[0].kids);
    if |fs| == 1 { assert fs[1..] == []; } else { InsideName(inner, fs[1..]); }
  }

  // One open element, and where what follows it starts.
  lemma {:induction false} FirstOpen(b: seq<byte>, s: nat, f: Tree, rest: seq<byte>, o: nat, k: nat)
    requires f.Elem? && Good(f) && Lit(b, s, PrintOpen(f) + ([GT] + (PrintAll(f.kids) + rest)))
    requires o == s + |PrintOpen(f)| && k == o + 1 + |PrintAll(f.kids)|
    ensures Lit(b, s, PrintOpen(f)) && ByteAt(b, o) == GT && Lit(b, o + 1, PrintAll(f.kids)) && Lit(b, k, rest)
    ensures ByteAt(b, s) == LT && ByteAt(b, s + 1) != NUL
  {
    LitSplit(b, s, PrintOpen(f), [GT] + (PrintAll(f.kids) + rest));
    LitSplit(b, o, [GT], PrintAll(f.kids) + rest);
    LitSplit(b, o + 1, PrintAll(f.kids), rest);
    LitAt(b, o, [GT], 0);
    OpenParts(b, s, f);
    LitAt(b, s + 1, f.name, 0);
  }

  /** The parser goes through elements left open and comes out inside the last. */
  lemma {:induction false} AroundRead(b: seq<byte>, endch: byte, s: nat, fs: seq<Tree>, stack: seq<Open>, e: nat)
    requires stack != [] && GoodElements(fs) && Lit(b, s, PrintAround(fs)) && e == s + |PrintAround(fs)|
    requires ByteAt(b, e) == LT && ByteAt(b, e + 1) != NUL
    ensures ByteAt(b, s) == LT && ByteAt(b, s + 1) != NUL && Reads(b, endch, At(Tag, s + 1, stack), At(Tag, e + 1, Inside(stack, fs)))
    decreases |fs|
  {
    var goal := At(Tag, e + 1, Inside(stack, fs));
    if fs == [] {
      Runs.NoStep(Step(b, endch), goal);
    } else {
      var f, rest := fs[0], fs[1..];
      var o := s + |PrintOpen(f)|;
      var k := o + 1 + |PrintAll(f.kids)|;
      FirstOpen(b, s, f, PrintAround(rest), o, k);
      AroundRead(b, endch, k, rest, AddKids(Entered(stack, f.name, f.attrs), f.kids), e);
      OpenAndKids(b, endch, s, f, stack, o, k, goal);
    }
  }

  lemma {:induction false} OpenAndKids(b: seq<byte>, endch: byte, s: nat, f: Tree, stack: seq<Open>, o: nat, k: nat, goal: State)
    requires stack != [] && f.Elem? && Good(f) && Lit(b, s, PrintOpen(f)) && ByteAt(b, o) == GT && Lit(b, o + 1, PrintAll(f.kids))
    requires o == s + |PrintOpen(f)| && k == o + 1 + |PrintAll(f.kids)| && ByteAt(b, k) == LT && ByteAt(b, k + 1) != NUL
    requires Reads(b, endch, At(Tag, k + 1, AddKids(Entered(stack, f.name, f.attrs), f.kids)), goal)
    ensures Reads(b, endch, At(Tag, s + 1, stack), goal)
  {
    var inner := Entered(stack, f.name, f.attrs);
    OpenFull(b, endch, s, f, stack, o);
    KidsPrinted(b, endch, o + 1, f.kids, inner, k);
    Then(b, endch, At(Tag, s + 1, stack), At(Content, o + 1, inner), At(Tag, k + 1, AddKids(inner, f.kids)));
    Then(b, endch, At(Tag, s + 1, stack), At(Tag, k + 1, AddKids(inner, f.kids)), goal);
  }

  lemma {:induction false} FromStart(b: seq<byte>, endch: byte, x: State)
    requires b != [] && b[0] == LT && StackOk(x) && Reads(b, endch, At(Tag, 1, [DOCUMENT]), x)
    ensures !Lit(b, 0, BOM) && Run(b, endch, At(Content, 0, [DOCUMENT])) == Run(b, endch, x)
  {
    NoBom(b);
    ContentStep(b, endch, 0, [DOCUMENT], At(Tag, 1, [DOCUMENT]));
    RunReads(b, endch, At(Content, 0, [DOCUMENT]), At(Tag, 1, [DOCUMENT]));
    RunReads(b, endch, At(Tag, 1, [DOCUMENT]), x);
  }

  lemma {:induction false} WrongName(b: seq<byte>, endch: byte, s: nat, n: seq<byte>, stack: seq<Open>)
    requires stack != [] && stack[|stack| - 1].name != n && GoodName(n) && s + 1 < |b| && b[s] == SLASH && Lit(b, s + 1, n)
    requires !IsSymbol(ByteAt(b, s + 1 + |n|))
    ensures Run(b, endch, At(Tag, s, stack)) == Error
  {
    NameRead(b, s + 1, n);
    LitAll(b, s + 1, n);
    assert Next(b, endch, At(Tag, s, stack)) == At(EndTag, s + 1, stack);
    assert Next(b, endch, At(EndTag, s + 1, stack)) == Done(Error);
    assert Run(b, endch, At(EndTag, s + 1, stack)) == Run(b, endch, Done(Error));
  }

  lemma {:induction false} WrongRun(b: seq<byte>, endch: byte, fs: seq<Tree>, e: nat, n: seq<byte>, inner: seq<Open>)
    requires GoodElements(fs) && fs != [] && GoodName(n) && n != fs[|fs| - 1].name && inner == Inside([DOCUMENT], fs)
    requires Lit(b, 0, PrintAround(fs)) && e == |PrintAround(fs)| && e + 2 < |b| && b[e] == LT && b[e + 1] == SLASH
    requires Lit(b, e + 2, n) && !IsSymbol(ByteAt(b, e + 2 + |n|))
    ensures !Lit(b, 0, BOM) && Run(b, endch, At(Content, 0, [DOCUMENT])) == Error
  {
    AroundRun(b, endch, fs, e, inner);
    InsideName([DOCUMENT], fs);
    WrongName(b, endch, e + 1, n, inner);
  }

  lemma {:induction false} AroundRun(b: seq<byte>, endch: byte, fs: seq<Tree>, e: nat, inner: seq<Open>)
    requires GoodElements(fs) && Lit(b, 0, PrintAround(fs)) && e == |PrintAround(fs)| && e + 1 < |b| && b[e] == LT && b[e + 1] != NUL
    requires inner == Inside([DOCUMENT], fs)
    ensures !Lit(b, 0, BOM) && Run(b, endch, At(Content, 0, [DOCUMENT])) == Run(b, endch, At(Tag, e + 1, inner))
  {
    AroundRead(b, endch, 0, fs, [DOCUMENT], e);
    FromStart(b, endch, At(Tag, e + 1, inner));
  }

  /** An end tag of another name than the innermost open element is refused, whatever
      stands around the elements and whatever follows. */
  lemma {:induction false} WrongEndTag(fs: seq<Tree>, n: seq<byte>, rest: seq<byte>)
    requires GoodElements(fs) && fs != [] && GoodName(n) && n != fs[|fs| - 1].name
    ensures Parse(PrintAround(fs) + ([LT, SLASH] + n + [GT] + rest)) == Error
  {
    WrongBuffer(fs, n, rest, [LT, SLASH] + n + [GT] + rest, PrintAround(fs));
  }

  lemma {:induction false} WrongBuffer(fs: seq<Tree>, n: seq<byte>, rest: seq<byte>, tail: seq<byte>, p: seq<byte>)
    requires GoodElements(fs) && fs != [] && GoodName(n) && n != fs[|fs| - 1].name
    requires tail == [LT, SLASH] + n + [GT] + rest && p == PrintAround(fs)
    ensures Parse(p + tail) == Error
  {
    var buffer := p + tail;
    var last := |buffer| - 1;
    var b := buffer[..last] + [NUL];
    WrongTail(b, p, n, rest, tail, buffer);
    WrongRun(b, buffer[last], fs, |p|, n, Inside([DOCUMENT], fs));
    ParseFails(buffer, b, buffer[last]);
  }

  lemma {:induction false} ParseFails(buffer: seq<byte>, b: seq<byte>, endch: byte)
    requires buffer != [] && b == buffer[..|buffer| - 1] + [NUL] && endch == buffer[|buffer| - 1]
    requires !Lit(b, 0, BOM) && Run(b, endch, At(Content, 0, [DOCUMENT])) == Error
    ensures Parse(buffer) == Error
  {
  }

  lemma {:induction false} WrongTail(b: seq<byte>, p: seq<byte>, n: seq<byte>, rest: seq<byte>, tail: seq<byte>, buffer: seq<byte>)
    requires GoodName(n) && tail == [LT, SLASH] + n + [GT] + rest && buffer == p + tail && b == buffer[..|buffer| - 1] + [NUL]
    ensures var e := |p|; Lit(b, 0, p) && e + 2 < |b| && b[e] == LT && b[e + 1] == SLASH && Lit(b, e + 2, n) && !IsSymbol(ByteAt(b, e + 2 + |n|))
  {
    var e := |p|;
    forall j | 0 <= j < |n| ensures b[e + 2 + j] == n[j] { assert buffer[e + (2 + j)] == tail[2 + j]; }
    assert buffer[e + (2 + |n|)] == tail[2 + |n|] == GT;
  }

  /** The plain case: one element closed by another name. */
  lemma {:induction false} MismatchRefused(t: Tree, n: seq<byte>)
    requires t.Elem? && Good(t) && GoodName(n) && n != t.name
    ensures Parse(PrintOpen(t) + [GT] + PrintAll(t.kids) + [LT, SLASH] + n + [GT]) == Error
  {
    var fs: seq<Tree> := [t];
    WrongEndTag(fs, n, []);
    assert fs[1..] == [];
    PlainText(PrintOpen(t), PrintAll(t.kids), n, PrintAround(fs));
  }

  lemma PlainText(x: seq<byte>, y: seq<byte>, n: seq<byte>, p: seq<byte>)
    requires p == x + ([GT] + (y + []))
    ensures x + [GT] + y + [LT, SLASH] + n + [GT] == p + ([LT, SLASH] + n + [GT] + [])
  {
  }

  // ---------------------------------------------------------------------
  // Elements left open.

  // At the end of the buffer, inside an element.
  lemma {:induction false} EndInside(b: seq<byte>, endch: byte, s: nat, stack: seq<Open>)
    requires 2 <= |stack| && s < |b| && b[s] == NUL
    ensures Run(b, endch, At(Content, s, stack)) == Error
  {
    assert Next(b, endch, At(Content, s, stack)) == Done(Error);
    assert Run(b, endch, At(Content, s, stack)) == Run(b, endch, Done(Error));
  }

  // Only text up to the end of the buffer.
  lemma {:induction false} TextToEnd(b: seq<byte>, endch: byte, s: nat, stack: seq<Open>, e: nat)
    requires 2 <= |stack| && s <= e && |b| == e + 1 && b[e] == NUL && forall k :: s <= k < e ==> b[k] != LT
    ensures Run(b, endch, At(Content, s, stack)) == Error
    decreases e - s
  {
    if b[s] == NUL {
      EndInside(b, endch, s, stack);
    } else {
      var x, p := At(Content, s, stack), AfterSpace(b, s);
      if p > s && (ByteAt(b, p) == LT || ByteAt(b, p) == NUL) {
        assert Next(b, endch, x) == At(Content, p, stack);
        TextToEnd(b, endch, p, stack, e);
      } else {
        NoTagAhead(b, TEXT_MODE, s);
        assert Next(b, endch, x) == Done(Error);
        assert Run(b, endch, x) == Run(b, endch, Done(Error));
      }
    }
  }

  lemma {:induction false} NoTagAhead(b: seq<byte>, m: Mode, s: nat)
    requires forall k :: s <= k < |b| ==> b[k] != LT
    ensures ByteAt(b, DecodeEnd(m, b, s)) != LT
  {
  }

  // p stands at s and its last character, which is the last of all, is kept aside.
  ghost predicate CutAt(b: seq<byte>, endch: byte, s: nat, p: seq<byte>, e: nat) {
    && p != [] && endch == p[|p| - 1] && Lit(b, s, p[..|p| - 1])
    && e == s + |p| - 1 && |b| == e + 1 && b[e] == NUL
  }

  lemma CutRest(b: seq<byte>, endch: byte, s: nat, p: seq<byte>, x: seq<byte>, y: seq<byte>, e: nat)
    requires CutAt(b, endch, s, p, e) && p == x + y && y != []
    ensures Lit(b, s, x) && CutAt(b, endch, s + |x|, y, e)
  {
    LitAllButLast(b, s, p, x, y);
  }

  lemma {:induction false} KidsToEnd(b: seq<byte>, endch: byte, s: nat, kids: seq<Tree>, stack: seq<Open>, e: nat)
    requires 2 <= |stack| && GoodAll(kids) && kids != [] && CutAt(b, endch, s, PrintAll(kids), e)
    ensures Run(b, endch, At(Content, s, stack)) == Error
    decreases |kids|
  {
    GoodRest(kids);
    PrintAllParts(kids);
    if |kids| == 1 {
      assert kids[1..] == [] && PrintAll(kids) == Print(kids[0]);
      LastToEnd(b, endch, s, kids[0], stack, e);
    } else {
      var k, rest, n := kids[0], kids[1..], s + |Print(kids[0])|;
      FirstAndRest(b, endch, s, kids, k, rest, e);
      KidsToEnd(b, endch, n, rest, AddKid(stack, k), e);
      OneKid(b, endch, s, k, rest, stack, n, e);
    }
  }

  lemma {:induction false} FirstAndRest(b: seq<byte>, endch: byte, s: nat, kids: seq<Tree>, k: Tree, rest: seq<Tree>, e: nat)
    requires GoodAll(kids) && 1 < |kids| && k == kids[0] && rest == kids[1..] && CutAt(b, endch, s, PrintAll(kids), e)
    ensures GoodAll(rest) && Good(k) && rest != [] && Good(rest[0]) && (k.Text? ==> rest[0].Elem?)
    ensures Lit(b, s, Print(k)) && CutAt(b, endch, s + |Print(k)|, PrintAll(rest), e)
  {
    GoodRest(kids);
    PrintAllParts(kids);
    PrintsSomething(rest);
    CutRest(b, endch, s, PrintAll(kids), Print(k), PrintAll(rest), e);
    TextBeforeElement(kids);
  }

  lemma {:induction false} PrintsSomething(kids: seq<Tree>)
    requires GoodAll(kids) && kids != []
    ensures PrintAll(kids) != []
  {
    PrintAllParts(kids);
    if kids[0].Elem? { PrintEndsWithGt(kids[0]); }
  }

  lemma {:induction false} LastToEnd(b: seq<byte>, endch: byte, s: nat, t: Tree, stack: seq<Open>, e: nat)
    requires 2 <= |stack| && Good(t) && CutAt(b, endch, s, Print(t), e)
    ensures Run(b, endch, At(Content, s, stack)) == Error
  {
    var p := Print(t);
    if t.Elem? {
      PrintEndsWithGt(t);
      LastElement(b, endch, s, t, stack, e);
      RunReads(b, endch, At(Content, s, stack), At(Content, e, AddKid(stack, t)));
      EndInside(b, endch, e, AddKid(stack, t));
    } else {
      EscapedIsClean(Pcdata, t.value);
      forall k | s <= k < e ensures b[k] != LT { LitAt(b, s, p[..|p| - 1], k - s); }
      TextToEnd(b, endch, s, stack, e);
    }
  }

  // A child in front of others changes nothing of the outcome.
  lemma {:induction false} OneKid(b: seq<byte>, endch: byte, s: nat, t: Tree, rest: seq<Tree>, stack: seq<Open>, n: nat, e: nat)
    requires 2 <= |stack| && Good(t) && rest != [] && Good(rest[0]) && (t.Text? ==> rest[0].Elem?) && Lit(b, s, Print(t)) && n == s + |Print(t)|
    requires CutAt(b, endch, n, PrintAll(rest), e)
    ensures Run(b, endch, At(Content, s, stack)) == Run(b, endch, At(Content, n, AddKid(stack, t)))
  {
    var goal := At(Content, n, AddKid(stack, t));
    if t.Elem? {
      Runs.NoStep(Step(b, endch), goal);
      FirstElement(b, endch, s, t, stack, goal);
      RunReads(b, endch, At(Content, s, stack), goal);
    } else {
      RestStarts(b, endch, n, rest, e);
      TextPrinted(b, endch, s, t.value, stack, n);
      RunReads(b, endch, At(Content, s, stack), At(Tag, n + 1, AddKid(stack, t)));
      ContentStep(b, endch, n, AddKid(stack, t), At(Tag, n + 1, AddKid(stack, t)));
      RunReads(b, endch, goal, At(Tag, n + 1, AddKid(stack, t)));
    }
  }

  lemma {:induction false} RestStarts(b: seq<byte>, endch: byte, n: nat, rest: seq<Tree>, e: nat)
    requires rest != [] && rest[0].Elem? && Good(rest[0])
    requires CutAt(b, endch, n, PrintAll(rest), e)
    ensures ByteAt(b, n) == LT && ByteAt(b, n + 1) != NUL
  {
    var t, q := rest[0], PrintAll(rest);
    PrintAllParts(rest);
    PrintEndsWithGt(t);
    assert PrintOpen(t)[0] == LT && PrintOpen(t)[1] == t.name[0] && |PrintOpen(t)| + 3 <= |Print(t)|;
    assert Print(t)[0] == LT && Print(t)[1] == t.name[0] && q[0] == LT && q[1] == t.name[0];
    LitAt(b, n, q[..|q| - 1], 0);
    LitAt(b, n, q[..|q| - 1], 1);
  }

  lemma {:induction false} LastOpen(b: seq<byte>, endch: byte, s: nat, f: Tree, stack: seq<Open>, e: nat)
    requires stack != [] && f.Elem? && Good(f) && CutAt(b, endch, s, PrintOpen(f) + ([GT] + PrintAll(f.kids)), e)
    ensures Run(b, endch, At(Tag, s + 1, stack)) == Error && ByteAt(b, s) == LT && ByteAt(b, s + 1) != NUL
  {
    var o := s + |PrintOpen(f)|;
    OpenCut(b, endch, s, f, PrintOpen(f), [GT] + PrintAll(f.kids), e);
    if f.kids == [] { NoKidsOpen(b, endch, s, f, stack, o, e); } else { KidsOpen(b, endch, s, f, stack, o, e); }
  }

  lemma {:induction false} OpenCut(b: seq<byte>, endch: byte, s: nat, f: Tree, x: seq<byte>, y: seq<byte>, e: nat)
    requires f.Elem? && Good(f) && x == PrintOpen(f) && y != [] && CutAt(b, endch, s, x + y, e)
    ensures Lit(b, s, x) && CutAt(b, endch, s + |x|, y, e) && ByteAt(b, s) == LT && ByteAt(b, s + 1) != NUL
  {
    CutRest(b, endch, s, x + y, x, y, e);
    OpenParts(b, s, f);
    LitAt(b, s + 1, f.name, 0);
  }

  lemma {:induction false} NoKidsOpen(b: seq<byte>, endch: byte, s: nat, f: Tree, stack: seq<Open>, o: nat, e: nat)
    requires stack != [] && f.Elem? && Good(f) && f.kids == [] && Lit(b, s, PrintOpen(f)) && o == s + |PrintOpen(f)|
    requires CutAt(b, endch, o, [GT] + PrintAll(f.kids), e)
    ensures Run(b, endch, At(Tag, s + 1, stack)) == Error
  {
    var inner := Entered(stack, f.name, f.attrs);
    assert [GT] + PrintAll(f.kids) == [GT];
    OpenFull(b, endch, s, f, stack, o);
    RunReads(b, endch, At(Tag, s + 1, stack), At(Content, o, inner));
    EndInside(b, endch, o, inner);
  }

  lemma {:induction false} GtCut(b: seq<byte>, endch: byte, o: nat, p: seq<byte>, e: nat)
    requires p != [] && CutAt(b, endch, o, [GT] + p, e)
    ensures ByteAt(b, o) == GT && CutAt(b, endch, o + 1, p, e)
  {
    CutRest(b, endch, o, [GT] + p, [GT], p, e);
    LitAt(b, o, [GT], 0);
  }

  lemma {:induction false} KidsOpen(b: seq<byte>, endch: byte, s: nat, f: Tree, stack: seq<Open>, o: nat, e: nat)
    requires stack != [] && f.Elem? && Good(f) && f.kids != [] && Lit(b, s, PrintOpen(f)) && o == s + |PrintOpen(f)|
    requires CutAt(b, endch, o, [GT] + PrintAll(f.kids), e)
    ensures Run(b, endch, At(Tag, s + 1, stack)) == Error
  {
    GoodKids(f);
    PrintsSomething(f.kids);
    GtCut(b, endch, o, PrintAll(f.kids), e);
    var inner := Entered(stack, f.name, f.attrs);
    var y := At(Content, o + 1, inner);
    KidsToEnd(b, endch, o + 1, f.kids, inner, e);
    StartFails(b, endch, s, f, stack, inner, o, y);
  }

  // Where reading fails behind the tag, it fails from its name on.
  lemma {:induction false} StartFails(b: seq<byte>, endch: byte, s: nat, f: Tree, stack: seq<Open>, inner: seq<Open>, o: nat, y: State)
    requires stack != [] && f.Elem? && Good(f) && Lit(b, s, PrintOpen(f)) && o == s + |PrintOpen(f)| && ByteAt(b, o) == GT
    requires inner == Entered(stack, f.name, f.attrs) && y == At(Content, o + 1, inner) && Run(b, endch, y) == Error
    ensures Run(b, endch, At(Tag, s + 1, stack)) == Error
  {
    OpenFull(b, endch, s, f, stack, o);
    ReadsToError(b, endch, At(Tag, s + 1, stack), y);
  }

  lemma {:induction false} ReadsToError(b: seq<byte>, endch: byte, x: State, y: State)
    requires StackOk(x) && StackOk(y) && Reads(b, endch, x, y) && Run(b, endch, y) == Error
    ensures Run(b, endch, x) == Error
  {
    RunReads(b, endch, x, y);
  }

  lemma GoodKids(f: Tree)
    requires f.Elem? && Good(f)
    ensures GoodAll(f.kids)
  {
  }

  lemma {:induction false} AroundSum(fs: seq<Tree>, f: Tree)
    requires GoodElements(fs) && f.Elem? && Good(f)
    ensures GoodElements(fs + [f]) && PrintAround(fs + [f]) == PrintAround(fs) + (PrintOpen(f) + ([GT] + PrintAll(f.kids)))
    decreases |fs|
  {
    var all := fs + [f];
    if fs == [] {
      assert all == [f] && all[1..] == [] && PrintAll(f.kids) + [] == PrintAll(f.kids);
    } else {
      AroundSum(fs[1..], f);
      assert all[1..] == fs[1..] + [f];
      Regroup(PrintOpen(fs[0]), PrintAll(fs[0].kids), PrintAround(fs[1..]), PrintOpen(f) + ([GT] + PrintAll(f.kids)));
    }
  }

  lemma Regroup(x: seq<byte>, y: seq<byte>, z: seq<byte>, q: seq<byte>)
    ensures x + ([GT] + (y + (z + q))) == (x + ([GT] + (y + z))) + q
  {
  }

  /** Text that ends with elements still open is refused, however many there are and whatever
      children they have so far. */
  lemma {:induction false} LeftOpen(fs: seq<Tree>)
    requires GoodElements(fs) && fs != []
    ensures Parse(PrintAround(fs)) == Error
  {
    var gs, f := fs[..|fs| - 1], fs[|fs| - 1];
    assert fs == gs + [f];
    AroundSum(gs, f);
    OpenBuffer(gs, f, PrintAround(gs), PrintOpen(f) + ([GT] + PrintAll(f.kids)));
  }

  lemma {:induction false} OpenBuffer(gs: seq<Tree>, f: Tree, p: seq<byte>, q: seq<byte>)
    requires GoodElements(gs) && f.Elem? && Good(f) && p == PrintAround(gs) && q == PrintOpen(f) + ([GT] + PrintAll(f.kids))
    ensures Parse(p + q) == Error
  {
    var buffer := p + q;
    var last := |buffer| - 1;
    var b := buffer[..last] + [NUL];
    OpenRun(b, buffer[last], gs, f, p, q, last);
    ParseFails(buffer, b, buffer[last]);
  }

  lemma {:induction false} OpenRun(b: seq<byte>, endch: byte, gs: seq<Tree>, f: Tree, p: seq<byte>, q: seq<byte>, last: nat)
    requires GoodElements(gs) && f.Elem? && Good(f) && p == PrintAround(gs) && q == PrintOpen(f) + ([GT] + PrintAll(f.kids))
    requires last == |p + q| - 1 && b == (p + q)[..last] + [NUL] && endch == (p + q)[last]
    ensures !Lit(b, 0, BOM) && Run(b, endch, At(Content, 0, [DOCUMENT])) == Error
  {
    var e, inner := |p|, Inside([DOCUMENT], gs);
    assert CutAt(b, endch, 0, p + q, last);
    CutRest(b, endch, 0, p + q, p, q, last);
    LastOpen(b, endch, e, f, inner, last);
    AroundRun(b, endch, gs, e, inner);
  }
}
