/** Values of XPath expressions: conversions, comparisons, arithmetic and string-values
    (XPath 1.0 sections 3.3, 3.4, 4 and 5), each by what it says of literals and of the
    nodes that a step selects. */
module XPathValues {
  import opened Documents
  import opened Axes
  import opened XPath
  import opened XPathLaws
  import Collections

  // ---------------------------------------------------------------------
  // Booleans.

  /** or, and, not: constants, double negation and De Morgan's law. */
  lemma {:induction false} LogicLaws(w: World, x: Expr, y: Expr, c: Context)
    requires Rooted(w.d) && WellTyped(x) && WellTyped(y)
    ensures WellTyped(Not(Or(x, y))) && WellTyped(And(Not(x), Not(y))) && WellTyped(Not(Not(x)))
    ensures Ref(w, Not(Or(x, y)), c) == Ref(w, And(Not(x), Not(y)), c)
    ensures Ref(w, Not(Not(x)), c) == Ref(w, ToBool(x), c)
    ensures Ref(w, Or(BoolLit(false), x), c) == Ref(w, ToBool(x), c) == Ref(w, Or(x, BoolLit(false)), c)
    ensures Ref(w, Or(BoolLit(true), x), c) == BoolV(true) == Ref(w, Or(x, BoolLit(true)), c)
    ensures Ref(w, Not(BoolLit(true)), c) == BoolV(false)
  {
    Bool(w, Or(x, y), c);
    Bool(w, Not(Or(x, y)), c);
    Bool(w, Not(x), c);
    Bool(w, Not(y), c);
    Bool(w, And(Not(x), Not(y)), c);
    Bool(w, Not(Not(x)), c);
    Bool(w, ToBool(x), c);
    OrConstant(w, x, true, c);
    OrConstant(w, x, false, c);
    Bool(w, Not(BoolLit(true)), c);
    Bool(w, BoolLit(true), c);
  }

  lemma {:induction false} OrConstant(w: World, x: Expr, b: bool, c: Context)
    requires Rooted(w.d) && WellTyped(x)
    ensures Ref(w, Or(BoolLit(b), x), c) == BoolV(b || TruthOf(Ref(w, x, c))) == Ref(w, Or(x, BoolLit(b)), c)
  {
    Bool(w, BoolLit(b), c);
    Bool(w, Or(BoolLit(b), x), c);
    Bool(w, Or(x, BoolLit(b)), c);
  }

  lemma {:induction false} Bool(w: World, e: Expr, c: Context)
    requires Rooted(w.d) && WellTyped(e) && TypeOf(e) == TBool
    ensures Ref(w, e, c) == BoolV(RefBool(w, e, c))
  {
  }

  lemma {:induction false} Num(w: World, e: Expr, c: Context)
    requires Rooted(w.d) && WellTyped(e) && TypeOf(e) == TNum
    ensures Ref(w, e, c) == NumV(RefNum(w, e, c))
  {
  }

  lemma {:induction false} Str(w: World, e: Expr, c: Context)
    requires Rooted(w.d) && WellTyped(e) && TypeOf(e) == TStr
    ensures Ref(w, e, c) == StrV(RefText(w, e, c))
  {
  }

  // ---------------------------------------------------------------------
  // Conversions.

  // A step without predicates at a node.
  lemma {:induction false} StepValue(w: World, axis: Axis, test: NodeTest, step: Expr, c: Context) returns (ns: set<int>)
    requires Rooted(w.d) && IsNode(w.d, c.n) && step == Step(NoLeft, axis, test, NoPred)
    ensures Ref(w, step, c) == SetV(ns) && forall m :: m in ns <==> Candidate(w, axis, test, c.n, m)
  {
    ns := NodesOf(Ref(w, step, c));
    assert Ref(w, step, c) == SetV(RefSet(w, step, c));
    forall m ensures m in ns <==> Candidate(w, axis, test, c.n, m) { StepLaw(w, axis, test, c, m); }
  }

  /** boolean(): numbers but zero and NaN, strings but the empty one, sets with a node. */
  lemma {:induction false} BooleanLaw(w: World, n: XPath.Num, s: string, c: Context)
    requires Rooted(w.d) && NulFree(s)
    ensures Ref(w, ToBool(NumberLit(n)), c) == BoolV(!(n == NaN || n == Fin(0.0)))
    ensures Ref(w, ToBool(StringLit(s)), c) == BoolV(0 < |s|)
  {
    Bool(w, ToBool(NumberLit(n)), c);
    Num(w, NumberLit(n), c);
    Bool(w, ToBool(StringLit(s)), c);
    Str(w, StringLit(s), c);
  }

  lemma {:induction false} BooleanOfStep(w: World, axis: Axis, test: NodeTest, step: Expr, c: Context)
    requires Rooted(w.d) && IsNode(w.d, c.n) && step == Step(NoLeft, axis, test, NoPred)
    ensures Ref(w, ToBool(step), c) == BoolV(exists m :: Candidate(w, axis, test, c.n, m))
  {
    var ns := StepValue(w, axis, test, step, c);
    Bool(w, ToBool(step), c);
    if ns != {} { var m := Collections.Member(ns); }
  }

  /** number() and string() of booleans, of strings and of numbers. */
  lemma {:induction false} NumberLaw(w: World, b: bool, n: XPath.Num, s: string, c: Context)
    requires Rooted(w.d) && NulFree(s)
    ensures Ref(w, ToNum(BoolLit(b)), c) == NumV(if b then Fin(1.0) else Fin(0.0))
    ensures Ref(w, ToNum(StringLit(s)), c) == NumV(w.lib.toNumber(s)) && Ref(w, ToNum(NumberLit(n)), c) == NumV(n)
  {
    Bool(w, BoolLit(b), c);
    Num(w, NumberLit(n), c);
    Str(w, StringLit(s), c);
    Num(w, ToNum(BoolLit(b)), c);
    Num(w, ToNum(StringLit(s)), c);
    Num(w, ToNum(NumberLit(n)), c);
  }

  lemma {:induction false} StringLaw(w: World, b: bool, n: XPath.Num, s: string, c: Context)
    requires Rooted(w.d) && NulFree(s)
    ensures Ref(w, ToStr(BoolLit(b)), c) == StrV(if b then "true" else "false")
    ensures Ref(w, ToStr(StringLit(s)), c) == StrV(s) && Ref(w, ToStr(NumberLit(n)), c) == StrV(w.lib.toText(n))
  {
    Bool(w, BoolLit(b), c);
    Num(w, NumberLit(n), c);
    Str(w, StringLit(s), c);
    Str(w, ToStr(BoolLit(b)), c);
    Str(w, ToStr(StringLit(s)), c);
    Str(w, ToStr(NumberLit(n)), c);
  }

  // The node of a step that comes first in the document, whichever way the axis runs.
  ghost predicate FirstCandidate(w: World, axis: Axis, test: NodeTest, n: int, m: int)
    requires Rooted(w.d) && IsNode(w.d, n)
  {
    Candidate(w, axis, test, n, m) && forall x :: Candidate(w, axis, test, n, x) ==> m <= x
  }

  /** string(), number() and name() of a step: those of its first node in document order. */
  lemma {:induction false} FirstNodeLaw(w: World, axis: Axis, test: NodeTest, step: Expr, c: Context, m: int)
    requires Rooted(w.d) && IsNode(w.d, c.n) && step == Step(NoLeft, axis, test, NoPred) && FirstCandidate(w, axis, test, c.n, m)
    ensures Ref(w, ToStr(step), c) == StrV(StringValue(w.d, m))
    ensures Ref(w, ToNum(step), c) == NumV(w.lib.toNumber(StringValue(w.d, m)))
  {
    var ns := StepValue(w, axis, test, step, c);
    assert m in ns && Min(ns) == m;
    assert FirstText(w, ns) == StringValue(w.d, m);
    Str(w, ToStr(step), c);
    Num(w, ToNum(step), c);
  }

  lemma {:induction false} FirstNameLaw(w: World, axis: Axis, test: NodeTest, f: string, step: Expr, c: Context, m: int)
    requires Rooted(w.d) && IsNode(w.d, c.n) && step == Step(NoLeft, axis, test, NoPred) && WellTyped(NameOf(f, step))
    requires FirstCandidate(w, axis, test, c.n, m)
    ensures Ref(w, NameOf(f, step), c) == StrV(w.lib.nameFn(f, w.d[m]))
  {
    var ns := StepValue(w, axis, test, step, c);
    assert m in ns && Min(ns) == m;
    Str(w, NameOf(f, step), c);
  }

  /** Of no node, the empty string. */
  lemma {:induction false} NoNodeLaw(w: World, axis: Axis, test: NodeTest, f: string, step: Expr, c: Context)
    requires Rooted(w.d) && IsNode(w.d, c.n) && step == Step(NoLeft, axis, test, NoPred) && WellTyped(NameOf(f, step))
    requires forall x :: !Candidate(w, axis, test, c.n, x)
    ensures Ref(w, ToStr(step), c) == StrV("") && Ref(w, NameOf(f, step), c) == StrV("")
  {
    var ns := StepValue(w, axis, test, step, c);
    Str(w, ToStr(step), c);
    Str(w, NameOf(f, step), c);
    if ns != {} { var x := Collections.Member(ns); }
  }

  // ---------------------------------------------------------------------
  // Comparisons.

  /** Numbers compare as reals; NaN is unequal to everything and in no order. */
  lemma {:induction false} NumberComparison(w: World, op: CmpOp, x: real, y: real, e: Expr, c: Context)
    requires Rooted(w.d) && e == Compare(op, NumberLit(Fin(x)), NumberLit(Fin(y))) && WellTyped(e)
    ensures Ref(w, e, c) == BoolV(RealCompare(op, x, y))
  {
    Num(w, NumberLit(Fin(x)), c);
    Num(w, NumberLit(Fin(y)), c);
    Bool(w, e, c);
  }

  lemma {:induction false} NaNComparison(w: World, op: CmpOp, n: XPath.Num, e: Expr, c: Context)
    requires Rooted(w.d) && WellTyped(e)
    requires e == Compare(op, NumberLit(NaN), NumberLit(n)) || e == Compare(op, NumberLit(n), NumberLit(NaN))
    ensures Ref(w, e, c) == BoolV(op == Ne)
  {
    Num(w, NumberLit(NaN), c);
    Num(w, NumberLit(n), c);
    Bool(w, e, c);
  }

  /** = and != of strings and of booleans. */
  lemma {:induction false} EqualityLaw(w: World, s: string, t: string, b: bool, x: Expr, e: Expr, f: Expr, c: Context)
    requires Rooted(w.d) && NulFree(s) && NulFree(t) && WellTyped(x) && WellTyped(e) && WellTyped(f)
    requires (e == Compare(Eq, StringLit(s), StringLit(t)) && f == Compare(Eq, BoolLit(b), x))
          || (e == Compare(Ne, StringLit(s), StringLit(t)) && f == Compare(Ne, BoolLit(b), x))
    ensures Ref(w, e, c) == BoolV(e.cmp == Eq <==> s == t)
    ensures Ref(w, f, c) == BoolV(f.cmp == Eq <==> (TruthOf(Ref(w, x, c)) <==> b))
  {
    Str(w, StringLit(s), c);
    Str(w, StringLit(t), c);
    Bool(w, BoolLit(b), c);
    Bool(w, e, c);
    Bool(w, f, c);
  }

  /** A step compared with a string: some node has that string-value, or another one. */
  lemma {:induction false} StepEqualsString(w: World, op: CmpOp, axis: Axis, test: NodeTest, step: Expr, s: string, e: Expr, f: Expr, c: Context)
    requires Rooted(w.d) && IsNode(w.d, c.n) && (op == Eq || op == Ne) && NulFree(s) && step == Step(NoLeft, axis, test, NoPred)
    requires e == Compare(op, step, StringLit(s)) && f == Compare(op, StringLit(s), step) && WellTyped(e) && WellTyped(f)
    ensures Ref(w, e, c) == Ref(w, f, c) == BoolV(exists m :: Candidate(w, axis, test, c.n, m) && (op == Eq <==> StringValue(w.d, m) == s))
  {
    var ns := StepValue(w, axis, test, step, c);
    Str(w, StringLit(s), c);
    Bool(w, e, c);
    Bool(w, f, c);
  }

  /** A step compared with a number: the number of some node is in the relation. */
  lemma {:induction false} StepAgainstNumber(w: World, op: CmpOp, axis: Axis, test: NodeTest, step: Expr, k: real, e: Expr, c: Context)
    requires Rooted(w.d) && IsNode(w.d, c.n) && step == Step(NoLeft, axis, test, NoPred)
    requires e == Compare(op, step, NumberLit(Fin(k))) && WellTyped(e)
    ensures Ref(w, e, c) == BoolV(exists m :: Candidate(w, axis, test, c.n, m) && Compares(op, w.lib.toNumber(StringValue(w.d, m)), k))
  {
    var ns := StepValue(w, axis, test, step, c);
    Num(w, NumberLit(Fin(k)), c);
    Bool(w, e, c);
    SetAgainstNumber(w, op, ns, k);
  }

  lemma {:induction false} SetAgainstNumber(w: World, op: CmpOp, ns: set<int>, k: real)
    requires Rooted(w.d)
    ensures CompareValues(w, op, SetV(ns), NumV(Fin(k))) <==> exists m :: m in ns && Compares(op, w.lib.toNumber(StringValue(w.d, m)), k)
    ensures CompareValues(w, op, NumV(Fin(k)), SetV(ns)) <==> exists m :: m in ns && Compared(op, k, w.lib.toNumber(StringValue(w.d, m)))
  {
    forall n: XPath.Num ensures Compares(op, n, k) <==> NumCmp(op, n, Fin(k)) { }
    forall n: XPath.Num ensures Compared(op, k, n) <==> NumCmp(op, Fin(k), n) { }
  }

  lemma {:induction false} NumberAgainstStep(w: World, op: CmpOp, axis: Axis, test: NodeTest, step: Expr, k: real, e: Expr, c: Context)
    requires Rooted(w.d) && IsNode(w.d, c.n) && step == Step(NoLeft, axis, test, NoPred)
    requires e == Compare(op, NumberLit(Fin(k)), step) && WellTyped(e)
    ensures Ref(w, e, c) == BoolV(exists m :: Candidate(w, axis, test, c.n, m) && Compared(op, k, w.lib.toNumber(StringValue(w.d, m))))
  {
    var ns := StepValue(w, axis, test, step, c);
    Num(w, NumberLit(Fin(k)), c);
    Bool(w, e, c);
    SetAgainstNumber(w, op, ns, k);
  }

  // A number, which may be infinite or none, against a real.
  predicate Compares(op: CmpOp, n: XPath.Num, k: real) {
    match n
    case Fin(r) => RealCompare(op, r, k)
    case PosInf => op in {Ne, Gt, Ge}
    case NegInf => op in {Ne, Lt, Le}
    case NaN => op == Ne
  }

  predicate Compared(op: CmpOp, k: real, n: XPath.Num) {
    match n
    case Fin(r) => RealCompare(op, k, r)
    case PosInf => op in {Ne, Lt, Le}
    case NegInf => op in {Ne, Gt, Ge}
    case NaN => op == Ne
  }

  /** Two steps compared: some node of the one with some node of the other, by string-values
      for = and != and by numbers otherwise. */
  lemma {:induction false} StepAgainstStep(w: World, op: CmpOp, a: Axis, s: NodeTest, l: Expr, b: Axis, t: NodeTest, r: Expr, e: Expr, c: Context)
    requires Rooted(w.d) && IsNode(w.d, c.n) && l == Step(NoLeft, a, s, NoPred) && r == Step(NoLeft, b, t, NoPred)
    requires e == Compare(op, l, r) && WellTyped(e)
    ensures Ref(w, e, c) == BoolV(exists x, y :: Candidate(w, a, s, c.n, x) && Candidate(w, b, t, c.n, y) && NodesCompare(w, op, x, y))
  {
    var ls := StepValue(w, a, s, l, c);
    var rs := StepValue(w, b, t, r, c);
    Bool(w, e, c);
    SetsCompare(w, op, ls, rs);
  }

  lemma {:induction false} SetsCompare(w: World, op: CmpOp, ls: set<int>, rs: set<int>)
    requires Rooted(w.d)
    ensures CompareValues(w, op, SetV(ls), SetV(rs)) <==> exists x, y :: x in ls && y in rs && NodesCompare(w, op, x, y)
  {
    if IsRelational(op) {
      forall m: XPath.Num, n: XPath.Num ensures NumbersCompare(op, m, n) <==> NumCmp(op, m, n) { }
    }
  }

  ghost predicate NodesCompare(w: World, op: CmpOp, x: int, y: int)
    requires Rooted(w.d)
  {
    var s, t := StringValue(w.d, x), StringValue(w.d, y);
    match op
    case Eq => s == t
    case Ne => s != t
    case _ => NumbersCompare(op, w.lib.toNumber(s), w.lib.toNumber(t))
  }

  predicate NumbersCompare(op: CmpOp, m: XPath.Num, n: XPath.Num) {
    match (m, n)
    case (Fin(p), _) => Compared(op, p, n)
    case (_, Fin(q)) => Compares(op, m, q)
    case (PosInf, NegInf) => op in {Ne, Gt, Ge}
    case (NegInf, PosInf) => op in {Ne, Lt, Le}
    case (NaN, _) => op == Ne
    case (_, NaN) => op == Ne
    case _ => op in {Eq, Le, Ge}
  }

  /** A number and a string compare as numbers, a boolean and a set as booleans. */
  lemma {:induction false} MixedEquality(w: World, s: string, k: real, e: Expr, c: Context)
    requires Rooted(w.d) && NulFree(s) && WellTyped(e)
    requires e == Compare(Eq, NumberLit(Fin(k)), StringLit(s)) || e == Compare(Eq, StringLit(s), NumberLit(Fin(k)))
    ensures Ref(w, e, c) == BoolV(w.lib.toNumber(s) == Fin(k))
  {
    Num(w, NumberLit(Fin(k)), c);
    Str(w, StringLit(s), c);
    Bool(w, e, c);
  }

  lemma {:induction false} BooleanEqualsStep(w: World, b: bool, axis: Axis, test: NodeTest, step: Expr, e: Expr, c: Context)
    requires Rooted(w.d) && IsNode(w.d, c.n) && step == Step(NoLeft, axis, test, NoPred) && WellTyped(e)
    requires e == Compare(Eq, BoolLit(b), step) || e == Compare(Eq, step, BoolLit(b))
    ensures Ref(w, e, c) == BoolV(b <==> exists m :: Candidate(w, axis, test, c.n, m))
  {
    var ns := StepValue(w, axis, test, step, c);
    Bool(w, BoolLit(b), c);
    Bool(w, e, c);
    if ns != {} { var m := Collections.Member(ns); }
  }

  // ---------------------------------------------------------------------
  // Arithmetic and calls, where the library's numbers are exact.

  ghost predicate Exact(lib: Lib) {
    && (forall x, y :: lib.arith(Add, Fin(x), Fin(y)) == Fin(x + y))
    && (forall x, y :: lib.arith(Sub, Fin(x), Fin(y)) == Fin(x - y))
    && (forall x, y :: lib.arith(Mul, Fin(x), Fin(y)) == Fin(x * y))
    && (forall x, y :: y != 0.0 ==> lib.arith(Div, Fin(x), Fin(y)) == Fin(x / y))
    && (forall x :: lib.negate(Fin(x)) == Fin(0.0 - x))
  }

  /** last() - position() is the number of nodes behind. */
  lemma {:induction false} BehindCounted(w: World, n: int, pos: nat, size: nat, e: Expr)
    requires Rooted(w.d) && Exact(w.lib) && e == Arith(Sub, Last, Position) && WellTyped(e)
    ensures Ref(w, e, Context(n, pos, size)) == NumV(Fin((size - pos) as real))
  {
    var c := Context(n, pos, size);
    Num(w, Last, c);
    Num(w, Position, c);
    Num(w, e, c);
    assert size as real - pos as real == (size - pos) as real;
  }

  /** The operators, each with its operands in order. */
  lemma {:induction false} ArithmeticLaw(w: World, op: ArithOp, x: real, y: real, e: Expr, c: Context)
    requires Rooted(w.d) && Exact(w.lib) && e == Arith(op, NumberLit(Fin(x)), NumberLit(Fin(y))) && WellTyped(e)
    ensures op == Add ==> Ref(w, e, c) == NumV(Fin(x + y))
    ensures op == Sub ==> Ref(w, e, c) == NumV(Fin(x - y))
    ensures op == Mul ==> Ref(w, e, c) == NumV(Fin(x * y))
    ensures op == Div && y != 0.0 ==> Ref(w, e, c) == NumV(Fin(x / y))
  {
    Num(w, NumberLit(Fin(x)), c);
    Num(w, NumberLit(Fin(y)), c);
    Num(w, e, c);
  }

  lemma {:induction false} NegateLaw(w: World, x: real, c: Context)
    requires Rooted(w.d) && Exact(w.lib)
    ensures Ref(w, Negate(NumberLit(Fin(x))), c) == NumV(Fin(0.0 - x))
  {
    Num(w, NumberLit(Fin(x)), c);
    Num(w, Negate(NumberLit(Fin(x))), c);
  }

  function Arguments(l: seq<Expr>): Args {
    if l == [] then NoArg else Arg(l[0], Arguments(l[1..]))
  }

  /** A call gets the string-values of its arguments in order. */
  lemma {:induction false} ArgumentsInOrder(w: World, l: seq<Expr>, c: Context)
    requires Rooted(w.d) && forall i :: 0 <= i < |l| ==> WellTyped(l[i])
    ensures WellTypedArgs(Arguments(l)) && |RefArgs(w, Arguments(l), c)| == |l|
    ensures forall i :: 0 <= i < |l| ==> StrV(RefArgs(w, Arguments(l), c)[i]) == Ref(w, ToStr(l[i]), c)
  {
    if l != [] {
      ArgumentsInOrder(w, l[1..], c);
      Str(w, ToStr(l[0]), c);
      assert RefArgs(w, Arguments(l), c) == [TextOf(w, Ref(w, l[0], c))] + RefArgs(w, Arguments(l[1..]), c);
    }
  }

  /** And the call is the library's answer for them. */
  lemma {:induction false} CallLaw(w: World, f: string, l: seq<Expr>, x: Expr, c: Context)
    requires Rooted(w.d) && (forall i :: 0 <= i < |l| ==> WellTyped(l[i])) && WellTypedArgs(Arguments(l)) && WellTyped(x)
    ensures Ref(w, StrCall(f, Arguments(l)), c) == StrV(w.lib.strFn(f, RefArgs(w, Arguments(l), c)))
    ensures Ref(w, LenCall(f, Arguments(l)), c) == NumV(w.lib.lenFn(f, RefArgs(w, Arguments(l), c)))
    ensures Ref(w, BoolCall(f, Arguments(l)), c) == BoolV(w.lib.boolFn(f, RefArgs(w, Arguments(l), c)))
  {
    Str(w, StrCall(f, Arguments(l)), c);
    Num(w, LenCall(f, Arguments(l)), c);
    Bool(w, BoolCall(f, Arguments(l)), c);
  }

  /** A function of a number gets number() of its argument. */
  lemma {:induction false} NumberCallLaw(w: World, f: string, x: Expr, c: Context)
    requires Rooted(w.d) && WellTyped(x)
    ensures Ref(w, ToNum(x), c).NumV? && Ref(w, NumCall(f, x), c) == NumV(w.lib.numFn(f, Ref(w, ToNum(x), c).n))
  {
    Num(w, ToNum(x), c);
    Num(w, NumCall(f, x), c);
  }

  const SELF: Expr := Step(NoLeft, SelfAxis, AnyNode, NoPred)

  /** string() and name() without an argument are about the context node: what they are of
      self::node(). */
  lemma {:induction false} ContextLaw(w: World, f: string, c: Context)
    requires Rooted(w.d) && IsNode(w.d, c.n) && (IsAttr(w.d, c.n) ==> IsXPathAttribute(w.d[c.n].name)) && WellTyped(NameOf(f, SELF))
    ensures Ref(w, ContextStr, c) == Ref(w, ToStr(SELF), c)
    ensures Ref(w, ContextName(f), c) == Ref(w, NameOf(f, SELF), c)
  {
    Str(w, ContextStr, c);
    Str(w, ContextName(f), c);
    assert FirstCandidate(w, SelfAxis, AnyNode, c.n, c.n);
    FirstNodeLaw(w, SelfAxis, AnyNode, SELF, c, c.n);
    FirstNameLaw(w, SelfAxis, AnyNode, f, SELF, c, c.n);
  }

  /** Variables have their values; id() finds nothing, as the library has no DTD. */
  lemma {:induction false} VariableLaw(w: World, b: bool, n: XPath.Num, s: string, x: Expr, c: Context)
    requires Rooted(w.d) && WellTyped(x)
    ensures Ref(w, Variable(BoolV(b)), c) == BoolV(b) && Ref(w, Variable(NumV(n)), c) == NumV(n) && Ref(w, Variable(StrV(s)), c) == StrV(s)
    ensures Ref(w, Id(x), c) == SetV({})
  {
    Bool(w, Variable(BoolV(b)), c);
    Num(w, Variable(NumV(n)), c);
    Str(w, Variable(StrV(s)), c);
    assert Ref(w, Id(x), c) == SetV(RefSet(w, Id(x), c));
  }

  // ---------------------------------------------------------------------
  // translate(), by single characters (section 4.2).

  ghost predicate FirstAt(s: string, c: char, i: int) {
    0 <= i < |s| && s[i] == c && forall k :: 0 <= k < i ==> s[k] != c
  }

  /** A character that is not in from stays, the first occurrence in from names the
      replacement, and without one the character goes. */
  lemma {:induction false} TranslateOne(c: char, from: string, to: string, i: int)
    ensures c !in from ==> TranslateText([c], from, to) == [c]
    ensures FirstAt(from, c, i) ==> TranslateText([c], from, to) == if i < |to| then [to[i]] else ""
  {
    assert [c][..0] == "" && TranslateText([c], from, to) == "" + TranslateChar(c, from, to);
    if FirstAt(from, c, i) { assert from[i] in from; }
    IndexIsFirst(from, c);
  }

  lemma {:induction false} IndexIsFirst(s: string, c: char)
    ensures c in s ==> FirstAt(s, c, IndexOf(s, c))
    ensures c !in s ==> IndexOf(s, c) == -1
    decreases |s|
  {
    if s != "" && s[0] != c {
      IndexIsFirst(s[1..], c);
      assert s == [s[0]] + s[1..];
    }
  }

  lemma {:induction false} TranslateSum(s: string, t: string, from: string, to: string)
    ensures TranslateText(s + t, from, to) == TranslateText(s, from, to) + TranslateText(t, from, to)
    decreases |t|
  {
    if t == "" {
      assert s + t == s;
    } else {
      var n := |t| - 1;
      assert (s + t)[..|s + t| - 1] == s + t[..n];
      TranslateSum(s, t[..n], from, to);
    }
  }
}
