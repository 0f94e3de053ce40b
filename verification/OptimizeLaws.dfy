/** That the optimiser rewrites whatever it is for (pugixml.cpp, optimize_self): no slow
    form is left in its result, and every predicate has the best classification. */
module OptimizeLaws {
  import opened Axes
  import opened XPath
  import opened XPathOptimize

  // ---------------------------------------------------------------------
  // Expressions that look at the position.

  function ArgList(a: Args): (s: seq<Expr>)
    ensures forall i :: 0 <= i < |s| ==> s[i] < a
  {
    match a
    case NoArg => []
    case Arg(e, next) => [e] + ArgList(next)
  }

  // What an operator or a call is applied to; steps and filters have a context of their own.
  function Operands(e: Expr): (s: seq<Expr>)
    ensures forall i :: 0 <= i < |s| ==> s[i] < e
  {
    match e
    case Or(l, r) => [l, r]
    case And(l, r) => [l, r]
    case Compare(_, l, r) => [l, r]
    case Arith(_, l, r) => [l, r]
    case Union(l, r) => [l, r]
    case Not(x) => [x]
    case Negate(x) => [x]
    case Count(x) => [x]
    case ToBool(x) => [x]
    case ToNum(x) => [x]
    case ToStr(x) => [x]
    case NumCall(_, x) => [x]
    case NameOf(_, x) => [x]
    case Id(x) => [x]
    case TranslateTable(x, _) => [x]
    case CompareAttribute(_, v) => [v]
    case Translate(x, f, t) => [x, f, t]
    case StrCall(_, a) => ArgList(a)
    case LenCall(_, a) => ArgList(a)
    case BoolCall(_, a) => ArgList(a)
    case _ => []
  }

  // position() or last() is among the operands, at any depth.
  predicate Mentions(e: Expr) {
    e.Position? || e.Last? || exists i :: 0 <= i < |Operands(e)| && Mentions(Operands(e)[i])
  }

  /** is_posinv_expr accepts exactly the expressions that do not. */
  lemma {:induction false} PosInvExactly(e: Expr)
    ensures IsPosInv(e) <==> !Mentions(e)
    decreases e
  {
    var s := Operands(e);
    forall i | 0 <= i < |s| ensures IsPosInv(s[i]) <==> !Mentions(s[i]) { PosInvExactly(s[i]); }
    OperandsInv(e);
    if AllInv(s) { forall i | 0 <= i < |s| ensures IsPosInv(s[i]) { assert s[i] in s; } }
  }

  ghost predicate AllInv(s: seq<Expr>) {
    forall x :: x in s ==> IsPosInv(x)
  }

  lemma {:induction false} OperandsInv(e: Expr)
    ensures IsPosInv(e) <==> !e.Position? && !e.Last? && AllInv(Operands(e))
  {
    if e.StrCall? || e.LenCall? || e.BoolCall? { ArgsInv(e.args); }
  }

  lemma {:induction false} ArgsInv(a: Args)
    ensures IsPosInvArgs(a) <==> AllInv(ArgList(a))
    decreases a
  {
    if a.Arg? {
      ArgsInv(a.next);
      AllInvMore(a.e, ArgList(a.next));
    }
  }

  lemma {:induction false} AllInvMore(x: Expr, s: seq<Expr>)
    ensures AllInv([x] + s) <==> IsPosInv(x) && AllInv(s)
  {
    var all := [x] + s;
    assert x in all && forall y :: y in all <==> y == x || y in s;
  }

  // ---------------------------------------------------------------------
  // Slow forms.

  // [position() = e]
  predicate AsksPosition(p: Expr) {
    p.Compare? && p.cmp == Eq && p.l == Position && TypeOf(p.r) == TNum
  }

  // The classification says all there is to say.
  predicate BestTest(p: Expr, t: PredTest) {
    && (t == ConstOneTest <==> p == NumberLit(Fin(1.0)))
    && (t == ConstTest <==> TypeOf(p) == TNum && p != NumberLit(Fin(1.0)) && (p.NumberLit? || p.Variable? || p.Last?))
    && (t == PosInvTest <==> TypeOf(p) != TNum && !Mentions(p))
  }

  predicate FastPreds(p: Preds) {
    p.Pred? ==> !AsksPosition(p.e) && BestTest(p.e, p.ptest) && FastPreds(p.next)
  }

  predicate AnyPlace(p: Preds) {
    p.Pred? ==> TypeOf(p.e) != TNum && !Mentions(p.e) && AnyPlace(p.next)
  }

  // descendant-or-self::node()/axis::t
  predicate TwoSteps(e: Expr) {
    && e.Step? && e.axis in {ChildAxis, SelfAxis, DescendantAxis, DescendantOrSelfAxis} && AnyPlace(e.preds)
    && e.left.From? && e.left.e.Step? && e.left.e.axis == DescendantOrSelfAxis && e.left.e.test == AnyNode && e.left.e.preds == NoPred
  }

  // translate() with constant strings of single-byte characters
  predicate ConstantTranslate(e: Expr) {
    e.Translate? && e.from.StringLit? && e.to.StringLit? &&
    forall i :: 0 <= i < |e.from.text| ==> e.from.text[i] as int < 128 && (i < |e.to.text| ==> e.to.text[i] as int < 128)
  }

  // @name = 'text' and @name = $text
  predicate AttributeEquals(e: Expr) {
    && e.Compare? && e.cmp == Eq && e.l.Step? && e.l.left == NoLeft && e.l.axis == AttributeAxis && e.l.test.NameTest? && e.l.preds == NoPred
    && (e.r.StringLit? || (e.r.Variable? && e.r.value.StrV?))
  }

  predicate Fast(e: Expr) {
    && !TwoSteps(e) && !ConstantTranslate(e) && !AttributeEquals(e)
    && (e.Filter? ==> !AsksPosition(e.pred) && BestTest(e.pred, e.ptest))
    && (e.Step? ==> FastPreds(e.preds))
  }

  function PredList(p: Preds): (s: seq<Expr>)
    ensures forall i :: 0 <= i < |s| ==> s[i] < p
  {
    match p
    case NoPred => []
    case Pred(e, _, next) => [e] + PredList(next)
  }

  // All expressions an expression is made of.
  function Parts(e: Expr): (s: seq<Expr>)
    ensures forall i :: 0 <= i < |s| ==> s[i] < e
  {
    match e
    case Step(left, _, _, preds) => (if left.From? then [left.e] else []) + PredList(preds)
    case Filter(x, p, _) => [x, p]
    case _ => Operands(e)
  }

  predicate Lean(e: Expr) {
    Fast(e) && forall i :: 0 <= i < |Parts(e)| ==> Lean(Parts(e)[i])
  }

  // ---------------------------------------------------------------------
  // None is left.

  ghost predicate LeanAll(s: seq<Expr>) {
    forall i :: 0 <= i < |s| ==> Lean(s[i])
  }

  lemma {:induction false} OptimizedArgs(a: Args)
    requires forall i :: 0 <= i < |ArgList(a)| ==> Lean(Optimize(ArgList(a)[i]))
    ensures LeanAll(ArgList(OptimizeArgs(a)))
    decreases a
  {
    if a.Arg? {
      var l, rest := ArgList(a), ArgList(a.next);
      assert l[0] == a.e;
      forall i | 0 <= i < |rest| ensures Lean(Optimize(rest[i])) { assert l[i + 1] == rest[i]; }
      OptimizedArgs(a.next);
    }
  }

  lemma {:induction false} Stripped(p: Expr)
    requires Lean(p)
    ensures Lean(StripPosition(p)) && !AsksPosition(StripPosition(p)) && BestTest(StripPosition(p), Classify(StripPosition(p)))
  {
    var q := StripPosition(p);
    if q != p { assert Parts(p)[1] == q; }
    PosInvExactly(q);
  }

  lemma {:induction false} OptimizedPreds(p: Preds)
    requires forall i :: 0 <= i < |PredList(p)| ==> Lean(Optimize(PredList(p)[i]))
    ensures LeanAll(PredList(OptimizePreds(p))) && FastPreds(OptimizePreds(p))
    ensures IsPosInvStep(OptimizePreds(p)) <==> AnyPlace(OptimizePreds(p))
    decreases p
  {
    if p.Pred? {
      var l, rest := PredList(p), PredList(p.next);
      assert l[0] == p.e;
      forall i | 0 <= i < |rest| ensures Lean(Optimize(rest[i])) { assert l[i + 1] == rest[i]; }
      OptimizedPreds(p.next);
      Stripped(Optimize(p.e));
    }
  }

  lemma {:induction false} LeanParts(left: Left, axis: Axis, test: NodeTest, preds: Preds)
    requires (left.From? ==> Lean(left.e)) && LeanAll(PredList(preds)) && FastPreds(preds) && !TwoSteps(Step(left, axis, test, preds))
    ensures Lean(Step(left, axis, test, preds))
  {
    var e := Step(left, axis, test, preds);
    var first: seq<Expr> := if left.From? then [left.e] else [];
    assert Parts(e) == first + PredList(preds);
    forall i | 0 <= i < |Parts(e)| ensures Lean(Parts(e)[i]) {
      if |first| <= i { assert Parts(e)[i] == PredList(preds)[i - |first|]; } else { assert Parts(e)[i] == left.e; }
    }
  }

  // Behind a step that could go, there is none.
  lemma {:induction false} BehindPlain(e: Expr)
    requires Lean(e) && e.Step? && e.axis == DescendantOrSelfAxis && e.test == AnyNode && e.preds == NoPred
    ensures e.left.From? ==> Lean(e.left.e) && !(e.left.e.Step? && e.left.e.axis == DescendantOrSelfAxis && e.left.e.test == AnyNode && e.left.e.preds == NoPred)
  {
    assert AnyPlace(NoPred) && !TwoSteps(e);
    if e.left.From? { assert Parts(e)[0] == e.left.e; }
  }

  lemma {:induction false} MergedStep(left: Left, axis: Axis, test: NodeTest, preds: Preds)
    requires (left.From? ==> Lean(left.e)) && LeanAll(PredList(preds)) && FastPreds(preds) && (IsPosInvStep(preds) <==> AnyPlace(preds))
    ensures Lean(MergeStep(left, axis, test, preds))
  {
    var e := Step(left, axis, test, preds);
    if TwoSteps(e) {
      BehindPlain(left.e);
      var r := MergeStep(left, axis, test, preds);
      assert r.left == left.e.left && r.preds == preds && r.test == test;
      LeanParts(r.left, r.axis, r.test, r.preds);
    } else {
      assert MergeStep(left, axis, test, preds) == e;
      LeanParts(left, axis, test, preds);
    }
  }

  /** Nothing slow is left after optimising, at any depth. */
  lemma {:induction false} OptimizeLeavesNothing(e: Expr)
    ensures Lean(Optimize(e))
    decreases e
  {
    forall i | 0 <= i < |Parts(e)| ensures Lean(Optimize(Parts(e)[i])) { OptimizeLeavesNothing(Parts(e)[i]); }
    if e.Step? { LeanStep(e); }
    else if e.Filter? { LeanFilter(e); }
    else if e.StrCall? || e.LenCall? || e.BoolCall? { LeanCall(e); }
    else { LeanOperator(e); }
  }

  lemma {:induction false} LeanStep(e: Expr)
    requires e.Step? && forall i :: 0 <= i < |Parts(e)| ==> Lean(Optimize(Parts(e)[i]))
    ensures Lean(Optimize(e))
  {
    var s, l := Parts(e), PredList(e.preds);
    var n := if e.left.From? then 1 else 0;
    if e.left.From? { assert s[0] == e.left.e; }
    forall i | 0 <= i < |l| ensures Lean(Optimize(l[i])) { assert s[n + i] == l[i]; }
    OptimizedPreds(e.preds);
    MergedStep(OptimizeLeft(e.left), e.axis, e.test, OptimizePreds(e.preds));
  }

  lemma {:induction false} LeanFilter(e: Expr)
    requires e.Filter? && forall i :: 0 <= i < |Parts(e)| ==> Lean(Optimize(Parts(e)[i]))
    ensures Lean(Optimize(e))
  {
    assert Parts(e)[0] == e.set' && Parts(e)[1] == e.pred;
    Stripped(Optimize(e.pred));
  }

  lemma {:induction false} LeanCall(e: Expr)
    requires (e.StrCall? || e.LenCall? || e.BoolCall?) && forall i :: 0 <= i < |Parts(e)| ==> Lean(Optimize(Parts(e)[i]))
    ensures Lean(Optimize(e))
  {
    assert Parts(e) == ArgList(e.args);
    OptimizedArgs(e.args);
    assert Parts(Optimize(e)) == ArgList(OptimizeArgs(e.args));
  }

  lemma {:induction false} LeanOperator(e: Expr)
    requires !e.Step? && !e.Filter? && !e.StrCall? && !e.LenCall? && !e.BoolCall?
    requires forall i :: 0 <= i < |Parts(e)| ==> Lean(Optimize(Parts(e)[i]))
    ensures Lean(Optimize(e))
  {
    var s := Parts(e);
    if |s| == 3 { LeanThree(e); } else if |s| == 2 { LeanTwo(e); } else if |s| == 1 { LeanOne(e); }
  }

  lemma {:induction false} LeanThree(e: Expr)
    requires e.Translate? && Lean(Optimize(Parts(e)[0])) && Lean(Optimize(Parts(e)[1])) && Lean(Optimize(Parts(e)[2]))
    ensures Lean(Optimize(e))
  {
    assert Parts(e)[0] == e.e && Parts(e)[1] == e.from && Parts(e)[2] == e.to;
    var x, f, t := Optimize(e.e), Optimize(e.from), Optimize(e.to);
    var r := MergeTranslate(x, f, t);
    assert Parts(r) == if r.Translate? then [x, f, t] else [x];
  }

  lemma {:induction false} LeanTwo(e: Expr)
    requires e.Or? || e.And? || e.Compare? || e.Arith? || e.Union?
    requires Lean(Optimize(Parts(e)[0])) && Lean(Optimize(Parts(e)[1]))
    ensures Lean(Optimize(e))
  {
    assert Parts(e)[0] == e.l && Parts(e)[1] == e.r;
    var l, r, o := Optimize(e.l), Optimize(e.r), Optimize(e);
    assert Parts(o) == if o.CompareAttribute? then [r] else [l, r];
  }

  lemma {:induction false} LeanOne(e: Expr)
    requires |Parts(e)| == 1 && !e.Step? && !e.StrCall? && !e.LenCall? && !e.BoolCall? && Lean(Optimize(Parts(e)[0]))
    ensures Lean(Optimize(e))
  {
    var x := Parts(e)[0];
    assert Parts(Optimize(e)) == [Optimize(x)];
  }
}
