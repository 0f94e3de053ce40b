/** The query optimiser (pugixml.cpp, optimize, optimize_self, is_posinv_expr,
    is_posinv_step, translate_table_generate) and the proof that it preserves
    the meaning of every expression. */
module XPathOptimize {
  import opened Documents
  import opened Axes
  import opened XPath
  import Collections

  // An expression whose value does not depend on position() and last().
  predicate IsPosInv(e: Expr) {
    match e
    case Position => false
    case Last => false
    case Or(l, r) => IsPosInv(l) && IsPosInv(r)
    case And(l, r) => IsPosInv(l) && IsPosInv(r)
    case Not(x) => IsPosInv(x)
    case Compare(_, l, r) => IsPosInv(l) && IsPosInv(r)
    case Arith(_, l, r) => IsPosInv(l) && IsPosInv(r)
    case Negate(x) => IsPosInv(x)
    case Count(x) => IsPosInv(x)
    case ToBool(x) => IsPosInv(x)
    case ToNum(x) => IsPosInv(x)
    case ToStr(x) => IsPosInv(x)
    case NumCall(_, x) => IsPosInv(x)
    case StrCall(_, a) => IsPosInvArgs(a)
    case LenCall(_, a) => IsPosInvArgs(a)
    case BoolCall(_, a) => IsPosInvArgs(a)
    case NameOf(_, x) => IsPosInv(x)
    case Translate(x, f, t) => IsPosInv(x) && IsPosInv(f) && IsPosInv(t)
    case TranslateTable(x, _) => IsPosInv(x)
    case CompareAttribute(_, v) => IsPosInv(v)
    case Union(l, r) => IsPosInv(l) && IsPosInv(r)
    case Id(x) => IsPosInv(x)
    case _ => true   // constants, variables, steps and filters
  }

  predicate IsPosInvArgs(a: Args) {
    match a
    case NoArg => true
    case Arg(e, next) => IsPosInv(e) && IsPosInvArgs(next)
  }

  predicate IsPosInvStep(p: Preds) {
    match p
    case NoPred => true
    case Pred(_, test, next) => test == PosInvTest && IsPosInvStep(next)
  }

  // [position() = e] becomes [e].
  function StripPosition(e: Expr): Expr {
    if e.Compare? && e.cmp == Eq && e.l == Position && TypeOf(e.r) == TNum then e.r else e
  }

  function Classify(e: Expr): PredTest {
    if e == NumberLit(Fin(1.0)) then ConstOneTest
    else if TypeOf(e) == TNum && (e.NumberLit? || e.Variable? || e.Last?) then ConstTest
    else if TypeOf(e) != TNum && IsPosInv(e) then PosInvTest
    else DefaultTest
  }

  // descendant-or-self::node()/axis::t becomes one step.
  function MergeStep(left: Left, axis: Axis, test: NodeTest, preds: Preds): Expr {
    if (axis.ChildAxis? || axis.SelfAxis? || axis.DescendantAxis? || axis.DescendantOrSelfAxis?) &&
       left.From? && left.e.Step? && left.e.axis.DescendantOrSelfAxis? && left.e.test.AnyNode? && left.e.preds.NoPred? &&
       IsPosInvStep(preds)
    then Step(left.e.left, if axis.ChildAxis? || axis.DescendantAxis? then DescendantAxis else DescendantOrSelfAxis, test, preds)
    else Step(left, axis, test, preds)
  }

  predicate Ascii(c: char) {
    c as int < 128
  }

  // What translate makes of the character with code c: its code, or 128 for nothing.
  function TableEntry(from: string, to: string, c: int): int
    requires 0 <= c < 128
  {
    var i := IndexOf(from, c as char);
    if i == -1 then c else if i < |to| then to[i] as int else 128
  }

  predicate HasTable(from: string, to: string) {
    forall i :: 0 <= i < |from| ==> Ascii(from[i]) && (i < |to| ==> Ascii(to[i]))
  }

  function TableOf(from: string, to: string): seq<int> {
    seq(128, c requires 0 <= c < 128 => TableEntry(from, to, c))
  }

  function MergeTranslate(e: Expr, from: Expr, to: Expr): Expr {
    if from.StringLit? && to.StringLit? && HasTable(from.text, to.text)
    then TranslateTable(e, TableOf(from.text, to.text))
    else Translate(e, from, to)
  }

  // @name = 'text' and @name = $text.
  function MergeCompare(op: CmpOp, l: Expr, r: Expr): Expr {
    if op == Eq && l.Step? && l.axis.AttributeAxis? && l.test.NameTest? && l.left.NoLeft? && l.preds.NoPred? &&
       (r.StringLit? || (r.Variable? && TypeOf(r) == TStr))
    then CompareAttribute(l.test.name, r)
    else Compare(op, l, r)
  }

  function Optimize(e: Expr): Expr {
    match e
    case Or(l, r) => Or(Optimize(l), Optimize(r))
    case And(l, r) => And(Optimize(l), Optimize(r))
    case Not(x) => Not(Optimize(x))
    case Compare(op, l, r) => MergeCompare(op, Optimize(l), Optimize(r))
    case Arith(op, l, r) => Arith(op, Optimize(l), Optimize(r))
    case Negate(x) => Negate(Optimize(x))
    case Count(x) => Count(Optimize(x))
    case ToBool(x) => ToBool(Optimize(x))
    case ToNum(x) => ToNum(Optimize(x))
    case ToStr(x) => ToStr(Optimize(x))
    case NumCall(f, x) => NumCall(f, Optimize(x))
    case StrCall(f, a) => StrCall(f, OptimizeArgs(a))
    case LenCall(f, a) => LenCall(f, OptimizeArgs(a))
    case BoolCall(f, a) => BoolCall(f, OptimizeArgs(a))
    case NameOf(f, x) => NameOf(f, Optimize(x))
    case Translate(x, f, t) => MergeTranslate(Optimize(x), Optimize(f), Optimize(t))
    case TranslateTable(x, table) => TranslateTable(Optimize(x), table)
    case CompareAttribute(n, v) => CompareAttribute(n, Optimize(v))
    case Union(l, r) => Union(Optimize(l), Optimize(r))
    case Id(x) => Id(Optimize(x))
    case Step(left, axis, test, preds) => MergeStep(OptimizeLeft(left), axis, test, OptimizePreds(preds))
    case Filter(s, p, _) =>
      var q := StripPosition(Optimize(p));
      Filter(Optimize(s), q, Classify(q))
    case _ => e
  }

  function OptimizeLeft(left: Left): Left {
    match left
    case NoLeft => NoLeft
    case From(e) => From(Optimize(e))
  }

  function OptimizeArgs(a: Args): Args {
    match a
    case NoArg => NoArg
    case Arg(e, next) => Arg(Optimize(e), OptimizeArgs(next))
  }

  function OptimizePreds(p: Preds): Preds {
    match p
    case NoPred => NoPred
    case Pred(e, _, next) =>
      var q := StripPosition(Optimize(e));
      Pred(q, Classify(q), OptimizePreds(next))
  }

  // ---------------------------------------------------------------------
  // Annotations say what they claim.

  predicate TestSound(e: Expr, test: PredTest) {
    match test
    case DefaultTest => true
    case ConstOneTest => e == NumberLit(Fin(1.0))
    case ConstTest => TypeOf(e) == TNum && (e.NumberLit? || e.Variable? || e.Last?)
    case PosInvTest => TypeOf(e) != TNum && IsPosInv(e)
  }

  predicate Annotated(e: Expr) {
    match e
    case Or(l, r) => Annotated(l) && Annotated(r)
    case And(l, r) => Annotated(l) && Annotated(r)
    case Not(x) => Annotated(x)
    case Compare(_, l, r) => Annotated(l) && Annotated(r)
    case Arith(_, l, r) => Annotated(l) && Annotated(r)
    case Negate(x) => Annotated(x)
    case Count(x) => Annotated(x)
    case ToBool(x) => Annotated(x)
    case ToNum(x) => Annotated(x)
    case ToStr(x) => Annotated(x)
    case NumCall(_, x) => Annotated(x)
    case StrCall(_, a) => AnnotatedArgs(a)
    case LenCall(_, a) => AnnotatedArgs(a)
    case BoolCall(_, a) => AnnotatedArgs(a)
    case NameOf(_, x) => Annotated(x)
    case Translate(x, f, t) => Annotated(x) && Annotated(f) && Annotated(t)
    case TranslateTable(x, _) => Annotated(x)
    case CompareAttribute(_, v) => Annotated(v)
    case Union(l, r) => Annotated(l) && Annotated(r)
    case Id(x) => Annotated(x)
    case Step(left, _, _, preds) => (left.From? ==> Annotated(left.e)) && AnnotatedPreds(preds)
    case Filter(s, p, test) => Annotated(s) && Annotated(p) && TestSound(p, test)
    case _ => true
  }

  predicate AnnotatedArgs(a: Args) {
    match a
    case NoArg => true
    case Arg(e, next) => Annotated(e) && AnnotatedArgs(next)
  }

  predicate AnnotatedPreds(p: Preds) {
    match p
    case NoPred => true
    case Pred(e, test, next) => Annotated(e) && TestSound(e, test) && AnnotatedPreds(next)
  }

  // ---------------------------------------------------------------------
  // Types and annotations of the result.

  lemma TableIsTable(from: string, to: string)
    requires HasTable(from, to) && NulFree(from) && NulFree(to)
    ensures |TableOf(from, to)| == 128 && forall i :: 0 <= i < 128 ==> 0 <= TableOf(from, to)[i] <= 128
  {
  }

  lemma {:induction false} OptimizeKeepsTypes(e: Expr)
    requires WellTyped(e)
    ensures WellTyped(Optimize(e)) && TypeOf(Optimize(e)) == TypeOf(e)
    decreases e, 1
  {
    match TypeOf(e)
    case TBool => OptimizeKeepsBoolTypes(e);
    case TNum => OptimizeKeepsNumTypes(e);
    case TStr => OptimizeKeepsTextTypes(e);
    case TSet => OptimizeKeepsSetTypes(e);
  }

  lemma {:induction false} OptimizeKeepsBoolTypes(e: Expr)
    requires WellTyped(e) && TypeOf(e) == TBool
    ensures WellTyped(Optimize(e)) && TypeOf(Optimize(e)) == TBool
    decreases e, 0
  {
    match e
    case Or(l, r) => OptimizeKeepsTypes(l); OptimizeKeepsTypes(r);
    case And(l, r) => OptimizeKeepsTypes(l); OptimizeKeepsTypes(r);
    case Not(x) => OptimizeKeepsTypes(x);
    case Compare(op, l, r) =>
      OptimizeKeepsTypes(l); OptimizeKeepsTypes(r);
      MergeCompareTypes(op, Optimize(l), Optimize(r));
    case ToBool(x) => OptimizeKeepsTypes(x);
    case BoolCall(_, a) => OptimizeKeepsArgTypes(a);
    case _ =>
  }

  lemma {:induction false} MergeCompareTypes(op: CmpOp, l: Expr, r: Expr)
    requires WellTyped(l) && WellTyped(r)
    ensures WellTyped(MergeCompare(op, l, r)) && TypeOf(MergeCompare(op, l, r)) == TBool
  {
    TypedCompare(op, l, r);
    if r.StringLit? || (r.Variable? && TypeOf(r) == TStr) {
      if l.Step? && l.test.NameTest? { TypedCompareAttribute(l.test.name, r); }
    }
  }

  lemma TypedCompare(op: CmpOp, l: Expr, r: Expr)
    requires WellTyped(l) && WellTyped(r)
    ensures WellTyped(Compare(op, l, r)) && TypeOf(Compare(op, l, r)) == TBool
  {
  }

  lemma TypedCompareAttribute(name: string, v: Expr)
    requires WellTyped(v) && (v.StringLit? || (v.Variable? && TypeOf(v) == TStr))
    ensures WellTyped(CompareAttribute(name, v)) && TypeOf(CompareAttribute(name, v)) == TBool
  {
  }

  lemma {:induction false} OptimizeKeepsNumTypes(e: Expr)
    requires WellTyped(e) && TypeOf(e) == TNum
    ensures WellTyped(Optimize(e)) && TypeOf(Optimize(e)) == TNum
    decreases e, 0
  {
    match e
    case Arith(_, l, r) => OptimizeKeepsTypes(l); OptimizeKeepsTypes(r);
    case Negate(x) => OptimizeKeepsTypes(x);
    case Count(x) => OptimizeKeepsTypes(x);
    case ToNum(x) => OptimizeKeepsTypes(x);
    case NumCall(_, x) => OptimizeKeepsTypes(x);
    case LenCall(_, a) => OptimizeKeepsArgTypes(a);
    case _ =>
  }

  lemma {:induction false} OptimizeKeepsTextTypes(e: Expr)
    requires WellTyped(e) && TypeOf(e) == TStr
    ensures WellTyped(Optimize(e)) && TypeOf(Optimize(e)) == TStr
    decreases e, 0
  {
    match e
    case ToStr(x) => OptimizeKeepsTypes(x);
    case StrCall(_, a) => OptimizeKeepsArgTypes(a);
    case NameOf(_, x) => OptimizeKeepsTypes(x);
    case Translate(x, f, t) =>
      OptimizeKeepsTypes(x); OptimizeKeepsTypes(f); OptimizeKeepsTypes(t);
      MergeTranslateTypes(Optimize(x), Optimize(f), Optimize(t));
    case TranslateTable(x, _) => OptimizeKeepsTypes(x);
    case _ =>
  }

  lemma {:induction false} MergeTranslateTypes(x: Expr, f: Expr, t: Expr)
    requires WellTyped(x) && WellTyped(f) && WellTyped(t)
    ensures WellTyped(MergeTranslate(x, f, t)) && TypeOf(MergeTranslate(x, f, t)) == TStr
  {
    if f.StringLit? && t.StringLit? && HasTable(f.text, t.text) {
      TableIsTable(f.text, t.text);
      TypedTable(x, TableOf(f.text, t.text));
    } else {
      TypedTranslate(x, f, t);
    }
  }

  lemma {:induction false} TypedTable(x: Expr, table: seq<int>)
    requires WellTyped(x) && |table| == 128 && forall i :: 0 <= i < 128 ==> 0 <= table[i] <= 128
    ensures WellTyped(TranslateTable(x, table)) && TypeOf(TranslateTable(x, table)) == TStr
  {
  }

  lemma {:induction false} TypedTranslate(x: Expr, f: Expr, t: Expr)
    requires WellTyped(x) && WellTyped(f) && WellTyped(t)
    ensures WellTyped(Translate(x, f, t)) && TypeOf(Translate(x, f, t)) == TStr
  {
  }

  lemma {:induction false} OptimizeKeepsSetTypes(e: Expr)
    requires WellTyped(e) && TypeOf(e) == TSet
    ensures WellTyped(Optimize(e)) && TypeOf(Optimize(e)) == TSet
    decreases e, 0
  {
    match e
    case Union(l, r) => OptimizeKeepsTypes(l); OptimizeKeepsTypes(r);
    case Id(x) => OptimizeKeepsTypes(x);
    case Step(left, axis, test, preds) =>
      OptimizeKeepsLeftTypes(left);
      OptimizeKeepsPredTypes(preds);
      MergeStepTypes(OptimizeLeft(left), axis, test, OptimizePreds(preds));
    case Filter(s, p, _) =>
      OptimizeKeepsTypes(s); OptimizeKeepsTypes(p);
      FilterTypes(e, s, p, Optimize(s), Optimize(p));
    case _ =>
  }

  lemma {:induction false} FilterTypes(e: Expr, s: Expr, p: Expr, s': Expr, p': Expr)
    requires e.Filter? && e.set' == s && e.pred == p && s' == Optimize(s) && p' == Optimize(p)
    requires WellTyped(s') && TypeOf(s') == TSet && WellTyped(p')
    ensures WellTyped(Optimize(e)) && TypeOf(Optimize(e)) == TSet
  {
    StripPositionTypes(p');
    TypedFilter(s', StripPosition(p'));
  }

  lemma TypedFilter(s: Expr, p: Expr)
    requires WellTyped(s) && TypeOf(s) == TSet && WellTyped(p)
    ensures WellTyped(Filter(s, p, Classify(p))) && TypeOf(Filter(s, p, Classify(p))) == TSet
  {
  }

  ghost predicate WellTypedLeft(left: Left) {
    left.From? ==> WellTyped(left.e) && TypeOf(left.e) == TSet
  }

  lemma {:induction false} OptimizeKeepsLeftTypes(left: Left)
    requires WellTypedLeft(left)
    ensures WellTypedLeft(OptimizeLeft(left))
    decreases left
  {
    if left.From? { OptimizeKeepsTypes(left.e); }
  }

  lemma {:induction false} MergeStepTypes(left: Left, axis: Axis, test: NodeTest, p: Preds)
    requires WellTypedLeft(left) && WellTypedPreds(p)
    ensures WellTyped(MergeStep(left, axis, test, p)) && TypeOf(MergeStep(left, axis, test, p)) == TSet
  {
    TypedStep(left, axis, test, p);
    if MergeStep(left, axis, test, p) != Step(left, axis, test, p) {
      assert WellTypedLeft(left.e.left);
      TypedStep(left.e.left, MergedAxis(axis), test, p);
    }
  }

  lemma {:induction false} TypedStep(left: Left, axis: Axis, test: NodeTest, p: Preds)
    requires WellTypedLeft(left) && WellTypedPreds(p)
    ensures WellTyped(Step(left, axis, test, p)) && TypeOf(Step(left, axis, test, p)) == TSet
  {
  }

  lemma {:induction false} StripPositionTypes(e: Expr)
    requires WellTyped(e)
    ensures WellTyped(StripPosition(e))
  {
  }

  lemma {:induction false} OptimizeKeepsArgTypes(a: Args)
    requires WellTypedArgs(a)
    ensures WellTypedArgs(OptimizeArgs(a))
    decreases a
  {
    match a
    case NoArg =>
    case Arg(e, next) => OptimizeKeepsTypes(e); OptimizeKeepsArgTypes(next);
  }

  lemma {:induction false} OptimizeKeepsPredTypes(p: Preds)
    requires WellTypedPreds(p)
    ensures WellTypedPreds(OptimizePreds(p))
    decreases p
  {
    match p
    case NoPred =>
    case Pred(e, _, next) => OptimizeKeepsTypes(e); OptimizeKeepsPredTypes(next);
  }

  // Whatever the annotations were before, the optimiser leaves sound ones.
  lemma {:induction false} OptimizeAnnotates(e: Expr)
    ensures Annotated(Optimize(e))
    decreases e, 1
  {
    if e.Union? || e.Id? || e.Filter? { AnnotatesSets(e); }
    else if e.Step? { AnnotatesStep(e); }
    else if e.Or? || e.And? || e.Not? || e.Compare? || e.Arith? || e.Negate? { AnnotatesOperators(e); }
    else if e.Translate? || e.TranslateTable? || e.CompareAttribute? { AnnotatesOptimized(e); }
    else if e.StrCall? || e.LenCall? || e.BoolCall? || e.NumCall? || e.NameOf? { AnnotatesCalls(e); }
    else { AnnotatesConversions(e); }
  }

  lemma {:induction false} AnnotatesOperators(e: Expr)
    requires e.Or? || e.And? || e.Not? || e.Compare? || e.Arith? || e.Negate?
    ensures Annotated(Optimize(e))
    decreases e, 0
  {
    if e.Not? || e.Negate? {
      OptimizeAnnotates(e.e);
    } else {
      OptimizeAnnotates(e.l);
      OptimizeAnnotates(e.r);
    }
  }

  lemma {:induction false} AnnotatesConversions(e: Expr)
    requires e.Count? || e.ToBool? || e.ToNum? || e.ToStr? || (e.BoolLit? || e.StringLit? || e.NumberLit? || e.Variable? || e.Position? || e.Last? || e.ContextStr? || e.ContextName? || e.StepRoot?)
    ensures Annotated(Optimize(e))
    decreases e, 0
  {
    if e.Count? || e.ToBool? || e.ToNum? || e.ToStr? { OptimizeAnnotates(e.e); }
  }

  lemma {:induction false} AnnotatesCalls(e: Expr)
    requires e.StrCall? || e.LenCall? || e.BoolCall? || e.NumCall? || e.NameOf?
    ensures Annotated(Optimize(e))
    decreases e, 0
  {
    if e.NumCall? || e.NameOf? { OptimizeAnnotates(e.e); } else { OptimizeAnnotatesArgs(e.args); }
  }

  lemma {:induction false} AnnotatesOptimized(e: Expr)
    requires e.Translate? || e.TranslateTable? || e.CompareAttribute?
    ensures Annotated(Optimize(e))
    decreases e, 0
  {
    match e
    case Translate(x, f, t) => OptimizeAnnotates(x); OptimizeAnnotates(f); OptimizeAnnotates(t);
    case TranslateTable(x, _) => OptimizeAnnotates(x);
    case CompareAttribute(_, v) => OptimizeAnnotates(v);
  }

  lemma {:induction false} AnnotatesSets(e: Expr)
    requires e.Union? || e.Id? || e.Filter?
    ensures Annotated(Optimize(e))
    decreases e, 0
  {
    match e
    case Union(l, r) => OptimizeAnnotates(l); OptimizeAnnotates(r);
    case Id(x) => OptimizeAnnotates(x);
    case Filter(s, p, _) => OptimizeAnnotates(s); OptimizeAnnotates(p);
  }

  lemma {:induction false} AnnotatesStep(e: Expr)
    requires e.Step?
    ensures Annotated(Optimize(e))
    decreases e, 0
  {
    if e.left.From? { OptimizeAnnotates(e.left.e); }
    OptimizeAnnotatesPreds(e.preds);
  }

  lemma {:induction false} OptimizeAnnotatesArgs(a: Args)
    ensures AnnotatedArgs(OptimizeArgs(a))
    decreases a
  {
    match a
    case NoArg =>
    case Arg(e, next) => OptimizeAnnotates(e); OptimizeAnnotatesArgs(next);
  }

  lemma {:induction false} OptimizeAnnotatesPreds(p: Preds)
    ensures AnnotatedPreds(OptimizePreds(p))
    decreases p
  {
    match p
    case NoPred =>
    case Pred(e, _, next) => OptimizeAnnotates(e); OptimizeAnnotatesPreds(next);
  }

  // ---------------------------------------------------------------------
  // Position invariance.

  // Node-set expressions never depend on the outer position: predicates inside
  // them have positions of their own.
  lemma {:induction false} SetsArePosInv(w: World, e: Expr, c: Context, c': Context)
    requires Rooted(w.d) && WellTyped(e) && TypeOf(e) == TSet && c.n == c'.n
    ensures Ref(w, e, c) == Ref(w, e, c')
    decreases e
  {
    match e
    case Union(l, r) => SetsArePosInv(w, l, c, c'); SetsArePosInv(w, r, c, c');
    case Step(left, _, _, _) =>
      if left.From? { SetsArePosInv(w, left.e, c, c'); }
      assert Sources(w, left, c) == Sources(w, left, c');
    case Filter(s, _, _) => SetsArePosInv(w, s, c, c');
    case _ =>
  }

  lemma {:induction false} PosInvSound(w: World, e: Expr, c: Context, c': Context)
    requires Rooted(w.d) && WellTyped(e) && IsPosInv(e) && c.n == c'.n
    ensures Ref(w, e, c) == Ref(w, e, c')
    decreases e, 1
  {
    match TypeOf(e)
    case TSet => SetsArePosInv(w, e, c, c');
    case TBool => PosInvBool(w, e, c, c');
    case TNum => PosInvNum(w, e, c, c');
    case TStr => PosInvText(w, e, c, c');
  }

  lemma {:induction false} PosInvBool(w: World, e: Expr, c: Context, c': Context)
    requires Rooted(w.d) && WellTyped(e) && IsPosInv(e) && c.n == c'.n && TypeOf(e) == TBool
    ensures Ref(w, e, c) == Ref(w, e, c')
    decreases e, 0
  {
    match e
    case Or(l, r) => PosInvSound(w, l, c, c'); PosInvSound(w, r, c, c');
    case And(l, r) => PosInvSound(w, l, c, c'); PosInvSound(w, r, c, c');
    case Not(x) => PosInvSound(w, x, c, c');
    case Compare(_, l, r) => PosInvSound(w, l, c, c'); PosInvSound(w, r, c, c');
    case ToBool(x) => PosInvSound(w, x, c, c');
    case BoolCall(_, a) => PosInvArgsSound(w, a, c, c');
    case CompareAttribute(_, v) => PosInvSound(w, v, c, c');
    case _ =>
  }

  lemma {:induction false} PosInvNum(w: World, e: Expr, c: Context, c': Context)
    requires Rooted(w.d) && WellTyped(e) && IsPosInv(e) && c.n == c'.n && TypeOf(e) == TNum
    ensures Ref(w, e, c) == Ref(w, e, c')
    decreases e, 0
  {
    match e
    case Arith(_, l, r) => PosInvSound(w, l, c, c'); PosInvSound(w, r, c, c');
    case Negate(x) => PosInvSound(w, x, c, c');
    case Count(x) => PosInvSound(w, x, c, c');
    case ToNum(x) => PosInvSound(w, x, c, c');
    case NumCall(_, x) => PosInvSound(w, x, c, c');
    case LenCall(_, a) => PosInvArgsSound(w, a, c, c');
    case _ =>
  }

  lemma {:induction false} PosInvText(w: World, e: Expr, c: Context, c': Context)
    requires Rooted(w.d) && WellTyped(e) && IsPosInv(e) && c.n == c'.n && TypeOf(e) == TStr
    ensures Ref(w, e, c) == Ref(w, e, c')
    decreases e, 0
  {
    match e
    case ToStr(x) => PosInvSound(w, x, c, c');
    case StrCall(_, a) => PosInvArgsSound(w, a, c, c');
    case NameOf(_, x) => PosInvSound(w, x, c, c');
    case Translate(x, f, t) => PosInvSound(w, x, c, c'); PosInvSound(w, f, c, c'); PosInvSound(w, t, c, c');
    case TranslateTable(x, _) => PosInvSound(w, x, c, c');
    case _ =>
  }

  lemma {:induction false} PosInvArgsSound(w: World, a: Args, c: Context, c': Context)
    requires Rooted(w.d) && WellTypedArgs(a) && IsPosInvArgs(a) && c.n == c'.n
    ensures RefArgs(w, a, c) == RefArgs(w, a, c')
    decreases a
  {
    match a
    case NoArg =>
    case Arg(e, next) => PosInvSound(w, e, c, c'); PosInvArgsSound(w, next, c, c');
  }

  // ---------------------------------------------------------------------
  // The rewrites, one by one.

  lemma {:induction false} StripPositionKeepsHolds(w: World, e: Expr, c: Context)
    requires Rooted(w.d) && WellTyped(e)
    ensures WellTyped(StripPosition(e)) && Holds(w, StripPosition(e), c) == Holds(w, e, c)
  {
    if StripPosition(e) != e {
      assert Ref(w, e.l, c) == NumV(RefNum(w, e.l, c));
      assert RefNum(w, e.l, c) == Fin(c.pos as real);
      assert Ref(w, e.r, c) == NumV(RefNum(w, e.r, c));
      assert Ref(w, e, c) == BoolV(RefBool(w, e, c));
    }
  }

  ghost predicate AllHold(w: World, p: Preds, m: int)
    requires Rooted(w.d) && WellTypedPreds(p)
  {
    match p
    case NoPred => true
    case Pred(e, _, next) => Holds(w, e, Context(m, 1, 1)) && AllHold(w, next, m)
  }

  ghost predicate PosInvPreds(p: Preds) {
    match p
    case NoPred => true
    case Pred(e, _, next) => TypeOf(e) != TNum && IsPosInv(e) && PosInvPreds(next)
  }

  lemma {:induction false} PosInvHolds(w: World, e: Expr, c: Context, c': Context)
    requires Rooted(w.d) && WellTyped(e) && IsPosInv(e) && TypeOf(e) != TNum && c.n == c'.n
    ensures Holds(w, e, c) == Holds(w, e, c')
  {
    PosInvSound(w, e, c, c');
  }

  // A position-invariant predicate selects by membership alone.
  lemma {:induction false} PosInvFilter(w: World, s: seq<int>, i: nat, e: Expr, m: int)
    requires Rooted(w.d) && WellTyped(e) && IsPosInv(e) && TypeOf(e) != TNum && i <= |s|
    ensures m in FilterFrom(w, s, i, e) <==> m in s[i..] && Holds(w, e, Context(m, 1, 1))
    decreases |s| - i
  {
    if i < |s| {
      PosInvFilter(w, s, i + 1, e, m);
      PosInvHolds(w, e, Context(s[i], i + 1, |s|), Context(s[i], 1, 1));
      assert s[i..] == [s[i]] + s[i + 1..];
    }
  }

  lemma {:induction false} PosInvApply(w: World, s: seq<int>, p: Preds, m: int)
    requires Rooted(w.d) && WellTypedPreds(p) && PosInvPreds(p)
    ensures m in ApplyPreds(w, s, p) <==> m in s && AllHold(w, p, m)
    decreases p
  {
    match p
    case NoPred =>
    case Pred(e, _, next) =>
      PosInvFilter(w, s, 0, e, m);
      assert s[0..] == s;
      PosInvApply(w, FilterFrom(w, s, 0, e), next, m);
  }

  predicate Mergeable(axis: Axis) {
    axis.ChildAxis? || axis.SelfAxis? || axis.DescendantAxis? || axis.DescendantOrSelfAxis?
  }

  function MergedAxis(axis: Axis): Axis {
    if axis.ChildAxis? || axis.DescendantAxis? then DescendantAxis else DescendantOrSelfAxis
  }

  // The node in the middle of descendant-or-self::node()/axis::t.
  lemma {:induction false} MergedMiddle(d: Doc, axis: Axis, test: NodeTest, n: int, m: int) returns (k: int)
    requires WellFormed(d) && Mergeable(axis) && IsNode(d, n) && IsNode(d, m)
    requires Selected(d, MergedAxis(axis), test, n, m)
    ensures IsNode(d, k) && Selected(d, DescendantOrSelfAxis, AnyNode, n, k) && Selected(d, axis, test, k, m)
  {
    if IsAncestor(d, n, m) && IsAttr(d, n) { AttributeIsNoAncestor(d, n, m); }
    match axis
    case ChildAxis =>
      k := d[m].parent;
      assert AttributesPlaced(d, m);
      if k != n { assert IsAncestor(d, n, k); }
    case SelfAxis => k := m;
    case DescendantAxis => k := n;
    case DescendantOrSelfAxis => k := n;
  }

  lemma {:induction false} MergedEnds(d: Doc, axis: Axis, test: NodeTest, n: int, k: int, m: int)
    requires WellFormed(d) && Mergeable(axis) && IsNode(d, n) && IsNode(d, k) && IsNode(d, m)
    requires Selected(d, DescendantOrSelfAxis, AnyNode, n, k) && Selected(d, axis, test, k, m)
    ensures Selected(d, MergedAxis(axis), test, n, m)
  {
    if k != n && IsAncestor(d, k, m) { AncestorTransitive(d, n, k, m); }
  }

  // m is selected from the sources, position-invariant predicates being plain conditions.
  ghost predicate Reached(w: World, sources: set<int>, axis: Axis, test: NodeTest, n: int, m: int)
    requires Rooted(w.d) && IsNode(w.d, m)
  {
    n in sources && IsNode(w.d, n) && Chosen(w, axis, test, n, m)
  }

  ghost predicate IsReached(w: World, sources: set<int>, axis: Axis, test: NodeTest, m: int)
    requires Rooted(w.d) && IsNode(w.d, m)
  {
    exists n :: Reached(w, sources, axis, test, n, m)
  }

  lemma {:induction false} InStepPosInv(w: World, sources: set<int>, axis: Axis, test: NodeTest, p: Preds, m: int)
    requires Rooted(w.d) && WellTypedPreds(p) && PosInvPreds(p) && IsNode(w.d, m)
    ensures InStep(w, sources, axis, test, p, m)
       <==> AllHold(w, p, m) && IsReached(w, sources, axis, test, m)
  {
    if InStep(w, sources, axis, test, p, m) { InStepReached(w, sources, axis, test, p, m); }
    if AllHold(w, p, m) && IsReached(w, sources, axis, test, m) { ReachedInStep(w, sources, axis, test, p, m); }
  }

  lemma {:induction false} InStepReached(w: World, sources: set<int>, axis: Axis, test: NodeTest, p: Preds, m: int)
    requires Rooted(w.d) && WellTypedPreds(p) && PosInvPreds(p) && IsNode(w.d, m) && InStep(w, sources, axis, test, p, m)
    ensures AllHold(w, p, m) && IsReached(w, sources, axis, test, m)
  {
    var n :| n in sources && IsNode(w.d, n) && m in ApplyPreds(w, Found(w, axis, test, n), p);
    PosInvFrom(w, axis, test, p, n, m);
    assert Reached(w, sources, axis, test, n, m);
  }

  lemma {:induction false} ReachedInStep(w: World, sources: set<int>, axis: Axis, test: NodeTest, p: Preds, m: int)
    requires Rooted(w.d) && WellTypedPreds(p) && PosInvPreds(p) && IsNode(w.d, m)
    requires IsReached(w, sources, axis, test, m) && AllHold(w, p, m)
    ensures InStep(w, sources, axis, test, p, m)
  {
    var n :| Reached(w, sources, axis, test, n, m);
    PosInvFrom(w, axis, test, p, n, m);
  }

  lemma {:induction false} PosInvFrom(w: World, axis: Axis, test: NodeTest, p: Preds, n: int, m: int)
    requires Rooted(w.d) && WellTypedPreds(p) && PosInvPreds(p) && IsNode(w.d, m) && IsNode(w.d, n)
    ensures m in ApplyPreds(w, Found(w, axis, test, n), p) <==> AllHold(w, p, m) && Chosen(w, axis, test, n, m)
  {
    PosInvApply(w, Found(w, axis, test, n), p, m);
    FoundIsChosen(w, axis, test, n);
  }

  lemma {:induction false} MiddleSet(w: World, sources: set<int>, k: int)
    requires Rooted(w.d) && IsNode(w.d, k)
    ensures k in StepSet(w, sources, DescendantOrSelfAxis, AnyNode, NoPred)
       <==> IsReached(w, sources, DescendantOrSelfAxis, AnyNode, k)
  {
    InStepPosInv(w, sources, DescendantOrSelfAxis, AnyNode, NoPred, k);
  }

  lemma {:induction false} MergeKeepsMember(w: World, sources: set<int>, axis: Axis, test: NodeTest, p: Preds, m: int)
    requires WellFormed(w.d) && Mergeable(axis) && WellTypedPreds(p) && PosInvPreds(p) && IsNode(w.d, m)
    ensures InStep(w, sources, MergedAxis(axis), test, p, m)
       <==> InStep(w, StepSet(w, sources, DescendantOrSelfAxis, AnyNode, NoPred), axis, test, p, m)
  {
    var mid := StepSet(w, sources, DescendantOrSelfAxis, AnyNode, NoPred);
    InStepPosInv(w, sources, MergedAxis(axis), test, p, m);
    InStepPosInv(w, mid, axis, test, p, m);
    ThroughMiddle(w, sources, axis, test, mid, m);
  }

  lemma {:induction false} ThroughMiddle(w: World, sources: set<int>, axis: Axis, test: NodeTest, mid: set<int>, m: int)
    requires WellFormed(w.d) && Mergeable(axis) && IsNode(w.d, m) && mid == StepSet(w, sources, DescendantOrSelfAxis, AnyNode, NoPred)
    ensures IsReached(w, sources, MergedAxis(axis), test, m) <==> IsReached(w, mid, axis, test, m)
  {
    if IsReached(w, sources, MergedAxis(axis), test, m) { IntoMiddle(w, sources, axis, test, mid, m); }
    if IsReached(w, mid, axis, test, m) { OutOfMiddle(w, sources, axis, test, mid, m); }
  }

  lemma {:induction false} IntoMiddle(w: World, sources: set<int>, axis: Axis, test: NodeTest, mid: set<int>, m: int)
    requires WellFormed(w.d) && Mergeable(axis) && IsNode(w.d, m) && mid == StepSet(w, sources, DescendantOrSelfAxis, AnyNode, NoPred)
    requires IsReached(w, sources, MergedAxis(axis), test, m)
    ensures IsReached(w, mid, axis, test, m)
  {
    var n :| Reached(w, sources, MergedAxis(axis), test, n, m);
    var k := MergedMiddle(w.d, axis, test, n, m);
    assert Reached(w, sources, DescendantOrSelfAxis, AnyNode, n, k);
    MiddleSet(w, sources, k);
    assert Reached(w, mid, axis, test, k, m);
  }

  lemma {:induction false} OutOfMiddle(w: World, sources: set<int>, axis: Axis, test: NodeTest, mid: set<int>, m: int)
    requires WellFormed(w.d) && Mergeable(axis) && IsNode(w.d, m) && mid == StepSet(w, sources, DescendantOrSelfAxis, AnyNode, NoPred)
    requires IsReached(w, mid, axis, test, m)
    ensures IsReached(w, sources, MergedAxis(axis), test, m)
  {
    var k :| Reached(w, mid, axis, test, k, m);
    MiddleSet(w, sources, k);
    var n :| Reached(w, sources, DescendantOrSelfAxis, AnyNode, n, k);
    MergedEnds(w.d, axis, test, n, k, m);
    assert Reached(w, sources, MergedAxis(axis), test, n, m);
  }

  lemma {:induction false} MergedSets(w: World, sources: set<int>, axis: Axis, test: NodeTest, p: Preds)
    requires WellFormed(w.d) && Mergeable(axis) && WellTypedPreds(p) && PosInvPreds(p)
    ensures StepSet(w, sources, MergedAxis(axis), test, p)
         == StepSet(w, StepSet(w, sources, DescendantOrSelfAxis, AnyNode, NoPred), axis, test, p)
  {
    var mid := StepSet(w, sources, DescendantOrSelfAxis, AnyNode, NoPred);
    forall m ensures m in StepSet(w, sources, MergedAxis(axis), test, p) <==> m in StepSet(w, mid, axis, test, p) {
      MergedMember(w, sources, axis, test, p, mid, m);
    }
    Collections.SameSet(StepSet(w, sources, MergedAxis(axis), test, p), StepSet(w, mid, axis, test, p));
  }

  lemma {:induction false} MergedMember(w: World, sources: set<int>, axis: Axis, test: NodeTest, p: Preds, mid: set<int>, m: int)
    requires WellFormed(w.d) && Mergeable(axis) && WellTypedPreds(p) && PosInvPreds(p)
    requires mid == StepSet(w, sources, DescendantOrSelfAxis, AnyNode, NoPred)
    ensures m in StepSet(w, sources, MergedAxis(axis), test, p) <==> m in StepSet(w, mid, axis, test, p)
  {
    if IsNode(w.d, m) { MergeKeepsMember(w, sources, axis, test, p, m); }
  }

  lemma {:induction false} StepMeans(w: World, left: Left, axis: Axis, test: NodeTest, p: Preds, c: Context)
    requires Rooted(w.d) && WellTypedLeft(left) && WellTypedPreds(p) && WellTyped(Step(left, axis, test, p))
    ensures RefSet(w, Step(left, axis, test, p), c) == StepSet(w, Sources(w, left, c), axis, test, p)
  {
  }

  // The sources of a step behind descendant-or-self::node().
  lemma {:induction false} FromStep(w: World, left: Left, c: Context)
    requires Rooted(w.d) && left.From? && WellTyped(left.e) && left.e.Step? && left.e.axis.DescendantOrSelfAxis? && left.e.test.AnyNode? && left.e.preds.NoPred?
    ensures left.e.left.From? ==> WellTyped(left.e.left.e)
    ensures Sources(w, left, c) == StepSet(w, Sources(w, left.e.left, c), DescendantOrSelfAxis, AnyNode, NoPred)
  {
    assert Ref(w, left.e, c) == SetV(RefSet(w, left.e, c));
  }

  lemma {:induction false} MergeStepKeepsMeaning(w: World, left: Left, axis: Axis, test: NodeTest, p: Preds, c: Context)
    requires WellFormed(w.d) && WellTypedLeft(left) && WellTypedPreds(p) && AnnotatedPreds(p)
    ensures WellTyped(MergeStep(left, axis, test, p)) && TypeOf(MergeStep(left, axis, test, p)) == TSet
    ensures RefSet(w, MergeStep(left, axis, test, p), c) == StepSet(w, Sources(w, left, c), axis, test, p)
  {
    MergeStepTypes(left, axis, test, p);
    TypedStep(left, axis, test, p);
    if MergeStep(left, axis, test, p) != Step(left, axis, test, p) {
      PosInvStepPreds(p);
      FromStep(w, left, c);
      MergedSets(w, Sources(w, left.e.left, c), axis, test, p);
      StepMeans(w, left.e.left, MergedAxis(axis), test, p, c);
    } else {
      StepMeans(w, left, axis, test, p, c);
    }
  }

  lemma {:induction false} PosInvStepPreds(p: Preds)
    requires IsPosInvStep(p) && AnnotatedPreds(p)
    ensures PosInvPreds(p)
    decreases p
  {
    if p.Pred? { PosInvStepPreds(p.next); }
  }

  lemma {:induction false} TableTranslates(s: string, from: string, to: string)
    requires HasTable(from, to) && NulFree(from) && NulFree(to)
    ensures |TableOf(from, to)| == 128 && forall i :: 0 <= i < 128 ==> 0 <= TableOf(from, to)[i] <= 128
    ensures TableText(s, TableOf(from, to)) == TranslateText(s, from, to)
    decreases |s|
  {
    TableIsTable(from, to);
    if s != "" {
      TableTranslates(s[..|s| - 1], from, to);
      var c := s[|s| - 1];
      var i := IndexOf(from, c);
      assert TableChar(c, TableOf(from, to)) == TranslateChar(c, from, to);
    }
  }

  // The nodes of the step @name from the context node.
  lemma {:induction false} ChosenByName(w: World, name: string, n: int, m: int)
    requires Rooted(w.d) && IsNode(w.d, n) && IsNode(w.d, m)
    ensures Chosen(w, AttributeAxis, NameTest(name), n, m) <==> AttributeFound(w, n, name, m) && IsXPathAttribute(name)
  {
    forall k | IsNode(w.d, k)
      ensures Selected(w.d, AttributeAxis, NameTest(name), n, k) <==> IsAttrOf(w.d, n, k) && w.d[k].name == name && IsXPathAttribute(name) { }
  }

  lemma {:induction false} AttributeStep(w: World, name: string, c: Context, m: int)
    requires WellFormed(w.d)
    ensures m in StepSet(w, Sources(w, NoLeft, c), AttributeAxis, NameTest(name), NoPred)
       <==> AttributeFound(w, c.n, name, m) && IsXPathAttribute(name)
  {
    var sources := Sources(w, NoLeft, c);
    if IsNode(w.d, m) {
      InStepPosInv(w, sources, AttributeAxis, NameTest(name), NoPred, m);
      if IsNode(w.d, c.n) { ChosenByName(w, name, c.n, m); }
      if AttributeFound(w, c.n, name, m) && IsXPathAttribute(name) {
        assert Reached(w, sources, AttributeAxis, NameTest(name), c.n, m);
      }
    }
  }

  lemma {:induction false} CompareAttributeStep(w: World, name: string, s: string, c: Context)
    requires WellFormed(w.d)
    ensures var nodes := StepSet(w, Sources(w, NoLeft, c), AttributeAxis, NameTest(name), NoPred);
            CompareValues(w, Eq, SetV(nodes), StrV(s)) <==> HasAttribute(w, c.n, name, s)
  {
    var nodes := StepSet(w, Sources(w, NoLeft, c), AttributeAxis, NameTest(name), NoPred);
    forall m ensures m in nodes <==> AttributeFound(w, c.n, name, m) && IsXPathAttribute(name) {
      AttributeStep(w, name, c, m);
    }
    CompareNamed(w, nodes, name, s, c.n);
  }

  lemma {:induction false} CompareNamed(w: World, nodes: set<int>, name: string, s: string, n: int)
    requires Rooted(w.d) && forall m :: m in nodes <==> AttributeFound(w, n, name, m) && IsXPathAttribute(name)
    ensures CompareValues(w, Eq, SetV(nodes), StrV(s)) <==> HasAttribute(w, n, name, s)
  {
    if CompareValues(w, Eq, SetV(nodes), StrV(s)) {
      var x :| x in nodes && EqText(Eq, StringValue(w.d, x), s);
      assert AttributeFound(w, n, name, x);
    }
    if HasAttribute(w, n, name, s) {
      var a :| AttributeFound(w, n, name, a) && w.d[a].value == s;
      assert a in nodes && EqText(Eq, StringValue(w.d, a), s);
    }
  }

  lemma {:induction false} MergeCompareKeepsMeaning(w: World, op: CmpOp, l: Expr, r: Expr, c: Context)
    requires WellFormed(w.d) && WellTyped(l) && WellTyped(r)
    ensures WellTyped(MergeCompare(op, l, r)) && TypeOf(MergeCompare(op, l, r)) == TBool
    ensures RefBool(w, MergeCompare(op, l, r), c) == CompareValues(w, op, Ref(w, l, c), Ref(w, r, c))
  {
    if MergeCompare(op, l, r) != Compare(op, l, r) {
      var name := l.test.name;
      assert Ref(w, l, c) == SetV(RefSet(w, l, c));
      assert RefSet(w, l, c) == StepSet(w, Sources(w, NoLeft, c), AttributeAxis, NameTest(name), NoPred);
      assert Ref(w, r, c) == StrV(RefText(w, r, c));
      CompareAttributeStep(w, name, RefText(w, r, c), c);
    }
  }

  // ---------------------------------------------------------------------
  // The optimiser as a whole.

  lemma {:induction false} OptimizeKeepsFilter(w: World, s: seq<int>, i: nat, e: Expr)
    requires WellFormed(w.d) && WellTyped(e) && WellTyped(StripPosition(Optimize(e))) && i <= |s|
    ensures FilterFrom(w, s, i, StripPosition(Optimize(e))) == FilterFrom(w, s, i, e)
    decreases e, 2, |s| - i
  {
    if i < |s| {
      var c := Context(s[i], i + 1, |s|);
      OptimizeKeepsMeaning(w, e, c);
      StripPositionKeepsHolds(w, Optimize(e), c);
      OptimizeKeepsFilter(w, s, i + 1, e);
    }
  }

  lemma {:induction false} OptimizeKeepsPreds(w: World, s: seq<int>, p: Preds)
    requires WellFormed(w.d) && WellTypedPreds(p) && WellTypedPreds(OptimizePreds(p))
    ensures ApplyPreds(w, s, OptimizePreds(p)) == ApplyPreds(w, s, p)
    decreases p, 0
  {
    match p
    case NoPred =>
    case Pred(e, _, next) =>
      OptimizeKeepsFilter(w, s, 0, e);
      OptimizeKeepsPreds(w, FilterFrom(w, s, 0, e), next);
  }

  lemma {:induction false} OptimizeKeepsStep(w: World, sources: set<int>, axis: Axis, test: NodeTest, p: Preds)
    requires WellFormed(w.d) && WellTypedPreds(p) && WellTypedPreds(OptimizePreds(p))
    ensures StepSet(w, sources, axis, test, OptimizePreds(p)) == StepSet(w, sources, axis, test, p)
    decreases p, 1
  {
    forall n | IsNode(w.d, n)
      ensures ApplyPreds(w, Found(w, axis, test, n), OptimizePreds(p)) == ApplyPreds(w, Found(w, axis, test, n), p)
    {
      OptimizeKeepsPreds(w, Found(w, axis, test, n), p);
    }
    SameStep(w, sources, axis, test, OptimizePreds(p), p);
  }

  // Predicates that filter every axis alike select alike.
  ghost predicate SameFilter(w: World, axis: Axis, test: NodeTest, p: Preds, q: Preds)
    requires Rooted(w.d) && WellTypedPreds(p) && WellTypedPreds(q)
  {
    forall n :: IsNode(w.d, n) ==> ApplyPreds(w, Found(w, axis, test, n), p) == ApplyPreds(w, Found(w, axis, test, n), q)
  }

  lemma {:induction false} SameInStep(w: World, sources: set<int>, axis: Axis, test: NodeTest, p: Preds, q: Preds, m: int)
    requires Rooted(w.d) && WellTypedPreds(p) && WellTypedPreds(q) && SameFilter(w, axis, test, p, q)
    requires InStep(w, sources, axis, test, p, m)
    ensures InStep(w, sources, axis, test, q, m)
  {
    var n :| n in sources && IsNode(w.d, n) && m in ApplyPreds(w, Found(w, axis, test, n), p);
    assert m in ApplyPreds(w, Found(w, axis, test, n), q);
  }

  lemma {:induction false} SameStep(w: World, sources: set<int>, axis: Axis, test: NodeTest, p: Preds, q: Preds)
    requires Rooted(w.d) && WellTypedPreds(p) && WellTypedPreds(q) && SameFilter(w, axis, test, p, q)
    ensures StepSet(w, sources, axis, test, p) == StepSet(w, sources, axis, test, q)
  {
    var a, b := StepSet(w, sources, axis, test, p), StepSet(w, sources, axis, test, q);
    forall m ensures m in a <==> m in b {
      SameMember(w, sources, axis, test, p, q, m);
      SameMember(w, sources, axis, test, q, p, m);
    }
    Collections.SameSet(a, b);
  }

  lemma {:induction false} SameMember(w: World, sources: set<int>, axis: Axis, test: NodeTest, p: Preds, q: Preds, m: int)
    requires Rooted(w.d) && WellTypedPreds(p) && WellTypedPreds(q) && SameFilter(w, axis, test, p, q)
    ensures m in StepSet(w, sources, axis, test, p) ==> m in StepSet(w, sources, axis, test, q)
  {
    StepMember(w, sources, axis, test, p, m);
    StepMember(w, sources, axis, test, q, m);
    if m in StepSet(w, sources, axis, test, p) { SameInStep(w, sources, axis, test, p, q, m); }
  }

  lemma StepMember(w: World, sources: set<int>, axis: Axis, test: NodeTest, p: Preds, m: int)
    requires Rooted(w.d) && WellTypedPreds(p)
    ensures m in StepSet(w, sources, axis, test, p) <==> IsNode(w.d, m) && InStep(w, sources, axis, test, p, m)
  {
  }

  lemma {:induction false} OptimizeKeepsArgs(w: World, a: Args, c: Context)
    requires WellFormed(w.d) && WellTypedArgs(a) && WellTypedArgs(OptimizeArgs(a))
    ensures RefArgs(w, OptimizeArgs(a), c) == RefArgs(w, a, c)
    decreases a
  {
    match a
    case NoArg =>
    case Arg(e, next) => OptimizeKeepsMeaning(w, e, c); OptimizeKeepsArgs(w, next, c);
  }

  lemma {:induction false} OptimizeKeepsSources(w: World, left: Left, c: Context)
    requires WellFormed(w.d) && WellTypedLeft(left) && WellTypedLeft(OptimizeLeft(left))
    ensures Sources(w, OptimizeLeft(left), c) == Sources(w, left, c)
    decreases left
  {
    if left.From? { OptimizeKeepsMeaning(w, left.e, c); }
  }

  /** The optimiser preserves meaning: for every expression, document and
      context, the optimised expression has the value of the original. */
  lemma {:induction false} OptimizeKeepsMeaning(w: World, e: Expr, c: Context)
    requires WellFormed(w.d) && WellTyped(e)
    ensures WellTyped(Optimize(e)) && Ref(w, Optimize(e), c) == Ref(w, e, c)
    decreases e, 1
  {
    OptimizeKeepsTypes(e);
    match TypeOf(e)
    case TBool => OptimizeKeepsBool(w, e, c);
    case TNum => OptimizeKeepsNum(w, e, c);
    case TStr => OptimizeKeepsText(w, e, c);
    case TSet => OptimizeKeepsSet(w, e, c);
  }

  lemma {:induction false} OptimizeKeepsBool(w: World, e: Expr, c: Context)
    requires WellFormed(w.d) && WellTyped(e) && TypeOf(e) == TBool && WellTyped(Optimize(e))
    ensures RefBool(w, Optimize(e), c) == RefBool(w, e, c)
    decreases e, 0
  {
    match e
    case Or(l, r) => OptimizeKeepsMeaning(w, l, c); OptimizeKeepsMeaning(w, r, c);
    case And(l, r) => OptimizeKeepsMeaning(w, l, c); OptimizeKeepsMeaning(w, r, c);
    case Not(x) => OptimizeKeepsMeaning(w, x, c);
    case Compare(op, l, r) =>
      OptimizeKeepsMeaning(w, l, c); OptimizeKeepsMeaning(w, r, c);
      MergeCompareKeepsMeaning(w, op, Optimize(l), Optimize(r), c);
    case ToBool(x) => OptimizeKeepsMeaning(w, x, c);
    case BoolCall(_, a) => OptimizeKeepsArgTypes(a); OptimizeKeepsArgs(w, a, c);
    case CompareAttribute(_, v) => OptimizeKeepsMeaning(w, v, c);
    case _ =>
  }

  lemma {:induction false} OptimizeKeepsNum(w: World, e: Expr, c: Context)
    requires WellFormed(w.d) && WellTyped(e) && TypeOf(e) == TNum && WellTyped(Optimize(e))
    ensures RefNum(w, Optimize(e), c) == RefNum(w, e, c)
    decreases e, 0
  {
    match e
    case Arith(_, l, r) => OptimizeKeepsMeaning(w, l, c); OptimizeKeepsMeaning(w, r, c);
    case Negate(x) => OptimizeKeepsMeaning(w, x, c);
    case Count(x) => OptimizeKeepsMeaning(w, x, c);
    case ToNum(x) => OptimizeKeepsMeaning(w, x, c);
    case NumCall(_, x) => OptimizeKeepsMeaning(w, x, c);
    case LenCall(_, a) => OptimizeKeepsArgTypes(a); OptimizeKeepsArgs(w, a, c);
    case _ =>
  }

  lemma {:induction false} OptimizeKeepsText(w: World, e: Expr, c: Context)
    requires WellFormed(w.d) && WellTyped(e) && TypeOf(e) == TStr && WellTyped(Optimize(e))
    ensures RefText(w, Optimize(e), c) == RefText(w, e, c)
    decreases e, 0
  {
    match e
    case ToStr(x) => OptimizeKeepsMeaning(w, x, c);
    case StrCall(_, a) => OptimizeKeepsArgTypes(a); OptimizeKeepsArgs(w, a, c);
    case NameOf(_, x) => OptimizeKeepsMeaning(w, x, c);
    case Translate(x, f, t) =>
      OptimizeKeepsMeaning(w, x, c); OptimizeKeepsMeaning(w, f, c); OptimizeKeepsMeaning(w, t, c);
      MergeTranslateKeepsMeaning(w, Optimize(x), Optimize(f), Optimize(t), c);
    case TranslateTable(x, _) => OptimizeKeepsMeaning(w, x, c);
    case _ =>
  }

  lemma {:induction false} MergeTranslateKeepsMeaning(w: World, x: Expr, f: Expr, t: Expr, c: Context)
    requires WellFormed(w.d) && WellTyped(x) && WellTyped(f) && WellTyped(t) && WellTyped(MergeTranslate(x, f, t))
    ensures RefText(w, MergeTranslate(x, f, t), c)
         == TranslateText(TextOf(w, Ref(w, x, c)), TextOf(w, Ref(w, f, c)), TextOf(w, Ref(w, t, c)))
  {
    if f.StringLit? && t.StringLit? && HasTable(f.text, t.text) {
      LiteralText(w, f, c);
      LiteralText(w, t, c);
      TableKeepsMeaning(w, x, f.text, t.text, c);
    } else {
      TranslateMeans(w, x, f, t, c);
    }
  }

  lemma {:induction false} TableKeepsMeaning(w: World, x: Expr, from: string, to: string, c: Context)
    requires Rooted(w.d) && WellTyped(x) && HasTable(from, to) && NulFree(from) && NulFree(to)
    requires WellTyped(TranslateTable(x, TableOf(from, to)))
    ensures RefText(w, TranslateTable(x, TableOf(from, to)), c) == TranslateText(TextOf(w, Ref(w, x, c)), from, to)
  {
    TableTranslates(TextOf(w, Ref(w, x, c)), from, to);
  }

  lemma {:induction false} TranslateMeans(w: World, x: Expr, f: Expr, t: Expr, c: Context)
    requires Rooted(w.d) && WellTyped(x) && WellTyped(f) && WellTyped(t) && WellTyped(Translate(x, f, t))
    ensures RefText(w, Translate(x, f, t), c)
         == TranslateText(TextOf(w, Ref(w, x, c)), TextOf(w, Ref(w, f, c)), TextOf(w, Ref(w, t, c)))
  {
  }

  lemma LiteralText(w: World, e: Expr, c: Context)
    requires Rooted(w.d) && WellTyped(e) && e.StringLit?
    ensures TextOf(w, Ref(w, e, c)) == e.text && NulFree(e.text)
  {
    assert Ref(w, e, c) == StrV(RefText(w, e, c));
  }

  lemma {:induction false} OptimizeKeepsSet(w: World, e: Expr, c: Context)
    requires WellFormed(w.d) && WellTyped(e) && TypeOf(e) == TSet && WellTyped(Optimize(e))
    ensures RefSet(w, Optimize(e), c) == RefSet(w, e, c)
    decreases e, 0
  {
    match e
    case Union(l, r) => OptimizeKeepsMeaning(w, l, c); OptimizeKeepsMeaning(w, r, c);
    case Step(left, axis, test, p) =>
      OptimizeKeepsLeftTypes(left);
      OptimizeKeepsPredTypes(p);
      OptimizeAnnotatesPreds(p);
      MergeStepKeepsMeaning(w, OptimizeLeft(left), axis, test, OptimizePreds(p), c);
      OptimizeKeepsSources(w, left, c);
      OptimizeKeepsStep(w, Sources(w, left, c), axis, test, p);
    case Filter(s, p, _) =>
      OptimizeKeepsMeaning(w, s, c);
      OptimizeKeepsTypes(p);
      StripPositionTypes(Optimize(p));
      OptimizeKeepsFilter(w, Ordered(w.d, NodesOf(Ref(w, s, c)), |w.d|), 0, p);
    case _ =>
  }
}
