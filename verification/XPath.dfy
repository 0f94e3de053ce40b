/** XPath expressions and what they mean.

    Expr is the syntax tree of pugixml.cpp (xpath_ast_node); Ref gives the value
    of an expression as XPath 1.0 defines it, but for the comparison of a boolean
    with a node-set (see CompareValues), with node-sets as mathematical
    sets and predicates by proximity position.  The annotations that the
    optimiser leaves on predicates play no part in Ref. */
module XPath {
  import opened Documents
  import opened Axes
  import Collections

  // Doubles, without signed zeros.
  datatype Num = NaN | PosInf | NegInf | Fin(r: real)

  datatype Value = BoolV(b: bool) | NumV(n: Num) | StrV(s: string) | SetV(nodes: set<int>)

  datatype Type = TBool | TNum | TStr | TSet

  datatype ArithOp = Add | Sub | Mul | Div | Mod

  datatype CmpOp = Eq | Ne | Lt | Le | Gt | Ge

  // The parts of the library that the evaluator only calls: conversions, double
  // arithmetic, string functions, node names, and where nodes sit in memory.
  datatype Lib = Lib(
    toNumber: string -> Num,
    toText: Num -> string,
    arith: (ArithOp, Num, Num) -> Num,
    negate: Num -> Num,
    numFn: (string, Num) -> Num,
    strFn: (string, seq<string>) -> string,
    lenFn: (string, seq<string>) -> Num,
    boolFn: (string, seq<string>) -> bool,
    nameFn: (string, Node) -> string,
    address: int -> int)

  // XML has no repeated attribute names, but the parser lets them pass.  firstOnly says
  // what attribute::name is to mean then: the first attribute of that name, which is
  // what the library selects, or all of them.
  datatype World = World(d: Doc, lib: Lib, firstOnly: bool)

  // n is the context node or NULL.
  datatype Context = Context(n: int, pos: nat, size: nat)

  datatype PredTest = DefaultTest | PosInvTest | ConstTest | ConstOneTest

  datatype Expr =
    | Or(l: Expr, r: Expr) | And(l: Expr, r: Expr) | Not(e: Expr) | BoolLit(lit: bool)
    | Compare(cmp: CmpOp, l: Expr, r: Expr)
    | Arith(op: ArithOp, l: Expr, r: Expr) | Negate(e: Expr)
    | StringLit(text: string) | NumberLit(num: Num) | Variable(value: Value)
    | Position | Last | Count(e: Expr)
    | ToBool(e: Expr) | ToNum(e: Expr) | ToStr(e: Expr) | ContextStr
    | NumCall(f: string, e: Expr)
    | StrCall(f: string, args: Args) | LenCall(f: string, args: Args) | BoolCall(f: string, args: Args)
    | NameOf(f: string, e: Expr) | ContextName(f: string)
    | Translate(e: Expr, from: Expr, to: Expr) | TranslateTable(e: Expr, table: seq<int>)
    | CompareAttribute(name: string, value': Expr)
    | Union(l: Expr, r: Expr) | Id(e: Expr) | StepRoot
    | Step(left: Left, axis: Axis, test: NodeTest, preds: Preds)
    | Filter(set': Expr, pred: Expr, ptest: PredTest)

  datatype Left = NoLeft | From(e: Expr)
  datatype Args = NoArg | Arg(e: Expr, next: Args)
  datatype Preds = NoPred | Pred(e: Expr, ptest: PredTest, next: Preds)

  function TypeOf(e: Expr): Type {
    match e
    case Or(_, _) => TBool
    case And(_, _) => TBool
    case Not(_) => TBool
    case BoolLit(_) => TBool
    case Compare(_, _, _) => TBool
    case BoolCall(_, _) => TBool
    case ToBool(_) => TBool
    case CompareAttribute(_, _) => TBool
    case Arith(_, _, _) => TNum
    case Negate(_) => TNum
    case NumberLit(_) => TNum
    case Position => TNum
    case Last => TNum
    case Count(_) => TNum
    case ToNum(_) => TNum
    case NumCall(_, _) => TNum
    case LenCall(_, _) => TNum
    case Variable(v) => (match v case BoolV(_) => TBool case NumV(_) => TNum case StrV(_) => TStr case SetV(_) => TSet)
    case Union(_, _) => TSet
    case Id(_) => TSet
    case StepRoot => TSet
    case Step(_, _, _, _) => TSet
    case Filter(_, _, _) => TSet
    case _ => TStr
  }

  predicate NulFree(s: string) {
    forall i :: 0 <= i < |s| ==> s[i] as int != 0
  }

  // What the parser guarantees: node-set operands where they are required, and
  // variables of the three scalar types.
  predicate WellTyped(e: Expr) {
    match e
    case Or(l, r) => WellTyped(l) && WellTyped(r)
    case And(l, r) => WellTyped(l) && WellTyped(r)
    case Not(x) => WellTyped(x)
    case Compare(_, l, r) => WellTyped(l) && WellTyped(r)
    case Arith(_, l, r) => WellTyped(l) && WellTyped(r)
    case Negate(x) => WellTyped(x)
    case StringLit(s) => NulFree(s)
    case Variable(v) => !v.SetV?
    case Count(x) => WellTyped(x) && TypeOf(x) == TSet
    case ToBool(x) => WellTyped(x)
    case ToNum(x) => WellTyped(x)
    case ToStr(x) => WellTyped(x)
    case NumCall(_, x) => WellTyped(x)
    case StrCall(_, a) => WellTypedArgs(a)
    case LenCall(_, a) => WellTypedArgs(a)
    case BoolCall(_, a) => WellTypedArgs(a)
    case NameOf(_, x) => WellTyped(x) && TypeOf(x) == TSet
    case Translate(x, f, t) => WellTyped(x) && WellTyped(f) && WellTyped(t)
    case TranslateTable(x, table) => WellTyped(x) && |table| == 128 && forall i :: 0 <= i < 128 ==> 0 <= table[i] <= 128
    case CompareAttribute(_, v) => WellTyped(v) && (v.StringLit? || (v.Variable? && v.value.StrV?))
    case Union(l, r) => WellTyped(l) && WellTyped(r) && TypeOf(l) == TSet && TypeOf(r) == TSet
    case Id(x) => WellTyped(x)
    case Step(left, _, _, preds) => (left.From? ==> WellTyped(left.e) && TypeOf(left.e) == TSet) && WellTypedPreds(preds)
    case Filter(s, p, _) => WellTyped(s) && TypeOf(s) == TSet && WellTyped(p)
    case _ => true
  }

  predicate WellTypedArgs(a: Args) {
    match a
    case NoArg => true
    case Arg(e, next) => WellTyped(e) && WellTypedArgs(next)
  }

  predicate WellTypedPreds(p: Preds) {
    match p
    case NoPred => true
    case Pred(e, _, next) => WellTyped(e) && WellTypedPreds(next)
  }

  // ---------------------------------------------------------------------
  // Numbers and conversions (XPath 1.0 section 4).

  predicate NumEq(a: Num, b: Num) {
    !a.NaN? && a == b
  }

  predicate NumLess(a: Num, b: Num) {
    match (a, b)
    case (Fin(x), Fin(y)) => x < y
    case (NegInf, Fin(_)) => true
    case (NegInf, PosInf) => true
    case (Fin(_), PosInf) => true
    case _ => false
  }

  predicate NumLessEq(a: Num, b: Num) {
    NumLess(a, b) || NumEq(a, b)
  }

  predicate NumTruth(n: Num) {
    !n.NaN? && n != Fin(0.0)
  }

  predicate NumCmp(op: CmpOp, a: Num, b: Num) {
    match op
    case Eq => NumEq(a, b)
    case Ne => !NumEq(a, b)
    case Lt => NumLess(a, b)
    case Le => NumLessEq(a, b)
    case Gt => NumLess(b, a)
    case Ge => NumLessEq(b, a)
  }

  // The text below a node: its text descendants in document order.
  function ConcatText(d: Doc, ns: seq<int>): string {
    if |ns| == 0 then ""
    else ConcatText(d, ns[..|ns| - 1]) + (if IsNode(d, ns[|ns| - 1]) then d[ns[|ns| - 1]].value else "")
  }

  ghost function StringValue(d: Doc, n: int): string
    requires Rooted(d)
  {
    if !IsNode(d, n) then ""
    else match d[n].kind
      case DocumentNode => ConcatText(d, Hits(d, DescendantAxis, TextNode, n))
      case Element => ConcatText(d, Hits(d, DescendantAxis, TextNode, n))
      case Declaration => ""
      case Doctype => ""
      case _ => d[n].value
  }

  ghost predicate IsMin(s: set<int>, m: int) {
    m in s && forall x :: x in s ==> m <= x
  }

  lemma MinOf(s: set<int>) returns (m: int)
    requires s != {}
    ensures IsMin(s, m)
    decreases |s|
  {
    m := Collections.Member(s);
    var rest := s - {m};
    if rest != {} {
      var k := MinOf(rest);
      assert forall x :: x in s ==> x == m || x in rest;
      if k < m { m := k; }
    } else {
      assert forall x :: x in s ==> x == m || x in rest;
    }
  }

  // The first node of a set in document order.
  ghost function Min(s: set<int>): (m: int)
    requires s != {}
    ensures IsMin(s, m)
  {
    assert exists m :: IsMin(s, m) by { var m := MinOf(s); }
    var m :| IsMin(s, m);
    m
  }

  ghost function FirstText(w: World, s: set<int>): string
    requires Rooted(w.d)
  {
    if s == {} then "" else StringValue(w.d, Min(s))
  }

  function TruthOf(v: Value): bool {
    match v
    case BoolV(b) => b
    case NumV(n) => NumTruth(n)
    case StrV(s) => s != ""
    case SetV(ns) => ns != {}
  }

  ghost function TextOf(w: World, v: Value): string
    requires Rooted(w.d)
  {
    match v
    case BoolV(b) => if b then "true" else "false"
    case NumV(n) => w.lib.toText(n)
    case StrV(s) => s
    case SetV(ns) => FirstText(w, ns)
  }

  ghost function NumberOf(w: World, v: Value): Num
    requires Rooted(w.d)
  {
    match v
    case BoolV(b) => if b then Fin(1.0) else Fin(0.0)
    case NumV(n) => n
    case StrV(s) => w.lib.toNumber(s)
    case SetV(ns) => w.lib.toNumber(FirstText(w, ns))
  }

  function NodesOf(v: Value): set<int> {
    if v.SetV? then v.nodes else {}
  }

  ghost function NodeNumber(w: World, n: int): Num
    requires Rooted(w.d)
  {
    w.lib.toNumber(StringValue(w.d, n))
  }

  predicate IsRelational(op: CmpOp) {
    op != Eq && op != Ne
  }

  predicate EqBool(op: CmpOp, a: bool, b: bool) {
    if op == Eq then a == b else a != b
  }

  predicate EqText(op: CmpOp, a: string, b: string) {
    if op == Eq then a == b else a != b
  }

  // Comparisons (XPath 1.0 section 3.4).  A node-set compares true if some node
  // in it does.  One deviation is the library's own: a relational operator
  // between a node-set and a boolean also looks for such a node, where the
  // standard converts the node-set to a boolean first.
  ghost predicate CompareValues(w: World, op: CmpOp, a: Value, b: Value)
    requires Rooted(w.d)
  {
    if IsRelational(op) then Relates(w, op, a, b) else Equates(w, op, a, b)
  }

  ghost predicate Relates(w: World, op: CmpOp, a: Value, b: Value)
    requires Rooted(w.d)
  {
    if a.SetV? && b.SetV? then
      exists x, y :: x in a.nodes && y in b.nodes && NumCmp(op, NodeNumber(w, x), NodeNumber(w, y))
    else if a.SetV? then exists x :: x in a.nodes && NumCmp(op, NodeNumber(w, x), NumberOf(w, b))
    else if b.SetV? then exists y :: y in b.nodes && NumCmp(op, NumberOf(w, a), NodeNumber(w, y))
    else NumCmp(op, NumberOf(w, a), NumberOf(w, b))
  }

  ghost predicate Equates(w: World, op: CmpOp, a: Value, b: Value)
    requires Rooted(w.d)
  {
    if a.SetV? && b.SetV? then
      exists x, y :: x in a.nodes && y in b.nodes && EqText(op, StringValue(w.d, x), StringValue(w.d, y))
    else if a.BoolV? || b.BoolV? then EqBool(op, TruthOf(a), TruthOf(b))
    else if a.SetV? then
      if b.NumV? then exists x :: x in a.nodes && NumCmp(op, NodeNumber(w, x), b.n)
      else exists x :: x in a.nodes && EqText(op, StringValue(w.d, x), b.s)
    else if b.SetV? then
      if a.NumV? then exists y :: y in b.nodes && NumCmp(op, a.n, NodeNumber(w, y))
      else exists y :: y in b.nodes && EqText(op, a.s, StringValue(w.d, y))
    else if a.NumV? || b.NumV? then NumCmp(op, NumberOf(w, a), NumberOf(w, b))
    else EqText(op, a.s, b.s)
  }

  // What the standard says of a boolean and a node-set, in this order: both become
  // numbers, the node-set by way of a boolean.
  ghost predicate StandardCompare(w: World, op: CmpOp, b: bool, s: set<int>)
    requires Rooted(w.d)
  {
    CompareValues(w, op, BoolV(b), BoolV(s != {}))
  }

  // Some node of the set has a number greater, or less, than r (or equal to it).
  ghost predicate SomeAbove(w: World, s: set<int>, r: real, orEqual: bool)
    requires Rooted(w.d)
  {
    exists n :: n in s && (NumLess(Fin(r), NodeNumber(w, n)) || (orEqual && NodeNumber(w, n) == Fin(r)))
  }

  ghost predicate SomeBelow(w: World, s: set<int>, r: real, orEqual: bool)
    requires Rooted(w.d)
  {
    exists n :: n in s && (NumLess(NodeNumber(w, n), Fin(r)) || (orEqual && NodeNumber(w, n) == Fin(r)))
  }

  // When the library and the standard agree on a boolean and a node-set.
  ghost predicate Agrees(w: World, op: CmpOp, b: bool, s: set<int>)
    requires Rooted(w.d) && IsRelational(op)
  {
    if s == {} then op == Lt || (op == Le && b) || (op == Gt && !b)
    else match op
      case Lt => if b then !SomeAbove(w, s, 1.0, false) else SomeAbove(w, s, 0.0, false)
      case Le => SomeAbove(w, s, if b then 1.0 else 0.0, true)
      case Gt => !SomeBelow(w, s, if b then 1.0 else 0.0, false)
      case _ => if b then SomeBelow(w, s, 1.0, true) else !SomeBelow(w, s, 0.0, true)
  }

  // The operator with its operands exchanged.
  function Mirror(op: CmpOp): CmpOp {
    match op
    case Lt => Gt
    case Le => Ge
    case Gt => Lt
    case Ge => Le
    case _ => op
  }

  lemma {:induction false} MirrorSwaps(w: World, op: CmpOp, a: Value, b: Value)
    requires Rooted(w.d) && IsRelational(op)
    ensures CompareValues(w, op, a, b) == CompareValues(w, Mirror(op), b, a)
  {
    forall x, y ensures NumCmp(op, x, y) == NumCmp(Mirror(op), y, x) { }
  }

  /** A relational operator between a boolean and a node-set, in either order, gives what
      the standard says if and only if Agrees holds; it looks at the numbers of the nodes. */
  lemma {:induction false} SetAgainstBoolean(w: World, op: CmpOp, b: bool, s: set<int>)
    requires Rooted(w.d) && IsRelational(op)
    ensures CompareValues(w, op, BoolV(b), SetV(s)) == StandardCompare(w, op, b, s) <==> Agrees(w, op, b, s)
    ensures CompareValues(w, op, SetV(s), BoolV(b)) == CompareValues(w, op, BoolV(s != {}), BoolV(b)) <==> Agrees(w, Mirror(op), b, s)
  {
    LibrarySays(w, op, b, s);
    LibrarySays(w, Mirror(op), b, s);
    StandardSays(w, op, b, s);
    StandardSays(w, Mirror(op), b, s);
    MirrorSwaps(w, op, SetV(s), BoolV(b));
    MirrorSwaps(w, op, BoolV(s != {}), BoolV(b));
  }

  lemma LibrarySays(w: World, op: CmpOp, b: bool, s: set<int>)
    requires Rooted(w.d) && IsRelational(op)
    ensures var r := if b then 1.0 else 0.0;
            CompareValues(w, op, BoolV(b), SetV(s)) <==>
              match op
              case Lt => SomeAbove(w, s, r, false)
              case Le => SomeAbove(w, s, r, true)
              case Gt => SomeBelow(w, s, r, false)
              case _ => SomeBelow(w, s, r, true)
  {
  }

  lemma StandardSays(w: World, op: CmpOp, b: bool, s: set<int>)
    requires Rooted(w.d) && IsRelational(op)
    ensures StandardCompare(w, op, b, s) <==>
              match op
              case Lt => !b && s != {}
              case Le => b ==> s != {}
              case Gt => b && s == {}
              case _ => s != {} ==> b
  {
  }

  // A document with the text 5.
  const FIVE: Doc := [
    Node(DocumentNode, "", "", NULL, 1, NULL, 0, NULL, NULL),
    Node(PCData, "", "5", 0, NULL, NULL, 1, NULL, NULL)]

  /** true() < {5} and {5} > true() hold in the library, and not by the standard; so with
      the empty set, which is never greater or less than anything. */
  lemma {:induction false} FiveAboveTrue(w: World)
    requires w.d == FIVE && w.lib.toNumber("5") == Fin(5.0)
    ensures Rooted(w.d) && CompareValues(w, Lt, BoolV(true), SetV({1})) && !StandardCompare(w, Lt, true, {1})
    ensures CompareValues(w, Gt, SetV({1}), BoolV(true)) && !CompareValues(w, Gt, BoolV(true), BoolV(true))
    ensures !CompareValues(w, Gt, BoolV(true), SetV({})) && StandardCompare(w, Gt, true, {})
  {
    assert StringValue(w.d, 1) == "5" && NodeNumber(w, 1) == Fin(5.0);
    assert 1 in {1} && NumLess(Fin(1.0), NodeNumber(w, 1));
  }

  // ---------------------------------------------------------------------
  // translate (XPath 1.0 section 4.2).

  function IndexOf(s: string, c: char): (i: int)
    ensures -1 <= i < |s|
    ensures i == -1 ==> c !in s
    ensures 0 <= i ==> s[i] == c && c !in s[..i]
  {
    if |s| == 0 then -1
    else if s[0] == c then 0
    else
      var i := IndexOf(s[1..], c);
      if i == -1 then -1 else assert s[..i + 1] == [s[0]] + s[1..][..i]; i + 1
  }

  function TranslateChar(c: char, from: string, to: string): string {
    var i := IndexOf(from, c);
    if i == -1 then [c] else if i < |to| then [to[i]] else []
  }

  function TranslateText(s: string, from: string, to: string): string {
    if |s| == 0 then "" else TranslateText(s[..|s| - 1], from, to) + TranslateChar(s[|s| - 1], from, to)
  }

  // A table entry is the replacement; 128 drops the character.
  function TableChar(c: char, table: seq<int>): string
    requires |table| == 128 && forall i :: 0 <= i < 128 ==> 0 <= table[i] <= 128
  {
    if c as int < 128 then (if table[c as int] == 128 then [] else [table[c as int] as char]) else [c]
  }

  function TableText(s: string, table: seq<int>): string
    requires |table| == 128 && forall i :: 0 <= i < 128 ==> 0 <= table[i] <= 128
  {
    if |s| == 0 then "" else TableText(s[..|s| - 1], table) + TableChar(s[|s| - 1], table)
  }

  // ---------------------------------------------------------------------
  // The reference semantics.

  ghost function Ref(w: World, e: Expr, c: Context): Value
    requires Rooted(w.d) && WellTyped(e)
    decreases e, 1
  {
    match TypeOf(e)
    case TBool => BoolV(RefBool(w, e, c))
    case TNum => NumV(RefNum(w, e, c))
    case TStr => StrV(RefText(w, e, c))
    case TSet => SetV(RefSet(w, e, c))
  }

  ghost function RefBool(w: World, e: Expr, c: Context): bool
    requires Rooted(w.d) && WellTyped(e)
    decreases e, 0
  {
    match e
    case Or(l, r) => TruthOf(Ref(w, l, c)) || TruthOf(Ref(w, r, c))
    case And(l, r) => TruthOf(Ref(w, l, c)) && TruthOf(Ref(w, r, c))
    case Not(x) => !TruthOf(Ref(w, x, c))
    case BoolLit(b) => b
    case Compare(op, l, r) => CompareValues(w, op, Ref(w, l, c), Ref(w, r, c))
    case ToBool(x) => TruthOf(Ref(w, x, c))
    case BoolCall(f, a) => w.lib.boolFn(f, RefArgs(w, a, c))
    case CompareAttribute(name, v) => HasAttribute(w, c.n, name, TextOf(w, Ref(w, v, c)))
    case Variable(v) => TruthOf(v)
    case _ => false
  }

  ghost function RefNum(w: World, e: Expr, c: Context): Num
    requires Rooted(w.d) && WellTyped(e)
    decreases e, 0
  {
    match e
    case Arith(op, l, r) => w.lib.arith(op, NumberOf(w, Ref(w, l, c)), NumberOf(w, Ref(w, r, c)))
    case Negate(x) => w.lib.negate(NumberOf(w, Ref(w, x, c)))
    case NumberLit(n) => n
    case Position => Fin(c.pos as real)
    case Last => Fin(c.size as real)
    case Count(x) => Fin(|NodesOf(Ref(w, x, c))| as real)
    case ToNum(x) => NumberOf(w, Ref(w, x, c))
    case NumCall(f, x) => w.lib.numFn(f, NumberOf(w, Ref(w, x, c)))
    case LenCall(f, a) => w.lib.lenFn(f, RefArgs(w, a, c))
    case Variable(v) => NumberOf(w, v)
    case _ => NaN
  }

  ghost function RefText(w: World, e: Expr, c: Context): string
    requires Rooted(w.d) && WellTyped(e)
    decreases e, 0
  {
    match e
    case StringLit(s) => s
    case Variable(v) => TextOf(w, v)
    case ToStr(x) => TextOf(w, Ref(w, x, c))
    case ContextStr => StringValue(w.d, c.n)
    case StrCall(f, a) => w.lib.strFn(f, RefArgs(w, a, c))
    case NameOf(f, x) => FirstName(w, f, NodesOf(Ref(w, x, c)))
    case ContextName(f) => NodeName(w, f, c.n)
    case Translate(x, f, t) => TranslateText(TextOf(w, Ref(w, x, c)), TextOf(w, Ref(w, f, c)), TextOf(w, Ref(w, t, c)))
    case TranslateTable(x, table) => TableText(TextOf(w, Ref(w, x, c)), table)
    case _ => ""
  }

  ghost function RefSet(w: World, e: Expr, c: Context): set<int>
    requires Rooted(w.d) && WellTyped(e)
    decreases e, 0
  {
    match e
    case Union(l, r) => NodesOf(Ref(w, l, c)) + NodesOf(Ref(w, r, c))
    case StepRoot => if IsNode(w.d, c.n) then {0} else {}
    case Step(left, axis, test, preds) => StepSet(w, Sources(w, left, c), axis, test, preds)
    case Filter(s, p, _) => FilterSet(w, NodesOf(Ref(w, s, c)), p)
    case _ => {}
  }

  function NodeName(w: World, f: string, n: int): string {
    if IsNode(w.d, n) then w.lib.nameFn(f, w.d[n]) else ""
  }

  ghost function FirstName(w: World, f: string, s: set<int>): string {
    if s == {} then "" else NodeName(w, f, Min(s))
  }

  // A filter expression takes the nodes of its set in document order.
  ghost function FilterSet(w: World, s: set<int>, p: Expr): set<int>
    requires Rooted(w.d) && WellTyped(p)
    decreases p, 4
  {
    set m | 0 <= m < |w.d| && m in FilterFrom(w, Ordered(w.d, s, |w.d|), 0, p)
  }

  // The nodes a step starts from: those of the expression on its left, or the context node.
  ghost function Sources(w: World, left: Left, c: Context): set<int>
    requires Rooted(w.d) && (left.From? ==> WellTyped(left.e))
    decreases left, 2
  {
    if left.NoLeft? then (if IsNode(w.d, c.n) then {c.n} else {})
    else NodesOf(Ref(w, left.e, c))
  }

  ghost function RefArgs(w: World, a: Args, c: Context): seq<string>
    requires Rooted(w.d) && WellTypedArgs(a)
    decreases a, 0
  {
    match a
    case NoArg => []
    case Arg(e, next) => [TextOf(w, Ref(w, e, c))] + RefArgs(w, next, c)
  }

  // The attribute a of n is found by its name.
  ghost predicate AttributeFound(w: World, n: int, name: string, a: int) {
    && IsAttrOf(w.d, n, a) && w.d[a].name == name
    && (w.firstOnly ==> forall k :: IsAttrOf(w.d, n, k) && w.d[k].name == name ==> a <= k)
  }

  ghost predicate HasAttribute(w: World, n: int, name: string, value: string) {
    IsXPathAttribute(name) && exists a :: AttributeFound(w, n, name, a) && w.d[a].value == value
  }

  predicate ByName(axis: Axis, test: NodeTest) {
    axis.AttributeAxis? && test.NameTest?
  }

  // What a step finds on the axis of a node.
  ghost function Found(w: World, axis: Axis, test: NodeTest, n: int): seq<int>
    requires Rooted(w.d) && IsNode(w.d, n)
  {
    Trim(w.firstOnly && ByName(axis, test), Hits(w.d, axis, test, n))
  }

  ghost predicate Chosen(w: World, axis: Axis, test: NodeTest, n: int, m: int)
    requires Rooted(w.d) && IsNode(w.d, n) && IsNode(w.d, m)
  {
    && Selected(w.d, axis, test, n, m)
    && (w.firstOnly && ByName(axis, test) ==> forall k :: IsNode(w.d, k) && Selected(w.d, axis, test, n, k) ==> m <= k)
  }

  lemma {:induction false} FoundIsChosen(w: World, axis: Axis, test: NodeTest, n: int)
    requires Rooted(w.d) && IsNode(w.d, n)
    ensures forall m :: m in Found(w, axis, test, n) <==> IsNode(w.d, m) && Chosen(w, axis, test, n, m)
    ensures if IsReverse(axis) then Descending(Found(w, axis, test, n)) else Ascending(Found(w, axis, test, n))
  {
    HitsAreTheAxis(w.d, axis, test, n);
    var h := Hits(w.d, axis, test, n);
    if w.firstOnly && ByName(axis, test) && h != [] { LeastFirst(h); }
  }

  lemma LeastFirst(h: seq<int>)
    requires Ascending(h) && h != []
    ensures forall m :: m in h[..1] <==> m in h && forall k :: k in h ==> m <= k
  {
    assert h[0] in h;
  }

  // A location step (XPath 1.0 section 2.1): the union over the source nodes of
  // the axis, filtered by each predicate in turn along the axis.
  ghost function StepSet(w: World, sources: set<int>, axis: Axis, test: NodeTest, preds: Preds): set<int>
    requires Rooted(w.d) && WellTypedPreds(preds)
    decreases preds, 2
  {
    set m | 0 <= m < |w.d| && InStep(w, sources, axis, test, preds, m)
  }

  ghost predicate InStep(w: World, sources: set<int>, axis: Axis, test: NodeTest, preds: Preds, m: int)
    requires Rooted(w.d) && WellTypedPreds(preds)
    decreases preds, 1
  {
    exists n :: n in sources && IsNode(w.d, n) && m in ApplyPreds(w, Found(w, axis, test, n), preds)
  }

  ghost function ApplyPreds(w: World, s: seq<int>, preds: Preds): seq<int>
    requires Rooted(w.d) && WellTypedPreds(preds)
    decreases preds, 0
  {
    match preds
    case NoPred => s
    case Pred(e, _, next) => ApplyPreds(w, FilterFrom(w, s, 0, e), next)
  }

  // The nodes of s from index i on that satisfy the predicate at their proximity position.
  ghost function FilterFrom(w: World, s: seq<int>, i: nat, e: Expr): seq<int>
    requires Rooted(w.d) && WellTyped(e) && i <= |s|
    decreases e, 3, |s| - i
  {
    if i == |s| then []
    else (if Holds(w, e, Context(s[i], i + 1, |s|)) then [s[i]] else []) + FilterFrom(w, s, i + 1, e)
  }

  // A numeric predicate tests the position, any other its truth (XPath 1.0 section 2.4).
  ghost predicate Holds(w: World, e: Expr, c: Context)
    requires Rooted(w.d) && WellTyped(e)
    decreases e, 2
  {
    match Ref(w, e, c)
    case NumV(n) => NumEq(n, Fin(c.pos as real))
    case v => TruthOf(v)
  }

  // The members of a set below hi, in document order.
  ghost function Ordered(d: Doc, s: set<int>, hi: nat): seq<int> {
    if hi == 0 then [] else Ordered(d, s, hi - 1) + (if hi - 1 in s then [hi - 1] else [])
  }
}
