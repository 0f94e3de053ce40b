/** Laws of XPath 1.0 that the reference semantics of XPath.dfy obeys, stated by axis
    membership (Axes.Selected), counting and string-values alone. */
module XPathLaws {
  import opened Documents
  import opened Axes
  import opened XPath
  import opened NodeSets
  import opened XPathPredicates
  import opened XPathEval
  import opened XPathQueries
  import Collections

  // ---------------------------------------------------------------------
  // Proximity position (section 2.4) by counting.

  ghost function InFront(s: set<int>, reverse: bool, m: int): set<int> {
    set x | x in s && if reverse then m < x else x < m
  }

  ghost predicate PickedAt(w: World, s: set<int>, reverse: bool, e: Expr, m: int)
    requires Rooted(w.d) && WellTyped(e)
  {
    m in s && Holds(w, e, Context(m, |InFront(s, reverse, m)| + 1, |s|))
  }

  // The members of s for which the predicate holds, each at its place in s.
  ghost function Pick(w: World, s: set<int>, reverse: bool, e: Expr): set<int>
    requires Rooted(w.d) && WellTyped(e)
  {
    set m | m in s && PickedAt(w, s, reverse, e, m)
  }

  // One predicate after the other; each counts what the one before has left.
  ghost function PickAll(w: World, s: set<int>, reverse: bool, p: Preds): set<int>
    requires Rooted(w.d) && WellTypedPreds(p)
    decreases p
  {
    match p
    case NoPred => s
    case Pred(e, _, next) => PickAll(w, Pick(w, s, reverse, e), reverse, next)
  }

  ghost predicate Lists(l: seq<int>, reverse: bool, s: set<int>) {
    (if reverse then Descending(l) else Ascending(l)) && forall m :: m in l <==> m in s
  }

  lemma {:induction false} Counted(l: seq<int>, reverse: bool, s: set<int>, j: nat)
    requires Lists(l, reverse, s) && j <= |l|
    ensures |Collections.Members(l[..j])| == j
    ensures j < |l| ==> InFront(s, reverse, l[j]) == Collections.Members(l[..j])
    decreases j
  {
    if j != 0 {
      Counted(l, reverse, s, j - 1);
      assert l[..j] == l[..j - 1] + [l[j - 1]];
      Collections.MembersAre(l[..j], Collections.Members(l[..j - 1]) + {l[j - 1]});
    }
    if j < |l| {
      forall x ensures x in InFront(s, reverse, l[j]) <==> x in l[..j] { PlaceInList(l, reverse, s, j, x); }
      Collections.MembersAre(l[..j], InFront(s, reverse, l[j]));
    }
  }

  lemma {:induction false} PlaceInList(l: seq<int>, reverse: bool, s: set<int>, j: nat, x: int)
    requires Lists(l, reverse, s) && j < |l|
    ensures x in InFront(s, reverse, l[j]) <==> x in l[..j]
  {
    if x in s {
      assert x in l;
      var k :| 0 <= k < |l| && l[k] == x;
      if k < j { assert l[..j][k] == x; }
    }
    if x in l[..j] { assert x in l; }
  }

  // Filtering a list is picking from a set.
  lemma {:induction false} FilterPicks(w: World, l: seq<int>, reverse: bool, s: set<int>, e: Expr)
    requires Rooted(w.d) && WellTyped(e) && Lists(l, reverse, s)
    ensures Lists(FilterFrom(w, l, 0, e), reverse, Pick(w, s, reverse, e))
  {
    var f := FilterFrom(w, l, 0, e);
    FilterOrder(w, l, 0, e, if reverse then SortedReverse else Sorted);
    forall m ensures m in f <==> m in Pick(w, s, reverse, e) {
      FilterMember(w, l, 0, e, m);
      if m in s { PickedInList(w, l, reverse, s, e, m); }
    }
  }

  // m stands at j in the list and the predicate holds there.
  ghost predicate HoldsAt(w: World, l: seq<int>, e: Expr, m: int, j: nat)
    requires Rooted(w.d) && WellTyped(e)
  {
    j < |l| && l[j] == m && Holds(w, e, Context(m, j + 1, |l|))
  }

  lemma {:induction false} FilterMember(w: World, l: seq<int>, i: nat, e: Expr, m: int)
    requires Rooted(w.d) && WellTyped(e) && i <= |l|
    ensures m in FilterFrom(w, l, i, e) <==> exists j :: i <= j && HoldsAt(w, l, e, m, j)
    decreases |l| - i
  {
    if i < |l| {
      FilterMember(w, l, i + 1, e, m);
      assert HoldsAt(w, l, e, m, i) <==> l[i] == m && Holds(w, e, Context(l[i], i + 1, |l|));
    }
  }

  lemma {:induction false} PickedInList(w: World, l: seq<int>, reverse: bool, s: set<int>, e: Expr, m: int)
    requires Rooted(w.d) && WellTyped(e) && Lists(l, reverse, s) && m in s
    ensures PickedAt(w, s, reverse, e, m) <==> exists j :: HoldsAt(w, l, e, m, j)
  {
    assert m in l;
    var k :| 0 <= k < |l| && l[k] == m;
    PlaceCounted(l, reverse, s, k);
    forall j: nat | HoldsAt(w, l, e, m, j) ensures j == k { }
    assert PickedAt(w, s, reverse, e, m) <==> HoldsAt(w, l, e, m, k);
  }

  lemma {:induction false} PlaceCounted(l: seq<int>, reverse: bool, s: set<int>, k: nat)
    requires Lists(l, reverse, s) && k < |l|
    ensures |InFront(s, reverse, l[k])| == k && |s| == |l|
  {
    Counted(l, reverse, s, k);
    Counted(l, reverse, s, |l|);
    assert l[..|l|] == l;
    forall x ensures x in l <==> x in s { }
    Collections.MembersAre(l, s);
  }

  lemma {:induction false} ApplyPicks(w: World, l: seq<int>, reverse: bool, s: set<int>, p: Preds)
    requires Rooted(w.d) && WellTypedPreds(p) && Lists(l, reverse, s)
    ensures Lists(ApplyPreds(w, l, p), reverse, PickAll(w, s, reverse, p))
    decreases p
  {
    if p.Pred? {
      FilterPicks(w, l, reverse, s, p.e);
      ApplyPicks(w, FilterFrom(w, l, 0, p.e), reverse, Pick(w, s, reverse, p.e), p.next);
    }
  }

  // What a step without predicates selects from n.  Of the attributes of one name the
  // library takes the first.
  ghost predicate Candidate(w: World, axis: Axis, test: NodeTest, n: int, m: int)
    requires Rooted(w.d) && IsNode(w.d, n)
  {
    && IsNode(w.d, m) && Selected(w.d, axis, test, n, m)
    && (w.firstOnly && ByName(axis, test) ==> forall k :: IsNode(w.d, k) && Selected(w.d, axis, test, n, k) ==> m <= k)
  }

  ghost function Candidates(w: World, axis: Axis, test: NodeTest, n: int): set<int>
    requires Rooted(w.d) && IsNode(w.d, n)
  {
    set m | 0 <= m < |w.d| && Candidate(w, axis, test, n, m)
  }

  // m is picked from what n leads to.
  ghost predicate PickedFrom(w: World, axis: Axis, test: NodeTest, p: Preds, n: int, m: int)
    requires Rooted(w.d) && WellTypedPreds(p)
  {
    IsNode(w.d, n) && m in PickAll(w, Candidates(w, axis, test, n), IsReverse(axis), p)
  }

  /** A location step, by sets and counting alone: from each node on the left the nodes of
      the axis, and of these what each predicate in turn picks by its place among the rest. */
  lemma {:induction false} StepPicks(w: World, sources: set<int>, axis: Axis, test: NodeTest, p: Preds, m: int)
    requires Rooted(w.d) && WellTypedPreds(p)
    ensures m in StepSet(w, sources, axis, test, p) <==> exists n :: n in sources && PickedFrom(w, axis, test, p, n, m)
  {
    if m in StepSet(w, sources, axis, test, p) {
      assert InStep(w, sources, axis, test, p, m);
      var n := InStepPicked(w, sources, axis, test, p, m);
    }
    if n :| n in sources && PickedFrom(w, axis, test, p, n, m) { PickedInStep(w, sources, axis, test, p, n, m); }
  }

  lemma {:induction false} InStepPicked(w: World, sources: set<int>, axis: Axis, test: NodeTest, p: Preds, m: int) returns (n: int)
    requires Rooted(w.d) && WellTypedPreds(p) && InStep(w, sources, axis, test, p, m)
    ensures n in sources && PickedFrom(w, axis, test, p, n, m)
  {
    n :| n in sources && IsNode(w.d, n) && m in ApplyPreds(w, Found(w, axis, test, n), p);
    OneSourcePicks(w, axis, test, n, p, m);
  }

  lemma {:induction false} PickedInStep(w: World, sources: set<int>, axis: Axis, test: NodeTest, p: Preds, n: int, m: int)
    requires Rooted(w.d) && WellTypedPreds(p) && n in sources && PickedFrom(w, axis, test, p, n, m)
    ensures IsNode(w.d, m) && m in StepSet(w, sources, axis, test, p)
  {
    OneSourcePicks(w, axis, test, n, p, m);
    assert InStep(w, sources, axis, test, p, m);
  }

  lemma {:induction false} OneSourcePicks(w: World, axis: Axis, test: NodeTest, n: int, p: Preds, m: int)
    requires Rooted(w.d) && WellTypedPreds(p) && IsNode(w.d, n)
    ensures m in ApplyPreds(w, Found(w, axis, test, n), p) <==> m in PickAll(w, Candidates(w, axis, test, n), IsReverse(axis), p)
    ensures m in ApplyPreds(w, Found(w, axis, test, n), p) ==> IsNode(w.d, m)
  {
    var l, s := Found(w, axis, test, n), Candidates(w, axis, test, n);
    FoundIsChosen(w, axis, test, n);
    assert Lists(l, IsReverse(axis), s);
    ApplyPicks(w, l, IsReverse(axis), s, p);
    ApplyMembers(w, l, p);
  }

  // ---------------------------------------------------------------------
  // last() and position().

  ghost predicate Extreme(s: set<int>, reverse: bool, m: int) {
    m in s && forall x :: x in s ==> if reverse then m <= x else x <= m
  }

  // The last of a set in axis order has all the others in front.
  lemma {:induction false} AllInFront(s: set<int>, reverse: bool, m: int)
    requires m in s
    ensures |InFront(s, reverse, m)| < |s|
    ensures |InFront(s, reverse, m)| + 1 == |s| <==> Extreme(s, reverse, m)
  {
    var f := InFront(s, reverse, m);
    Collections.SubsetCardinality(f + {m}, s);
    if |f| + 1 == |s| {
      forall x | x in s ensures if reverse then m <= x else x <= m { if x !in f + {m} { Collections.SubsetCardinality(f + {m}, s - {x}); } }
    }
    if Extreme(s, reverse, m) { Collections.SameSet(f + {m}, s); }
  }

  /** [last()] picks the last in axis order, of every set. */
  lemma {:induction false} LastPicksLast(w: World, s: set<int>, reverse: bool, m: int)
    requires Rooted(w.d)
    ensures m in Pick(w, s, reverse, Last) <==> Extreme(s, reverse, m)
  {
    if m in s {
      AllInFront(s, reverse, m);
      var c := Context(m, |InFront(s, reverse, m)| + 1, |s|);
      assert Ref(w, Last, c) == NumV(RefNum(w, Last, c));
    }
  }

  ghost function AxisSet(d: Doc, axis: Axis, test: NodeTest, n: int): set<int>
    requires Rooted(d) && IsNode(d, n)
  {
    set m | 0 <= m < |d| && Selected(d, axis, test, n, m)
  }

  // The node of the axis behind which no other is selected.
  ghost predicate LastSelected(d: Doc, axis: Axis, test: NodeTest, n: int, m: int)
    requires Rooted(d) && IsNode(d, n)
  {
    && IsNode(d, m) && Selected(d, axis, test, n, m)
    && forall x :: IsNode(d, x) && Selected(d, axis, test, n, x) ==> if IsReverse(axis) then m <= x else x <= m
  }

  const LAST_ONLY: Preds := Pred(Last, DefaultTest, NoPred)

  ghost predicate FirstSelected(d: Doc, axis: Axis, test: NodeTest, n: int, m: int)
    requires Rooted(d) && IsNode(d, n)
  {
    && IsNode(d, m) && Selected(d, axis, test, n, m)
    && forall x :: IsNode(d, x) && Selected(d, axis, test, n, x) ==> m <= x
  }

  // Of attributes with one name there is only the first to be the last.
  ghost predicate LastHit(w: World, axis: Axis, test: NodeTest, n: int, m: int)
    requires Rooted(w.d)
  {
    && IsNode(w.d, n)
    && if w.firstOnly && ByName(axis, test) then FirstSelected(w.d, axis, test, n, m) else LastSelected(w.d, axis, test, n, m)
  }

  /** axis::test[last()] from any nodes: of each, the last node of its axis. */
  lemma {:induction false} LastOfEach(w: World, sources: set<int>, axis: Axis, test: NodeTest, m: int)
    requires Rooted(w.d)
    ensures m in StepSet(w, sources, axis, test, LAST_ONLY) <==> exists n :: n in sources && LastHit(w, axis, test, n, m)
  {
    StepPicks(w, sources, axis, test, LAST_ONLY, m);
    forall n | IsNode(w.d, n) ensures PickedFrom(w, axis, test, LAST_ONLY, n, m) <==> LastHit(w, axis, test, n, m) {
      LastFrom(w, axis, test, n, m);
    }
  }

  lemma {:induction false} LastFrom(w: World, axis: Axis, test: NodeTest, n: int, m: int)
    requires Rooted(w.d) && IsNode(w.d, n)
    ensures PickedFrom(w, axis, test, LAST_ONLY, n, m) <==> LastHit(w, axis, test, n, m)
  {
    var s := Candidates(w, axis, test, n);
    OnlyOne(w, s, IsReverse(axis), Last);
    LastPicksLast(w, s, IsReverse(axis), m);
    ExtremeIsLast(w, axis, test, n, s, m);
  }

  lemma {:induction false} OnlyOne(w: World, s: set<int>, reverse: bool, e: Expr)
    requires Rooted(w.d) && WellTyped(e)
    ensures PickAll(w, s, reverse, Pred(e, DefaultTest, NoPred)) == Pick(w, s, reverse, e)
  {
    assert PickAll(w, Pick(w, s, reverse, e), reverse, NoPred) == Pick(w, s, reverse, e);
  }

  lemma {:induction false} ExtremeIsLast(w: World, axis: Axis, test: NodeTest, n: int, s: set<int>, m: int)
    requires Rooted(w.d) && IsNode(w.d, n) && s == Candidates(w, axis, test, n)
    ensures Extreme(s, IsReverse(axis), m) <==> LastHit(w, axis, test, n, m)
  {
    if w.firstOnly && ByName(axis, test) {
      forall x ensures x in s <==> FirstSelected(w.d, axis, test, n, x) { }
    } else {
      forall x ensures x in s <==> IsNode(w.d, x) && Selected(w.d, axis, test, n, x) { }
    }
  }

  /** The same through compiling, optimising and evaluating the query at one node. */
  method SelectLast(w: World, n: int, axis: Axis, test: NodeTest) returns (items: seq<int>)
    requires Ready(w) && IsNode(w.d, n)
    ensures |items| <= 1 && forall m :: m in items <==> LastHit(w, axis, test, n, m)
  {
    var e := Step(NoLeft, axis, test, LAST_ONLY);
    var query := new XPathQuery(e);
    var r := query.EvaluateNodeSet(w, n);
    items := r.value.items;
    LastMeant(w, n, axis, test, e);
    forall x, y | x in items && y in items ensures x == y { OneLast(w, axis, test, n, x, y); }
    AtMostOne(items, r.value.type');
  }

  lemma {:induction false} LastMeant(w: World, n: int, axis: Axis, test: NodeTest, e: Expr)
    requires Rooted(w.d) && IsNode(w.d, n) && e == Step(NoLeft, axis, test, LAST_ONLY)
    ensures forall m :: m in NodesOf(Ref(w, e, Context(n, 1, 1))) <==> LastHit(w, axis, test, n, m)
  {
    var c := Context(n, 1, 1);
    assert Ref(w, e, c) == SetV(RefSet(w, e, c)) && Sources(w, NoLeft, c) == {n};
    forall m ensures m in NodesOf(Ref(w, e, c)) <==> LastHit(w, axis, test, n, m) { LastOfEach(w, {n}, axis, test, m); }
  }

  lemma OneLast(w: World, axis: Axis, test: NodeTest, n: int, x: int, y: int)
    requires Rooted(w.d) && LastHit(w, axis, test, n, x) && LastHit(w, axis, test, n, y)
    ensures x == y
  {
  }

  lemma {:induction false} AtMostOne(items: seq<int>, t: SetType)
    requires OrderedAs(items, t) && forall x, y :: x in items && y in items ==> x == y
    ensures |items| <= 1
  {
    OrderedIsDistinct(items, t);
    if items != [] { assert items[0] in items && items[|items| - 1] in items && items[0] == items[|items| - 1]; }
  }

  predicate RealCompare(op: CmpOp, x: real, y: real) {
    match op
    case Eq => x == y
    case Ne => x != y
    case Lt => x < y
    case Le => x <= y
    case Gt => x > y
    case Ge => x >= y
  }

  /** [position() < k] and the like: how many are in front decides. */
  lemma {:induction false} PositionCounts(w: World, s: set<int>, reverse: bool, op: CmpOp, k: real, e: Expr, m: int)
    requires Rooted(w.d) && m in s && e == Compare(op, Position, NumberLit(Fin(k))) && WellTyped(e)
    ensures m in Pick(w, s, reverse, e) <==> RealCompare(op, (|InFront(s, reverse, m)| + 1) as real, k)
  {
    var c := Context(m, |InFront(s, reverse, m)| + 1, |s|);
    assert Ref(w, Position, c) == NumV(RefNum(w, Position, c));
    assert Ref(w, NumberLit(Fin(k)), c) == NumV(RefNum(w, NumberLit(Fin(k)), c));
    assert Ref(w, e, c) == BoolV(RefBool(w, e, c));
  }

  /** [k] picks the node with k - 1 in front. */
  lemma {:induction false} NumberPicks(w: World, s: set<int>, reverse: bool, k: real, m: int)
    requires Rooted(w.d) && m in s
    ensures m in Pick(w, s, reverse, NumberLit(Fin(k))) <==> (|InFront(s, reverse, m)| + 1) as real == k
  {
    var c := Context(m, |InFront(s, reverse, m)| + 1, |s|);
    assert Ref(w, NumberLit(Fin(k)), c) == NumV(RefNum(w, NumberLit(Fin(k)), c));
  }

  // ---------------------------------------------------------------------
  // Paths, unions and filters.

  /** e/axis::test: the nodes that the axis leads to from a node of e. */
  lemma {:induction false} PathLaw(w: World, e: Expr, axis: Axis, test: NodeTest, c: Context, m: int)
    requires Rooted(w.d) && WellTyped(e) && TypeOf(e) == TSet
    ensures m in NodesOf(Ref(w, Step(From(e), axis, test, NoPred), c))
       <==> exists n :: n in NodesOf(Ref(w, e, c)) && IsNode(w.d, n) && Candidate(w, axis, test, n, m)
  {
    var step := Step(From(e), axis, test, NoPred);
    assert Ref(w, step, c) == SetV(RefSet(w, step, c));
    StepPicks(w, NodesOf(Ref(w, e, c)), axis, test, NoPred, m);
    forall n | IsNode(w.d, n) ensures PickedFrom(w, axis, test, NoPred, n, m) <==> Candidate(w, axis, test, n, m) { }
  }

  /** axis::test at a node. */
  lemma {:induction false} StepLaw(w: World, axis: Axis, test: NodeTest, c: Context, m: int)
    requires Rooted(w.d) && IsNode(w.d, c.n)
    ensures m in NodesOf(Ref(w, Step(NoLeft, axis, test, NoPred), c)) <==> Candidate(w, axis, test, c.n, m)
  {
    var step := Step(NoLeft, axis, test, NoPred);
    assert Ref(w, step, c) == SetV(RefSet(w, step, c));
    StepPicks(w, {c.n}, axis, test, NoPred, m);
    assert PickedFrom(w, axis, test, NoPred, c.n, m) <==> Candidate(w, axis, test, c.n, m);
  }

  /** / is the document, l | r the nodes of either. */
  lemma {:induction false} RootAndUnion(w: World, l: Expr, r: Expr, c: Context, m: int)
    requires Rooted(w.d) && IsNode(w.d, c.n) && WellTyped(Union(l, r))
    ensures m in NodesOf(Ref(w, StepRoot, c)) <==> IsNode(w.d, m) && w.d[m].kind == DocumentNode && w.d[m].parent == NULL
    ensures m in NodesOf(Ref(w, Union(l, r), c)) <==> m in NodesOf(Ref(w, l, c)) || m in NodesOf(Ref(w, r, c))
  {
    assert Ref(w, StepRoot, c) == SetV(RefSet(w, StepRoot, c));
    assert Ref(w, Union(l, r), c) == SetV(RefSet(w, Union(l, r), c));
  }

  /** (e)[p] counts in document order, whatever axis e ends with. */
  lemma {:induction false} FilterLaw(w: World, e: Expr, p: Expr, c: Context, m: int)
    requires Rooted(w.d) && WellTyped(Filter(e, p, DefaultTest))
    ensures m in NodesOf(Ref(w, Filter(e, p, DefaultTest), c)) <==> m in Pick(w, NodesOf(Ref(w, e, c)), false, p)
  {
    var f, s := Filter(e, p, DefaultTest), NodesOf(Ref(w, e, c));
    assert Ref(w, f, c) == SetV(RefSet(w, f, c));
    SetsHoldNodes(w, e, c);
    OrderedLists(w.d, s, |w.d|);
    FilterPicks(w, Ordered(w.d, s, |w.d|), false, s, p);
    assert m in FilterSet(w, s, p) <==> m in FilterFrom(w, Ordered(w.d, s, |w.d|), 0, p) && 0 <= m < |w.d|;
  }

  /** count(axis::test) is the number of nodes that the axis and the test select. */
  lemma {:induction false} CountLaw(w: World, axis: Axis, test: NodeTest, step: Expr, c: Context)
    requires Rooted(w.d) && IsNode(w.d, c.n) && step == Step(NoLeft, axis, test, NoPred) && WellTyped(Count(step))
    ensures Ref(w, Count(step), c) == NumV(Fin(|Candidates(w, axis, test, c.n)| as real))
  {
    assert Ref(w, Count(step), c) == NumV(RefNum(w, Count(step), c));
    var s := NodesOf(Ref(w, step, c));
    forall m ensures m in s <==> m in Candidates(w, axis, test, c.n) { StepLaw(w, axis, test, c, m); }
    Collections.SameSet(s, Candidates(w, axis, test, c.n));
  }
}
