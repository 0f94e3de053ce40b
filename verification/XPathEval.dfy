/** The evaluator (pugixml.cpp, eval_boolean, eval_number, eval_string,
    eval_node_set, step_do, apply_predicate*): it stops early where the caller
    needs only the first node or only to know whether there is one.  Every
    method is proved against the reference semantics of XPath.dfy. */
module XPathEval {
  import opened Documents
  import opened Axes
  import opened XPath
  import opened XPathOptimize
  import opened NodeSets
  import opened XPathPredicates
  import Collections

  // With the library's reading of attribute::name any document will do; the other needs
  // unique names.
  ghost predicate Ready(w: World) {
    WellFormed(w.d) && DistinctAddresses(w.lib) && (w.firstOnly || UniqueAttributes(w.d))
  }

  predicate ContextOk(w: World, c: Context) {
    c.n == NULL || IsNode(w.d, c.n)
  }

  ghost predicate Evaluable(w: World, e: Expr) {
    Ready(w) && WellTyped(e) && Annotated(e)
  }

  // ---------------------------------------------------------------------
  // Members of a node-set value are nodes of the document.

  lemma {:induction false} SetsHoldNodes(w: World, e: Expr, c: Context)
    requires Rooted(w.d) && WellTyped(e)
    ensures forall m :: m in NodesOf(Ref(w, e, c)) ==> IsNode(w.d, m)
    decreases e
  {
    if TypeOf(e) == TSet {
      assert Ref(w, e, c) == SetV(RefSet(w, e, c));
      if e.Union? {
        SetsHoldNodes(w, e.l, c);
        SetsHoldNodes(w, e.r, c);
      }
    }
  }

  // ---------------------------------------------------------------------
  // String values and translate.

  method StringValueOf(d: Doc, n: int) returns (s: string)
    requires WellFormed(d) && (n == NULL || IsNode(d, n))
    ensures s == StringValue(d, n)
  {
    if n == NULL { return ""; }
    match d[n].kind
    case DocumentNode => s := TextBelow(d, n);
    case Element => s := TextBelow(d, n);
    case Declaration => s := "";
    case Doctype => s := "";
    case _ => s := d[n].value;
  }

  method TextBelow(d: Doc, n: int) returns (s: string)
    requires WellFormed(d) && IsNode(d, n) && !IsAttr(d, n)
    ensures s == ConcatText(d, Hits(d, DescendantAxis, TextNode, n))
  {
    var ns := FillDescendants(d, DescendantAxis, TextNode, n, [], false);
    assert forall m :: m in ns ==> IsNode(d, m) by { HitsAreTheAxis(d, DescendantAxis, TextNode, n); }
    s := "";
    for i := 0 to |ns|
      invariant s == ConcatText(d, ns[..i])
    {
      assert ns[i] in ns;
      assert ns[..i + 1][..i] == ns[..i];
      s := s + d[ns[i]].value;
    }
    assert ns[..|ns|] == ns;
  }

  method FindChar(s: string, c: char) returns (i: int)
    ensures i == IndexOf(s, c)
  {
    i := 0;
    while i < |s| && s[i] != c
      invariant 0 <= i <= |s| && c !in s[..i]
    {
      i := i + 1;
    }
    if i == |s| { i := -1; }
  }

  method TranslateOf(s: string, from: string, to: string) returns (r: string)
    ensures r == TranslateText(s, from, to)
  {
    r := "";
    for i := 0 to |s|
      invariant r == TranslateText(s[..i], from, to)
    {
      var pos := FindChar(from, s[i]);
      assert s[..i + 1][..i] == s[..i];
      if pos == -1 {
        r := r + [s[i]];
      } else if pos < |to| {
        r := r + [to[pos]];
      }
    }
    assert s[..|s|] == s;
  }

  method TranslateByTable(s: string, table: seq<int>) returns (r: string)
    requires |table| == 128 && forall i :: 0 <= i < 128 ==> 0 <= table[i] <= 128
    ensures r == TableText(s, table)
  {
    r := "";
    for i := 0 to |s|
      invariant r == TableText(s[..i], table)
    {
      assert s[..i + 1][..i] == s[..i];
      if s[i] as int < 128 {
        var code := table[s[i] as int];
        if code != 128 { r := r + [code as char]; }
      } else {
        r := r + [s[i]];
      }
    }
    assert s[..|s|] == s;
  }

  // ---------------------------------------------------------------------
  // Predicates.  items[..first] is what earlier source nodes contributed; the
  // rest is filtered in place.

  // Both predicate loops after looking at items0[first..it].
  // kept is what the predicate leaves of the first i nodes.
  ghost predicate Kept(w: World, seg: seq<int>, i: nat, e: Expr, kept: seq<int>)
    requires Rooted(w.d) && WellTyped(e) && i <= |seg|
  {
    kept + FilterFrom(w, seg, i, e) == FilterFrom(w, seg, 0, e)
  }

  ghost predicate FilterState(w: World, items0: seq<int>, first: nat, e: Expr, once: bool, items: seq<int>, last: nat, it: nat)
    requires Rooted(w.d) && WellTyped(e)
  {
    && first <= last <= it <= |items0| == |items|
    && items[..first] == items0[..first]
    && items[it..] == items0[it..]
    && Kept(w, items0[first..], it - first, e, items[first..last])
    && (once ==> last == first)
  }

  lemma {:induction false} FilterNext(w: World, items0: seq<int>, first: nat, e: Expr, once: bool, items: seq<int>, last: nat, it: nat, hit: bool)
    requires Rooted(w.d) && WellTyped(e) && FilterState(w, items0, first, e, once, items, last, it) && it < |items0|
    requires hit == Holds(w, e, Context(items0[it], it - first + 1, |items0| - first))
    ensures !hit ==> FilterState(w, items0, first, e, once, items, last, it + 1)
    ensures hit && !once ==> FilterState(w, items0, first, e, once, items[last := items0[it]], last + 1, it + 1)
  {
    var kept := items[first..last];
    KeptNext(w, items0[first..], it - first, e, kept);
    if hit { assert items[last := items0[it]][first..last + 1] == kept + [items0[it]]; }
  }

  lemma {:induction false} KeptNext(w: World, seg: seq<int>, i: nat, e: Expr, kept: seq<int>)
    requires Rooted(w.d) && WellTyped(e) && i < |seg| && Kept(w, seg, i, e, kept)
    ensures Kept(w, seg, i + 1, e, if Holds(w, e, Context(seg[i], i + 1, |seg|)) then kept + [seg[i]] else kept)
  {
    var rest := FilterFrom(w, seg, i + 1, e);
    assert kept + ([seg[i]] + rest) == (kept + [seg[i]]) + rest;
  }

  lemma {:induction false} FilterStops(w: World, items0: seq<int>, first: nat, e: Expr, items: seq<int>, last: nat, it: nat)
    requires Rooted(w.d) && WellTyped(e) && FilterState(w, items0, first, e, true, items, last, it) && it < |items0|
    requires Holds(w, e, Context(items0[it], it - first + 1, |items0| - first))
    ensures items[last := items0[it]][..last + 1] == items0[..first] + Trim(true, FilterFrom(w, items0[first..], 0, e))
  {
    KeptNext(w, items0[first..], it - first, e, []);
    assert items[first..last] == [];
  }

  lemma {:induction false} FilterDone(w: World, items0: seq<int>, first: nat, e: Expr, once: bool, items: seq<int>, last: nat)
    requires Rooted(w.d) && WellTyped(e) && FilterState(w, items0, first, e, once, items, last, |items0|)
    ensures items[..last] == items0[..first] + Trim(once, FilterFrom(w, items0[first..], 0, e))
  {
    assert items[..last] == items[..first] + items[first..last];
  }

  // *last++ = *it if the predicate holds, and perhaps that is all.
  method Keep(ghost w: World, ghost items0: seq<int>, ghost first: nat, ghost e: Expr, once: bool, items0': seq<int>, last0: nat, it: nat, hit: bool)
    returns (items: seq<int>, last: nat, done: bool)
    requires Rooted(w.d) && WellTyped(e) && FilterState(w, items0, first, e, once, items0', last0, it) && it < |items0|
    requires hit == Holds(w, e, Context(items0[it], it - first + 1, |items0| - first))
    ensures done ==> items == items0[..first] + Trim(once, FilterFrom(w, items0[first..], 0, e))
    ensures !done ==> FilterState(w, items0, first, e, once, items, last, it + 1)
  {
    assert items0'[it] == items0'[it..][0] == items0[it];
    FilterNext(w, items0, first, e, once, items0', last0, it, hit);
    if hit && once { FilterStops(w, items0, first, e, items0', last0, it); }
    items, last, done := items0', last0, false;
    if hit {
      items := items[last := items[it]];
      last := last + 1;
      if once {
        items := items[..last];
        done := true;
      }
    }
  }

  // One node against a predicate that is not a number, and one that is.
  method KeepIfTrue(w: World, items0: seq<int>, first: nat, e: Expr, once: bool, items': seq<int>, last': nat, it: nat)
    returns (items: seq<int>, last: nat, done: bool)
    requires Evaluable(w, e) && TypeOf(e) != TNum && Nodes(w.d, items0) && it < |items0|
    requires FilterState(w, items0, first, e, once, items', last', it)
    ensures done ==> items == items0[..first] + Trim(once, FilterFrom(w, items0[first..], 0, e))
    ensures !done ==> FilterState(w, items0, first, e, once, items, last, it + 1)
    decreases e, 7, 0
  {
    var c := Context(items0[it], it - first + 1, |items0| - first);
    HoldsTruth(w, e, c);
    var hit := EvalBoolean(w, e, c);
    items, last, done := Keep(w, items0, first, e, once, items', last', it, hit);
  }

  method KeepAtPosition(w: World, items0: seq<int>, first: nat, e: Expr, once: bool, items': seq<int>, last': nat, it: nat)
    returns (items: seq<int>, last: nat, done: bool)
    requires Evaluable(w, e) && TypeOf(e) == TNum && Nodes(w.d, items0) && it < |items0|
    requires FilterState(w, items0, first, e, once, items', last', it)
    ensures done ==> items == items0[..first] + Trim(once, FilterFrom(w, items0[first..], 0, e))
    ensures !done ==> FilterState(w, items0, first, e, once, items, last, it + 1)
    decreases e, 7, 0
  {
    var c := Context(items0[it], it - first + 1, |items0| - first);
    HoldsNumber(w, e, c);
    var n := EvalNumber(w, e, c);
    var hit := NumEq(n, Fin(c.pos as real));
    items, last, done := Keep(w, items0, first, e, once, items', last', it, hit);
  }

  method ApplyPredicateBoolean(w: World, items0: seq<int>, first: nat, e: Expr, once: bool) returns (items: seq<int>)
    requires Evaluable(w, e) && TypeOf(e) != TNum && first <= |items0| && Nodes(w.d, items0)
    ensures items == items0[..first] + Trim(once, FilterFrom(w, items0[first..], 0, e))
    decreases e, 7, 1
  {
    items := items0;
    var last, it := first, first;
    while it < |items0|
      invariant FilterState(w, items0, first, e, once, items, last, it)
      decreases |items0| - it
    {
      var done;
      items, last, done := KeepIfTrue(w, items0, first, e, once, items, last, it);
      if done { return; }
      it := it + 1;
    }
    FilterDone(w, items0, first, e, once, items, last);
    items := items[..last];
  }

  lemma {:induction false} HoldsTruth(w: World, e: Expr, c: Context)
    requires Rooted(w.d) && WellTyped(e) && TypeOf(e) != TNum
    ensures Holds(w, e, c) == TruthOf(Ref(w, e, c))
  {
  }

  lemma {:induction false} HoldsNumber(w: World, e: Expr, c: Context)
    requires Rooted(w.d) && WellTyped(e) && TypeOf(e) == TNum
    ensures Holds(w, e, c) == NumEq(NumberOf(w, Ref(w, e, c)), Fin(c.pos as real))
  {
    assert Ref(w, e, c) == NumV(RefNum(w, e, c));
  }

  method ApplyPredicateNumber(w: World, items0: seq<int>, first: nat, e: Expr, once: bool) returns (items: seq<int>)
    requires Evaluable(w, e) && TypeOf(e) == TNum && first <= |items0| && Nodes(w.d, items0)
    ensures items == items0[..first] + Trim(once, FilterFrom(w, items0[first..], 0, e))
    decreases e, 7, 1
  {
    items := items0;
    var last, it := first, first;
    while it < |items0|
      invariant FilterState(w, items0, first, e, once, items, last, it)
      decreases |items0| - it
    {
      var done;
      items, last, done := KeepAtPosition(w, items0, first, e, once, items, last, it);
      if done { return; }
      it := it + 1;
    }
    FilterDone(w, items0, first, e, once, items, last);
    items := items[..last];
  }

  method ApplyPredicateNumberConst(w: World, items0: seq<int>, first: nat, e: Expr, ghost test: PredTest) returns (items: seq<int>)
    requires Evaluable(w, e) && TestSound(e, test) && test in {ConstTest, ConstOneTest} && first <= |items0|
    ensures items == items0[..first] + FilterFrom(w, items0[first..], 0, e)
    ensures |FilterFrom(w, items0[first..], 0, e)| <= 1
    decreases e, 7
  {
    var size := |items0| - first;
    ghost var seg := items0[first..];
    var er := EvalNumber(w, e, Context(NULL, 1, size));
    ConstantValue(w, e, test, Context(NULL, 1, size), Context(NULL, 1, size));
    ConstantFilter(w, seg, e, test, er, PositionOf(er));
    var picked := PickOne(items0, first, er);
    items := items0[..first] + picked;
  }

  // The node at the position that the number is, if there is one.
  method PickOne(items0: seq<int>, first: nat, er: Num) returns (picked: seq<int>)
    requires first <= |items0|
    ensures picked == PickedFrom(items0[first..], 0, PositionOf(er))
  {
    var size := |items0| - first;
    picked := [];
    if er.Fin? && 1.0 <= er.r <= size as real {
      var eri := er.r.Floor;
      if eri as real == er.r {
        picked := [items0[first + eri - 1]];
      }
    }
  }

  method ApplyPredicate(w: World, items0: seq<int>, first: nat, e: Expr, test: PredTest, once: bool) returns (items: seq<int>)
    requires Evaluable(w, e) && TestSound(e, test) && first <= |items0| && Nodes(w.d, items0)
    ensures items == items0[..first] + Trim(once, FilterFrom(w, items0[first..], 0, e))
    decreases e, 8
  {
    if |items0| == first {
      items := items0;
    } else if test == ConstTest || test == ConstOneTest {
      items := ApplyPredicateNumberConst(w, items0, first, e, test);
    } else if TypeOf(e) == TNum {
      items := ApplyPredicateNumber(w, items0, first, e, once);
    } else {
      items := ApplyPredicateBoolean(w, items0, first, e, once);
    }
  }

  method ApplyPredicates(w: World, items0: seq<int>, first: nat, preds: Preds, lastOnce: bool) returns (items: seq<int>)
    requires Ready(w) && WellTypedPreds(preds) && AnnotatedPreds(preds) && preds.Pred?
    requires first <= |items0| && Nodes(w.d, items0)
    ensures items == items0[..first] + Trim(lastOnce, ApplyPreds(w, items0[first..], preds))
    decreases preds, 0
  {
    ghost var seg := items0[first..];
    if |items0| == first {
      ApplyNothing(w, preds);
      return items0;
    }
    var once := preds.next.NoPred? && lastOnce;
    items := ApplyPredicate(w, items0, first, preds.e, preds.ptest, once);
    FilterMembers(w, seg, 0, preds.e);
    if preds.next.Pred? {
      ghost var kept := FilterFrom(w, seg, 0, preds.e);
      assert items[first..] == kept && items[..first] == items0[..first];
      NodesKept(w, items0, first, preds.e);
      items := ApplyPredicates(w, items, first, preds.next, lastOnce);
    }
  }

  lemma NodesKept(w: World, items: seq<int>, first: nat, e: Expr)
    requires Rooted(w.d) && WellTyped(e) && first <= |items| && Nodes(w.d, items)
    ensures Nodes(w.d, items[..first] + FilterFrom(w, items[first..], 0, e))
  {
    var f := FilterFrom(w, items[first..], 0, e);
    FilterMembers(w, items[first..], 0, e);
    forall i | 0 <= i < |f| ensures IsNode(w.d, f[i]) {
      var m := f[i];
      assert m in f;
      assert m in items[first..];
    }
  }

  // ---------------------------------------------------------------------
  // Location steps.

  // Everything a step selects from one source node.
  ghost function Full(w: World, axis: Axis, test: NodeTest, preds: Preds, n: int): seq<int>
    requires Rooted(w.d) && IsNode(w.d, n) && WellTypedPreds(preds)
  {
    ApplyPreds(w, Found(w, axis, test, n), preds)
  }

  lemma {:induction false} FullOrder(w: World, axis: Axis, test: NodeTest, preds: Preds, n: int)
    requires Rooted(w.d) && IsNode(w.d, n) && WellTypedPreds(preds)
    ensures OrderedAs(Full(w, axis, test, preds, n), AxisType(axis))
    ensures forall m :: m in Full(w, axis, test, preds, n) ==> IsNode(w.d, m) && Selected(w.d, axis, test, n, m)
  {
    FoundIsChosen(w, axis, test, n);
    ApplyOrder(w, Found(w, axis, test, n), preds, AxisType(axis));
    ApplyMembers(w, Found(w, axis, test, n), preds);
  }

  // When a step may look at one node of the axis only.
  predicate StepOnce(axis: Axis, test: NodeTest, preds: Preds, mode: Mode) {
    || ByName(axis, test)
    || (preds.NoPred? && EvalOnce(AxisType(axis), mode))
    || (preds.Pred? && preds.next.NoPred? && preds.ptest == ConstOneTest)
  }

  // One source node: fills the axis and applies the predicates.  The result may
  // be cut to its first node, but only if the mode allows it.
  // What is left out where a step by name stops at its first attribute is not found anyway.
  lemma {:induction false} StepFinds(w: World, axis: Axis, test: NodeTest, n: int, once: bool)
    requires Ready(w) && IsNode(w.d, n) && (ByName(axis, test) ==> once)
    ensures Trim(once, Hits(w.d, axis, test, n)) == Trim(once, Found(w, axis, test, n))
    ensures ByName(axis, test) ==> Trim(once, Found(w, axis, test, n)) == Found(w, axis, test, n)
  {
    if !w.firstOnly && ByName(axis, test) { AttributeByName(w.d, test.name, n); }
  }

  method StepFrom(w: World, n: int, items0: seq<int>, axis: Axis, test: NodeTest, preds: Preds, type': SetType, mode: Mode)
    returns (items: seq<int>, ghost cut: bool)
    requires Ready(w) && IsNode(w.d, n) && Nodes(w.d, items0) && WellTypedPreds(preds) && AnnotatedPreds(preds)
    requires type' == Sorted ==> !IsReverse(axis)
    ensures items == items0 + Trim(cut, Full(w, axis, test, preds, n))
    ensures cut ==> EvalOnce(AxisType(axis), mode)
    decreases preds, 1
  {
    var once := StepOnce(axis, test, preds, mode);
    ghost var hits := Found(w, axis, test, n);
    items := StepFill(w.d, axis, test, n, items0, once);
    StepFinds(w, axis, test, n, once);
    if preds.NoPred? {
      cut := once && !ByName(axis, test);
    } else {
      StepItems(w, n, axis, test, items0, items, once);
      var lastOnce := EvalOnce(type', mode);
      items := ApplyPredicates(w, items, |items0|, preds, lastOnce);
      if once && Trim(once, hits) != hits {
        FirstOnly(w, hits);
        cut := false;
        ConstOneIsOne(w, hits, preds, lastOnce);
      } else {
        cut := lastOnce;
      }
    }
  }

  lemma ConstOneIsOne(w: World, hits: seq<int>, preds: Preds, lastOnce: bool)
    requires Rooted(w.d) && WellTypedPreds(preds) && AnnotatedPreds(preds) && preds.Pred? && preds.next.NoPred? && preds.ptest == ConstOneTest
    ensures Trim(lastOnce, ApplyPreds(w, Trim(true, hits), preds)) == ApplyPreds(w, hits, preds)
  {
    FirstOnly(w, hits);
    assert preds.e == ONE;
  }

  lemma StepItems(w: World, n: int, axis: Axis, test: NodeTest, items0: seq<int>, items: seq<int>, once: bool)
    requires Rooted(w.d) && IsNode(w.d, n) && Nodes(w.d, items0)
    requires items == items0 + Trim(once, Found(w, axis, test, n))
    ensures Nodes(w.d, items) && items[..|items0|] == items0 && items[|items0|..] == Trim(once, Found(w, axis, test, n))
  {
    FoundIsChosen(w, axis, test, n);
    var h := Found(w, axis, test, n);
    forall i | 0 <= i < |h| ensures IsNode(w.d, h[i]) {
      var m := h[i];
      assert m in h;
    }
  }

  predicate KeepsUnique(axis: Axis) {
    axis.ChildAxis? || axis.AttributeAxis? || axis.SelfAxis?
  }

  ghost predicate StepFound(w: World, srcs: seq<int>, i: nat, axis: Axis, test: NodeTest, preds: Preds, items: seq<int>)
    requires Rooted(w.d) && WellTypedPreds(preds) && Nodes(w.d, srcs) && i <= |srcs|
  {
    forall m :: m in items ==> exists k :: 0 <= k < i && m in Full(w, axis, test, preds, srcs[k])
  }

  ghost predicate StepCovered(w: World, srcs: seq<int>, i: nat, axis: Axis, test: NodeTest, preds: Preds, mode: Mode, items: seq<int>)
    requires Rooted(w.d) && WellTypedPreds(preds) && Nodes(w.d, srcs) && i <= |srcs|
  {
    forall k, m :: 0 <= k < i && m in Full(w, axis, test, preds, srcs[k]) ==> Covers(mode, items, m)
  }

  // What the loop of step_do keeps after i source nodes.
  ghost predicate StepState(w: World, srcs: seq<int>, i: nat, axis: Axis, test: NodeTest, preds: Preds, mode: Mode, items: seq<int>, type': SetType)
    requires Rooted(w.d) && WellTypedPreds(preds) && Nodes(w.d, srcs) && i <= |srcs|
  {
    && Nodes(w.d, items)
    && StepFound(w, srcs, i, axis, test, preds, items)
    && StepCovered(w, srcs, i, axis, test, preds, mode, items)
    && (type' != Unsorted ==> OrderedAs(items, type'))
    && (KeepsUnique(axis) ==> Distinct(items))
    && (axis.SelfAxis? ==> forall m :: m in items ==> m in srcs[..i])
  }

  // The contribution of one source node covers what the node selects.
  lemma {:induction false} CutCovers(w: World, axis: Axis, test: NodeTest, preds: Preds, n: int, mode: Mode, cut: bool, items: seq<int>, m: int)
    requires Rooted(w.d) && IsNode(w.d, n) && WellTypedPreds(preds)
    requires cut ==> EvalOnce(AxisType(axis), mode)
    requires m in Full(w, axis, test, preds, n)
    requires forall x :: x in Trim(cut, Full(w, axis, test, preds, n)) ==> x in items
    ensures Covers(mode, items, m)
  {
    var full := Full(w, axis, test, preds, n);
    FullOrder(w, axis, test, preds, n);
    if cut {
      var x := full[0];
      assert x in Trim(cut, full);
      assert x in items;
      if !IsReverse(axis) { assert x <= m; }
    } else {
      assert m in items;
    }
  }

  lemma CoversMore(mode: Mode, items: seq<int>, more: seq<int>, m: int)
    requires Covers(mode, items, m) && forall x :: x in items ==> x in more
    ensures Covers(mode, more, m)
  {
    if mode == EvalAny {
      var x := MemberOfSeq(items);
    }
  }

  lemma {:induction false} StepStateNext(w: World, srcs: seq<int>, i: nat, axis: Axis, test: NodeTest, preds: Preds, mode: Mode,
                                         items: seq<int>, type': SetType, items': seq<int>, type'': SetType, cut: bool, srcType: SetType)
    requires Rooted(w.d) && WellTypedPreds(preds) && Nodes(w.d, srcs) && i < |srcs| && OrderedAs(srcs, srcType)
    requires StepState(w, srcs, i, axis, test, preds, mode, items, type')
    requires cut ==> EvalOnce(AxisType(axis), mode)
    requires items' == items + Trim(cut, Full(w, axis, test, preds, srcs[i]))
    requires if axis.SelfAxis? then type'' == type' == srcType else if items != [] then type'' == Unsorted else type'' in {Unsorted, AxisType(axis)}
    ensures StepState(w, srcs, i + 1, axis, test, preds, mode, items', type'')
  {
    StepFoundNext(w, srcs, i, axis, test, preds, items, items', cut);
    StepCoversNext(w, srcs, i, axis, test, preds, mode, items, items', cut);
    StepOrderNext(w, srcs, i, axis, test, preds, mode, items, type', items', type'', cut, srcType);
  }

  lemma {:induction false} StepFoundNext(w: World, srcs: seq<int>, i: nat, axis: Axis, test: NodeTest, preds: Preds,
                                         items: seq<int>, items': seq<int>, cut: bool)
    requires Rooted(w.d) && WellTypedPreds(preds) && Nodes(w.d, srcs) && i < |srcs| && Nodes(w.d, items)
    requires StepFound(w, srcs, i, axis, test, preds, items)
    requires items' == items + Trim(cut, Full(w, axis, test, preds, srcs[i]))
    ensures Nodes(w.d, items') && StepFound(w, srcs, i + 1, axis, test, preds, items')
  {
    var full := Full(w, axis, test, preds, srcs[i]);
    var part := Trim(cut, full);
    FullOrder(w, axis, test, preds, srcs[i]);
    forall j | 0 <= j < |items'| ensures IsNode(w.d, items'[j]) {
      if |items| <= j { assert items'[j] == part[j - |items|]; assert part[j - |items|] in full; }
    }
    forall m | m in items' ensures exists k :: 0 <= k < i + 1 && m in Full(w, axis, test, preds, srcs[k]) {
      if m in items {
        var k :| 0 <= k < i && m in Full(w, axis, test, preds, srcs[k]);
      } else {
        assert m in part;
      }
    }
  }

  lemma {:induction false} StepCoversNext(w: World, srcs: seq<int>, i: nat, axis: Axis, test: NodeTest, preds: Preds, mode: Mode,
                                          items: seq<int>, items': seq<int>, cut: bool)
    requires Rooted(w.d) && WellTypedPreds(preds) && Nodes(w.d, srcs) && i < |srcs|
    requires StepCovered(w, srcs, i, axis, test, preds, mode, items)
    requires cut ==> EvalOnce(AxisType(axis), mode)
    requires items' == items + Trim(cut, Full(w, axis, test, preds, srcs[i]))
    ensures StepCovered(w, srcs, i + 1, axis, test, preds, mode, items')
  {
    forall k, m | 0 <= k < i + 1 && m in Full(w, axis, test, preds, srcs[k]) ensures Covers(mode, items', m) {
      if k < i {
        CoversMore(mode, items, items', m);
      } else {
        CutCovers(w, axis, test, preds, srcs[i], mode, cut, items', m);
      }
    }
  }

  // On an axis that leads to a node from one source only, two sources share nothing.
  lemma {:induction false} OneSource(w: World, srcs: seq<int>, i: nat, k: nat, axis: Axis, test: NodeTest, preds: Preds, m: int)
    requires Rooted(w.d) && WellTypedPreds(preds) && Nodes(w.d, srcs) && Distinct(srcs) && k < i < |srcs| && KeepsUnique(axis)
    requires m in Full(w, axis, test, preds, srcs[k])
    ensures m !in Full(w, axis, test, preds, srcs[i])
  {
    FullOrder(w, axis, test, preds, srcs[k]);
    FullOrder(w, axis, test, preds, srcs[i]);
    assert srcs[k] != srcs[i];
  }

  lemma {:induction false} NothingTwice(w: World, srcs: seq<int>, i: nat, axis: Axis, test: NodeTest, preds: Preds, items: seq<int>, part: seq<int>)
    requires Rooted(w.d) && WellTypedPreds(preds) && Nodes(w.d, srcs) && Distinct(srcs) && i < |srcs| && KeepsUnique(axis)
    requires StepFound(w, srcs, i, axis, test, preds, items) && Distinct(items)
    requires Distinct(part) && forall m :: m in part ==> m in Full(w, axis, test, preds, srcs[i])
    ensures Distinct(items + part)
  {
    forall j | 0 <= j < |items| ensures items[j] !in part {
      var m := items[j];
      assert m in items;
      var k :| 0 <= k < i && m in Full(w, axis, test, preds, srcs[k]);
      OneSource(w, srcs, i, k, axis, test, preds, m);
    }
    DistinctJoin(items, part);
  }

  lemma {:induction false} StepOrderNext(w: World, srcs: seq<int>, i: nat, axis: Axis, test: NodeTest, preds: Preds, mode: Mode,
                                         items: seq<int>, type': SetType, items': seq<int>, type'': SetType, cut: bool, srcType: SetType)
    requires Rooted(w.d) && WellTypedPreds(preds) && Nodes(w.d, srcs) && i < |srcs| && OrderedAs(srcs, srcType)
    requires StepState(w, srcs, i, axis, test, preds, mode, items, type')
    requires items' == items + Trim(cut, Full(w, axis, test, preds, srcs[i]))
    requires if axis.SelfAxis? then type'' == type' == srcType else if items != [] then type'' == Unsorted else type'' in {Unsorted, AxisType(axis)}
    ensures type'' != Unsorted ==> OrderedAs(items', type'')
    ensures KeepsUnique(axis) ==> Distinct(items')
    ensures axis.SelfAxis? ==> forall m :: m in items' ==> m in srcs[..i + 1]
  {
    var full := Full(w, axis, test, preds, srcs[i]);
    var part := Trim(cut, full);
    FullOrder(w, axis, test, preds, srcs[i]);
    assert forall m :: m in part ==> m in full;
    OrderedIsDistinct(srcs, srcType);
    assert srcs[..i + 1] == srcs[..i] + [srcs[i]];
    if axis.SelfAxis? {
      assert forall m :: m in part ==> m == srcs[i];
      SelfPart(part, srcs[i]);
      SelfOrder(srcs, i, items, items', srcType);
    } else if KeepsUnique(axis) {
      OrderedIsDistinct(full, AxisType(axis));
      NothingTwice(w, srcs, i, axis, test, preds, items, part);
    }
    if items == [] { assert items' == part; }
  }

  lemma DistinctJoin(a: seq<int>, b: seq<int>)
    requires Distinct(a) && Distinct(b) && forall j :: 0 <= j < |a| ==> a[j] !in b
    ensures Distinct(a + b)
  {
    var s := a + b;
    forall i, j | 0 <= i < j < |s| ensures s[i] != s[j] {
      if i < |a| && |a| <= j { assert b[j - |a|] in b; }
    }
  }

  lemma SelfPart(part: seq<int>, n: int)
    requires Distinct(part) && forall m :: m in part ==> m == n
    ensures part == [] || part == [n]
  {
    forall j | 0 <= j < |part| ensures part[j] == n { assert part[j] in part; }
    if 2 <= |part| { FirstTwo(part); }
  }

  lemma FirstTwo(s: seq<int>)
    requires Distinct(s) && 2 <= |s|
    ensures s[0] != s[1]
  {
  }

  lemma SelfOrder(srcs: seq<int>, i: nat, items: seq<int>, items': seq<int>, t: SetType)
    requires i < |srcs| && OrderedAs(srcs, t) && OrderedAs(items, t) && forall m :: m in items ==> m in srcs[..i]
    requires items' == items || items' == items + [srcs[i]]
    ensures OrderedAs(items', t) && Distinct(items') && forall m :: m in items' ==> m in srcs[..i + 1]
  {
    assert srcs[..i + 1] == srcs[..i] + [srcs[i]];
    forall j | 0 <= j < |items| ensures exists k :: 0 <= k < i && srcs[k] == items[j] {
      var m := items[j];
      assert m in items;
      assert m in srcs[..i];
    }
  }

  // step_do.
  method StepDo(w: World, e: Expr, c: Context, mode: Mode) returns (ns: NodeSetRaw)
    requires Evaluable(w, e) && ContextOk(w, c) && e.Step?
    ensures Answers(w.d, ns, mode, RefSet(w, e, c))
    decreases e, 0
  {
    var axis, test, preds := e.axis, e.test, e.preds;
    var items, type' := [], AxisType(axis);
    ghost var srcs: seq<int>;
    ghost var cut;
    if e.left.From? {
      var s := EvalNodeSet(w, e.left.e, c, EvalAll);
      if axis.SelfAxis? { type' := s.type'; }
      srcs := s.items;
      for i := 0 to |s.items|
        invariant StepState(w, srcs, i, axis, test, preds, mode, items, type')
        invariant if axis.SelfAxis? then type' == s.type' else type' in {Unsorted, AxisType(axis)}
      {
        ghost var items0, type0 := items, type';
        if !axis.SelfAxis? && |items| != 0 { type' := Unsorted; }
        items, cut := StepFrom(w, s.items[i], items, axis, test, preds, type', mode);
        StepStateNext(w, srcs, i, axis, test, preds, mode, items0, type0, items, type', cut, s.type');
      }
    } else if c.n != NULL {
      srcs := [c.n];
      items, cut := StepFrom(w, c.n, items, axis, test, preds, type', mode);
      StepStateNext(w, srcs, 0, axis, test, preds, mode, [], type', items, type', cut, Sorted);
    } else {
      srcs := [];
    }
    StepSources(w, e, c, srcs);
    if !KeepsUnique(axis) && type' == Unsorted {
      ghost var all := items;
      items := RemoveDuplicates(w, items);
      StepDedup(w, srcs, axis, test, preds, mode, all, items);
    }
    ns := NodeSetRaw(items, type');
    StepAnswers(w, e, c, srcs, mode, ns);
  }

  lemma StepSources(w: World, e: Expr, c: Context, srcs: seq<int>)
    requires Rooted(w.d) && WellTyped(e) && e.Step?
    requires if e.left.From? then forall n :: n in srcs <==> n in NodesOf(Ref(w, e.left.e, c))
             else srcs == if IsNode(w.d, c.n) then [c.n] else []
    ensures forall n :: n in srcs <==> n in Sources(w, e.left, c)
  {
  }

  lemma StepDedup(w: World, srcs: seq<int>, axis: Axis, test: NodeTest, preds: Preds, mode: Mode, all: seq<int>, items: seq<int>)
    requires Rooted(w.d) && WellTypedPreds(preds) && Nodes(w.d, srcs) && !KeepsUnique(axis)
    requires StepState(w, srcs, |srcs|, axis, test, preds, mode, all, Unsorted)
    requires Distinct(items) && forall m :: m in items <==> m in all
    ensures StepState(w, srcs, |srcs|, axis, test, preds, mode, items, Unsorted)
  {
    forall j | 0 <= j < |items| ensures IsNode(w.d, items[j]) {
      var m := items[j];
      assert m in items;
      assert m in all;
    }
    forall k, m | 0 <= k < |srcs| && m in Full(w, axis, test, preds, srcs[k]) ensures Covers(mode, items, m) {
      CoversMore(mode, all, items, m);
    }
  }

  lemma {:induction false} StepAnswers(w: World, e: Expr, c: Context, srcs: seq<int>, mode: Mode, ns: NodeSetRaw)
    requires Rooted(w.d) && WellTyped(e) && e.Step? && Nodes(w.d, srcs)
    requires forall n :: n in srcs <==> n in Sources(w, e.left, c)
    requires StepState(w, srcs, |srcs|, e.axis, e.test, e.preds, mode, ns.items, ns.type')
    requires ns.type' == Unsorted ==> Distinct(ns.items)
    ensures Answers(w.d, ns, mode, RefSet(w, e, c))
  {
    var s := StepSet(w, Sources(w, e.left, c), e.axis, e.test, e.preds);
    assert RefSet(w, e, c) == s;
    forall m | m in ns.items ensures m in s {
      var k :| 0 <= k < |srcs| && m in Full(w, e.axis, e.test, e.preds, srcs[k]);
      assert srcs[k] in srcs;
      FullOrder(w, e.axis, e.test, e.preds, srcs[k]);
      assert InStep(w, Sources(w, e.left, c), e.axis, e.test, e.preds, m);
    }
    forall m | m in s ensures Covers(mode, ns.items, m) {
      assert InStep(w, Sources(w, e.left, c), e.axis, e.test, e.preds, m);
      var n :| n in Sources(w, e.left, c) && IsNode(w.d, n) && m in ApplyPreds(w, Found(w, e.axis, e.test, n), e.preds);
      assert n in srcs;
      var k :| 0 <= k < |srcs| && srcs[k] == n;
      assert m in Full(w, e.axis, e.test, e.preds, srcs[k]);
    }
  }

  /** attribute::a on an element with two attributes of that name: the evaluator selects the
      first; read as the axis says, there are two. */
  method SelectRepeated(w: World) returns (items: seq<int>)
    requires w.d == REPEATED && w.firstOnly && DistinctAddresses(w.lib)
    ensures items == [2] && StepSet(w.(firstOnly := false), {1}, AttributeAxis, NameTest("a"), NoPred) == {2, 3}
  {
    RepeatedAttributeIsLost();
    ghost var all := w.(firstOnly := false);
    var step := Step(NoLeft, AttributeAxis, NameTest("a"), NoPred);
    var ns := StepDo(w, step, Context(1, 1, 1), EvalAll);
    items := ns.items;
    forall m ensures m in StepSet(w, {1}, AttributeAxis, NameTest("a"), NoPred) <==> m == 2 { StepByName(w, "a", 1, m); }
    forall m ensures m in StepSet(all, {1}, AttributeAxis, NameTest("a"), NoPred) <==> m in {2, 3} { StepByName(all, "a", 1, m); }
    Collections.SameSet(StepSet(all, {1}, AttributeAxis, NameTest("a"), NoPred), {2, 3});
    OrderedIsDistinct(items, ns.type');
    assert 2 in StepSet(w, {1}, AttributeAxis, NameTest("a"), NoPred) && Covers(EvalAll, items, 2);
    forall i | 0 <= i < |items| ensures items[i] == 2 { assert items[i] in items; }
    OnlyItem(items, 2);
  }

  lemma OnlyItem(s: seq<int>, x: int)
    requires Distinct(s) && x in s && forall i :: 0 <= i < |s| ==> s[i] == x
    ensures s == [x]
  {
    assert s[0] == s[|s| - 1];
    assert |s| == 1;
  }

  // ---------------------------------------------------------------------
  // Unions and filters.

  method EvalUnion(w: World, e: Expr, c: Context, mode: Mode) returns (ns: NodeSetRaw)
    requires Evaluable(w, e) && ContextOk(w, c) && e.Union?
    ensures Answers(w.d, ns, mode, RefSet(w, e, c))
    decreases e, 0
  {
    var ls := EvalNodeSet(w, e.l, c, mode);
    var rs := EvalNodeSet(w, e.r, c, mode);
    var items := RemoveDuplicates(w, rs.items + ls.items);
    ns := NodeSetRaw(items, Unsorted);
    UnionAnswers(w.d, ls, rs, ns, mode, NodesOf(Ref(w, e.l, c)), NodesOf(Ref(w, e.r, c)));
  }

  lemma UnionAnswers(d: Doc, ls: NodeSetRaw, rs: NodeSetRaw, ns: NodeSetRaw, mode: Mode, l: set<int>, r: set<int>)
    requires Answers(d, ls, mode, l) && Answers(d, rs, mode, r)
    requires ns.type' == Unsorted && Distinct(ns.items) && forall m :: m in ns.items <==> m in rs.items + ls.items
    ensures Answers(d, ns, mode, l + r)
  {
    forall i | 0 <= i < |ns.items| ensures IsNode(d, ns.items[i]) {
      var m := ns.items[i];
      assert m in ns.items;
      assert m in rs.items || m in ls.items;
    }
    forall m | m in l + r ensures Covers(mode, ns.items, m) {
      if m in l { CoversMore(mode, ls.items, ns.items, m); } else { CoversMore(mode, rs.items, ns.items, m); }
    }
  }

  method EvalFilter(w: World, e: Expr, c: Context, mode: Mode) returns (ns: NodeSetRaw)
    requires Evaluable(w, e) && ContextOk(w, c) && e.Filter?
    ensures Answers(w.d, ns, mode, RefSet(w, e, c))
    decreases e, 0
  {
    var set' := EvalNodeSet(w, e.set', c, if e.ptest == ConstOneTest then EvalFirst else EvalAll);
    if e.ptest != PosInvTest { set' := SortFilterSet(w.d, set'); }
    var once := EvalOnce(set'.type', mode);
    var items := ApplyPredicate(w, set'.items, 0, e.pred, e.ptest, once);
    ns := NodeSetRaw(items, set'.type');
    ghost var s := NodesOf(Ref(w, e.set', c));
    ghost var kept := FilterFrom(w, set'.items, 0, e.pred);
    assert set'.items[0..] == set'.items && set'.items[..0] == [];
    FilterOrder(w, set'.items, 0, e.pred, set'.type');
    FilterMembers(w, set'.items, 0, e.pred);
    FilterSame(w, e, s, set'.items);
    FilterAnswers(w.d, set'.items, set'.type', kept, once, mode, ns, RefSet(w, e, c));
  }

  method SortFilterSet(d: Doc, ns: NodeSetRaw) returns (r: NodeSetRaw)
    requires WellFormed(d) && Nodes(d, ns.items) && OrderedAs(ns.items, ns.type')
    ensures r.type' == Sorted && Ascending(r.items) && Nodes(d, r.items)
    ensures forall m :: m in r.items <==> m in ns.items
  {
    r := SortDo(d, ns);
    forall i | 0 <= i < |r.items| ensures IsNode(d, r.items[i]) {
      var m := r.items[i];
      assert m in r.items;
      assert m in ns.items;
    }
  }

  // The list the filter works on gives the same nodes as the ordered list of the whole set.
  lemma {:induction false} FilterSame(w: World, e: Expr, s: set<int>, items: seq<int>)
    requires Evaluable(w, e) && e.Filter? && Nodes(w.d, items)
    requires forall m :: m in s ==> IsNode(w.d, m)
    requires forall m :: m in items ==> m in s
    requires match e.ptest
             case PosInvTest => forall m :: m in s ==> m in items
             case ConstOneTest => Ascending(items) && (s != {} ==> Min(s) in items)
             case _ => Ascending(items) && forall m :: m in s ==> m in items
    ensures forall m :: m in FilterFrom(w, items, 0, e.pred) <==> m in FilterSet(w, s, e.pred)
  {
    var o := Ordered(w.d, s, |w.d|);
    OrderedLists(w.d, s, |w.d|);
    FilterMembers(w, o, 0, e.pred);
    assert o[0..] == o && items[0..] == items;
    match e.ptest
    case PosInvTest =>
      forall m ensures m in FilterFrom(w, items, 0, e.pred) <==> m in FilterFrom(w, o, 0, e.pred) {
        PosInvFilter(w, items, 0, e.pred, m);
        PosInvFilter(w, o, 0, e.pred, m);
      }
    case ConstOneTest =>
      assert e.pred == ONE;
      FirstOnly(w, items);
      FirstOnly(w, o);
      FirstMember(s, items, o);
    case _ =>
      AscendingUnique(items, o);
  }

  lemma FirstMember(s: set<int>, items: seq<int>, o: seq<int>)
    requires Ascending(items) && Ascending(o)
    requires (forall m :: m in items ==> m in s) && (forall m :: m in o <==> m in s) && (s != {} ==> Min(s) in items)
    ensures items == [] <==> o == []
    ensures items != [] ==> items[0] == o[0]
  {
    if items != [] { var m := MemberOfSeq(items); }
    if o != [] {
      var m := MemberOfSeq(o);
      HeadIsMin(o, s);
      HeadIsMin(items, s);
    }
  }

  lemma HeadIsMin(a: seq<int>, s: set<int>)
    requires s != {} && Ascending(a) && Min(s) in a && forall m :: m in a ==> m in s
    ensures a[0] == Min(s)
  {
    assert a[0] in a;
  }

  // Cutting an ordered list to its first node is what the mode allows.
  lemma FilterAnswers(d: Doc, items: seq<int>, t: SetType, kept: seq<int>, once: bool, mode: Mode, ns: NodeSetRaw, s: set<int>)
    requires Nodes(d, items) && OrderedAs(kept, t) && (forall m :: m in kept ==> m in items)
    requires forall m :: m in kept <==> m in s
    requires once == EvalOnce(t, mode) && ns == NodeSetRaw(Trim(once, kept), t)
    ensures Answers(d, ns, mode, s)
  {
    forall i | 0 <= i < |ns.items| ensures IsNode(d, ns.items[i]) {
      var m := kept[i];
      assert m in kept;
      assert m in items;
    }
    forall m | m in s ensures Covers(mode, ns.items, m) {
      assert m in kept;
      if once && mode == EvalFirst {
        assert kept[0] in ns.items && kept[0] <= m;
      }
    }
    forall m | m in ns.items ensures m in s {
      assert m in kept;
    }
  }

  method EvalNodeSet(w: World, e: Expr, c: Context, mode: Mode) returns (ns: NodeSetRaw)
    requires Evaluable(w, e) && ContextOk(w, c) && TypeOf(e) == TSet
    ensures Answers(w.d, ns, mode, NodesOf(Ref(w, e, c)))
    ensures forall m :: m in NodesOf(Ref(w, e, c)) ==> IsNode(w.d, m)
    ensures mode == EvalFirst && NodesOf(Ref(w, e, c)) != {} ==> Min(NodesOf(Ref(w, e, c))) in ns.items
    decreases e, 1
  {
    assert Ref(w, e, c) == SetV(RefSet(w, e, c));
    SetsHoldNodes(w, e, c);
    if e.Union? {
      ns := EvalUnion(w, e, c, mode);
    } else if e.Filter? {
      ns := EvalFilter(w, e, c, mode);
    } else if e.Step? {
      ns := StepDo(w, e, c, mode);
    } else {
      ns := EvalOtherSet(w, e, c, mode);
    }
    FirstIsThere(w.d, ns, mode, RefSet(w, e, c));
  }

  method EvalOtherSet(w: World, e: Expr, c: Context, mode: Mode) returns (ns: NodeSetRaw)
    requires Evaluable(w, e) && ContextOk(w, c) && TypeOf(e) == TSet && !e.Union? && !e.Filter? && !e.Step?
    ensures Answers(w.d, ns, mode, RefSet(w, e, c))
  {
    if e.StepRoot? {
      ns := NodeSetRaw(if c.n != NULL then [0] else [], Sorted);
      assert c.n != NULL ==> ns.items[0] == 0;
      assert forall m :: m in RefSet(w, e, c) ==> m == 0 && 0 in ns.items;
    } else {
      ns := NodeSetRaw([], Unsorted);
    }
  }

  lemma {:induction false} FirstIsThere(d: Doc, ns: NodeSetRaw, mode: Mode, s: set<int>)
    requires Answers(d, ns, mode, s)
    ensures mode == EvalFirst && s != {} ==> Min(s) in ns.items
  {
    if mode == EvalFirst && s != {} { assert Covers(mode, ns.items, Min(s)); }
  }

  // ---------------------------------------------------------------------
  // Strings, numbers and booleans.

  method EvalArgs(w: World, a: Args, c: Context) returns (r: seq<string>)
    requires Ready(w) && WellTypedArgs(a) && AnnotatedArgs(a) && ContextOk(w, c)
    ensures r == RefArgs(w, a, c)
    decreases a, 0
  {
    match a
    case NoArg => r := [];
    case Arg(e, next) =>
      var s := EvalString(w, e, c);
      var rest := EvalArgs(w, next, c);
      r := [s] + rest;
  }

  // The string value of the first node of a set.
  method EvalFirstText(w: World, e: Expr, c: Context) returns (s: string)
    requires Evaluable(w, e) && ContextOk(w, c) && TypeOf(e) == TSet
    ensures s == FirstText(w, NodesOf(Ref(w, e, c)))
    decreases e, 3
  {
    var n := EvalFirstNode(w, e, c);
    s := "";
    if n != NULL { s := StringValueOf(w.d, n); }
  }

  method EvalFirstNode(w: World, e: Expr, c: Context) returns (n: int)
    requires Evaluable(w, e) && ContextOk(w, c) && TypeOf(e) == TSet
    ensures var s := NodesOf(Ref(w, e, c)); if s == {} then n == NULL else n == Min(s) && IsNode(w.d, n)
    decreases e, 2
  {
    ghost var s := NodesOf(Ref(w, e, c));
    var ns := EvalNodeSet(w, e, c, EvalFirst);
    AnswerEmpty(w.d, ns, EvalFirst, s);
    n := First(w.d, ns);
    if ns.items != [] { AnswerFirst(w.d, ns, EvalFirst, s, n); }
  }

  method EvalText(w: World, e: Expr, c: Context) returns (s: string)
    requires Evaluable(w, e) && ContextOk(w, c) && TypeOf(e) == TStr
    ensures s == RefText(w, e, c)
    decreases e, 0
  {
    s := "";
    match e
    case StringLit(t) => s := t;
    case Variable(v) => s := v.s;
    case ToStr(x) => s := EvalString(w, x, c);
    case ContextStr => s := StringValueOf(w.d, c.n);
    case StrCall(f, a) =>
      var args := EvalArgs(w, a, c);
      s := w.lib.strFn(f, args);
    case NameOf(f, x) =>
      var n := EvalFirstNode(w, x, c);
      if n != NULL { s := w.lib.nameFn(f, w.d[n]); }
    case ContextName(f) =>
      if c.n != NULL { s := w.lib.nameFn(f, w.d[c.n]); }
    case Translate(x, f, t) =>
      var xs := EvalString(w, x, c);
      var fs := EvalString(w, f, c);
      var ts := EvalString(w, t, c);
      s := TranslateOf(xs, fs, ts);
    case TranslateTable(x, table) =>
      var xs := EvalString(w, x, c);
      s := TranslateByTable(xs, table);
    case _ =>
  }

  // A value is of the type of its expression.
  lemma {:induction false} ValueOfType(w: World, e: Expr, c: Context)
    requires Rooted(w.d) && WellTyped(e)
    ensures match TypeOf(e)
            case TBool => Ref(w, e, c).BoolV?
            case TNum => Ref(w, e, c).NumV?
            case TStr => Ref(w, e, c).StrV?
            case TSet => Ref(w, e, c).SetV?
  {
  }

  method EvalString(w: World, e: Expr, c: Context) returns (s: string)
    requires Evaluable(w, e) && ContextOk(w, c)
    ensures s == TextOf(w, Ref(w, e, c))
    decreases e, if TypeOf(e) == TStr then 1 else 4
  {
    ValueOfType(w, e, c);
    match TypeOf(e)
    case TStr => s := EvalText(w, e, c);
    case TBool =>
      var b := EvalBoolean(w, e, c);
      s := if b then "true" else "false";
    case TNum =>
      var n := EvalNumber(w, e, c);
      s := w.lib.toText(n);
    case TSet =>
      s := EvalFirstText(w, e, c);
  }

  method EvalNum(w: World, e: Expr, c: Context) returns (n: Num)
    requires Evaluable(w, e) && ContextOk(w, c) && TypeOf(e) == TNum
    ensures n == RefNum(w, e, c)
    decreases e, 0
  {
    n := NaN;
    match e
    case Arith(op, l, r) =>
      var x := EvalNumber(w, l, c);
      var y := EvalNumber(w, r, c);
      n := w.lib.arith(op, x, y);
    case Negate(x) =>
      var y := EvalNumber(w, x, c);
      n := w.lib.negate(y);
    case NumberLit(v) => n := v;
    case Position => n := Fin(c.pos as real);
    case Last => n := Fin(c.size as real);
    case Count(x) =>
      var ns := EvalNodeSet(w, x, c, EvalAll);
      OrderedIsDistinct(ns.items, ns.type');
      DistinctCount(ns.items, NodesOf(Ref(w, x, c)));
      n := Fin(|ns.items| as real);
    case ToNum(x) => n := EvalNumber(w, x, c);
    case NumCall(f, x) =>
      var y := EvalNumber(w, x, c);
      n := w.lib.numFn(f, y);
    case LenCall(f, a) =>
      var args := EvalArgs(w, a, c);
      n := w.lib.lenFn(f, args);
    case Variable(v) => n := v.n;
    case _ =>
  }

  method EvalNumber(w: World, e: Expr, c: Context) returns (n: Num)
    requires Evaluable(w, e) && ContextOk(w, c)
    ensures n == NumberOf(w, Ref(w, e, c))
    decreases e, if TypeOf(e) == TNum then 1 else 5
  {
    NumberByType(w, e, c);
    match TypeOf(e)
    case TNum => n := EvalNum(w, e, c);
    case TBool =>
      var b := EvalBoolean(w, e, c);
      n := if b then Fin(1.0) else Fin(0.0);
    case _ =>
      var s := EvalString(w, e, c);
      n := w.lib.toNumber(s);
  }

  lemma {:induction false} NumberByType(w: World, e: Expr, c: Context)
    requires Rooted(w.d) && WellTyped(e)
    ensures NumberOf(w, Ref(w, e, c))
         == match TypeOf(e)
            case TNum => RefNum(w, e, c)
            case TBool => if TruthOf(Ref(w, e, c)) then Fin(1.0) else Fin(0.0)
            case _ => w.lib.toNumber(TextOf(w, Ref(w, e, c)))
  {
  }

  // attribute(name): the first attribute of that name.
  method FindAttribute(d: Doc, n: int, name: string) returns (a: int)
    requires WellFormed(d) && (n == NULL || IsNode(d, n))
    ensures a != NULL ==> IsAttrOf(d, n, a) && d[a].name == name
    ensures a == NULL ==> forall k :: IsAttrOf(d, n, k) ==> d[k].name != name
    ensures forall k :: IsAttrOf(d, n, k) && d[k].name == name ==> a <= k
  {
    if n == NULL { return NULL; }
    assert LinksOk(d, n);
    a := d[n].firstAttribute;
    while a != NULL && d[a].name != name
      invariant a != NULL ==> IsAttrOf(d, n, a)
      invariant forall k :: IsAttrOf(d, n, k) && (a == NULL || k < a) ==> d[k].name != name
      decreases At(d, NULL) - At(d, a)
    {
      assert LinksOk(d, a);
      a := d[a].nextAttribute;
    }
  }

  lemma FirstIsFound(w: World, n: int, name: string, a: int)
    requires Ready(w) && IsAttrOf(w.d, n, a) && w.d[a].name == name && IsXPathAttribute(name)
    requires forall k :: IsAttrOf(w.d, n, k) && w.d[k].name == name ==> a <= k
    ensures forall k :: AttributeFound(w, n, name, k) <==> k == a
  {
    if !w.firstOnly {
      forall k | IsAttrOf(w.d, n, k) && w.d[k].name == name ensures k == a { }
    }
  }

  method EvalCompareAttribute(w: World, e: Expr, c: Context) returns (b: bool)
    requires Evaluable(w, e) && ContextOk(w, c) && e.CompareAttribute?
    ensures b == RefBool(w, e, c)
  {
    var value := if e.value'.StringLit? then e.value'.text else e.value'.value.s;
    assert Ref(w, e.value', c) == StrV(RefText(w, e.value', c));
    assert RefText(w, e.value', c) == value;
    var a := FindAttribute(w.d, c.n, e.name);
    b := a != NULL && w.d[a].value == value && IsXPathAttribute(w.d[a].name);
    if a != NULL && IsXPathAttribute(e.name) {
      FirstIsFound(w, c.n, e.name, a);
    }
  }

  method EvalBool(w: World, e: Expr, c: Context) returns (b: bool)
    requires Evaluable(w, e) && ContextOk(w, c) && TypeOf(e) == TBool
    ensures b == RefBool(w, e, c)
    decreases e, 0, 2
  {
    b := false;
    match e
    case Or(l, r) =>
      b := EvalBoolean(w, l, c);
      if !b { b := EvalBoolean(w, r, c); }
    case And(l, r) =>
      b := EvalBoolean(w, l, c);
      if b { b := EvalBoolean(w, r, c); }
    case Not(x) =>
      var y := EvalBoolean(w, x, c);
      b := !y;
    case BoolLit(v) => b := v;
    case Compare(op, l, r) =>
      if IsRelational(op) { b := CompareInOrder(w, e, c); } else { b := CompareEq(w, e, c); }
    case ToBool(x) => b := EvalBoolean(w, x, c);
    case BoolCall(f, a) =>
      var args := EvalArgs(w, a, c);
      b := w.lib.boolFn(f, args);
    case CompareAttribute(_, _) => b := EvalCompareAttribute(w, e, c);
    case Variable(v) => b := v.b;
    case _ =>
  }

  method EvalBoolean(w: World, e: Expr, c: Context) returns (b: bool)
    requires Evaluable(w, e) && ContextOk(w, c)
    ensures b == TruthOf(Ref(w, e, c))
    decreases e, if TypeOf(e) == TBool then 1 else 6
  {
    match TypeOf(e)
    case TBool =>
      b := EvalBool(w, e, c);
      assert Ref(w, e, c) == BoolV(RefBool(w, e, c));
    case TNum =>
      var n := EvalNumber(w, e, c);
      assert Ref(w, e, c) == NumV(RefNum(w, e, c));
      b := NumTruth(n);
    case TStr =>
      var s := EvalString(w, e, c);
      assert Ref(w, e, c) == StrV(RefText(w, e, c));
      b := s != "";
    case TSet =>
      var ns := EvalNodeSet(w, e, c, EvalAny);
      AnswerEmpty(w.d, ns, EvalAny, NodesOf(Ref(w, e, c)));
      assert Ref(w, e, c) == SetV(RefSet(w, e, c));
      b := ns.items != [];
  }

  // ---------------------------------------------------------------------
  // Comparisons.

  // Is there a node in the list whose string value compares with s?
  method AnyText(w: World, op: CmpOp, items: seq<int>, s: string) returns (b: bool)
    requires WellFormed(w.d) && Nodes(w.d, items)
    ensures b <==> exists x :: x in items && EqText(op, StringValue(w.d, x), s)
  {
    for i := 0 to |items|
      invariant forall k :: 0 <= k < i ==> !EqText(op, StringValue(w.d, items[k]), s)
    {
      var t := StringValueOf(w.d, items[i]);
      if EqText(op, t, s) {
        ghost var x := items[i];
        assert x in items && EqText(op, StringValue(w.d, x), s);
        return true;
      }
    }
    b := false;
  }

  // Is there a node in the list whose number compares with n (on the right, or on the left)?
  method AnyNumber(w: World, op: CmpOp, items: seq<int>, n: Num, nodeFirst: bool) returns (b: bool)
    requires WellFormed(w.d) && Nodes(w.d, items)
    ensures b <==> exists x :: x in items && (if nodeFirst then NumCmp(op, NodeNumber(w, x), n) else NumCmp(op, n, NodeNumber(w, x)))
  {
    for i := 0 to |items|
      invariant forall k :: 0 <= k < i ==> !(if nodeFirst then NumCmp(op, NodeNumber(w, items[k]), n) else NumCmp(op, n, NodeNumber(w, items[k])))
    {
      var t := StringValueOf(w.d, items[i]);
      var x := w.lib.toNumber(t);
      if if nodeFirst then NumCmp(op, x, n) else NumCmp(op, n, x) {
        ghost var y := items[i];
        assert y in items && NodeNumber(w, y) == x;
        return true;
      }
    }
    b := false;
  }

  method AnyPair(w: World, op: CmpOp, ls: seq<int>, rs: seq<int>) returns (b: bool)
    requires WellFormed(w.d) && Nodes(w.d, ls) && Nodes(w.d, rs)
    ensures b <==> exists x, y :: (x in ls && y in rs &&
                                   (if IsRelational(op) then NumCmp(op, NodeNumber(w, x), NodeNumber(w, y))
                                    else EqText(op, StringValue(w.d, x), StringValue(w.d, y))))
  {
    for i := 0 to |ls|
      invariant forall k, y :: 0 <= k < i && y in rs ==>
                  !(if IsRelational(op) then NumCmp(op, NodeNumber(w, ls[k]), NodeNumber(w, y))
                    else EqText(op, StringValue(w.d, ls[k]), StringValue(w.d, y)))
    {
      var s := StringValueOf(w.d, ls[i]);
      var found;
      if IsRelational(op) {
        found := AnyNumber(w, op, rs, w.lib.toNumber(s), false);
      } else {
        found := AnyText(w, op, rs, s);
      }
      if found {
        ghost var x := ls[i];
        assert x in ls;
        ghost var y :| y in rs && if IsRelational(op) then NumCmp(op, NodeNumber(w, x), NodeNumber(w, y))
                                  else EqText(op, StringValue(w.d, x), StringValue(w.d, y));
        return true;
      }
    }
    b := false;
  }

  method CompareEq(w: World, e: Expr, c: Context) returns (b: bool)
    requires Evaluable(w, e) && ContextOk(w, c) && e.Compare? && !IsRelational(e.cmp)
    ensures b == CompareValues(w, e.cmp, Ref(w, e.l, c), Ref(w, e.r, c))
    decreases e, 0, 0
  {
    var op, l, r := e.cmp, e.l, e.r;
    var lt, rt := TypeOf(l), TypeOf(r);
    if lt != TSet && rt != TSet {
      if lt == TBool || rt == TBool {
        var x := EvalBoolean(w, l, c);
        var y := EvalBoolean(w, r, c);
        b := EqBool(op, x, y);
      } else if lt == TNum || rt == TNum {
        var x := EvalNumber(w, l, c);
        var y := EvalNumber(w, r, c);
        b := NumCmp(op, x, y);
      } else {
        var x := EvalString(w, l, c);
        var y := EvalString(w, r, c);
        b := EqText(op, x, y);
      }
    } else if lt == TSet && rt == TSet {
      var ls := EvalNodeSet(w, l, c, EvalAll);
      var rs := EvalNodeSet(w, r, c, EvalAll);
      b := AnyPair(w, op, ls.items, rs.items);
    } else {
      if lt == TSet { l, r, lt, rt := r, l, rt, lt; }
      if lt == TBool {
        var x := EvalBoolean(w, l, c);
        var y := EvalBoolean(w, r, c);
        b := EqBool(op, x, y);
      } else if lt == TNum {
        var x := EvalNumber(w, l, c);
        var rs := EvalNodeSet(w, r, c, EvalAll);
        b := AnyNumber(w, op, rs.items, x, false);
      } else {
        var x := EvalString(w, l, c);
        var rs := EvalNodeSet(w, r, c, EvalAll);
        b := AnyText(w, op, rs.items, x);
      }
    }
  }
  method CompareRel(w: World, ghost e: Expr, op: CmpOp, l: Expr, r: Expr, c: Context) returns (b: bool)
    requires Evaluable(w, l) && Evaluable(w, r) && ContextOk(w, c) && (op == Lt || op == Le)
    requires e.Compare? && ((l == e.l && r == e.r) || (l == e.r && r == e.l))
    ensures b == CompareValues(w, op, Ref(w, l, c), Ref(w, r, c))
    decreases e, 0, 0
  {
    var lt, rt := TypeOf(l), TypeOf(r);
    if lt != TSet && rt != TSet {
      var x := EvalNumber(w, l, c);
      var y := EvalNumber(w, r, c);
      b := NumCmp(op, x, y);
    } else if lt == TSet && rt == TSet {
      var ls := EvalNodeSet(w, l, c, EvalAll);
      var rs := EvalNodeSet(w, r, c, EvalAll);
      b := AnyPair(w, op, ls.items, rs.items);
    } else if lt != TSet {
      var x := EvalNumber(w, l, c);
      var rs := EvalNodeSet(w, r, c, EvalAll);
      b := AnyNumber(w, op, rs.items, x, false);
    } else {
      var ls := EvalNodeSet(w, l, c, EvalAll);
      var y := EvalNumber(w, r, c);
      b := AnyNumber(w, op, ls.items, y, true);
    }
  }

  // a > b is evaluated as b < a.
  method CompareInOrder(w: World, e: Expr, c: Context) returns (b: bool)
    requires Evaluable(w, e) && ContextOk(w, c) && e.Compare? && IsRelational(e.cmp)
    ensures b == CompareValues(w, e.cmp, Ref(w, e.l, c), Ref(w, e.r, c))
    decreases e, 0, 1
  {
    if e.cmp == Gt || e.cmp == Ge {
      MirrorSwaps(w, e.cmp, Ref(w, e.l, c), Ref(w, e.r, c));
      b := CompareRel(w, e, Mirror(e.cmp), e.r, e.l, c);
    } else {
      b := CompareRel(w, e, e.cmp, e.l, e.r, c);
    }
  }
}
