/** Predicates during evaluation (pugixml.cpp, eval_once, apply_predicate_*):
    facts about the reference lists FilterFrom and ApplyPreds that the loops of
    the evaluator rely on. */
module XPathPredicates {
  import opened Documents
  import opened Axes
  import opened XPath
  import opened XPathOptimize
  import opened NodeSets
  import Collections

  predicate EvalOnce(t: SetType, mode: Mode) {
    if t == Sorted then mode != EvalAll else mode == EvalAny
  }

  function AxisType(axis: Axis): SetType {
    if IsReverse(axis) then SortedReverse else Sorted
  }

  const ONE: Expr := NumberLit(Fin(1.0))

  // ---------------------------------------------------------------------
  // Filtering keeps order and takes members away.

  lemma {:induction false} FilterMembers(w: World, s: seq<int>, i: nat, e: Expr)
    requires Rooted(w.d) && WellTyped(e) && i <= |s|
    ensures forall m :: m in FilterFrom(w, s, i, e) ==> m in s[i..]
    decreases |s| - i
  {
    if i < |s| {
      FilterMembers(w, s, i + 1, e);
      assert s[i..] == [s[i]] + s[i + 1..];
    }
  }

  lemma {:induction false} FilterOrder(w: World, s: seq<int>, i: nat, e: Expr, t: SetType)
    requires Rooted(w.d) && WellTyped(e) && i <= |s| && OrderedAs(s, t)
    ensures OrderedAs(FilterFrom(w, s, i, e), t)
    decreases |s| - i
  {
    if i < |s| {
      FilterOrder(w, s, i + 1, e, t);
      FilterMembers(w, s, i + 1, e);
      var f := FilterFrom(w, s, i + 1, e);
      forall k | 0 <= k < |f| ensures exists j :: i < j < |s| && s[j] == f[k] {
        var m := f[k];
        assert m in f;
        assert m in s[i + 1..];
      }
    }
  }

  lemma {:induction false} ApplyMembers(w: World, s: seq<int>, p: Preds)
    requires Rooted(w.d) && WellTypedPreds(p)
    ensures forall m :: m in ApplyPreds(w, s, p) ==> m in s
    decreases p
  {
    if p.Pred? {
      FilterMembers(w, s, 0, p.e);
      ApplyMembers(w, FilterFrom(w, s, 0, p.e), p.next);
      assert s[0..] == s;
    }
  }

  lemma {:induction false} ApplyOrder(w: World, s: seq<int>, p: Preds, t: SetType)
    requires Rooted(w.d) && WellTypedPreds(p) && OrderedAs(s, t)
    ensures OrderedAs(ApplyPreds(w, s, p), t)
    decreases p
  {
    if p.Pred? {
      FilterOrder(w, s, 0, p.e, t);
      ApplyOrder(w, FilterFrom(w, s, 0, p.e), p.next, t);
    }
  }

  lemma {:induction false} ApplyNothing(w: World, p: Preds)
    requires Rooted(w.d) && WellTypedPreds(p)
    ensures ApplyPreds(w, [], p) == []
    decreases p
  {
    if p.Pred? { ApplyNothing(w, p.next); }
  }

  // ---------------------------------------------------------------------
  // Constant predicates pick one position.

  // The value of a constant numeric predicate: it depends on the size alone.
  lemma {:induction false} ConstantValue(w: World, e: Expr, test: PredTest, c: Context, c': Context)
    requires Rooted(w.d) && WellTyped(e) && TestSound(e, test) && test in {ConstTest, ConstOneTest} && c.size == c'.size
    ensures Ref(w, e, c) == Ref(w, e, c') && Ref(w, e, c).NumV?
  {
  }

  // p is the only position equal to the number, if it is one.
  ghost predicate Picks(v: Num, p: int) {
    forall k: int :: 1 <= k ==> (IsPosition(v, k) <==> k == p)
  }

  predicate IsPosition(v: Num, k: int) {
    NumEq(v, Fin(k as real))
  }

  // The position a number stands for, 0 if it stands for none.
  function PositionOf(v: Num): (p: int)
    ensures Picks(v, p)
  {
    if v.Fin? && v.r.Floor as real == v.r then v.r.Floor else 0
  }

  ghost function PickedFrom(s: seq<int>, i: nat, p: int): seq<int>
    requires i <= |s|
  {
    if i < p <= |s| then [s[p - 1]] else []
  }

  ghost predicate HoldsOnlyAt(w: World, e: Expr, s: seq<int>, p: int)
    requires Rooted(w.d) && WellTyped(e)
  {
    forall j :: 0 <= j < |s| ==> (Holds(w, e, Context(s[j], j + 1, |s|)) <==> j + 1 == p)
  }

  lemma {:induction false} OneIsLeft(w: World, s: seq<int>, i: nat, e: Expr, p: int)
    requires Rooted(w.d) && WellTyped(e) && i <= |s| && HoldsOnlyAt(w, e, s, p)
    ensures FilterFrom(w, s, i, e) == PickedFrom(s, i, p)
    decreases |s| - i
  {
    if i < |s| { OneIsLeft(w, s, i + 1, e, p); }
  }

  lemma {:induction false} ConstantFilter(w: World, s: seq<int>, e: Expr, test: PredTest, v: Num, p: int)
    requires Rooted(w.d) && WellTyped(e) && TestSound(e, test) && test in {ConstTest, ConstOneTest}
    requires Ref(w, e, Context(NULL, 1, |s|)) == NumV(v) && Picks(v, p)
    ensures FilterFrom(w, s, 0, e) == PickedFrom(s, 0, p)
  {
    forall j | 0 <= j < |s| ensures Holds(w, e, Context(s[j], j + 1, |s|)) <==> j + 1 == p {
      ConstantHolds(w, e, test, Context(s[j], j + 1, |s|), v, p);
    }
    OneIsLeft(w, s, 0, e, p);
  }

  lemma {:induction false} ConstantHolds(w: World, e: Expr, test: PredTest, c: Context, v: Num, p: int)
    requires Rooted(w.d) && WellTyped(e) && TestSound(e, test) && test in {ConstTest, ConstOneTest}
    requires Ref(w, e, Context(NULL, 1, c.size)) == NumV(v) && Picks(v, p) && 1 <= c.pos
    ensures Holds(w, e, c) <==> c.pos == p
  {
    ConstantValue(w, e, test, c, Context(NULL, 1, c.size));
    assert Holds(w, e, c) <==> IsPosition(v, c.pos);
  }

  // [1] keeps the first node of the axis.
  lemma {:induction false} FirstOnly(w: World, s: seq<int>)
    requires Rooted(w.d)
    ensures FilterFrom(w, s, 0, ONE) == if s == [] then [] else [s[0]]
    ensures FilterFrom(w, Trim(true, s), 0, ONE) == FilterFrom(w, s, 0, ONE)
  {
    assert Ref(w, ONE, Context(NULL, 1, |s|)) == NumV(RefNum(w, ONE, Context(NULL, 1, |s|)));
    OnePicks();
    ConstantFilter(w, s, ONE, ConstOneTest, Fin(1.0), 1);
    var t := Trim(true, s);
    assert Ref(w, ONE, Context(NULL, 1, |t|)) == NumV(RefNum(w, ONE, Context(NULL, 1, |t|)));
    ConstantFilter(w, t, ONE, ConstOneTest, Fin(1.0), 1);
  }

  lemma OnePicks()
    ensures Picks(Fin(1.0), 1)
  {
  }

  // ---------------------------------------------------------------------
  // Attributes of one name.

  // XML 1.0 section 3.1: no attribute name may appear more than once in a tag.
  // The parser does not enforce it; only attributes that XPath can see matter here.
  ghost predicate UniqueAttributes(d: Doc) {
    forall p, i, j :: IsAttrOf(d, p, i) && IsAttrOf(d, p, j) && d[i].name == d[j].name && IsXPathAttribute(d[i].name) ==> i == j
  }

  ghost predicate FirstIsAll(d: Doc, n: int, name: string)
    requires Rooted(d) && IsNode(d, n)
  {
    Trim(true, Hits(d, AttributeAxis, NameTest(name), n)) == Hits(d, AttributeAxis, NameTest(name), n)
  }

  // A step attribute::name stops at the first attribute of that name.  That is
  // all of them, for every element and every name, exactly when names are unique.
  lemma {:induction false} FirstAttributeIsEnough(d: Doc)
    requires Rooted(d)
    ensures UniqueAttributes(d) <==> forall n, name :: IsNode(d, n) ==> FirstIsAll(d, n, name)
  {
    if UniqueAttributes(d) {
      forall n, name | IsNode(d, n) ensures FirstIsAll(d, n, name) {
        AttributeByName(d, name, n);
      }
    }
    if forall n, name :: IsNode(d, n) ==> FirstIsAll(d, n, name) {
      forall p, i, j | IsAttrOf(d, p, i) && IsAttrOf(d, p, j) && d[i].name == d[j].name && IsXPathAttribute(d[i].name) ensures i == j {
        HitsAreTheAxis(d, AttributeAxis, NameTest(d[i].name), p);
        assert FirstIsAll(d, p, d[i].name);
        assert Selected(d, AttributeAxis, NameTest(d[i].name), p, i) && Selected(d, AttributeAxis, NameTest(d[i].name), p, j);
        OnlyOne(Hits(d, AttributeAxis, NameTest(d[i].name), p), i, j);
      }
    }
  }

  lemma OnlyOne(s: seq<int>, i: int, j: int)
    requires Trim(true, s) == s && i in s && j in s
    ensures i == j
  {
  }

  // <e a="1" a="2"/>
  const REPEATED: Doc := [
    Node(DocumentNode, "", "", NULL, 1, NULL, 0, NULL, NULL),
    Node(Element, "e", "", 0, NULL, NULL, 1, 2, NULL),
    Node(Attribute, "a", "1", 1, NULL, NULL, NULL, NULL, 3),
    Node(Attribute, "a", "2", 1, NULL, NULL, NULL, NULL, NULL)]

  lemma {:induction false} RepeatedIsWellFormed()
    ensures WellFormed(REPEATED)
  {
    var d := REPEATED;
    assert Rooted(d);
    assert IsAncestor(d, 1, 2) && IsAncestor(d, 1, 3);
    assert forall i :: 1 <= i < |d| ==> PlacedInPreorder(d, i) && AttributesPlaced(d, i);
    assert LinksOk(d, 0) && LinksOk(d, 1) && LinksOk(d, 2) && LinksOk(d, 3);
  }

  // With a repeated name the step loses an attribute.
  lemma {:induction false} RepeatedAttributeIsLost()
    ensures WellFormed(REPEATED) && Hits(REPEATED, AttributeAxis, NameTest("a"), 1) == [2, 3]
    ensures Trim(true, Hits(REPEATED, AttributeAxis, NameTest("a"), 1)) == [2]
  {
    RepeatedIsWellFormed();
    var h := Hits(REPEATED, AttributeAxis, NameTest("a"), 1);
    HitsAreTheAxis(REPEATED, AttributeAxis, NameTest("a"), 1);
    assert Selected(REPEATED, AttributeAxis, NameTest("a"), 1, 2);
    assert Selected(REPEATED, AttributeAxis, NameTest("a"), 1, 3);
    assert forall m :: m in h <==> m in [2, 3];
    AscendingUnique(h, [2, 3]);
  }

  // What attribute::name selects from a node.
  lemma {:induction false} StepByName(w: World, name: string, n: int, m: int)
    requires Rooted(w.d) && IsNode(w.d, n)
    ensures m in StepSet(w, {n}, AttributeAxis, NameTest(name), NoPred) <==> m in Found(w, AttributeAxis, NameTest(name), n)
  {
    FoundIsChosen(w, AttributeAxis, NameTest(name), n);
    assert n in {n};
  }

  ghost predicate SameByName(w: World, n: int, name: string)
    requires Rooted(w.d) && IsNode(w.d, n)
  {
    StepSet(w.(firstOnly := true), {n}, AttributeAxis, NameTest(name), NoPred) == StepSet(w.(firstOnly := false), {n}, AttributeAxis, NameTest(name), NoPred)
  }

  /** Selecting the first attribute of a name is selecting all of them, for every node and
      name, if and only if names are unique. */
  lemma {:induction false} ReadingsAgree(w: World)
    requires Rooted(w.d)
    ensures UniqueAttributes(w.d) <==> forall n, name :: IsNode(w.d, n) ==> SameByName(w, n, name)
  {
    FirstAttributeIsEnough(w.d);
    forall n, name | IsNode(w.d, n) ensures SameByName(w, n, name) <==> FirstIsAll(w.d, n, name) { OneReading(w, n, name); }
  }

  lemma {:induction false} OneReading(w: World, n: int, name: string)
    requires Rooted(w.d) && IsNode(w.d, n)
    ensures SameByName(w, n, name) <==> FirstIsAll(w.d, n, name)
  {
    var first, all := w.(firstOnly := true), w.(firstOnly := false);
    var h := Hits(w.d, AttributeAxis, NameTest(name), n);
    HitsAreTheAxis(w.d, AttributeAxis, NameTest(name), n);
    forall m ensures m in StepSet(first, {n}, AttributeAxis, NameTest(name), NoPred) <==> m in Trim(true, h) { StepByName(first, name, n, m); }
    forall m ensures m in StepSet(all, {n}, AttributeAxis, NameTest(name), NoPred) <==> m in h { StepByName(all, name, n, m); }
    if Trim(true, h) == h {
      Collections.SameSet(StepSet(first, {n}, AttributeAxis, NameTest(name), NoPred), StepSet(all, {n}, AttributeAxis, NameTest(name), NoPred));
    } else {
      assert h[1] in h && h[1] !in Trim(true, h);
    }
  }

  /** So with unique names the two readings of attribute::name are the same. */
  lemma {:induction false} FoundIsAll(w: World, axis: Axis, test: NodeTest, n: int)
    requires Rooted(w.d) && IsNode(w.d, n) && UniqueAttributes(w.d)
    ensures Found(w, axis, test, n) == Hits(w.d, axis, test, n) == Found(w.(firstOnly := !w.firstOnly), axis, test, n)
  {
    if ByName(axis, test) { AttributeByName(w.d, test.name, n); }
  }

  lemma {:induction false} AttributeByName(d: Doc, name: string, n: int)
    requires Rooted(d) && IsNode(d, n) && UniqueAttributes(d)
    ensures |Hits(d, AttributeAxis, NameTest(name), n)| <= 1
  {
    var h := Hits(d, AttributeAxis, NameTest(name), n);
    HitsAreTheAxis(d, AttributeAxis, NameTest(name), n);
    if 2 <= |h| {
      SameName(d, name, n, h[0], h[1]);
    }
  }

  lemma SameName(d: Doc, name: string, n: int, a: int, b: int)
    requires Rooted(d) && IsNode(d, n) && UniqueAttributes(d)
    requires a in Hits(d, AttributeAxis, NameTest(name), n) && b in Hits(d, AttributeAxis, NameTest(name), n)
    ensures a == b
  {
    HitsAreTheAxis(d, AttributeAxis, NameTest(name), n);
    assert IsAttrOf(d, n, a) && IsAttrOf(d, n, b);
  }
}
