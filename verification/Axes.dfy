/** XPath axes (XPath 1.0 section 2.2) and the pointer walks that fill them
    (pugixml.cpp, step_push and step_fill).

    InAxis and Matches say which nodes an axis and a node test select, in terms
    of parents and document order only.  The Fill methods follow the links of
    the tree, and each is proved to append exactly the selected nodes, once
    each, in the order of the axis -- or just the first of them when the caller
    asks for one. */
module Axes {
  import opened Documents

  datatype Axis =
    | AncestorAxis | AncestorOrSelfAxis | AttributeAxis | ChildAxis
    | DescendantAxis | DescendantOrSelfAxis | FollowingAxis | FollowingSiblingAxis
    | ParentAxis | PrecedingAxis | PrecedingSiblingAxis | SelfAxis

  datatype NodeTest =
    | NameTest(name: string)
    | AnyNode | CommentNode | PINode | TextNode
    | PITarget(target: string)
    | AllNames
    | AllInNamespace(prefix: string)

  predicate StartsWith(s: string, prefix: string) {
    prefix <= s
  }

  // xmlns and xmlns:p declare namespaces and are not attribute nodes.
  predicate IsXPathAttribute(name: string) {
    !(StartsWith(name, "xmlns") && (|name| == 5 || name[5] == ':'))
  }

  predicate NodeMatches(d: Doc, test: NodeTest, m: int)
    requires IsNode(d, m)
  {
    match test
    case NameTest(name) => d[m].kind == Element && d[m].name == name
    case AnyNode => true
    case CommentNode => d[m].kind == Comment
    case PINode => d[m].kind == PI
    case TextNode => d[m].kind == PCData || d[m].kind == CData
    case PITarget(target) => d[m].kind == PI && d[m].name == target
    case AllNames => d[m].kind == Element
    case AllInNamespace(prefix) => d[m].kind == Element && StartsWith(d[m].name, prefix)
  }

  predicate AttributeMatches(d: Doc, test: NodeTest, m: int)
    requires IsNode(d, m)
  {
    && IsXPathAttribute(d[m].name)
    && match test
       case NameTest(name) => d[m].name == name
       case AnyNode => true
       case AllNames => true
       case AllInNamespace(prefix) => StartsWith(d[m].name, prefix)
       case _ => false
  }

  // The principal node type of an axis is attribute on the attribute axis and
  // element elsewhere, so off that axis an attribute only passes node().
  predicate Matches(d: Doc, axis: Axis, test: NodeTest, m: int)
    requires IsNode(d, m)
  {
    if IsAttr(d, m) then (axis == AttributeAxis || test == AnyNode) && AttributeMatches(d, test, m)
    else NodeMatches(d, test, m)
  }

  ghost predicate InAxis(d: Doc, axis: Axis, n: int, m: int)
    requires Rooted(d) && IsNode(d, n) && IsNode(d, m)
  {
    match axis
    case SelfAxis => m == n
    case ChildAxis => IsChild(d, n, m)
    case AttributeAxis => IsAttrOf(d, n, m)
    case ParentAxis => m == d[n].parent
    case AncestorAxis => IsAncestor(d, m, n)
    case AncestorOrSelfAxis => AncestorOrSelf(d, m, n)
    case DescendantAxis => !IsAttr(d, m) && IsAncestor(d, n, m)
    case DescendantOrSelfAxis => m == n || (!IsAttr(d, m) && IsAncestor(d, n, m))
    case FollowingSiblingAxis => n < m && !IsAttr(d, n) && IsChild(d, d[n].parent, m)
    case PrecedingSiblingAxis => m < n && !IsAttr(d, n) && IsChild(d, d[n].parent, m)
    case FollowingAxis => n < m && !IsAttr(d, m) && !IsAncestor(d, n, m)
    case PrecedingAxis => m < n && !IsAttr(d, m) && !IsAncestor(d, m, n)
  }

  predicate IsReverse(axis: Axis) {
    axis.AncestorAxis? || axis.AncestorOrSelfAxis? || axis.PrecedingAxis? || axis.PrecedingSiblingAxis?
  }

  ghost predicate Selected(d: Doc, axis: Axis, test: NodeTest, n: int, m: int)
    requires Rooted(d) && IsNode(d, n) && IsNode(d, m)
  {
    InAxis(d, axis, n, m) && Matches(d, axis, test, m)
  }

  // The selected nodes below hi, in document order.
  ghost function Up(d: Doc, axis: Axis, test: NodeTest, n: int, hi: int): seq<int>
    requires Rooted(d) && IsNode(d, n) && 0 <= hi <= |d|
    decreases hi
  {
    if hi == 0 then []
    else Up(d, axis, test, n, hi - 1) + (if Selected(d, axis, test, n, hi - 1) then [hi - 1] else [])
  }

  // The selected nodes from lo on, in reverse document order.
  ghost function Down(d: Doc, axis: Axis, test: NodeTest, n: int, lo: int): seq<int>
    requires Rooted(d) && IsNode(d, n) && 0 <= lo <= |d|
    decreases |d| - lo
  {
    if lo == |d| then []
    else Down(d, axis, test, n, lo + 1) + (if Selected(d, axis, test, n, lo) then [lo] else [])
  }

  // The nodes an axis and a node test select from n, in axis order: proximity
  // positions (XPath 1.0 section 2.4) count along this list.
  ghost function Hits(d: Doc, axis: Axis, test: NodeTest, n: int): seq<int>
    requires Rooted(d) && IsNode(d, n)
  {
    if IsReverse(axis) then Down(d, axis, test, n, 0) else Up(d, axis, test, n, |d|)
  }

  function Trim(once: bool, s: seq<int>): seq<int> {
    if once && 0 < |s| then s[..1] else s
  }

  ghost predicate Ascending(s: seq<int>) {
    forall i, j :: 0 <= i < j < |s| ==> s[i] < s[j]
  }

  ghost predicate Descending(s: seq<int>) {
    forall i, j :: 0 <= i < j < |s| ==> s[i] > s[j]
  }

  lemma {:induction false} UpIsAscending(d: Doc, axis: Axis, test: NodeTest, n: int, hi: int)
    requires Rooted(d) && IsNode(d, n) && 0 <= hi <= |d|
    ensures Ascending(Up(d, axis, test, n, hi))
    ensures forall m :: m in Up(d, axis, test, n, hi) <==> 0 <= m < hi && Selected(d, axis, test, n, m)
    decreases hi
  {
    if hi != 0 {
      UpIsAscending(d, axis, test, n, hi - 1);
      var u := Up(d, axis, test, n, hi - 1);
      forall i | 0 <= i < |u| ensures u[i] < hi - 1 {
        assert u[i] in u;
      }
    }
  }

  lemma {:induction false} DownIsDescending(d: Doc, axis: Axis, test: NodeTest, n: int, lo: int)
    requires Rooted(d) && IsNode(d, n) && 0 <= lo <= |d|
    ensures Descending(Down(d, axis, test, n, lo))
    ensures forall m :: m in Down(d, axis, test, n, lo) <==> lo <= m < |d| && Selected(d, axis, test, n, m)
    decreases |d| - lo
  {
    if lo != |d| {
      DownIsDescending(d, axis, test, n, lo + 1);
      var u := Down(d, axis, test, n, lo + 1);
      forall i | 0 <= i < |u| ensures lo < u[i] {
        assert u[i] in u;
      }
    }
  }

  // Hits lists the axis exactly: every selected node, once, in axis order.
  lemma HitsAreTheAxis(d: Doc, axis: Axis, test: NodeTest, n: int)
    requires Rooted(d) && IsNode(d, n)
    ensures forall m :: m in Hits(d, axis, test, n) <==> IsNode(d, m) && Selected(d, axis, test, n, m)
    ensures if IsReverse(axis) then Descending(Hits(d, axis, test, n)) else Ascending(Hits(d, axis, test, n))
  {
    UpIsAscending(d, axis, test, n, |d|);
    DownIsDescending(d, axis, test, n, 0);
  }

  // ---------------------------------------------------------------------
  // What a forward walk has done when it reaches pos: ns was given, r is the
  // result so far, and a walk that wants one node has not met it yet.

  ghost predicate UpTo(d: Doc, axis: Axis, test: NodeTest, n: int, ns: seq<int>, once: bool, r: seq<int>, pos: int)
    requires Rooted(d) && IsNode(d, n)
  {
    && 0 <= pos <= |d|
    && r == ns + Up(d, axis, test, n, pos)
    && (once ==> Up(d, axis, test, n, pos) == [])
  }

  ghost predicate DownTo(d: Doc, axis: Axis, test: NodeTest, n: int, ns: seq<int>, once: bool, r: seq<int>, pos: int)
    requires Rooted(d) && IsNode(d, n)
  {
    && 0 <= pos <= |d|
    && r == ns + Down(d, axis, test, n, pos)
    && (once ==> Down(d, axis, test, n, pos) == [])
  }

  lemma UpAdvance(d: Doc, axis: Axis, test: NodeTest, n: int, ns: seq<int>, once: bool, r: seq<int>, pos: int, next: int)
    requires Rooted(d) && IsNode(d, n) && UpTo(d, axis, test, n, ns, once, r, pos) && pos <= next <= |d|
    requires forall m :: pos <= m < next ==> !InAxis(d, axis, n, m)
    ensures UpTo(d, axis, test, n, ns, once, r, next)
    decreases next
  {
    if pos < next { UpAdvance(d, axis, test, n, ns, once, r, pos, next - 1); }
  }

  lemma DownAdvance(d: Doc, axis: Axis, test: NodeTest, n: int, ns: seq<int>, once: bool, r: seq<int>, pos: int, next: int)
    requires Rooted(d) && IsNode(d, n) && DownTo(d, axis, test, n, ns, once, r, pos) && 0 <= next <= pos
    requires forall m :: next <= m < pos ==> !InAxis(d, axis, n, m)
    ensures DownTo(d, axis, test, n, ns, once, r, next)
    decreases pos - next
  {
    if next < pos { DownAdvance(d, axis, test, n, ns, once, r, pos, next + 1); }
  }

  lemma UpPrefix(d: Doc, axis: Axis, test: NodeTest, n: int, a: int, b: int)
    requires Rooted(d) && IsNode(d, n) && 0 <= a <= b <= |d|
    ensures Up(d, axis, test, n, a) <= Up(d, axis, test, n, b)
    decreases b
  {
    if a < b { UpPrefix(d, axis, test, n, a, b - 1); }
  }

  lemma DownPrefix(d: Doc, axis: Axis, test: NodeTest, n: int, a: int, b: int)
    requires Rooted(d) && IsNode(d, n) && 0 <= a <= b <= |d|
    ensures Down(d, axis, test, n, b) <= Down(d, axis, test, n, a)
    decreases b - a
  {
    if a < b { DownPrefix(d, axis, test, n, a + 1, b); }
  }

  // One visit: either the walk may stop here, or it has handled one node more.
  lemma UpVisit(d: Doc, axis: Axis, test: NodeTest, n: int, ns: seq<int>, once: bool, r: seq<int>, pos: int, r': seq<int>, pushed: bool)
    requires Rooted(d) && IsNode(d, n) && UpTo(d, axis, test, n, ns, once, r, pos) && pos < |d| && !IsReverse(axis)
    requires InAxis(d, axis, n, pos) && pushed == Matches(d, axis, test, pos)
    requires r' == if pushed then r + [pos] else r
    ensures pushed && once ==> r' == ns + Trim(once, Hits(d, axis, test, n))
    ensures !(pushed && once) ==> UpTo(d, axis, test, n, ns, once, r', pos + 1)
  {
    UpPrefix(d, axis, test, n, pos + 1, |d|);
  }

  lemma DownVisit(d: Doc, axis: Axis, test: NodeTest, n: int, ns: seq<int>, once: bool, r: seq<int>, pos: int, r': seq<int>, pushed: bool)
    requires Rooted(d) && IsNode(d, n) && DownTo(d, axis, test, n, ns, once, r, pos + 1) && 0 <= pos && IsReverse(axis)
    requires InAxis(d, axis, n, pos) && pushed == Matches(d, axis, test, pos)
    requires r' == if pushed then r + [pos] else r
    ensures pushed && once ==> r' == ns + Trim(once, Hits(d, axis, test, n))
    ensures !(pushed && once) ==> DownTo(d, axis, test, n, ns, once, r', pos)
  {
    DownPrefix(d, axis, test, n, 0, pos);
  }

  // The child or attribute of n on the way down to m.
  lemma TopBelow(d: Doc, n: int, m: int) returns (c: int)
    requires Preorder(d) && IsNode(d, m) && IsAncestor(d, n, m)
    ensures 0 <= n < c <= m < |d| && d[c].parent == n && AncestorOrSelf(d, c, m)
    ensures IsAttr(d, c) ==> c == m
    decreases m
  {
    AncestorBounds(d, n, m);
    if d[m].parent == n {
      c := m;
    } else {
      c := TopBelow(d, n, d[m].parent);
      assert AttributesPlaced(d, m);
      if d[m].parent != c { AncestorTransitive(d, c, d[m].parent, m); }
    }
  }

  // Between a node and its first child (or its end, if it has none) there are
  // only its attributes.
  lemma OnlyAttributesBeforeFirstChild(d: Doc, n: int)
    requires WellFormed(d) && IsNode(d, n)
    ensures var f := d[n].firstChild; var stop := if f == NULL then End(d, n) else f;
            && n < stop <= End(d, n)
            && (forall m :: n < m < stop ==> IsAttrOf(d, n, m))
            && (forall m :: n < m < stop ==> IsAttr(d, m))
  {
    assert LinksOk(d, n);
    var f := d[n].firstChild;
    var stop := if f == NULL then End(d, n) else f;
    if f != NULL {
      assert IsChild(d, n, f);
      assert IsAncestor(d, n, f);
      SubtreeIsInterval(d, n, f);
    }
    forall m | n < m < stop ensures IsAttrOf(d, n, m) && IsAttr(d, m) {
      SubtreeIsInterval(d, n, m);
      var c := TopBelow(d, n, m);
      if !IsAttr(d, c) {
        assert IsChild(d, n, c);
        if c != m { AncestorBounds(d, c, m); }
      }
    }
  }

  lemma LastChildEnds(d: Doc, n: int)
    requires WellFormed(d) && IsNode(d, n) && d[n].firstChild != NULL
    ensures IsNode(d, d[n].firstChild)
    ensures var c := d[d[n].firstChild].prevSiblingC;
            n < c < |d| && IsChild(d, n, c) && End(d, c) == End(d, n)
  {
    assert LinksOk(d, n);
    var f := d[n].firstChild;
    assert IsChild(d, n, f);
    assert LinksOk(d, f);
    var c := d[f].prevSiblingC;
    assert IsChild(d, n, c);
    assert IsAncestor(d, n, c);
    AncestorBounds(d, n, c);
    assert LinksOk(d, c);
    NextSiblingStartsAtEnd(d, c);
  }

  // prev_sibling_c->next_sibling is null exactly at a first child (and the root).
  lemma PreviousSibling(d: Doc, i: int)
    requires WellFormed(d) && IsNode(d, i) && !IsAttr(d, i)
    ensures IsNode(d, d[i].prevSiblingC) && !IsAttr(d, d[i].prevSiblingC)
    ensures var s := d[i].prevSiblingC;
            && (d[s].nextSibling == NULL <==> i == 0 || d[d[i].parent].firstChild == i)
            && (d[s].nextSibling != NULL ==> s < i && IsChild(d, d[i].parent, s) && d[s].nextSibling == i && End(d, s) == i)
  {
    assert LinksOk(d, i);
    var s := d[i].prevSiblingC;
    if i == 0 {
      assert s == 0;
      assert d[0].nextSibling == NULL;
    } else {
      var p := d[i].parent;
      assert IsChild(d, p, i);
      assert IsChild(d, p, s);
      assert LinksOk(d, s);
      assert LinksOk(d, p);
      var t := d[s].nextSibling;
      if s < i {
        assert t != NULL;
        assert IsChild(d, p, t);
        assert t == i;
        NextSiblingStartsAtEnd(d, s);
      }
    }
  }

  // ---------------------------------------------------------------------
  // step_push and the walks.

  method Push(d: Doc, test: NodeTest, ns: seq<int>, m: int) returns (r: seq<int>, pushed: bool)
    requires IsNode(d, m) && !IsAttr(d, m)
    ensures forall axis :: pushed == Matches(d, axis, test, m)
    ensures r == if pushed then ns + [m] else ns
  {
    pushed := NodeMatches(d, test, m);
    r := if pushed then ns + [m] else ns;
  }

  method VisitUp(d: Doc, ghost axis: Axis, test: NodeTest, ghost n: int, ghost ns: seq<int>, ghost once: bool, r: seq<int>, m: int) returns (r': seq<int>, pushed: bool)
    requires Rooted(d) && IsNode(d, n) && IsNode(d, m) && !IsAttr(d, m) && !IsReverse(axis)
    requires UpTo(d, axis, test, n, ns, once, r, m) && InAxis(d, axis, n, m)
    ensures pushed && once ==> r' == ns + Trim(once, Hits(d, axis, test, n))
    ensures !(pushed && once) ==> UpTo(d, axis, test, n, ns, once, r', m + 1)
  {
    r', pushed := Push(d, test, r, m);
    UpVisit(d, axis, test, n, ns, once, r, m, r', pushed);
  }

  method VisitDown(d: Doc, ghost axis: Axis, test: NodeTest, ghost n: int, ghost ns: seq<int>, ghost once: bool, r: seq<int>, m: int) returns (r': seq<int>, pushed: bool)
    requires Rooted(d) && IsNode(d, n) && IsNode(d, m) && !IsAttr(d, m) && IsReverse(axis)
    requires DownTo(d, axis, test, n, ns, once, r, m + 1) && InAxis(d, axis, n, m)
    ensures pushed && once ==> r' == ns + Trim(once, Hits(d, axis, test, n))
    ensures !(pushed && once) ==> DownTo(d, axis, test, n, ns, once, r', m)
  {
    r', pushed := Push(d, test, r, m);
    DownVisit(d, axis, test, n, ns, once, r, m, r', pushed);
  }

  method PushAttribute(d: Doc, test: NodeTest, ns: seq<int>, m: int) returns (r: seq<int>, pushed: bool)
    requires IsNode(d, m) && IsAttr(d, m)
    ensures pushed == Matches(d, AttributeAxis, test, m)
    ensures test == AnyNode ==> forall axis :: pushed == Matches(d, axis, test, m)
    ensures r == if pushed then ns + [m] else ns
  {
    pushed := AttributeMatches(d, test, m);
    r := if pushed then ns + [m] else ns;
  }

  // Position of a pointer in the document, the end for NULL.
  ghost function At(d: Doc, p: int): int {
    if p == NULL then |d| else p
  }

  method FillAttributes(d: Doc, test: NodeTest, n: int, ns: seq<int>, once: bool) returns (r: seq<int>)
    requires WellFormed(d) && IsNode(d, n) && !IsAttr(d, n)
    ensures r == ns + Trim(once, Hits(d, AttributeAxis, test, n))
  {
    ghost var axis := AttributeAxis;
    r := ns;
    var a := d[n].firstAttribute;
    assert LinksOk(d, n);
    UpAdvance(d, axis, test, n, ns, once, r, 0, At(d, a));
    while a != NULL
      invariant a == NULL || IsAttrOf(d, n, a)
      invariant UpTo(d, axis, test, n, ns, once, r, At(d, a))
      decreases |d| - At(d, a)
    {
      ghost var r0 := r;
      var pushed;
      r, pushed := PushAttribute(d, test, r, a);
      UpVisit(d, axis, test, n, ns, once, r0, a, r, pushed);
      if pushed && once { return; }
      assert LinksOk(d, a);
      ghost var pos := a + 1;
      a := d[a].nextAttribute;
      UpAdvance(d, axis, test, n, ns, once, r, pos, At(d, a));
    }
  }

  method FillChildren(d: Doc, test: NodeTest, n: int, ns: seq<int>, once: bool) returns (r: seq<int>)
    requires WellFormed(d) && IsNode(d, n) && !IsAttr(d, n)
    ensures r == ns + Trim(once, Hits(d, ChildAxis, test, n))
  {
    var c := d[n].firstChild;
    assert LinksOk(d, n);
    r := FillSiblingChain(d, ChildAxis, test, n, n, c, ns, once);
  }

  method FillFollowingSiblings(d: Doc, test: NodeTest, n: int, ns: seq<int>, once: bool) returns (r: seq<int>)
    requires WellFormed(d) && IsNode(d, n) && !IsAttr(d, n)
    ensures r == ns + Trim(once, Hits(d, FollowingSiblingAxis, test, n))
  {
    var c := d[n].nextSibling;
    assert LinksOk(d, n);
    r := FillSiblingChain(d, FollowingSiblingAxis, test, n, d[n].parent, c, ns, once);
  }

  // Where the children of p from start on are the axis, next_sibling leads to its next node.
  lemma NextChildIsNext(d: Doc, axis: Axis, n: int, p: int, start: int, c: int)
    requires WellFormed(d) && IsNode(d, n) && start != NULL && start <= c && IsChild(d, p, c)
    requires forall m :: IsNode(d, m) ==> (InAxis(d, axis, n, m) <==> start <= m && IsChild(d, p, m))
    ensures var x := d[c].nextSibling; x == NULL || (IsChild(d, p, x) && c < x)
    ensures forall m :: c < m < At(d, d[c].nextSibling) ==> !InAxis(d, axis, n, m)
  {
    assert LinksOk(d, c);
  }

  // The loop shared by the child and following-sibling axes: from start on, the
  // children of p are the axis.
  method FillSiblingChain(d: Doc, axis: Axis, test: NodeTest, n: int, p: int, start: int, ns: seq<int>, once: bool)
    returns (r: seq<int>)
    requires WellFormed(d) && IsNode(d, n) && !IsReverse(axis)
    requires start == NULL || IsChild(d, p, start)
    requires forall m :: IsNode(d, m) ==> (InAxis(d, axis, n, m) <==> start != NULL && start <= m && IsChild(d, p, m))
    ensures r == ns + Trim(once, Hits(d, axis, test, n))
  {
    r := ns;
    var c := start;
    UpAdvance(d, axis, test, n, ns, once, r, 0, At(d, c));
    while c != NULL
      invariant c == NULL || (IsChild(d, p, c) && start <= c)
      invariant UpTo(d, axis, test, n, ns, once, r, At(d, c))
      decreases |d| - At(d, c)
    {
      var pushed;
      r, pushed := VisitUp(d, axis, test, n, ns, once, r, c);
      if pushed && once { return; }
      NextChildIsNext(d, axis, n, p, start, c);
      ghost var pos := c + 1;
      c := d[c].nextSibling;
      UpAdvance(d, axis, test, n, ns, once, r, pos, At(d, c));
    }
  }

  method FillPrecedingSiblings(d: Doc, test: NodeTest, n: int, ns: seq<int>, once: bool) returns (r: seq<int>)
    requires WellFormed(d) && IsNode(d, n) && !IsAttr(d, n)
    ensures r == ns + Trim(once, Hits(d, PrecedingSiblingAxis, test, n))
  {
    ghost var axis := PrecedingSiblingAxis;
    r := ns;
    PreviousSibling(d, n);
    var c := d[n].prevSiblingC;
    ghost var seen := n;      // the last node already passed
    DownAdvance(d, axis, test, n, ns, once, r, |d|, n);
    while d[c].nextSibling != NULL
      invariant IsNode(d, seen) && !IsAttr(d, seen) && seen <= n && d[seen].parent == d[n].parent
      invariant c == d[seen].prevSiblingC && IsNode(d, c)
      invariant DownTo(d, axis, test, n, ns, once, r, seen)
      decreases seen
    {
      PreviousSibling(d, seen);
      PreviousSiblingIsNearest(d, seen);
      DownAdvance(d, axis, test, n, ns, once, r, seen, c + 1);
      var pushed;
      r, pushed := VisitDown(d, axis, test, n, ns, once, r, c);
      if pushed && once { return; }
      seen := c;
      c := d[c].prevSiblingC;
      PreviousSibling(d, seen);
    }
    PreviousSibling(d, seen);
    assert seen != 0 ==> LinksOk(d, d[seen].parent);
    DownAdvance(d, axis, test, n, ns, once, r, seen, 0);
  }

  lemma PreviousSiblingIsNearest(d: Doc, i: int)
    requires WellFormed(d) && IsNode(d, i) && !IsAttr(d, i)
    requires IsNode(d, d[i].prevSiblingC) && d[i].prevSiblingC < i
    ensures forall m :: d[i].prevSiblingC < m < i ==> !IsChild(d, d[i].parent, m)
  {
    assert LinksOk(d, i);
  }

  method FillAncestors(d: Doc, axis: Axis, test: NodeTest, n: int, ns: seq<int>, once: bool) returns (r: seq<int>)
    requires WellFormed(d) && IsNode(d, n) && !IsAttr(d, n)
    requires axis == AncestorAxis || axis == AncestorOrSelfAxis
    ensures r == ns + Trim(once, Hits(d, axis, test, n))
  {
    r := ns;
    NoAncestorFrom(d, n);
    DownAdvance(d, axis, test, n, ns, once, r, |d|, n + 1);
    if axis == AncestorOrSelfAxis {
      var pushed;
      r, pushed := VisitDown(d, axis, test, n, ns, once, r, n);
      if pushed && once { return; }
    } else {
      DownAdvance(d, axis, test, n, ns, once, r, n + 1, n);
    }
    r := FillUpwards(d, axis, test, n, d[n].parent, n, ns, r, once);
  }

  // The loop over parent links: everything from below on has been handled, and
  // start is the parent of below.
  method FillUpwards(d: Doc, axis: Axis, test: NodeTest, n: int, start: int, ghost below: int, ghost ns: seq<int>, sofar: seq<int>, once: bool)
    returns (r: seq<int>)
    requires WellFormed(d) && IsNode(d, n) && AncestorOrSelf(d, below, n) && IsNode(d, below) && start == d[below].parent
    requires axis == AncestorAxis || axis == AncestorOrSelfAxis
    requires DownTo(d, axis, test, n, ns, once, sofar, below)
    ensures r == ns + Trim(once, Hits(d, axis, test, n))
  {
    r := sofar;
    var cur := start;
    ghost var last := below;
    while cur != NULL
      invariant IsNode(d, last) && AncestorOrSelf(d, last, n) && cur == d[last].parent
      invariant DownTo(d, axis, test, n, ns, once, r, last)
      decreases last
    {
      NextAncestor(d, cur, last, n);
      assert AttributesPlaced(d, last);
      DownAdvance(d, axis, test, n, ns, once, r, last, cur + 1);
      var pushed;
      r, pushed := VisitDown(d, axis, test, n, ns, once, r, cur);
      if pushed && once { return; }
      last := cur;
      cur := d[cur].parent;
    }
  }

  lemma NoAncestorFrom(d: Doc, n: int)
    requires Rooted(d) && IsNode(d, n)
    ensures forall m :: n <= m < |d| ==> !IsAncestor(d, m, n)
  {
    forall m | n <= m < |d| ensures !IsAncestor(d, m, n) {
      if IsAncestor(d, m, n) { AncestorBounds(d, m, n); }
    }
  }

  // The next ancestor of n above last is last's parent.
  lemma NextAncestor(d: Doc, p: int, last: int, n: int)
    requires Rooted(d) && IsNode(d, n) && 0 < last < |d| && AncestorOrSelf(d, last, n) && d[last].parent == p
    ensures IsNode(d, p) && p < last <= n && IsAncestor(d, p, n)
    ensures forall m :: p < m < last ==> !IsAncestor(d, m, n)
  {
    if last != n {
      AncestorTransitive(d, p, last, n);
      AncestorBounds(d, last, n);
    }
    forall m | p < m < last ensures !IsAncestor(d, m, n) {
      if IsAncestor(d, m, n) {
        if last != n { AncestorsLinear(d, m, last, n); }
        ChildHasNoAncestorBetween(d, p, m, last);
      }
    }
  }

  method FillDescendants(d: Doc, axis: Axis, test: NodeTest, n: int, ns: seq<int>, once: bool) returns (r: seq<int>)
    requires WellFormed(d) && IsNode(d, n) && !IsAttr(d, n)
    requires axis == DescendantAxis || axis == DescendantOrSelfAxis
    ensures r == ns + Trim(once, Hits(d, axis, test, n))
  {
    r := ns;
    DescendantAxisBounds(d, axis, n);
    UpAdvance(d, axis, test, n, ns, once, r, 0, n);
    if axis == DescendantOrSelfAxis {
      var pushed;
      r, pushed := VisitUp(d, axis, test, n, ns, once, r, n);
      if pushed && once { return; }
    } else {
      UpAdvance(d, axis, test, n, ns, once, r, n, n + 1);
    }
    r := FillBelow(d, axis, test, n, ns, r, once);
  }

  // Where the subtree walk of n stands: at cur, or at the end of the subtree.
  ghost function Below(d: Doc, n: int, cur: int): int
    requires Rooted(d) && IsNode(d, n)
  {
    if cur == NULL then End(d, n) else cur
  }

  method FillBelow(d: Doc, axis: Axis, test: NodeTest, n: int, ghost ns: seq<int>, sofar: seq<int>, once: bool) returns (r: seq<int>)
    requires WellFormed(d) && IsNode(d, n) && !IsAttr(d, n)
    requires axis == DescendantAxis || axis == DescendantOrSelfAxis
    requires UpTo(d, axis, test, n, ns, once, sofar, n + 1)
    ensures r == ns + Trim(once, Hits(d, axis, test, n))
  {
    r := sofar;
    DescendantAxisBounds(d, axis, n);
    var cur := FirstBelow(d, n);
    UpAdvance(d, axis, test, n, ns, once, r, n + 1, Below(d, n, cur));
    while cur != NULL
      invariant cur != NULL ==> n < cur < End(d, n) && !IsAttr(d, cur)
      invariant UpTo(d, axis, test, n, ns, once, r, Below(d, n, cur))
      decreases if cur == NULL then 0 else 1, |d| - cur
    {
      ghost var pos := cur;
      var pushed;
      r, pushed := VisitUp(d, axis, test, n, ns, once, r, cur);
      if pushed && once { return; }
      if d[cur].firstChild != NULL {
        FirstChildBelow(d, n, cur);
        cur := d[cur].firstChild;
      } else {
        LeafBelow(d, n, cur);
        cur := SkipSubtreeWithin(d, n, cur);
      }
      UpAdvance(d, axis, test, n, ns, once, r, pos + 1, Below(d, n, cur));
    }
    UpAdvance(d, axis, test, n, ns, once, r, End(d, n), |d|);
  }

  method FirstBelow(d: Doc, n: int) returns (cur: int)
    requires WellFormed(d) && IsNode(d, n)
    ensures cur == d[n].firstChild
    ensures cur != NULL ==> n < cur < End(d, n) && !IsAttr(d, cur)
    ensures forall m :: n < m < Below(d, n, cur) ==> IsAttr(d, m)
  {
    OnlyAttributesBeforeFirstChild(d, n);
    assert LinksOk(d, n);
    cur := d[n].firstChild;
    if cur != NULL { assert IsAncestor(d, n, cur); SubtreeIsInterval(d, n, cur); }
  }

  lemma FirstChildBelow(d: Doc, n: int, cur: int)
    requires WellFormed(d) && IsNode(d, n) && n < cur < End(d, n) && !IsAttr(d, cur) && d[cur].firstChild != NULL
    ensures var f := d[cur].firstChild;
            cur < f < End(d, n) && !IsAttr(d, f) && forall m :: cur < m < f ==> IsAttr(d, m)
  {
    OnlyAttributesBeforeFirstChild(d, cur);
    assert LinksOk(d, cur);
    assert IsAncestor(d, cur, d[cur].firstChild);
    SubtreeIsInterval(d, cur, d[cur].firstChild);
    SubtreeIsInterval(d, n, cur);
    EndNested(d, n, cur);
  }

  lemma LeafBelow(d: Doc, n: int, cur: int)
    requires WellFormed(d) && IsNode(d, n) && n < cur < End(d, n) && !IsAttr(d, cur) && d[cur].firstChild == NULL
    ensures End(d, cur) <= End(d, n)
    ensures forall m :: cur < m < End(d, cur) ==> IsAttr(d, m)
  {
    OnlyAttributesBeforeFirstChild(d, cur);
    SubtreeIsInterval(d, n, cur);
    EndNested(d, n, cur);
  }

  lemma DescendantAxisBounds(d: Doc, axis: Axis, n: int)
    requires WellFormed(d) && IsNode(d, n)
    requires axis == DescendantAxis || axis == DescendantOrSelfAxis
    ensures forall m :: IsNode(d, m) ==>
              (InAxis(d, axis, n, m) <==> (m == n && axis == DescendantOrSelfAxis) || (n < m < End(d, n) && !IsAttr(d, m)))
  {
    DescendantBounds(d, n);
  }

  // Moves to the node that follows the subtree of start, staying below n.
  method SkipSubtreeWithin(d: Doc, n: int, start: int) returns (cur: int)
    requires WellFormed(d) && IsNode(d, n) && n < start < End(d, n) && !IsAttr(d, start)
    ensures cur == if End(d, start) == End(d, n) then NULL else End(d, start)
    ensures cur != NULL ==> n < cur < End(d, n) && !IsAttr(d, cur)
  {
    cur := start;
    while d[cur].nextSibling == NULL
      invariant n < cur < End(d, n) && !IsAttr(d, cur) && End(d, cur) == End(d, start)
      decreases cur
    {
      NextSiblingStartsAtEnd(d, cur);
      UpInside(d, n, cur);
      cur := d[cur].parent;
      if cur == n { return NULL; }
    }
    NextSiblingStartsAtEnd(d, cur);
    SiblingInSubtree(d, n, cur);
    cur := d[cur].nextSibling;
  }

  lemma UpInside(d: Doc, n: int, cur: int)
    requires WellFormed(d) && IsNode(d, n) && n < cur < End(d, n)
    ensures var p := d[cur].parent; p == n || (n < p < End(d, n) && !IsAttr(d, p))
    ensures n == d[cur].parent || 0 < d[cur].parent
  {
    SubtreeIsInterval(d, n, cur);
    assert AttributesPlaced(d, cur);
    if d[cur].parent != n { SubtreeIsInterval(d, n, d[cur].parent); }
  }

  lemma DescendantBounds(d: Doc, n: int)
    requires WellFormed(d) && IsNode(d, n)
    ensures forall m :: IsNode(d, m) ==> (IsAncestor(d, n, m) <==> n < m < End(d, n))
  {
    forall m | IsNode(d, m) ensures IsAncestor(d, n, m) <==> n < m < End(d, n) {
      SubtreeIsInterval(d, n, m);
    }
  }

  lemma SiblingInSubtree(d: Doc, n: int, cur: int)
    requires WellFormed(d) && IsNode(d, n) && n < cur < End(d, n) && !IsAttr(d, cur) && d[cur].nextSibling != NULL
    ensures n < d[cur].nextSibling < End(d, n) && !IsAttr(d, d[cur].nextSibling)
  {
    var s := d[cur].nextSibling;
    var p := d[cur].parent;
    assert LinksOk(d, cur);
    assert IsChild(d, p, s);
    SubtreeIsInterval(d, n, cur);
    if p != n { AncestorTransitive(d, n, p, s); }
    SubtreeIsInterval(d, n, s);
  }

  // Moves to the node that follows the whole subtree of start.
  method SkipSubtree(d: Doc, start: int) returns (cur: int)
    requires WellFormed(d) && IsNode(d, start) && !IsAttr(d, start)
    ensures cur == if End(d, start) == |d| then NULL else End(d, start)
    ensures cur != NULL ==> IsNode(d, cur) && !IsAttr(d, cur)
  {
    cur := start;
    while d[cur].nextSibling == NULL
      invariant IsNode(d, cur) && !IsAttr(d, cur) && End(d, cur) == End(d, start)
      decreases cur
    {
      if cur != 0 {
        NextSiblingStartsAtEnd(d, cur);
        assert AttributesPlaced(d, cur);
      } else {
        RootEnd(d);
      }
      cur := d[cur].parent;
      if cur == NULL { return; }
    }
    assert LinksOk(d, cur);
    assert 0 < cur;
    NextSiblingStartsAtEnd(d, cur);
    cur := d[cur].nextSibling;
  }

  lemma EverythingBelowRoot(d: Doc, i: int)
    requires Rooted(d) && 0 < i < |d|
    ensures IsAncestor(d, 0, i)
    decreases i
  {
    if d[i].parent != 0 { EverythingBelowRoot(d, d[i].parent); }
  }

  lemma RootEnd(d: Doc)
    requires Preorder(d)
    ensures End(d, 0) == |d|
  {
    if End(d, 0) < |d| { EverythingBelowRoot(d, End(d, 0)); }
  }

  // Following axis of a node: from the end of its subtree on, every node that
  // is not an attribute.
  method FillFollowing(d: Doc, test: NodeTest, n: int, ns: seq<int>, once: bool) returns (r: seq<int>)
    requires WellFormed(d) && IsNode(d, n) && !IsAttr(d, n)
    ensures r == ns + Trim(once, Hits(d, FollowingAxis, test, n))
  {
    DescendantBounds(d, n);
    var cur := SkipSubtree(d, n);
    UpAdvance(d, FollowingAxis, test, n, ns, once, ns, 0, At(d, cur));
    r := FillForward(d, test, n, cur, ns, once);
  }

  // Following axis of an attribute: every node after it that is not an
  // attribute, its parent's children included.
  method FillFollowingOfAttribute(d: Doc, test: NodeTest, a: int, p: int, ns: seq<int>, once: bool) returns (r: seq<int>)
    requires WellFormed(d) && IsNode(d, a) && IsAttr(d, a) && p == d[a].parent
    ensures r == ns + Trim(once, Hits(d, FollowingAxis, test, a))
  {
    assert AttributesPlaced(d, a);
    AttributeIsLeaf(d, a);
    OnlyAttributesBeforeFirstChild(d, p);
    assert LinksOk(d, p);
    assert IsAncestor(d, p, a);
    SubtreeIsInterval(d, p, a);
    var cur;
    if d[p].firstChild != NULL {
      cur := d[p].firstChild;
      AttributeBeforeChild(d, a, cur);
    } else {
      cur := SkipSubtree(d, p);
    }
    UpAdvance(d, FollowingAxis, test, a, ns, once, ns, 0, At(d, cur));
    r := FillForward(d, test, a, cur, ns, once);
  }

  lemma AttributeIsLeaf(d: Doc, a: int)
    requires Preorder(d) && IsNode(d, a) && IsAttr(d, a)
    ensures forall m :: IsNode(d, m) ==> !IsAncestor(d, a, m)
  {
    forall m | IsNode(d, m) ensures !IsAncestor(d, a, m) {
      AttributeIsNoAncestor(d, a, m);
    }
  }

  lemma AttributeIsNoAncestor(d: Doc, a: int, m: int)
    requires Preorder(d) && IsNode(d, a) && IsAttr(d, a) && IsNode(d, m)
    ensures !IsAncestor(d, a, m)
    decreases m
  {
    if 0 < m {
      assert AttributesPlaced(d, m);
      AttributeIsNoAncestor(d, a, d[m].parent);
    }
  }

  lemma AttributeBeforeChild(d: Doc, a: int, c: int)
    requires WellFormed(d) && IsNode(d, a) && IsAttr(d, a) && IsChild(d, d[a].parent, c)
    ensures a < c
    decreases a
  {
    assert AttributesPlaced(d, a);
    if c < a && d[a].parent != a - 1 {
      AttributeBeforeChild(d, a - 1, c);
    }
  }

  // Walks the rest of the document from start on.
  method FillForward(d: Doc, test: NodeTest, n: int, start: int, ns: seq<int>, once: bool) returns (r: seq<int>)
    requires WellFormed(d) && IsNode(d, n)
    requires start == NULL || (n < start < |d| && !IsAttr(d, start))
    requires forall m :: IsNode(d, m) && start != NULL && start <= m ==> (InAxis(d, FollowingAxis, n, m) <==> !IsAttr(d, m))
    requires UpTo(d, FollowingAxis, test, n, ns, once, ns, At(d, start))
    ensures r == ns + Trim(once, Hits(d, FollowingAxis, test, n))
  {
    ghost var axis := FollowingAxis;
    r := ns;
    var cur := start;
    while cur != NULL
      invariant cur != NULL ==> start != NULL && start <= cur < |d| && !IsAttr(d, cur)
      invariant UpTo(d, axis, test, n, ns, once, r, At(d, cur))
      decreases |d| - At(d, cur)
    {
      var pushed;
      r, pushed := VisitUp(d, axis, test, n, ns, once, r, cur);
      if pushed && once { return; }
      OnlyAttributesBeforeFirstChild(d, cur);
      assert LinksOk(d, cur);
      ghost var pos := cur + 1;
      if d[cur].firstChild != NULL {
        cur := d[cur].firstChild;
      } else {
        cur := SkipSubtree(d, cur);
      }
      UpAdvance(d, axis, test, n, ns, once, r, pos, At(d, cur));
    }
  }

  // Moves up from n until there is a previous sibling to enter.
  method FillPreceding(d: Doc, test: NodeTest, n: int, ns: seq<int>, once: bool) returns (r: seq<int>)
    requires WellFormed(d) && IsNode(d, n) && !IsAttr(d, n)
    ensures r == ns + Trim(once, Hits(d, PrecedingAxis, test, n))
  {
    ghost var axis := PrecedingAxis;
    r := ns;
    var cur := n;
    DownAdvance(d, axis, test, n, ns, once, r, |d|, n);
    PreviousSibling(d, cur);
    while d[d[cur].prevSiblingC].nextSibling == NULL
      invariant IsNode(d, cur) && !IsAttr(d, cur) && AncestorOrSelf(d, cur, n)
      invariant IsNode(d, d[cur].prevSiblingC)
      invariant DownTo(d, axis, test, n, ns, once, r, cur)
      decreases cur
    {
      PreviousSibling(d, cur);
      if cur != 0 {
        ParentStep(d, cur, n);
        OnlyAttributesBeforeFirstChild(d, d[cur].parent);
        DownAdvance(d, axis, test, n, ns, once, r, cur, d[cur].parent);
      }
      cur := d[cur].parent;
      if cur == NULL { return; }
      PreviousSibling(d, cur);
    }
    PreviousSibling(d, cur);
    ghost var pos := cur;           // everything from pos on has been handled
    if cur != n { AncestorBounds(d, cur, n); }
    cur := d[cur].prevSiblingC;
    r := FillBackward(d, test, n, cur, pos, ns, once);
  }

  lemma ParentStep(d: Doc, cur: int, n: int)
    requires Preorder(d) && 0 < cur < |d| && !IsAttr(d, cur) && IsNode(d, n) && AncestorOrSelf(d, cur, n)
    ensures IsNode(d, d[cur].parent) && !IsAttr(d, d[cur].parent) && IsAncestor(d, d[cur].parent, n)
  {
    assert AttributesPlaced(d, cur);
    if cur != n { AncestorTransitive(d, d[cur].parent, cur, n); }
  }

  // A subtree that ends before n holds no ancestor of n.
  lemma BeforeDisjoint(d: Doc, n: int, s: int, pos: int)
    requires Preorder(d) && IsNode(d, n) && IsNode(d, s) && End(d, s) == pos && s < pos <= n
    ensures forall m :: s <= m < pos ==> !IsAncestor(d, m, n)
  {
    forall m | s <= m < pos ensures !IsAncestor(d, m, n) {
      if IsAncestor(d, m, n) {
        SubtreeIsInterval(d, m, n);
        if m != s {
          SubtreeIsInterval(d, s, m);
          EndNested(d, s, m);
        }
      }
    }
  }

  // node_is_ancestor: note that a node counts as its own ancestor here.
  method IsAncestorWalk(d: Doc, a: int, n: int) returns (b: bool)
    requires Rooted(d) && IsNode(d, n) && IsNode(d, a)
    ensures b == AncestorOrSelf(d, a, n)
  {
    var node := n;
    while node != NULL && node != a
      invariant node == NULL || IsNode(d, node)
      invariant AncestorOrSelf(d, a, n) <==> node != NULL && AncestorOrSelf(d, a, node)
      decreases node
    {
      node := d[node].parent;
    }
    b := node == a;
  }

  // Between a first child and its parent there are only attributes.
  lemma FirstChildClimbs(d: Doc, n: int, cur: int)
    requires WellFormed(d) && IsNode(d, n) && IsNode(d, cur) && !IsAttr(d, cur) && cur != 0 && d[d[cur].parent].firstChild == cur
    ensures 0 <= d[cur].parent < cur && !IsAttr(d, d[cur].parent)
    ensures forall m :: d[cur].parent < m < cur ==> !InAxis(d, PrecedingAxis, n, m)
  {
    assert AttributesPlaced(d, cur);
    OnlyAttributesBeforeFirstChild(d, d[cur].parent);
  }

  // The main loop of the preceding axis: everything from top on has been
  // handled and the subtree of start ends there.  It descends to last children,
  // pushes leaves, and pushes inner nodes on the way up unless they contain n.
  method FillBackward(d: Doc, test: NodeTest, n: int, start: int, ghost top: int, ns: seq<int>, once: bool) returns (r: seq<int>)
    requires WellFormed(d) && IsNode(d, n) && IsNode(d, start) && !IsAttr(d, start)
    requires End(d, start) == top && top <= n
    requires DownTo(d, PrecedingAxis, test, n, ns, once, ns, top)
    ensures r == ns + Trim(once, Hits(d, PrecedingAxis, test, n))
  {
    ghost var axis := PrecedingAxis;
    r := ns;
    var cur := start;
    ghost var pos := top;
    while true
      invariant IsNode(d, cur) && !IsAttr(d, cur) && End(d, cur) == pos && pos <= n
      invariant DownTo(d, axis, test, n, ns, once, r, pos)
      decreases pos, |d| - cur
    {
      if d[cur].firstChild != NULL {
        LastChildEnds(d, cur);
        cur := d[d[cur].firstChild].prevSiblingC;
      } else {
        BeforeDisjoint(d, n, cur, pos);
        OnlyAttributesBeforeFirstChild(d, cur);
        DownAdvance(d, axis, test, n, ns, once, r, pos, cur + 1);
        var pushed;
        r, pushed := VisitDown(d, axis, test, n, ns, once, r, cur);
        if pushed && once { return; }
        PreviousSibling(d, cur);
        ghost var leaf := cur;
        while d[d[cur].prevSiblingC].nextSibling == NULL
          invariant IsNode(d, cur) && !IsAttr(d, cur) && cur <= leaf
          invariant IsNode(d, d[cur].prevSiblingC)
          invariant DownTo(d, axis, test, n, ns, once, r, cur)
          decreases cur
        {
          PreviousSibling(d, cur);
          if cur != 0 {
            FirstChildClimbs(d, n, cur);
            DownAdvance(d, axis, test, n, ns, once, r, cur, d[cur].parent + 1);
          }
          cur := d[cur].parent;
          if cur == NULL { return; }
          var above := IsAncestorWalk(d, cur, n);
          if !above {
            r, pushed := VisitDown(d, axis, test, n, ns, once, r, cur);
            if pushed && once { return; }
          } else {
            DownAdvance(d, axis, test, n, ns, once, r, cur + 1, cur);
          }
          PreviousSibling(d, cur);
        }
        PreviousSibling(d, cur);
        pos := cur;
        cur := d[cur].prevSiblingC;
      }
    }
  }

  // ---------------------------------------------------------------------
  // step_fill on nodes, on attributes, and on whatever the context node is.

  method FillFromNode(d: Doc, axis: Axis, test: NodeTest, n: int, ns: seq<int>, once: bool) returns (r: seq<int>)
    requires WellFormed(d) && IsNode(d, n) && !IsAttr(d, n)
    ensures r == ns + Trim(once, Hits(d, axis, test, n))
  {
    match axis
    case AttributeAxis => r := FillAttributes(d, test, n, ns, once);
    case ChildAxis => r := FillChildren(d, test, n, ns, once);
    case DescendantAxis => r := FillDescendants(d, axis, test, n, ns, once);
    case DescendantOrSelfAxis => r := FillDescendants(d, axis, test, n, ns, once);
    case FollowingSiblingAxis => r := FillFollowingSiblings(d, test, n, ns, once);
    case PrecedingSiblingAxis => r := FillPrecedingSiblings(d, test, n, ns, once);
    case FollowingAxis => r := FillFollowing(d, test, n, ns, once);
    case PrecedingAxis => r := FillPreceding(d, test, n, ns, once);
    case AncestorAxis => r := FillAncestors(d, axis, test, n, ns, once);
    case AncestorOrSelfAxis => r := FillAncestors(d, axis, test, n, ns, once);
    case SelfAxis =>
      var pushed;
      r, pushed := Push(d, test, ns, n);
      SingleHit(d, axis, test, n, n);
    case ParentAxis =>
      r := ns;
      if d[n].parent != NULL {
        assert AttributesPlaced(d, n);
        var pushed;
        r, pushed := Push(d, test, ns, d[n].parent);
      }
      SingleHit(d, axis, test, n, d[n].parent);
  }

  // An axis that holds at most the one node m.
  lemma SingleHit(d: Doc, axis: Axis, test: NodeTest, n: int, m: int)
    requires Rooted(d) && IsNode(d, n) && (m == NULL || IsNode(d, m)) && !IsReverse(axis)
    requires forall k :: IsNode(d, k) ==> (InAxis(d, axis, n, k) <==> k == m)
    ensures Hits(d, axis, test, n) == if m != NULL && Matches(d, axis, test, m) then [m] else []
    ensures forall once :: Trim(once, Hits(d, axis, test, n)) == Hits(d, axis, test, n)
  {
    if m == NULL {
      UpAdvance(d, axis, test, n, [], true, [], 0, |d|);
    } else {
      UpAdvance(d, axis, test, n, [], true, [], 0, m);
      ghost var pushed := Matches(d, axis, test, m);
      UpAdvance(d, axis, test, n, [], false, if pushed then [m] else [], m + 1, |d|);
    }
  }

  // Two context nodes with the same axis members have the same hits.
  lemma SameHits(d: Doc, axis: Axis, test: NodeTest, a: int, b: int, lo: int)
    requires Rooted(d) && IsNode(d, a) && IsNode(d, b) && 0 <= lo <= |d|
    requires forall k :: IsNode(d, k) ==> (InAxis(d, axis, a, k) <==> InAxis(d, axis, b, k))
    ensures Down(d, axis, test, a, lo) == Down(d, axis, test, b, lo)
    decreases |d| - lo
  {
    if lo < |d| { SameHits(d, axis, test, a, b, lo + 1); }
  }

  lemma FirstOf(s: seq<int>) returns (m: int)
    requires s != []
    ensures m in s
  {
    m := s[0];
  }

  lemma NoHits(d: Doc, axis: Axis, test: NodeTest, n: int)
    requires Rooted(d) && IsNode(d, n)
    requires forall k :: IsNode(d, k) ==> !Selected(d, axis, test, n, k)
    ensures Hits(d, axis, test, n) == []
  {
    HitsAreTheAxis(d, axis, test, n);
    var h := Hits(d, axis, test, n);
    if h != [] { var m := FirstOf(h); }
  }

  method FillFromAttribute(d: Doc, axis: Axis, test: NodeTest, a: int, p: int, ns: seq<int>, once: bool) returns (r: seq<int>)
    requires WellFormed(d) && 0 < a < |d| && IsAttr(d, a) && p == d[a].parent
    ensures r == ns + Trim(once, Hits(d, axis, test, a))
  {
    assert AttributesPlaced(d, a);
    AttributeIsLeaf(d, a);
    r := ns;
    match axis
    case AncestorAxis =>
      r := FillUpFromAttribute(d, axis, test, a, p, ns, once);
    case AncestorOrSelfAxis =>
      r := FillUpFromAttribute(d, axis, test, a, p, ns, once);
    case DescendantOrSelfAxis =>
      if test == AnyNode { var pushed; r, pushed := PushAttribute(d, test, r, a); }
      SingleHit(d, axis, test, a, a);
    case SelfAxis =>
      if test == AnyNode { var pushed; r, pushed := PushAttribute(d, test, r, a); }
      SingleHit(d, axis, test, a, a);
    case FollowingAxis =>
      r := FillFollowingOfAttribute(d, test, a, p, ns, once);
    case ParentAxis =>
      var pushed;
      r, pushed := Push(d, test, ns, p);
      SingleHit(d, axis, test, a, p);
    case PrecedingAxis =>
      r := FillPreceding(d, test, p, ns, once);
      PrecedingOfAttribute(d, a);
      SameHits(d, axis, test, a, p, 0);
    case ChildAxis =>
      forall k | IsNode(d, k) ensures !IsChild(d, a, k) { if 0 < k { assert AttributesPlaced(d, k); } }
      NoHits(d, axis, test, a);
    case AttributeAxis =>
      forall k | IsNode(d, k) ensures !IsAttrOf(d, a, k) { if 0 < k { assert AttributesPlaced(d, k); } }
      NoHits(d, axis, test, a);
    case DescendantAxis =>
      NoHits(d, axis, test, a);
    case FollowingSiblingAxis =>
      NoHits(d, axis, test, a);
    case PrecedingSiblingAxis =>
      NoHits(d, axis, test, a);
  }

  method FillUpFromAttribute(d: Doc, axis: Axis, test: NodeTest, a: int, p: int, ns: seq<int>, once: bool) returns (r: seq<int>)
    requires WellFormed(d) && 0 < a < |d| && IsAttr(d, a) && p == d[a].parent
    requires axis == AncestorAxis || axis == AncestorOrSelfAxis
    ensures r == ns + Trim(once, Hits(d, axis, test, a))
  {
    r := ns;
    NoAncestorFrom(d, a);
    DownAdvance(d, axis, test, a, ns, once, r, |d|, a + 1);
    if axis == AncestorOrSelfAxis {
      ghost var r0 := r;
      var pushed := false;
      if test == AnyNode { r, pushed := PushAttribute(d, test, r, a); }
      DownVisit(d, axis, test, a, ns, once, r0, a, r, pushed);
      if pushed && once { return; }
    } else {
      DownAdvance(d, axis, test, a, ns, once, r, a + 1, a);
    }
    r := FillUpwards(d, axis, test, a, p, a, ns, r, once);
  }

  // The preceding axis leaves out attributes and ancestors, so an attribute has
  // the preceding axis of its parent.
  lemma PrecedingOfAttribute(d: Doc, a: int)
    requires WellFormed(d) && 0 < a < |d| && IsAttr(d, a)
    ensures forall k :: IsNode(d, k) ==> (InAxis(d, PrecedingAxis, a, k) <==> InAxis(d, PrecedingAxis, d[a].parent, k))
  {
    var p := d[a].parent;
    assert AttributesPlaced(d, a);
    OnlyAttributesBeforeFirstChild(d, p);
    assert LinksOk(d, p);
    assert IsAncestor(d, p, a);
    SubtreeIsInterval(d, p, a);
    if d[p].firstChild != NULL { AttributeBeforeChild(d, a, d[p].firstChild); }
  }

  // step_fill from a context node: NULL selects nothing.
  method StepFill(d: Doc, axis: Axis, test: NodeTest, n: int, ns: seq<int>, once: bool) returns (r: seq<int>)
    requires WellFormed(d) && (n == NULL || IsNode(d, n))
    ensures r == if n == NULL then ns else ns + Trim(once, Hits(d, axis, test, n))
  {
    if n == NULL {
      r := ns;
    } else if !IsAttr(d, n) {
      r := FillFromNode(d, axis, test, n, ns, once);
    } else {
      r := FillFromAttribute(d, axis, test, n, d[n].parent, ns, once);
    }
  }
}
