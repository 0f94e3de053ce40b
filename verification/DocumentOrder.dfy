/** Document order by walking links (pugixml.cpp, node_is_before_sibling,
    node_is_before and document_order_comparator).  Nodes are numbered in
    document order, so the claim is that the walks compute "less than". */
module DocumentOrder {
  import opened Documents
  import opened Axes

  // Subtrees of different siblings compare like the siblings.
  lemma {:induction false} SiblingsDecide(d: Doc, x: int, y: int, a: int, b: int)
    requires WellFormed(d) && 0 < x < |d| && 0 < y < |d| && x != y && d[x].parent == d[y].parent
    requires IsNode(d, a) && IsNode(d, b) && AncestorOrSelf(d, x, a) && AncestorOrSelf(d, y, b)
    ensures a < b <==> x < y
  {
    SubtreeIsInterval(d, x, a);
    SubtreeIsInterval(d, y, b);
    ChildHasNoAncestorBetween(d, d[x].parent, y, x);
    ChildHasNoAncestorBetween(d, d[x].parent, x, y);
    SubtreeIsInterval(d, x, y);
    SubtreeIsInterval(d, y, x);
  }

  method IsBeforeSibling(d: Doc, ln: int, rn: int) returns (b: bool)
    requires WellFormed(d) && 0 < ln < |d| && 0 < rn < |d| && ln != rn
    requires !IsAttr(d, ln) && !IsAttr(d, rn) && d[ln].parent == d[rn].parent
    ensures b == (ln < rn)
  {
    ghost var p := d[ln].parent;
    assert IsChild(d, p, ln) && IsChild(d, p, rn);
    var ls, rs := ln, rn;
    while ls != NULL && rs != NULL
      invariant ls == NULL || (IsChild(d, p, ls) && ln <= ls)
      invariant rs == NULL || (IsChild(d, p, rs) && rn <= rs)
      invariant ln < rn ==> ls != NULL && ls <= rn
      invariant rn < ln ==> rs != NULL && rs <= ln
      decreases if ls == NULL then 0 else |d| - ls
    {
      if ls == rn { return true; }
      if rs == ln { return false; }
      assert LinksOk(d, ls) && LinksOk(d, rs);
      ls := d[ls].nextSibling;
      rs := d[rs].nextSibling;
    }
    b := rs == NULL;
  }

  ghost function Depth(d: Doc, i: int): nat
    requires Rooted(d) && (i == NULL || IsNode(d, i))
    decreases i
  {
    if i == NULL || i == 0 then (if i == NULL then 0 else 1) else 1 + Depth(d, d[i].parent)
  }

  lemma AncestorStep(d: Doc, x: int, a: int)
    requires Rooted(d) && IsNode(d, a) && 0 < x < |d| && AncestorOrSelf(d, x, a)
    ensures IsNode(d, d[x].parent) && IsAncestor(d, d[x].parent, a)
  {
    if x != a { AncestorTransitive(d, d[x].parent, x, a); }
  }

  // Climbs a node as many levels as there are from probe up to NULL.
  method ClimbWith(d: Doc, probe0: int, node0: int, ghost target: nat) returns (node: int)
    requires Rooted(d) && IsNode(d, node0) && (probe0 == NULL || IsNode(d, probe0))
    requires Depth(d, node0) == target + Depth(d, probe0) && 0 < target
    ensures IsNode(d, node) && AncestorOrSelf(d, node, node0) && Depth(d, node) == target
  {
    var probe := probe0;
    node := node0;
    while probe != NULL
      invariant probe == NULL || IsNode(d, probe)
      invariant IsNode(d, node) && AncestorOrSelf(d, node, node0) && Depth(d, node) == target + Depth(d, probe)
      decreases if probe == NULL then 0 else probe + 1
    {
      probe := d[probe].parent;
      assert node != 0;
      AncestorStep(d, node, node0);
      node := d[node].parent;
    }
  }

  // Two different nodes of one depth: climbs to the children of their common ancestor.
  method ClimbToSiblings(d: Doc, ln0: int, rn0: int) returns (ln: int, rn: int)
    requires WellFormed(d) && IsNode(d, ln0) && IsNode(d, rn0) && ln0 != rn0 && Depth(d, ln0) == Depth(d, rn0)
    requires !IsAttr(d, ln0) && !IsAttr(d, rn0)
    ensures 0 < ln < |d| && 0 < rn < |d| && ln != rn && d[ln].parent == d[rn].parent
    ensures !IsAttr(d, ln) && !IsAttr(d, rn)
    ensures AncestorOrSelf(d, ln, ln0) && AncestorOrSelf(d, rn, rn0)
  {
    ln, rn := ln0, rn0;
    while d[ln].parent != d[rn].parent
      invariant IsNode(d, ln) && IsNode(d, rn) && ln != rn && Depth(d, ln) == Depth(d, rn)
      invariant !IsAttr(d, ln) && !IsAttr(d, rn)
      invariant AncestorOrSelf(d, ln, ln0) && AncestorOrSelf(d, rn, rn0)
      decreases ln
    {
      DepthOne(d, ln);
      DepthOne(d, rn);
      AncestorStep(d, ln, ln0);
      AncestorStep(d, rn, rn0);
      assert AttributesPlaced(d, ln) && AttributesPlaced(d, rn);
      ln, rn := d[ln].parent, d[rn].parent;
    }
    DepthOne(d, ln);
    DepthOne(d, rn);
  }

  lemma DepthOne(d: Doc, i: int)
    requires Rooted(d) && IsNode(d, i)
    ensures 1 <= Depth(d, i)
    ensures Depth(d, i) == 1 <==> i == 0
  {
    if i != 0 { DepthOne(d, d[i].parent); }
  }

  method NodeIsBefore(d: Doc, ln0: int, rn0: int) returns (b: bool)
    requires WellFormed(d) && IsNode(d, ln0) && IsNode(d, rn0) && ln0 != rn0
    requires !IsAttr(d, ln0) && !IsAttr(d, rn0)
    ensures b == (ln0 < rn0)
  {
    var lp, rp := ln0, rn0;
    ghost var k := 0;
    while lp != NULL && rp != NULL && d[lp].parent != d[rp].parent
      invariant lp == NULL || (IsNode(d, lp) && AncestorOrSelf(d, lp, ln0) && !IsAttr(d, lp))
      invariant rp == NULL || (IsNode(d, rp) && AncestorOrSelf(d, rp, rn0) && !IsAttr(d, rp))
      invariant lp != rp && 0 <= k
      invariant Depth(d, ln0) == k + Depth(d, lp) && Depth(d, rn0) == k + Depth(d, rp)
      invariant 0 < k || (lp != NULL && rp != NULL)
      decreases if lp == NULL then 0 else lp + 1
    {
      if lp != 0 { AncestorStep(d, lp, ln0); assert AttributesPlaced(d, lp); }
      if rp != 0 { AncestorStep(d, rp, rn0); assert AttributesPlaced(d, rp); }
      lp, rp, k := d[lp].parent, d[rp].parent, k + 1;
    }
    if lp != NULL && rp != NULL {
      b := IsBeforeSibling(d, lp, rp);
      SiblingsDecide(d, lp, rp, ln0, rn0);
      return;
    }
    var leftHigher := lp == NULL;
    var ln, rn := ln0, rn0;
    DepthOne(d, ln0);
    DepthOne(d, rn0);
    ln := ClimbWith(d, lp, ln0, k);
    rn := ClimbWith(d, rp, rn0, k);
    if ln == rn {
      if leftHigher {
        SameDepthAncestor(d, ln, ln0);
        AncestorBounds(d, ln0, rn0);
      } else {
        SameDepthAncestor(d, rn, rn0);
        AncestorBounds(d, rn0, ln0);
      }
      return leftHigher;
    }
    NotAttrAbove(d, ln, ln0);
    NotAttrAbove(d, rn, rn0);
    ghost var l1, r1 := ln, rn;
    ln, rn := ClimbToSiblings(d, ln, rn);
    if l1 != ln0 && ln != l1 { AncestorTransitive(d, ln, l1, ln0); }
    if r1 != rn0 && rn != r1 { AncestorTransitive(d, rn, r1, rn0); }
    SiblingsDecide(d, ln, rn, ln0, rn0);
    b := IsBeforeSibling(d, ln, rn);
  }

  lemma NotAttrAbove(d: Doc, x: int, a: int)
    requires Preorder(d) && IsNode(d, a) && IsNode(d, x) && AncestorOrSelf(d, x, a) && !IsAttr(d, a)
    ensures !IsAttr(d, x)
  {
    if x != a && IsAttr(d, x) { AttributeIsNoAncestor(d, x, a); }
  }

  lemma AncestorIsShallower(d: Doc, x: int, a: int)
    requires Rooted(d) && IsNode(d, a) && IsNode(d, x) && IsAncestor(d, x, a)
    ensures Depth(d, x) < Depth(d, a)
    decreases a
  {
    if d[a].parent != x { AncestorIsShallower(d, x, d[a].parent); }
  }

  lemma SameDepthAncestor(d: Doc, x: int, a: int)
    requires Rooted(d) && IsNode(d, a) && IsNode(d, x) && AncestorOrSelf(d, x, a) && Depth(d, x) == Depth(d, a)
    ensures x == a
  {
    if x != a { AncestorIsShallower(d, x, a); }
  }

  // What the comparator answers: document order, except that an attribute counts
  // as before itself.
  predicate Precedes(d: Doc, l: int, r: int) {
    l < r || (l == r && IsNode(d, l) && IsAttr(d, l))
  }

  // The comparator on nodes and attributes, without the buffer-pointer
  // shortcut.  It is document order except that an attribute counts as before
  // itself: the sibling loop tests the starting attribute first.
  method DocumentLess(d: Doc, l: int, r: int) returns (b: bool)
    requires WellFormed(d) && IsNode(d, l) && IsNode(d, r)
    ensures b == Precedes(d, l, r)
  {
    var ln, rn := l, r;
    if IsAttr(d, l) && IsAttr(d, r) {
      assert AttributesPlaced(d, l) && AttributesPlaced(d, r);
      if d[l].parent == d[r].parent {
        b := AttributeReaches(d, l, r);
        return;
      }
      ln, rn := d[l].parent, d[r].parent;
      AttributeOrder(d, l);
      AttributeOrder(d, r);
    } else if IsAttr(d, l) {
      assert AttributesPlaced(d, l);
      AttributeOrder(d, l);
      if d[l].parent == r { return false; }
      ln := d[l].parent;
    } else if IsAttr(d, r) {
      assert AttributesPlaced(d, r);
      AttributeOrder(d, r);
      if d[r].parent == l { return true; }
      rn := d[r].parent;
    }
    if ln == rn { return false; }
    b := NodeIsBefore(d, ln, rn);
  }

  // Only attributes stand between an element and its attribute.
  lemma AttributeOrder(d: Doc, a: int)
    requires Preorder(d) && 0 < a < |d| && IsAttr(d, a)
    ensures d[a].parent < a
    ensures forall m :: d[a].parent < m < a ==> IsAttr(d, m) && d[m].parent == d[a].parent
    decreases a
  {
    assert AttributesPlaced(d, a);
    if d[a].parent != a - 1 { AttributeOrder(d, a - 1); }
  }

  method AttributeReaches(d: Doc, l: int, r: int) returns (b: bool)
    requires WellFormed(d) && 0 < l < |d| && 0 < r < |d| && IsAttr(d, l) && IsAttr(d, r) && d[l].parent == d[r].parent
    ensures b == (l <= r)
  {
    ghost var p := d[l].parent;
    assert IsAttrOf(d, p, l) && IsAttrOf(d, p, r);
    var a := l;
    while a != NULL
      invariant a == NULL || (IsAttrOf(d, p, a) && l <= a)
      invariant l <= r ==> a != NULL && a <= r
      decreases if a == NULL then 0 else |d| - a
    {
      if a == r { return true; }
      assert LinksOk(d, a);
      a := d[a].nextAttribute;
    }
    b := false;
  }
}
