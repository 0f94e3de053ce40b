/** The node tree that XPath queries run on (pugixml.cpp, xml_node_struct and
    xml_attribute_struct).

    A document is the sequence of its nodes, attributes included, in document
    order: an element comes before its attributes, and its attributes before
    its children.  A pointer is an index into that sequence and NULL is -1.
    Every record carries the links the C++ structures carry; LinksOk says what
    the links mean in terms of parents, and Preorder says when a parent table
    lists a tree in document order. */
module Documents {
  const NULL: int := -1

  datatype Kind =
    | DocumentNode | Element | PCData | CData | Comment
    | PI | Declaration | Doctype | Attribute

  datatype Node = Node(
    kind: Kind, name: string, value: string,
    parent: int, firstChild: int, nextSibling: int, prevSiblingC: int,
    firstAttribute: int, nextAttribute: int)

  type Doc = seq<Node>

  predicate IsNode(d: Doc, i: int) {
    0 <= i < |d|
  }

  predicate IsAttr(d: Doc, i: int)
    requires IsNode(d, i)
  {
    d[i].kind == Attribute
  }

  // Parents precede their children, and the only node without a parent is the root.
  ghost predicate Rooted(d: Doc) {
    && 0 < |d|
    && d[0].parent == NULL && d[0].kind == DocumentNode
    && forall i :: 1 <= i < |d| ==> 0 <= d[i].parent < i
  }

  ghost predicate IsAncestor(d: Doc, a: int, i: int)
    requires Rooted(d) && IsNode(d, i)
    decreases i
  {
    0 < i && (d[i].parent == a || IsAncestor(d, a, d[i].parent))
  }

  ghost predicate AncestorOrSelf(d: Doc, a: int, i: int)
    requires Rooted(d) && IsNode(d, i)
  {
    a == i || IsAncestor(d, a, i)
  }

  // Node i is placed where a preorder listing puts it: its parent is the node
  // listed just before it or one of that node's ancestors.
  ghost predicate PlacedInPreorder(d: Doc, i: int)
    requires Rooted(d) && 1 <= i < |d|
  {
    AncestorOrSelf(d, d[i].parent, i - 1)
  }

  // Attributes are leaves and come straight after their element or a sibling attribute.
  ghost predicate AttributesPlaced(d: Doc, i: int)
    requires Rooted(d) && 1 <= i < |d|
  {
    && !IsAttr(d, d[i].parent)
    && (IsAttr(d, i) ==> d[i].parent == i - 1 || (IsAttr(d, i - 1) && d[i - 1].parent == d[i].parent))
  }

  ghost predicate Preorder(d: Doc) {
    && Rooted(d)
    && (forall i :: 1 <= i < |d| ==> PlacedInPreorder(d, i))
    && (forall i :: 1 <= i < |d| ==> AttributesPlaced(d, i))
  }

  predicate IsChild(d: Doc, p: int, j: int) {
    1 <= j < |d| && d[j].kind != Attribute && d[j].parent == p
  }

  predicate IsAttrOf(d: Doc, p: int, j: int) {
    1 <= j < |d| && d[j].kind == Attribute && d[j].parent == p
  }

  ghost predicate FirstChildOk(d: Doc, i: int)
    requires IsNode(d, i)
  {
    var f := d[i].firstChild;
    if f == NULL then forall j :: !IsChild(d, i, j)
    else IsChild(d, i, f) && forall j :: IsChild(d, i, j) ==> f <= j
  }

  ghost predicate NextSiblingOk(d: Doc, i: int)
    requires IsNode(d, i)
  {
    var s := d[i].nextSibling;
    if s == NULL then i == 0 || forall j :: IsChild(d, d[i].parent, j) ==> j <= i
    else i < s && 0 < i && IsChild(d, d[i].parent, s) && forall j :: IsChild(d, d[i].parent, j) && i < j ==> s <= j
  }

  // The backward sibling links are cyclic: the first child points at the last one,
  // and the root points at itself.
  ghost predicate PrevSiblingOk(d: Doc, i: int)
    requires IsNode(d, i)
  {
    var s := d[i].prevSiblingC;
    if i == 0 then s == 0
    else
      && IsChild(d, d[i].parent, s)
      && if s < i
         then forall j :: IsChild(d, d[i].parent, j) && j < i ==> j <= s
         else (forall j :: IsChild(d, d[i].parent, j) ==> i <= j <= s)
  }

  ghost predicate AttributeLinksOk(d: Doc, i: int)
    requires IsNode(d, i)
  {
    var f := d[i].firstAttribute;
    var s := d[i].nextAttribute;
    && (if f == NULL then forall j :: !IsAttrOf(d, i, j)
        else IsAttrOf(d, i, f) && forall j :: IsAttrOf(d, i, j) ==> f <= j)
    && (IsAttr(d, i) && 0 < i ==>
        if s == NULL then forall j :: IsAttrOf(d, d[i].parent, j) ==> j <= i
        else i < s && IsAttrOf(d, d[i].parent, s) && forall j :: IsAttrOf(d, d[i].parent, j) && i < j ==> s <= j)
  }

  ghost predicate LinksOk(d: Doc, i: int)
    requires IsNode(d, i)
  {
    && AttributeLinksOk(d, i)
    && FirstChildOk(d, i)
    && (d[i].kind != Attribute ==> NextSiblingOk(d, i) && PrevSiblingOk(d, i))
  }

  ghost predicate WellFormed(d: Doc) {
    Preorder(d) && forall i :: 0 <= i < |d| ==> LinksOk(d, i)
  }

  // ---------------------------------------------------------------------
  // The subtree of a node is an interval of the document.

  lemma AncestorBounds(d: Doc, a: int, i: int)
    requires Rooted(d) && IsNode(d, i) && IsAncestor(d, a, i)
    ensures 0 <= a < i
    decreases i
  {
    if d[i].parent != a {
      AncestorBounds(d, a, d[i].parent);
    }
  }

  lemma {:induction false} AncestorTransitive(d: Doc, a: int, b: int, i: int)
    requires Rooted(d) && IsNode(d, i) && IsAncestor(d, b, i) && IsNode(d, b) && IsAncestor(d, a, b)
    ensures IsAncestor(d, a, i)
    decreases i
  {
    if d[i].parent != b {
      AncestorTransitive(d, a, b, d[i].parent);
    }
  }

  lemma AncestorsLinear(d: Doc, a: int, b: int, i: int)
    requires Rooted(d) && IsNode(d, i) && IsAncestor(d, a, i) && IsAncestor(d, b, i) && a < b
    ensures IsNode(d, b) && IsAncestor(d, a, b)
    decreases i
  {
    AncestorBounds(d, b, i);
    if d[i].parent == a {
      AncestorBounds(d, b, d[i].parent);
    } else if d[i].parent != b {
      AncestorsLinear(d, a, b, d[i].parent);
    }
  }

  lemma {:induction false} SubtreeContiguous(d: Doc, a: int, j: int, k: int)
    requires Preorder(d) && IsNode(d, k) && IsAncestor(d, a, k) && a < j <= k
    ensures IsNode(d, j) && IsAncestor(d, a, j)
    decreases k
  {
    AncestorBounds(d, a, k);
    if j < k {
      var p := d[k].parent;
      assert PlacedInPreorder(d, k);
      assert AncestorOrSelf(d, p, k - 1);
      // a is p or an ancestor of p, and p is k-1 or an ancestor of k-1
      if p != a && p != k - 1 {
        AncestorTransitive(d, a, p, k - 1);
      }
      SubtreeContiguous(d, a, j, k - 1);
    }
  }

  // First index past the subtree of a.
  ghost function EndFrom(d: Doc, a: int, j: int): (e: int)
    requires Rooted(d) && IsNode(d, a) && a < j <= |d|
    ensures j <= e <= |d|
    ensures e < |d| ==> !IsAncestor(d, a, e)
    ensures forall k :: j <= k < e ==> IsAncestor(d, a, k)
    decreases |d| - j
  {
    if j < |d| && IsAncestor(d, a, j) then EndFrom(d, a, j + 1) else j
  }

  ghost function End(d: Doc, a: int): (e: int)
    requires Rooted(d) && IsNode(d, a)
    ensures a < e <= |d|
  {
    EndFrom(d, a, a + 1)
  }

  lemma {:induction false} SubtreeIsInterval(d: Doc, a: int, k: int)
    requires Preorder(d) && IsNode(d, a) && IsNode(d, k)
    ensures IsAncestor(d, a, k) <==> a < k < End(d, a)
  {
    if IsAncestor(d, a, k) {
      AncestorBounds(d, a, k);
      if End(d, a) <= k {
        SubtreeContiguous(d, a, End(d, a), k);
        assert false;
      }
    }
  }

  // Subtrees are nested or disjoint.
  lemma {:induction false} EndNested(d: Doc, a: int, i: int)
    requires Preorder(d) && IsNode(d, i) && IsNode(d, a) && IsAncestor(d, a, i)
    ensures End(d, i) <= End(d, a)
  {
    var e := End(d, i) - 1;
    SubtreeIsInterval(d, i, e);
    if e != i {
      AncestorTransitive(d, a, i, e);
    }
    SubtreeIsInterval(d, a, e);
  }

  // The node after a subtree starts the next sibling's subtree, if there is one.
  lemma {:induction false} NextSiblingStartsAtEnd(d: Doc, i: int)
    requires WellFormed(d) && 0 < i < |d| && !IsAttr(d, i)
    ensures d[i].nextSibling != NULL ==> d[i].nextSibling == End(d, i)
    ensures d[i].nextSibling == NULL ==> End(d, i) == End(d, d[i].parent)
  {
    var p := d[i].parent;
    var e := End(d, i);
    assert LinksOk(d, i);
    assert IsAncestor(d, p, i);
    EndNested(d, p, i);
    if e < |d| && IsAncestor(d, p, e) {
      SiblingAtEnd(d, i);
      assert IsChild(d, p, e);
      assert d[i].nextSibling != NULL;
      var s := d[i].nextSibling;
      assert s <= e;
      if s < e {
        SubtreeIsInterval(d, i, s);
        AncestorsLinear(d, p, i, s);
        ChildHasNoAncestorBetween(d, p, i, s);
        assert false;
      }
    } else {
      if e < |d| { SubtreeIsInterval(d, p, e); }
      assert e == End(d, p);
      if d[i].nextSibling != NULL {
        var s := d[i].nextSibling;
        assert IsAncestor(d, p, s);
        SubtreeIsInterval(d, p, s);
        SubtreeIsInterval(d, i, s);
        ChildHasNoAncestorBetween(d, p, i, s);
        assert false;
      }
    }
  }

  // A node whose parent is p has no ancestor below p.
  lemma ChildHasNoAncestorBetween(d: Doc, p: int, i: int, s: int)
    requires Rooted(d) && 0 < s < |d| && d[s].parent == p && p < i
    ensures !IsAncestor(d, i, s)
  {
    if IsAncestor(d, i, s) {
      AncestorBounds(d, i, p);
    }
  }

  // If the subtree of i ends inside its parent's subtree, the next node is a sibling.
  lemma {:induction false} SiblingAtEnd(d: Doc, i: int)
    requires Preorder(d) && 0 < i < |d| && !IsAttr(d, i) && End(d, i) < |d|
    requires IsAncestor(d, d[i].parent, End(d, i))
    ensures IsChild(d, d[i].parent, End(d, i))
  {
    var p, e := d[i].parent, End(d, i);
    var q := d[e].parent;
    assert PlacedInPreorder(d, e);
    // q is an ancestor-or-self of e-1, which lies in the subtree of i
    SubtreeIsInterval(d, i, e - 1);
    assert AncestorOrSelf(d, i, e - 1);
    if q != p {
      assert IsAncestor(d, p, q);
      AncestorBounds(d, p, q);
      // q lies strictly below p and above e, but not in the subtree of i
      if q == e - 1 || IsAncestor(d, i, q) {
        assert false;
      }
      assert IsAncestor(d, q, e - 1);
      if e - 1 == i {
        assert d[i].parent == p;
        ChildHasNoAncestorBetween(d, p, q, i);
        assert false;
      }
      if q < i {
        AncestorsLinear(d, q, i, e - 1);
        ChildHasNoAncestorBetween(d, p, q, i);
        assert false;
      } else {
        AncestorsLinear(d, i, q, e - 1);
        assert false;
      }
    }
    assert AttributesPlaced(d, e);
    AncestorBoundsSelf(d, i, e - 1, p);
    if d[e - 1].parent == p && e - 1 != i {
      ChildHasNoAncestorBetween(d, p, i, e - 1);
      assert false;
    }
  }

  lemma AncestorBoundsSelf(d: Doc, i: int, k: int, p: int)
    requires Rooted(d) && 0 < i < |d| && IsNode(d, k) && AncestorOrSelf(d, i, k) && d[i].parent == p
    ensures p < i <= k
  {
    if i != k { AncestorBounds(d, i, k); }
  }
}
