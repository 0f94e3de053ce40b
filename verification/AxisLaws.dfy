/** What XPath 1.0 section 2.2 says of the axes, for every well-formed document: which
    are each other's converse, and that five of them part the document. */
module AxisLaws {
  import opened Documents
  import opened Axes

  /** Apart from attributes, every node is on exactly one of the axes self, ancestor,
      descendant, following and preceding of a node. */
  lemma {:induction false} AxesPartition(d: Doc, n: int, m: int)
    requires WellFormed(d) && IsNode(d, n) && IsNode(d, m) && !IsAttr(d, m)
    ensures InAxis(d, SelfAxis, n, m) || InAxis(d, AncestorAxis, n, m) || InAxis(d, DescendantAxis, n, m)
         || InAxis(d, FollowingAxis, n, m) || InAxis(d, PrecedingAxis, n, m)
    ensures forall a, b :: a in PARTS && b in PARTS && a != b ==> !(InAxis(d, a, n, m) && InAxis(d, b, n, m))
  {
    if IsAncestor(d, n, m) { AncestorBounds(d, n, m); }
    if IsAncestor(d, m, n) { AncestorBounds(d, m, n); }
  }

  const PARTS: set<Axis> := {SelfAxis, AncestorAxis, DescendantAxis, FollowingAxis, PrecedingAxis}

  /** Between nodes that are no attributes the axes come in pairs. */
  lemma {:induction false} AxesConverse(d: Doc, n: int, m: int)
    requires WellFormed(d) && IsNode(d, n) && IsNode(d, m) && !IsAttr(d, n) && !IsAttr(d, m)
    ensures InAxis(d, ParentAxis, n, m) <==> InAxis(d, ChildAxis, m, n)
    ensures InAxis(d, AncestorAxis, n, m) <==> InAxis(d, DescendantAxis, m, n)
    ensures InAxis(d, AncestorOrSelfAxis, n, m) <==> InAxis(d, DescendantOrSelfAxis, m, n)
    ensures InAxis(d, FollowingAxis, n, m) <==> InAxis(d, PrecedingAxis, m, n)
    ensures InAxis(d, FollowingSiblingAxis, n, m) <==> InAxis(d, PrecedingSiblingAxis, m, n)
  {
    if m == d[n].parent { assert 0 < n; }
  }

  /** Siblings share their parent; the or-self axes are what their names say; attributes and
      children are apart and together all nodes with that parent. */
  lemma {:induction false} AxesCompose(d: Doc, n: int, m: int)
    requires WellFormed(d) && IsNode(d, n) && IsNode(d, m)
    ensures InAxis(d, FollowingSiblingAxis, n, m) ==> InAxis(d, FollowingAxis, n, m)
    ensures InAxis(d, PrecedingSiblingAxis, n, m) ==> InAxis(d, PrecedingAxis, n, m)
    ensures InAxis(d, AncestorOrSelfAxis, n, m) <==> InAxis(d, SelfAxis, n, m) || InAxis(d, AncestorAxis, n, m)
    ensures InAxis(d, DescendantOrSelfAxis, n, m) <==> InAxis(d, SelfAxis, n, m) || InAxis(d, DescendantAxis, n, m)
    ensures InAxis(d, ChildAxis, n, m) ==> InAxis(d, DescendantAxis, n, m)
    ensures !(InAxis(d, ChildAxis, n, m) && InAxis(d, AttributeAxis, n, m))
    ensures InAxis(d, ChildAxis, n, m) || InAxis(d, AttributeAxis, n, m) <==> InAxis(d, ParentAxis, m, n)
    ensures !IsAttr(d, n) && !IsAttr(d, m) && m != n ==>
      (InAxis(d, FollowingSiblingAxis, n, m) || InAxis(d, PrecedingSiblingAxis, n, m) <==>
       exists p :: IsNode(d, p) && InAxis(d, ParentAxis, n, p) && InAxis(d, ParentAxis, m, p))
  {
    if 0 < n && 0 < m && d[m].parent == d[n].parent {
      if n < m { ChildHasNoAncestorBetween(d, d[n].parent, n, m); } else if m < n { ChildHasNoAncestorBetween(d, d[n].parent, m, n); }
      assert InAxis(d, ParentAxis, n, d[n].parent) && InAxis(d, ParentAxis, m, d[n].parent);
    }
  }

  /** A descendant is a child or a descendant of a child; an ancestor the parent or an
      ancestor of the parent. */
  lemma {:induction false} AxesRecursive(d: Doc, n: int, m: int)
    requires WellFormed(d) && IsNode(d, n) && IsNode(d, m)
    ensures InAxis(d, AncestorAxis, n, m)
       <==> exists p :: IsNode(d, p) && InAxis(d, ParentAxis, n, p) && InAxis(d, AncestorOrSelfAxis, p, m)
    ensures InAxis(d, DescendantAxis, n, m)
       <==> exists c :: IsNode(d, c) && InAxis(d, ChildAxis, n, c) && InAxis(d, DescendantOrSelfAxis, c, m)
  {
    if 0 < n { assert InAxis(d, ParentAxis, n, d[n].parent); }
    if InAxis(d, DescendantAxis, n, m) {
      var c := TopBelow(d, n, m);
      assert InAxis(d, ChildAxis, n, c) && InAxis(d, DescendantOrSelfAxis, c, m);
    }
    if c :| IsNode(d, c) && InAxis(d, ChildAxis, n, c) && InAxis(d, DescendantOrSelfAxis, c, m) {
      if c != m { AncestorTransitive(d, n, c, m); }
    }
  }

  /** The node tests: * is any name of the principal kind, which is attribute on the attribute
      axis and element elsewhere; a prefix narrows *, and node() passes what any test passes. */
  lemma {:induction false} TestsNest(d: Doc, axis: Axis, test: NodeTest, n: int, m: int)
    requires Rooted(d) && IsNode(d, n) && IsNode(d, m) && InAxis(d, axis, n, m)
    ensures Selected(d, axis, AllNames, n, m) <==> Selected(d, axis, NameTest(d[m].name), n, m)
    ensures Selected(d, axis, AllNames, n, m) <==> Selected(d, axis, AllInNamespace(""), n, m)
    ensures Selected(d, axis, AllNames, n, m) ==> d[m].kind == if axis.AttributeAxis? then Attribute else Element
    ensures Selected(d, axis, test, n, m) ==> Selected(d, axis, AnyNode, n, m)
    ensures forall name :: Selected(d, axis, NameTest(name), n, m) ==> d[m].name == name
    ensures forall p :: Selected(d, axis, AllInNamespace(p), n, m) ==> Selected(d, axis, AllNames, n, m) && p <= d[m].name
    ensures !(Selected(d, axis, TextNode, n, m) && Selected(d, axis, CommentNode, n, m))
    ensures Selected(d, axis, PITarget(d[m].name), n, m) <==> Selected(d, axis, PINode, n, m)
  {
  }

  /** Elements on the child axis pass node() and *; attributes pass them on their axis
      unless they declare a namespace. */
  lemma {:induction false} TestsPass(d: Doc, n: int, m: int)
    requires Rooted(d) && IsNode(d, n) && IsNode(d, m)
    ensures IsChild(d, n, m) ==> Selected(d, ChildAxis, AnyNode, n, m)
    ensures IsChild(d, n, m) && d[m].kind == Element ==> Selected(d, ChildAxis, AllNames, n, m)
    ensures IsChild(d, n, m) ==> (Selected(d, ChildAxis, TextNode, n, m) <==> d[m].kind == PCData || d[m].kind == CData)
    ensures IsChild(d, n, m) ==> (Selected(d, ChildAxis, CommentNode, n, m) <==> d[m].kind == Comment)
    ensures IsChild(d, n, m) ==> (Selected(d, ChildAxis, PINode, n, m) <==> d[m].kind == PI)
    ensures IsAttrOf(d, n, m) ==> (Selected(d, AttributeAxis, AllNames, n, m) <==> !Declares(d[m].name))
    ensures IsAttrOf(d, n, m) ==> (Selected(d, AttributeAxis, AnyNode, n, m) <==> !Declares(d[m].name))
  {
    var name := d[m].name;
    if StartsWith(name, "xmlns") && 6 <= |name| { assert name == "xmlns" + [name[5]] + name[6..]; }
    if name[..|name|] == name && "xmlns:" <= name { assert name[5] == "xmlns:"[5]; }
  }

  // Namespaces in XML 1.0: the attribute xmlns, or one with the prefix xmlns.
  predicate Declares(name: string) {
    name == "xmlns" || "xmlns:" <= name
  }
}
