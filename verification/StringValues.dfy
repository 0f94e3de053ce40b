/** The string-value of an element or of the document (XPath 1.0 sections 5.1 and 5.2),
    by the links of the tree. */
module StringValues {
  import opened Documents
  import opened Axes
  import opened XPath

  function OwnText(d: Doc, k: int): string
    requires IsNode(d, k)
  {
    if d[k].kind == PCData || d[k].kind == CData then d[k].value else ""
  }

  // The text of the nodes from lo up to hi.
  ghost function Between(d: Doc, lo: int, hi: int): string
    requires 0 <= lo && hi <= |d|
    decreases hi
  {
    if hi <= lo then "" else Between(d, lo, hi - 1) + OwnText(d, hi - 1)
  }

  // Down and along: what is below a node, then what its next siblings hold.
  ghost function RowText(d: Doc, k: int): string
    requires WellFormed(d) && (k == NULL || (IsNode(d, k) && 0 < k && !IsAttr(d, k)))
    decreases if k == NULL then 0 else |d| - k
  {
    if k == NULL then ""
    else
      LinkedBehind(d, k);
      OwnText(d, k) + RowText(d, d[k].firstChild) + RowText(d, d[k].nextSibling)
  }

  lemma LinkedBehind(d: Doc, k: int)
    requires WellFormed(d) && IsNode(d, k) && !IsAttr(d, k)
    ensures d[k].firstChild == NULL || (k < d[k].firstChild < |d| && !IsAttr(d, d[k].firstChild))
    ensures 0 < k ==> d[k].nextSibling == NULL || (k < d[k].nextSibling < |d| && !IsAttr(d, d[k].nextSibling))
  {
    assert LinksOk(d, k);
  }

  lemma {:induction false} BetweenJoin(d: Doc, lo: int, mid: int, hi: int)
    requires 0 <= lo <= mid <= hi <= |d|
    ensures Between(d, lo, hi) == Between(d, lo, mid) + Between(d, mid, hi)
    decreases hi
  {
    if mid < hi { BetweenJoin(d, lo, mid, hi - 1); }
  }

  lemma {:induction false} NoText(d: Doc, lo: int, hi: int)
    requires 0 <= lo && hi <= |d| && forall m :: lo <= m < hi ==> IsAttr(d, m)
    ensures Between(d, lo, hi) == ""
    decreases hi
  {
    if lo < hi {
      assert IsAttr(d, hi - 1);
      NoText(d, lo, hi - 1);
    }
  }

  // Below n there are its attributes and then its row of children.
  lemma {:induction false} BelowText(d: Doc, n: int)
    requires WellFormed(d) && IsNode(d, n) && !IsAttr(d, n)
    ensures d[n].firstChild == NULL || (0 < d[n].firstChild < |d| && !IsAttr(d, d[n].firstChild))
    ensures Between(d, n + 1, End(d, n)) == RowText(d, d[n].firstChild)
    decreases |d| - n, 1
  {
    LinkedBehind(d, n);
    OnlyAttributesBeforeFirstChild(d, n);
    var f := d[n].firstChild;
    var stop := if f == NULL then End(d, n) else f;
    NoText(d, n + 1, stop);
    if f != NULL {
      assert LinksOk(d, n);
      BetweenJoin(d, n + 1, f, End(d, n));
      RowIsBetween(d, f, n);
    }
  }

  // From a child to the end of its parent.
  lemma {:induction false} RowIsBetween(d: Doc, k: int, p: int)
    requires WellFormed(d) && IsNode(d, k) && 0 < k && !IsAttr(d, k) && p == d[k].parent
    ensures k < End(d, p) && Between(d, k, End(d, p)) == RowText(d, k)
    decreases |d| - k, 2
  {
    LinkedBehind(d, k);
    NextSiblingStartsAtEnd(d, k);
    BelowText(d, k);
    assert IsAncestor(d, p, k);
    EndNested(d, p, k);
    OneNode(d, k);
    BetweenJoin(d, k, k + 1, End(d, k));
    BetweenJoin(d, k, End(d, k), End(d, p));
    var s := d[k].nextSibling;
    if s != NULL {
      assert LinksOk(d, k);
      RowIsBetween(d, s, p);
    }
  }

  lemma OneNode(d: Doc, k: int)
    requires IsNode(d, k)
    ensures Between(d, k, k + 1) == OwnText(d, k)
  {
    assert Between(d, k, k) == "";
  }

  // The text below n among the nodes in front of hi.
  ghost function UpTo(d: Doc, n: int, hi: int): string
    requires WellFormed(d) && IsNode(d, n) && 0 <= hi <= |d|
    decreases hi
  {
    if hi == 0 then "" else UpTo(d, n, hi - 1) + if n < hi - 1 < End(d, n) then OwnText(d, hi - 1) else ""
  }

  lemma OneMore(d: Doc, u: seq<int>, m: int)
    requires IsNode(d, m)
    ensures ConcatText(d, u + [m]) == ConcatText(d, u) + d[m].value
  {
    assert (u + [m])[..|u|] == u;
  }

  lemma {:induction false} ListedText(d: Doc, n: int, hi: int)
    requires WellFormed(d) && IsNode(d, n) && 0 <= hi <= |d|
    ensures ConcatText(d, Up(d, DescendantAxis, TextNode, n, hi)) == UpTo(d, n, hi)
    decreases hi
  {
    if hi != 0 {
      var m := hi - 1;
      ListedText(d, n, m);
      SubtreeIsInterval(d, n, m);
      NextListed(d, n, m, Up(d, DescendantAxis, TextNode, n, m), Up(d, DescendantAxis, TextNode, n, hi));
    }
  }

  // One node more: it is listed if it is text below n.
  lemma {:induction false} NextListed(d: Doc, n: int, m: int, u: seq<int>, v: seq<int>)
    requires WellFormed(d) && IsNode(d, n) && IsNode(d, m) && (IsAncestor(d, n, m) <==> n < m < End(d, n))
    requires v == u + if Selected(d, DescendantAxis, TextNode, n, m) then [m] else []
    ensures ConcatText(d, v) == ConcatText(d, u) + if n < m < End(d, n) then OwnText(d, m) else ""
  {
    if Selected(d, DescendantAxis, TextNode, n, m) { OneMore(d, u, m); } else { assert v == u; }
  }

  lemma {:induction false} Nothing(d: Doc, n: int, hi: int)
    requires WellFormed(d) && IsNode(d, n) && 0 <= hi <= n + 1
    ensures UpTo(d, n, hi) == ""
    decreases hi
  {
    if hi != 0 {
      Nothing(d, n, hi - 1);
    }
  }

  // The text descendants of n in document order.
  lemma {:induction false} DescendantsText(d: Doc, n: int, hi: int)
    requires WellFormed(d) && IsNode(d, n) && n < hi <= End(d, n)
    ensures UpTo(d, n, hi) == Between(d, n + 1, hi)
    decreases hi
  {
    if hi == n + 1 {
      Nothing(d, n, hi);
    } else {
      DescendantsText(d, n, hi - 1);
    }
  }

  lemma {:induction false} NoneBehind(d: Doc, n: int, hi: int)
    requires WellFormed(d) && IsNode(d, n) && End(d, n) <= hi <= |d|
    ensures UpTo(d, n, hi) == UpTo(d, n, End(d, n))
    decreases hi
  {
    if End(d, n) < hi {
      NoneBehind(d, n, hi - 1);
    }
  }

  /** The string-value of an element and of the document is the text of its children in
      order, each with what is below it. */
  lemma {:induction false} StringValueByLinks(d: Doc, n: int)
    requires WellFormed(d) && IsNode(d, n) && (d[n].kind == Element || d[n].kind == DocumentNode)
    ensures d[n].firstChild == NULL || (0 < d[n].firstChild < |d| && !IsAttr(d, d[n].firstChild))
    ensures StringValue(d, n) == RowText(d, d[n].firstChild)
  {
    BelowText(d, n);
    DescendantsText(d, n, End(d, n));
    NoneBehind(d, n, |d|);
    ListedText(d, n, |d|);
  }

  /** Every other kind of node but declarations has its own value. */
  lemma OwnStringValue(d: Doc, n: int)
    requires WellFormed(d) && IsNode(d, n)
    ensures d[n].kind in {PCData, CData, Comment, PI, Attribute} ==> StringValue(d, n) == d[n].value
  {
  }
}
