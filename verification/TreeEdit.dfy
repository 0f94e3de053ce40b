/** The intrusive tree of pugixml.cpp (append_node, prepend_node, insert_node_after,
    insert_node_before, remove_node, allow_move and the moves of xml_node).  The
    links, of which prev_sibling_c is cyclic, are edited in place, and each edit is
    the matching operation on the sequences of children.  A node is known by its
    place in the heap. */
module TreeEditing {

  const NULL := -1

  datatype NodeType = NullNode | DocumentNode | ElementNode | PcdataNode | CdataNode | CommentNode | PiNode | DeclarationNode | DoctypeNode

  datatype Contents = Contents(name: string, value: string, attrs: seq<(string, string)>)

  const NOTHING := Contents("", "", [])

  // xml_node_struct
  datatype Node = Node(kind: NodeType, document: int, data: Contents, parent: int, firstChild: int, prevSiblingC: int, nextSibling: int)

  type Heap = seq<Node>

  // The children of every node.
  type Kids = seq<seq<int>>

  predicate IsNode(h: Heap, n: int) {
    0 <= n < |h|
  }

  ghost predicate Distinct(s: seq<int>) {
    forall i, j :: 0 <= i < j < |s| ==> s[i] != s[j]
  }

  // The links around the children ks of p.
  ghost predicate Row(h: Heap, p: int, ks: seq<int>)
    requires IsNode(h, p)
  {
    && h[p].firstChild == (if ks == [] then NULL else ks[0])
    && (forall i :: 0 <= i < |ks| ==> IsNode(h, ks[i]) && InRow(h, p, ks, i))
  }

  // Child number i of p.
  ghost predicate InRow(h: Heap, p: int, ks: seq<int>, i: nat)
    requires i < |ks| && IsNode(h, ks[i])
  {
    && h[ks[i]].parent == p
    && h[ks[i]].nextSibling == (if i + 1 < |ks| then ks[i + 1] else NULL)
    && h[ks[i]].prevSiblingC == (if i == 0 then ks[|ks| - 1] else ks[i - 1])
  }

  // A node below none has no siblings; any other is in the row of its parent.
  ghost predicate Placed(h: Heap, kids: Kids, n: int)
    requires |kids| == |h| && IsNode(h, n)
  {
    if h[n].parent == NULL then h[n].nextSibling == NULL
    else IsNode(h, h[n].parent) && n in kids[h[n].parent]
  }

  // The links spell out kids.
  ghost predicate IsForest(h: Heap, kids: Kids) {
    && |kids| == |h|
    && (forall p :: 0 <= p < |h| ==> Distinct(kids[p]))
    && (forall p :: 0 <= p < |h| ==> Row(h, p, kids[p]))
    && (forall n :: 0 <= n < |h| ==> Placed(h, kids, n))
  }

  function IndexOf(s: seq<int>, n: int): (i: nat)
    requires n in s
    ensures i < |s| && s[i] == n
  {
    if s[0] == n then 0 else 1 + IndexOf(s[1..], n)
  }

  function Inserted(s: seq<int>, i: nat, n: int): (t: seq<int>)
    requires i <= |s|
    ensures |t| == |s| + 1 && t[i] == n
    ensures forall k :: 0 <= k < i ==> t[k] == s[k]
    ensures forall k :: i < k < |t| ==> t[k] == s[k - 1]
  {
    s[..i] + [n] + s[i..]
  }

  function Without(s: seq<int>, i: nat): (t: seq<int>)
    requires i < |s|
    ensures |t| == |s| - 1
    ensures forall k :: 0 <= k < i ==> t[k] == s[k]
    ensures forall k :: i <= k < |t| ==> t[k] == s[k + 1]
  {
    s[..i] + s[i + 1..]
  }

  lemma InRowOf(h: Heap, kids: Kids, p: int, n: int)
    requires IsForest(h, kids) && IsNode(h, p) && n in kids[p]
    ensures IsNode(h, n) && h[n].parent == p && InRow(h, p, kids[p], IndexOf(kids[p], n))
  {
    assert Row(h, p, kids[p]);
  }

  // ---------------------------------------------------------------------
  // Adding a child.

  // Node n of the heap after child has become number i of the children ks of p.
  function Spliced(h: Heap, p: int, ks: seq<int>, i: nat, child: int, n: int): (x: Node)
    requires IsNode(h, n) && i <= |ks|
    ensures SameNode(h[n], x)
  {
    if n == child then
      h[n].(parent := p,
            nextSibling := if i < |ks| then ks[i] else NULL,
            prevSiblingC := if 0 < i then ks[i - 1] else if ks == [] then child else ks[|ks| - 1])
    else
      h[n].(firstChild := if n == p && i == 0 then child else h[n].firstChild,
            nextSibling := if 0 < i && n == ks[i - 1] then child else h[n].nextSibling,
            prevSiblingC := if (i < |ks| && n == ks[i]) || (i == |ks| && 0 < i && n == ks[0]) then child else h[n].prevSiblingC)
  }

  ghost predicate SameNode(x: Node, y: Node) {
    y.kind == x.kind && y.document == x.document && y.data == x.data
  }

  ghost predicate SameNodes(h: Heap, h': Heap) {
    |h| == |h'| && forall n :: 0 <= n < |h'| ==> SameNode(h[n], h'[n])
  }

  ghost predicate IsSpliced(h: Heap, h': Heap, p: int, ks: seq<int>, i: nat, child: int)
    requires i <= |ks|
  {
    |h'| == |h| && forall n :: 0 <= n < |h| ==> h'[n] == Spliced(h, p, ks, i, child, n)
  }

  lemma NotInRow(h: Heap, kids: Kids, p: int, child: int)
    requires IsForest(h, kids) && IsNode(h, p) && IsNode(h, child) && h[child].parent != p
    ensures child !in kids[p]
  {
    if child in kids[p] { InRowOf(h, kids, p, child); }
  }

  lemma OtherRow(h: Heap, h': Heap, kids: Kids, p: int, i: nat, child: int, q: int)
    requires IsForest(h, kids) && IsNode(h, p) && IsNode(h, q) && IsNode(h, child) && p != q && h[child].parent == NULL && child != p
    requires i <= |kids[p]| && IsSpliced(h, h', p, kids[p], i, child)
    ensures Row(h', q, kids[q])
  {
    assert Row(h, q, kids[q]);
    forall k | 0 <= k < |kids[q]| ensures IsNode(h', kids[q][k]) && InRow(h', q, kids[q], k) {
      var n := kids[q][k];
      assert InRow(h, q, kids[q], k) && h[n].parent == q;
      NotInRow(h, kids, p, n);
      assert 0 < i ==> kids[p][i - 1] in kids[p];
      assert i < |kids[p]| ==> kids[p][i] in kids[p];
      assert kids[p] != [] ==> kids[p][0] in kids[p];
    }
  }

  lemma GrownAt(h: Heap, h': Heap, p: int, ks: seq<int>, t: seq<int>, i: nat, child: int, k: nat)
    requires IsNode(h, p) && IsNode(h, child) && Row(h, p, ks) && Distinct(ks) && child !in ks && child != p
    requires i <= |ks| && IsSpliced(h, h', p, ks, i, child) && t == Inserted(ks, i, child) && k < |t|
    ensures IsNode(h', t[k]) && InRow(h', p, t, k)
  {
    if k != i {
      var j := if k < i then k else k - 1;
      assert t[k] == ks[j] && InRow(h, p, ks, j) && ks[j] in ks;
      assert h'[t[k]] == Spliced(h, p, ks, i, child, ks[j]);
    }
  }

  lemma GrownRow(h: Heap, h': Heap, p: int, ks: seq<int>, i: nat, child: int)
    requires IsNode(h, p) && IsNode(h, child) && Row(h, p, ks) && Distinct(ks) && child !in ks && child != p
    requires i <= |ks| && IsSpliced(h, h', p, ks, i, child)
    ensures Row(h', p, Inserted(ks, i, child)) && Distinct(Inserted(ks, i, child))
  {
    var t := Inserted(ks, i, child);
    forall k | 0 <= k < |t| ensures IsNode(h', t[k]) && InRow(h', p, t, k) { GrownAt(h, h', p, ks, t, i, child, k); }
    forall j, k | 0 <= j < k < |t| ensures t[j] != t[k] {
      assert j != i ==> t[j] in ks;
      assert k != i ==> t[k] in ks;
    }
  }

  lemma StaysPlaced(h: Heap, h': Heap, kids: Kids, p: int, i: nat, child: int, n: int)
    requires IsForest(h, kids) && IsNode(h, p) && IsNode(h, n) && IsNode(h, child) && h[child].parent == NULL && child != p
    requires i <= |kids[p]| && IsSpliced(h, h', p, kids[p], i, child)
    ensures Placed(h', kids[p := Inserted(kids[p], i, child)], n)
  {
    var ks := kids[p];
    assert Placed(h, kids, n);
    LinksWith(h, h', p, ks, i, child, n) by { assert Row(h, p, ks); }
    if n == child || h[n].parent == p { StaysInMore(ks, i, child, n); }
  }

  // The parent of a node after one has been linked in, and that another without one keeps having no sibling.
  lemma LinksWith(h: Heap, h': Heap, p: int, ks: seq<int>, i: nat, child: int, n: int)
    requires IsNode(h, p) && IsNode(h, n) && i <= |ks| && Row(h, p, ks) && IsSpliced(h, h', p, ks, i, child)
    ensures h'[n].parent == if n == child then p else h[n].parent
    ensures n != child && h[n].parent == NULL ==> h'[n].nextSibling == h[n].nextSibling
  {
    assert h'[n] == Spliced(h, p, ks, i, child, n);
    if 0 < i { assert InRow(h, p, ks, i - 1); }
  }

  lemma StaysInMore(ks: seq<int>, i: nat, child: int, n: int)
    requires i <= |ks| && (n == child || n in ks)
    ensures n in Inserted(ks, i, child)
  {
    var t := Inserted(ks, i, child);
    if n == child {
      assert t[i] == n;
    } else {
      var k := IndexOf(ks, n);
      assert t[if k < i then k else k + 1] == n;
    }
  }

  /** Linking a detached node in is inserting it into a sequence of children. */
  lemma {:induction false} SpliceInserts(h: Heap, h': Heap, kids: Kids, p: int, i: nat, child: int)
    requires IsForest(h, kids) && IsNode(h, p) && IsNode(h, child) && h[child].parent == NULL && child != p
    requires i <= |kids[p]| && IsSpliced(h, h', p, kids[p], i, child)
    ensures IsForest(h', kids[p := Inserted(kids[p], i, child)])
  {
    NotInRow(h, kids, p, child);
    GrownRow(h, h', p, kids[p], i, child);
    forall q | 0 <= q < |h| && q != p ensures Row(h', q, kids[q]) { OtherRow(h, h', kids, p, i, child, q); }
    var kids' := kids[p := Inserted(kids[p], i, child)];
    forall n | 0 <= n < |h| ensures Placed(h', kids', n) { StaysPlaced(h, h', kids, p, i, child, n); }
  }

  // ---------------------------------------------------------------------
  // Taking a child out.

  // Node n of the heap after number i of the children ks of p has been unlinked.
  function Unlinked(h: Heap, p: int, ks: seq<int>, i: nat, n: int): (x: Node)
    requires IsNode(h, n) && i < |ks|
    ensures SameNode(h[n], x)
  {
    if n == ks[i] then
      h[n].(parent := NULL, prevSiblingC := NULL, nextSibling := NULL)
    else
      h[n].(firstChild := if n != p || i != 0 then h[n].firstChild else if |ks| == 1 then NULL else ks[1],
            nextSibling := if 0 < i && n == ks[i - 1] then (if i + 1 < |ks| then ks[i + 1] else NULL) else h[n].nextSibling,
            prevSiblingC := if i + 1 < |ks| && n == ks[i + 1] then (if i == 0 then ks[|ks| - 1] else ks[i - 1])
                            else if i + 1 == |ks| && 0 < i && n == ks[0] then ks[i - 1]
                            else h[n].prevSiblingC)
  }

  ghost predicate IsUnlinked(h: Heap, h': Heap, p: int, ks: seq<int>, i: nat)
    requires i < |ks|
  {
    |h'| == |h| && forall n :: 0 <= n < |h| ==> h'[n] == Unlinked(h, p, ks, i, n)
  }

  lemma OtherRowStays(h: Heap, h': Heap, kids: Kids, p: int, i: nat, q: int)
    requires IsForest(h, kids) && IsNode(h, p) && IsNode(h, q) && p != q && i < |kids[p]| && IsUnlinked(h, h', p, kids[p], i)
    ensures Row(h', q, kids[q])
  {
    var ks := kids[p];
    assert Row(h, q, kids[q]);
    forall k | 0 <= k < |kids[q]| ensures IsNode(h', kids[q][k]) && InRow(h', q, kids[q], k) {
      var n := kids[q][k];
      assert InRow(h, q, kids[q], k) && h[n].parent == q;
      NotInRow(h, kids, p, n);
      assert ks[i] in ks && ks[0] in ks && (0 < i ==> ks[i - 1] in ks) && (i + 1 < |ks| ==> ks[i + 1] in ks);
    }
  }

  lemma ShrunkRow(h: Heap, h': Heap, p: int, ks: seq<int>, i: nat)
    requires IsNode(h, p) && p !in ks && Row(h, p, ks) && Distinct(ks) && i < |ks| && IsUnlinked(h, h', p, ks, i)
    ensures Row(h', p, Without(ks, i)) && Distinct(Without(ks, i))
  {
    var t := Without(ks, i);
    forall k | 0 <= k < |t| ensures IsNode(h', t[k]) && InRow(h', p, t, k) { ShrunkAt(h, h', p, ks, t, i, k); }
    forall j, k | 0 <= j < k < |t| ensures t[j] != t[k] {
      assert t[j] == ks[if j < i then j else j + 1] && t[k] == ks[if k < i then k else k + 1];
    }
  }

  lemma ShrunkAt(h: Heap, h': Heap, p: int, ks: seq<int>, t: seq<int>, i: nat, k: nat)
    requires IsNode(h, p) && p !in ks && Row(h, p, ks) && Distinct(ks) && i < |ks| && IsUnlinked(h, h', p, ks, i)
    requires t == Without(ks, i) && k < |t|
    ensures IsNode(h', t[k]) && InRow(h', p, t, k)
  {
    var j := if k < i then k else k + 1;
    assert t[k] == ks[j] && InRow(h, p, ks, j);
    assert h'[t[k]] == Unlinked(h, p, ks, i, ks[j]);
  }

  lemma StaysPlacedWithout(h: Heap, h': Heap, kids: Kids, p: int, i: nat, n: int)
    requires IsForest(h, kids) && IsNode(h, p) && IsNode(h, n) && i < |kids[p]| && IsUnlinked(h, h', p, kids[p], i)
    ensures Placed(h', kids[p := Without(kids[p], i)], n)
  {
    var ks := kids[p];
    assert Placed(h, kids, n);
    LinksWithout(h, h', p, ks, i, n) by { assert Row(h, p, ks); }
    if n != ks[i] && h[n].parent == p { StaysIn(ks, i, n); }
  }

  // The parent of a node after one has been unlinked, and that a node without one keeps having no sibling.
  lemma LinksWithout(h: Heap, h': Heap, p: int, ks: seq<int>, i: nat, n: int)
    requires IsNode(h, p) && IsNode(h, n) && i < |ks| && Row(h, p, ks) && IsUnlinked(h, h', p, ks, i)
    ensures h'[n].parent == if n == ks[i] then NULL else h[n].parent
    ensures n == ks[i] ==> h'[n].nextSibling == NULL
    ensures n != ks[i] && h[n].parent == NULL ==> h'[n].nextSibling == h[n].nextSibling
  {
    assert h'[n] == Unlinked(h, p, ks, i, n);
    if 0 < i { assert InRow(h, p, ks, i - 1); }
  }

  lemma StaysIn(ks: seq<int>, i: nat, n: int)
    requires i < |ks| && n in ks && n != ks[i]
    ensures n in Without(ks, i)
  {
    var k := IndexOf(ks, n);
    assert Without(ks, i)[if k < i then k else k - 1] == n;
  }

  /** Unlinking a node is taking it out of a sequence of children. */
  lemma {:induction false} UnlinkRemoves(h: Heap, h': Heap, kids: Kids, p: int, i: nat, kids': Kids)
    requires IsForest(h, kids) && IsNode(h, p) && p !in kids[p] && i < |kids[p]| && IsUnlinked(h, h', p, kids[p], i)
    requires kids' == kids[p := Without(kids[p], i)]
    ensures IsForest(h', kids')
  {
    assert Row(h, p, kids[p]);
    ShrunkRow(h, h', p, kids[p], i);
    forall q | 0 <= q < |h| ensures Row(h', q, kids'[q]) && Distinct(kids'[q]) {
      if q != p { OtherRowStays(h, h', kids, p, i, q); }
    }
    forall n | 0 <= n < |h| ensures Placed(h', kids', n) { StaysPlacedWithout(h, h', kids, p, i, n); }
  }

  // ---------------------------------------------------------------------
  // Ancestors.

  // k levels up from n.
  function Up(h: Heap, n: int, k: nat): int
    decreases k
  {
    if k == 0 || !IsNode(h, n) then n else Up(h, h[n].parent, k - 1)
  }

  // n is c or below it.
  ghost predicate InSubtree(h: Heap, c: int, n: int) {
    exists k: nat :: Up(h, n, k) == c
  }

  ghost predicate DepthOk(h: Heap, depth: seq<nat>) {
    |depth| == |h| && forall n :: 0 <= n < |h| && h[n].parent != NULL ==> IsNode(h, h[n].parent) && depth[h[n].parent] < depth[n]
  }

  ghost predicate Acyclic(h: Heap) {
    exists depth :: DepthOk(h, depth)
  }

  lemma {:induction false} SubtreeStep(h: Heap, c: int, n: int)
    requires IsNode(h, c) && IsNode(h, n)
    ensures InSubtree(h, c, n) <==> n == c || InSubtree(h, c, h[n].parent)
  {
    if n == c { assert Up(h, n, 0) == c; }
    if InSubtree(h, c, h[n].parent) {
      var k: nat :| Up(h, h[n].parent, k) == c;
      assert Up(h, n, k + 1) == c;
    }
    if InSubtree(h, c, n) && n != c {
      var k: nat :| Up(h, n, k) == c;
      assert Up(h, h[n].parent, k - 1) == c;
    }
  }

  lemma {:induction false} NotBelowNull(h: Heap, c: int)
    requires IsNode(h, c)
    ensures !InSubtree(h, c, NULL)
  {
  }

  lemma {:induction false} DepthOfSubtree(h: Heap, depth: seq<nat>, c: int, n: int, k: nat)
    requires DepthOk(h, depth) && IsNode(h, c) && IsNode(h, n) && Up(h, n, k) == c
    ensures depth[c] <= depth[n]
    decreases k
  {
    if k != 0 && n != c { DepthOfSubtree(h, depth, c, h[n].parent, k - 1); }
  }

  // The same parents, but for that of c.
  ghost predicate Reparented(h: Heap, h': Heap, c: int) {
    |h'| == |h| && forall n :: 0 <= n < |h| && n != c ==> h'[n].parent == h[n].parent
  }

  lemma {:induction false} SubtreeStays(h: Heap, h': Heap, c: int, n: int, k: nat)
    requires Reparented(h, h', c) && IsNode(h, c) && Up(h, n, k) == c
    ensures InSubtree(h', c, n)
    decreases k
  {
    if n == c {
      assert Up(h', n, 0) == c;
    } else {
      SubtreeStays(h, h', c, h[n].parent, k - 1);
      SubtreeStep(h', c, n);
    }
  }

  // Depths once c hangs below p, with all that is below c.
  ghost function MovedDepth(h: Heap, depth: seq<nat>, c: int, p: int): (r: seq<nat>)
    requires |depth| == |h| && IsNode(h, p)
    ensures |r| == |h| && forall n :: 0 <= n < |h| ==> r[n] == depth[n] + if InSubtree(h, c, n) then depth[p] + 1 else 0
  {
    seq(|h|, n requires 0 <= n < |h| => depth[n] + if InSubtree(h, c, n) then depth[p] + 1 else 0)
  }

  /** Hanging c below p makes no cycle if and only if p is not in the subtree of c. */
  lemma {:induction false} MoveKeepsAcyclic(h: Heap, h': Heap, c: int, p: int)
    requires Acyclic(h) && Reparented(h, h', c) && IsNode(h, c) && IsNode(h, p) && h'[c].parent == p
    ensures Acyclic(h') <==> !InSubtree(h, c, p)
  {
    if InSubtree(h, c, p) {
      var k: nat :| Up(h, p, k) == c;
      SubtreeStays(h, h', c, p, k);
      if Acyclic(h') {
        var depth :| DepthOk(h', depth);
        var j: nat :| Up(h', p, j) == c;
        DepthOfSubtree(h', depth, c, p, j);
      }
    } else {
      var depth :| DepthOk(h, depth);
      MovedDepthOk(h, h', depth, c, p);
    }
  }

  lemma {:induction false} MovedDepthOk(h: Heap, h': Heap, depth: seq<nat>, c: int, p: int)
    requires DepthOk(h, depth) && Reparented(h, h', c) && IsNode(h, c) && IsNode(h, p) && h'[c].parent == p && !InSubtree(h, c, p)
    ensures DepthOk(h', MovedDepth(h, depth, c, p))
  {
    var r := MovedDepth(h, depth, c, p);
    SubtreeStep(h, c, c);
    forall n | 0 <= n < |h| && h'[n].parent != NULL ensures IsNode(h', h'[n].parent) && r[h'[n].parent] < r[n] {
      if n != c { SubtreeStep(h, c, n); }
    }
  }

  lemma {:induction false} CutKeepsAcyclic(h: Heap, h': Heap, c: int)
    requires Acyclic(h) && Reparented(h, h', c) && IsNode(h, c) && h'[c].parent == NULL
    ensures Acyclic(h')
  {
    var depth :| DepthOk(h, depth);
    assert DepthOk(h', depth);
  }

  lemma {:induction false} NotItsOwnChild(h: Heap, kids: Kids, p: int)
    requires IsForest(h, kids) && Acyclic(h) && IsNode(h, p)
    ensures p !in kids[p]
  {
    var depth :| DepthOk(h, depth);
    if p in kids[p] { InRowOf(h, kids, p, p); }
  }

  predicate AllowInsertChild(parent: NodeType, child: NodeType) {
    && (parent == DocumentNode || parent == ElementNode)
    && child != DocumentNode && child != NullNode
    && (parent == DocumentNode || (child != DeclarationNode && child != DoctypeNode))
  }

  /** Documents and elements hold nodes and nothing else does; everything but documents can be
      held; all that an element holds a document can hold too, and declarations and doctypes
      only a document. */
  lemma {:induction false} WhoHoldsWhom(parent: NodeType, child: NodeType)
    ensures parent in {DocumentNode, ElementNode} <==> exists k :: AllowInsertChild(parent, k)
    ensures child !in {DocumentNode, NullNode} <==> exists p :: AllowInsertChild(p, child)
    ensures AllowInsertChild(ElementNode, child) ==> AllowInsertChild(DocumentNode, child)
    ensures child in {DeclarationNode, DoctypeNode}
       <==> AllowInsertChild(DocumentNode, child) && forall p :: AllowInsertChild(p, child) ==> p == DocumentNode
  {
    assert AllowInsertChild(DocumentNode, ElementNode) && AllowInsertChild(ElementNode, ElementNode);
    if child !in {DocumentNode, NullNode} { assert AllowInsertChild(DocumentNode, child); }
    if child !in {DocumentNode, NullNode, DeclarationNode, DoctypeNode} { assert AllowInsertChild(ElementNode, child); }
  }

  function KindOf(h: Heap, n: int): NodeType {
    if IsNode(h, n) then h[n].kind else NullNode
  }

  // What allow_move is to find out.
  ghost predicate MayMove(h: Heap, parent: int, child: int) {
    && AllowInsertChild(KindOf(h, parent), KindOf(h, child))
    && h[parent].document == h[child].document
    && !InSubtree(h, child, parent)
  }

  // Where a node is in its row.
  ghost function PlaceOf(h: Heap, kids: Kids, n: int): (i: nat)
    requires IsForest(h, kids) && IsNode(h, n) && h[n].parent != NULL
    ensures IsNode(h, h[n].parent) && i < |kids[h[n].parent]| && kids[h[n].parent][i] == n
  {
    assert Placed(h, kids, n);
    IndexOf(kids[h[n].parent], n)
  }

  // Without the node n.
  ghost function Taken(h: Heap, kids: Kids, n: int): (r: Kids)
    requires IsForest(h, kids) && IsNode(h, n) && h[n].parent != NULL
    ensures |r| == |kids|
  {
    var i := PlaceOf(h, kids, n);
    kids[h[n].parent := Without(kids[h[n].parent], i)]
  }

  // The child n has come to lie in front of (offset 0) or behind (1) node.
  ghost predicate NextTo(ks: Kids, kids: Kids, p: int, node: int, offset: nat, n: int)
    requires offset <= 1
  {
    0 <= p < |ks| && exists i :: 0 <= i < |ks[p]| && ks[p][i] == node && kids == ks[p := Inserted(ks[p], i + offset, n)]
  }

  class Tree {
    var heap: Heap
    ghost var kids: Kids
    var shared: set<int>    // documents whose buffer order no longer counts

    ghost predicate Valid()
      reads this
    {
      IsForest(heap, kids)
    }

    // ---------------------------------------------------------------------
    // Linking.

    method AppendNode(child: int, node: int)
      requires Valid() && CanLink(heap, child, node)
      modifies this`heap, this`kids
      ensures Valid() && kids == old(kids)[node := Inserted(old(kids)[node], |old(kids)[node]|, child)]
      ensures Reparented(old(heap), heap, child) && SameNodes(old(heap), heap)
    {
      ghost var h, ks := heap, kids[node];
      LinkFacts(h, kids, node, child, |ks|);
      AppendLinks(child, node, ks);
      SpliceInserts(h, heap, kids, node, |ks|, child);
      kids := kids[node := Inserted(ks, |ks|, child)];
    }

    method AppendLinks(child: int, node: int, ghost ks: seq<int>)
      requires Around(heap, node, ks, |ks|, child)
      modifies this`heap
      ensures IsSpliced(old(heap), heap, node, ks, |ks|, child)
    {
      heap := heap[child := heap[child].(parent := node)];
      var head := heap[node].firstChild;
      if head != NULL {
        var tail := heap[head].prevSiblingC;
        heap := heap[tail := heap[tail].(nextSibling := child)];
        heap := heap[child := heap[child].(prevSiblingC := tail)];
        heap := heap[head := heap[head].(prevSiblingC := child)];
      } else {
        heap := heap[node := heap[node].(firstChild := child)];
        heap := heap[child := heap[child].(prevSiblingC := child)];
      }
    }

    method PrependNode(child: int, node: int)
      requires Valid() && CanLink(heap, child, node)
      modifies this`heap, this`kids
      ensures Valid() && kids == old(kids)[node := Inserted(old(kids)[node], 0, child)]
      ensures Reparented(old(heap), heap, child) && SameNodes(old(heap), heap)
    {
      ghost var h, ks := heap, kids[node];
      LinkFacts(h, kids, node, child, 0);
      PrependLinks(child, node, ks);
      SpliceInserts(h, heap, kids, node, 0, child);
      kids := kids[node := Inserted(ks, 0, child)];
    }

    method PrependLinks(child: int, node: int, ghost ks: seq<int>)
      requires Around(heap, node, ks, 0, child)
      modifies this`heap
      ensures IsSpliced(old(heap), heap, node, ks, 0, child)
    {
      heap := heap[child := heap[child].(parent := node)];
      var head := heap[node].firstChild;
      if head != NULL {
        heap := heap[child := heap[child].(prevSiblingC := heap[head].prevSiblingC)];
        heap := heap[head := heap[head].(prevSiblingC := child)];
      } else {
        heap := heap[child := heap[child].(prevSiblingC := child)];
      }
      heap := heap[child := heap[child].(nextSibling := head)];
      heap := heap[node := heap[node].(firstChild := child)];
    }

    method InsertNodeAfter(child: int, node: int, ghost p: int, ghost i: nat)
      requires Valid() && CanLink(heap, child, p) && i < |kids[p]| && kids[p][i] == node
      modifies this`heap, this`kids
      ensures Valid() && kids == old(kids)[p := Inserted(old(kids)[p], i + 1, child)]
      ensures Reparented(old(heap), heap, child) && SameNodes(old(heap), heap)
    {
      ghost var h, ks := heap, kids[p];
      LinkFacts(h, kids, p, child, i + 1);
      LinksAfter(child, node, p, ks, i + 1);
      SpliceInserts(h, heap, kids, p, i + 1, child);
      kids := kids[p := Inserted(ks, i + 1, child)];
    }

    method LinksAfter(child: int, node: int, ghost p: int, ghost ks: seq<int>, ghost i: nat)
      requires 0 < i <= |ks| && Around(heap, p, ks, i, child) && node == ks[i - 1]
      modifies this`heap
      ensures IsSpliced(old(heap), heap, p, ks, i, child)
    {
      var parent := heap[node].parent;
      heap := heap[child := heap[child].(parent := parent)];
      var next := heap[node].nextSibling;
      if next != NULL {
        heap := heap[next := heap[next].(prevSiblingC := child)];
      } else {
        var head := heap[parent].firstChild;
        heap := heap[head := heap[head].(prevSiblingC := child)];
      }
      heap := heap[child := heap[child].(nextSibling := heap[node].nextSibling)];
      heap := heap[child := heap[child].(prevSiblingC := node)];
      heap := heap[node := heap[node].(nextSibling := child)];
    }

    method InsertNodeBefore(child: int, node: int, ghost p: int, ghost i: nat)
      requires Valid() && CanLink(heap, child, p) && i < |kids[p]| && kids[p][i] == node
      modifies this`heap, this`kids
      ensures Valid() && kids == old(kids)[p := Inserted(old(kids)[p], i, child)]
      ensures Reparented(old(heap), heap, child) && SameNodes(old(heap), heap)
    {
      ghost var h, ks := heap, kids[p];
      LinkFacts(h, kids, p, child, i);
      LinksBefore(child, node, p, ks, i);
      SpliceInserts(h, heap, kids, p, i, child);
      kids := kids[p := Inserted(ks, i, child)];
    }

    method LinksBefore(child: int, node: int, ghost p: int, ghost ks: seq<int>, ghost i: nat)
      requires i < |ks| && Around(heap, p, ks, i, child) && node == ks[i]
      modifies this`heap
      ensures IsSpliced(old(heap), heap, p, ks, i, child)
    {
      var parent := heap[node].parent;
      heap := heap[child := heap[child].(parent := parent)];
      var prev := heap[node].prevSiblingC;
      if heap[prev].nextSibling != NULL {
        heap := heap[prev := heap[prev].(nextSibling := child)];
      } else {
        heap := heap[parent := heap[parent].(firstChild := child)];
      }
      heap := heap[child := heap[child].(prevSiblingC := heap[node].prevSiblingC)];
      heap := heap[child := heap[child].(nextSibling := node)];
      heap := heap[node := heap[node].(prevSiblingC := child)];
    }

    method RemoveNode(node: int, ghost p: int, ghost i: nat)
      requires Valid() && IsNode(heap, p) && i < |kids[p]| && kids[p][i] == node && p !in kids[p]
      modifies this`heap, this`kids
      ensures Valid() && IsNode(heap, node) && kids == old(kids)[p := Without(old(kids)[p], i)]
      ensures Reparented(old(heap), heap, node) && heap[node].parent == NULL && SameNodes(old(heap), heap)
    {
      ghost var h, ks := heap, kids[p];
      UnlinkFacts(h, kids, p, i);
      RemoveLinks(node, p, ks, i);
      UnlinkRemoves(h, heap, kids, p, i, kids[p := Without(ks, i)]);
      kids := kids[p := Without(ks, i)];
    }

    method RemoveLinks(node: int, ghost p: int, ghost ks: seq<int>, ghost i: nat)
      requires Inside(heap, p, ks, i) && node == ks[i]
      modifies this`heap
      ensures IsUnlinked(old(heap), heap, p, ks, i)
    {
      var parent := heap[node].parent;
      var next := heap[node].nextSibling;
      if next != NULL {
        heap := heap[next := heap[next].(prevSiblingC := heap[node].prevSiblingC)];
      } else {
        var head := heap[parent].firstChild;
        heap := heap[head := heap[head].(prevSiblingC := heap[node].prevSiblingC)];
      }
      var prev := heap[node].prevSiblingC;
      if heap[prev].nextSibling != NULL {
        heap := heap[prev := heap[prev].(nextSibling := next)];
      } else {
        heap := heap[parent := heap[parent].(firstChild := next)];
      }
      heap := heap[node := heap[node].(parent := NULL, prevSiblingC := NULL, nextSibling := NULL)];
    }
  
    // ---------------------------------------------------------------------
    // Moving (xml_node).

    ghost predicate Sound()
      reads this
    {
      Valid() && Acyclic(heap)
    }

    /** allow_move */
    method AllowMove(parent: int, child: int) returns (ok: bool)
      requires Sound() && (parent == NULL || IsNode(heap, parent)) && (child == NULL || IsNode(heap, child))
      ensures ok <==> MayMove(heap, parent, child)
    {
      if !AllowInsertChild(KindOf(heap, parent), KindOf(heap, child)) { return false; }
      if heap[parent].document != heap[child].document { return false; }
      ghost var depth :| DepthOk(heap, depth);
      var cur := parent;
      while cur != NULL
        invariant cur == NULL || IsNode(heap, cur)
        invariant InSubtree(heap, child, parent) <==> InSubtree(heap, child, cur)
        decreases if cur == NULL then 0 else 1 + depth[cur]
      {
        SubtreeStep(heap, child, cur);
        if cur == child { return false; }
        cur := heap[cur].parent;
      }
      NotBelowNull(heap, child);
      ok := true;
    }

    // remove_node, in front of an insertion
    method TakeOut(moved: int)
      requires Sound() && IsNode(heap, moved) && heap[moved].parent != NULL
      modifies this`heap, this`kids
      ensures Sound() && kids == Taken(old(heap), old(kids), moved) && IsNode(heap, moved) && heap[moved].parent == NULL
      ensures Reparented(old(heap), heap, moved) && SameNodes(old(heap), heap)
    {
      NotItsOwnChild(heap, kids, heap[moved].parent);
      ghost var i := PlaceOf(heap, kids, moved);
      RemoveNode(moved, heap[moved].parent, i);
      CutKeepsAcyclic(old(heap), heap, moved);
    }

    // The document is marked and the node taken out of its row.
    method SetFree(parent: int, moved: int)
      requires Sound() && IsNode(heap, parent) && IsNode(heap, moved) && MayMove(heap, parent, moved) && heap[moved].parent != NULL
      modifies this
      ensures Sound() && kids == Taken(old(heap), old(kids), moved) && shared == old(shared) + {old(heap)[parent].document}
      ensures CanLink(heap, moved, parent) && !InSubtree(old(heap), moved, parent)
      ensures Reparented(old(heap), heap, moved) && SameNodes(old(heap), heap)
    {
      shared := shared + {heap[parent].document};
      SubtreeStep(heap, moved, moved);
      TakeOut(moved);
    }

    method PutAfter(moved: int, node: int, ghost parent: int) returns (ghost i: nat)
      requires Valid() && CanLink(heap, moved, parent) && IsNode(heap, node) && heap[node].parent == parent
      modifies this`heap, this`kids
      ensures Valid() && NextTo(old(kids), kids, parent, node, 1, moved) && i < |kids[parent]| && kids[parent][i] == moved
      ensures Reparented(old(heap), heap, moved) && SameNodes(old(heap), heap)
    {
      ghost var at := PlaceOf(heap, kids, node);
      InsertNodeAfter(moved, node, parent, at);
      i := at + 1;
    }

    method PutBefore(moved: int, node: int, ghost parent: int) returns (ghost i: nat)
      requires Valid() && CanLink(heap, moved, parent) && IsNode(heap, node) && heap[node].parent == parent
      modifies this`heap, this`kids
      ensures Valid() && NextTo(old(kids), kids, parent, node, 0, moved) && i < |kids[parent]| && kids[parent][i] == moved
      ensures Reparented(old(heap), heap, moved) && SameNodes(old(heap), heap)
    {
      i := PlaceOf(heap, kids, node);
      InsertNodeBefore(moved, node, parent, i);
    }

    method MoveAfter(parent: int, moved: int, node: int)
      requires Sound() && IsNode(heap, parent) && IsNode(heap, moved) && MayMove(heap, parent, moved) && heap[moved].parent != NULL
      requires IsNode(heap, node) && heap[node].parent == parent && moved != node
      modifies this
      ensures Sound() && NextTo(Taken(old(heap), old(kids), moved), kids, parent, node, 1, moved)
      ensures shared == old(shared) + {old(heap)[parent].document}
      ensures SameNodes(old(heap), heap)
    {
      SetFree(parent, moved);
      ghost var between := heap;
      ghost var i := PutAfter(moved, node, parent);
      TwoLinks(old(heap), between, heap, moved);
      Relinked(old(heap), heap, kids, moved, parent, i);
    }

    method MoveBefore(parent: int, moved: int, node: int)
      requires Sound() && IsNode(heap, parent) && IsNode(heap, moved) && MayMove(heap, parent, moved) && heap[moved].parent != NULL
      requires IsNode(heap, node) && heap[node].parent == parent && moved != node
      modifies this
      ensures Sound() && NextTo(Taken(old(heap), old(kids), moved), kids, parent, node, 0, moved)
      ensures shared == old(shared) + {old(heap)[parent].document}
      ensures SameNodes(old(heap), heap)
    {
      SetFree(parent, moved);
      ghost var between := heap;
      ghost var i := PutBefore(moved, node, parent);
      TwoLinks(old(heap), between, heap, moved);
      Relinked(old(heap), heap, kids, moved, parent, i);
    }

    /** append_move: null, and nothing done, if the move is not allowed. */
    method AppendMove(node: int, moved: int) returns (r: int)
      requires Sound() && (node == NULL || IsNode(heap, node)) && (moved == NULL || IsNode(heap, moved))
      requires KindOf(heap, moved) != NullNode && KindOf(heap, moved) != DocumentNode ==> heap[moved].parent != NULL
      modifies this
      ensures Sound() && r == if old(MayMove(heap, node, moved)) then moved else NULL
      ensures r == NULL ==> heap == old(heap) && kids == old(kids) && shared == old(shared)
      ensures r != NULL ==> var ks := Taken(old(heap), old(kids), moved);
        && kids == ks[node := Inserted(ks[node], |ks[node]|, moved)]
        && shared == old(shared) + {old(heap)[node].document}
      ensures SameNodes(old(heap), heap)
    {
      var ok := AllowMove(node, moved);
      if !ok { return NULL; }
      SetFree(node, moved);
      AppendNode(moved, node);
      Relinked(old(heap), heap, kids, moved, node, |kids[node]| - 1);
      r := moved;
    }

    /** prepend_move */
    method PrependMove(node: int, moved: int) returns (r: int)
      requires Sound() && (node == NULL || IsNode(heap, node)) && (moved == NULL || IsNode(heap, moved))
      requires KindOf(heap, moved) != NullNode && KindOf(heap, moved) != DocumentNode ==> heap[moved].parent != NULL
      modifies this
      ensures Sound() && r == if old(MayMove(heap, node, moved)) then moved else NULL
      ensures r == NULL ==> heap == old(heap) && kids == old(kids) && shared == old(shared)
      ensures r != NULL ==> var ks := Taken(old(heap), old(kids), moved);
        && kids == ks[node := Inserted(ks[node], 0, moved)]
        && shared == old(shared) + {old(heap)[node].document}
      ensures SameNodes(old(heap), heap)
    {
      var ok := AllowMove(node, moved);
      if !ok { return NULL; }
      SetFree(node, moved);
      PrependNode(moved, node);
      Relinked(old(heap), heap, kids, moved, node, 0);
      r := moved;
    }

    /** insert_move_after */
    method InsertMoveAfter(parent: int, moved: int, node: int) returns (r: int)
      requires Sound() && (parent == NULL || IsNode(heap, parent)) && (moved == NULL || IsNode(heap, moved)) && (node == NULL || IsNode(heap, node))
      requires KindOf(heap, moved) != NullNode && KindOf(heap, moved) != DocumentNode ==> heap[moved].parent != NULL
      modifies this
      ensures Sound() && r == if old(MayMove(heap, parent, moved) && node != NULL && heap[node].parent == parent && moved != node) then moved else NULL
      ensures r == NULL ==> heap == old(heap) && kids == old(kids) && shared == old(shared)
      ensures r != NULL ==> var ks := Taken(old(heap), old(kids), moved);
        && NextTo(ks, kids, parent, node, 1, moved)
        && shared == old(shared) + {old(heap)[parent].document}
      ensures SameNodes(old(heap), heap)
    {
      var ok := AllowMove(parent, moved);
      if !ok || node == NULL || heap[node].parent != parent || moved == node { return NULL; }
      MoveAfter(parent, moved, node);
      r := moved;
    }

    /** insert_move_before */
    method InsertMoveBefore(parent: int, moved: int, node: int) returns (r: int)
      requires Sound() && (parent == NULL || IsNode(heap, parent)) && (moved == NULL || IsNode(heap, moved)) && (node == NULL || IsNode(heap, node))
      requires KindOf(heap, moved) != NullNode && KindOf(heap, moved) != DocumentNode ==> heap[moved].parent != NULL
      modifies this
      ensures Sound() && r == if old(MayMove(heap, parent, moved) && node != NULL && heap[node].parent == parent && moved != node) then moved else NULL
      ensures r == NULL ==> heap == old(heap) && kids == old(kids) && shared == old(shared)
      ensures r != NULL ==> var ks := Taken(old(heap), old(kids), moved);
        && NextTo(ks, kids, parent, node, 0, moved)
        && shared == old(shared) + {old(heap)[parent].document}
      ensures SameNodes(old(heap), heap)
    {
      var ok := AllowMove(parent, moved);
      if !ok || node == NULL || heap[node].parent != parent || moved == node { return NULL; }
      MoveBefore(parent, moved, node);
      r := moved;
    }
  }

  lemma TwoLinks(h: Heap, mid: Heap, h': Heap, c: int)
    requires Reparented(h, mid, c) && Reparented(mid, h', c) && SameNodes(h, mid) && SameNodes(mid, h')
    ensures Reparented(h, h', c) && SameNodes(h, h')
  {
    forall n | 0 <= n < |h'| ensures SameNode(h[n], h'[n]) { assert SameNode(h[n], mid[n]) && SameNode(mid[n], h'[n]); }
  }

  // After taking c out and linking it in below p.
  lemma {:induction false} Relinked(h: Heap, h': Heap, kids: Kids, c: int, p: int, i: nat)
    requires Acyclic(h) && IsForest(h', kids) && Reparented(h, h', c) && IsNode(h, c) && IsNode(h, p) && !InSubtree(h, c, p)
    requires i < |kids[p]| && kids[p][i] == c
    ensures Acyclic(h')
  {
    assert Row(h', p, kids[p]);
    MoveKeepsAcyclic(h, h', c, p);
  }

  // child is a node of its own that can go below p.
  ghost predicate CanLink(h: Heap, child: int, p: int) {
    IsNode(h, child) && IsNode(h, p) && child != p && h[child].parent == NULL
  }

  // The links that adding number i to the row looks at.
  ghost predicate Around(h: Heap, p: int, ks: seq<int>, i: nat, child: int) {
    && CanLink(h, child, p) && h[child].nextSibling == NULL && i <= |ks|
    && h[p].firstChild == (if ks == [] then NULL else ks[0])
    && (ks != [] ==> RowAt(h, p, ks, 0) && RowAt(h, p, ks, |ks| - 1) && child != ks[0] && child != ks[|ks| - 1])
    && (i < |ks| ==> RowAt(h, p, ks, i) && ks[i] != child && (ks[i] == ks[0] ==> i == 0))
    && (0 < i ==> RowAt(h, p, ks, i - 1) && ks[i - 1] != child && (i < |ks| ==> ks[i - 1] != ks[i]))
  }

  ghost predicate RowAt(h: Heap, p: int, ks: seq<int>, k: nat) {
    k < |ks| && IsNode(h, ks[k]) && InRow(h, p, ks, k)
  }

  lemma LinkFacts(h: Heap, kids: Kids, p: int, child: int, i: nat)
    requires IsForest(h, kids) && CanLink(h, child, p) && i <= |kids[p]|
    ensures Around(h, p, kids[p], i, child)
  {
    var ks := kids[p];
    NotInRow(h, kids, p, child);
    assert Row(h, p, ks) && Placed(h, kids, child) && Distinct(ks);
    forall k | 0 <= k < |ks| ensures RowAt(h, p, ks, k) && ks[k] != child { assert InRow(h, p, ks, k) && ks[k] in ks; }
  }

  // The links that taking out number i looks at.
  ghost predicate Inside(h: Heap, p: int, ks: seq<int>, i: nat) {
    && IsNode(h, p) && i < |ks| && h[p].firstChild == ks[0] && RowAt(h, p, ks, i) && RowAt(h, p, ks, 0) && RowAt(h, p, ks, |ks| - 1)
    && p != ks[i] && (ks[i] == ks[0] ==> i == 0) && (ks[i] == ks[|ks| - 1] ==> i == |ks| - 1)
    && (0 < i ==> RowAt(h, p, ks, i - 1) && ks[i - 1] != ks[i])
    && (i + 1 < |ks| ==> RowAt(h, p, ks, i + 1) && ks[i] != ks[i + 1])
    && (0 < i && i + 1 < |ks| ==> ks[i - 1] != ks[i + 1])
    && (1 < |ks| ==> ks[0] != ks[|ks| - 1])
    && (i + 1 < |ks| ==> ks[i + 1] != ks[0])
    && (0 < i && i - 1 != 0 ==> ks[i - 1] != ks[0])
  }

  lemma UnlinkFacts(h: Heap, kids: Kids, p: int, i: nat)
    requires IsForest(h, kids) && IsNode(h, p) && i < |kids[p]| && p !in kids[p]
    ensures Inside(h, p, kids[p], i)
  {
    var ks := kids[p];
    assert Row(h, p, ks) && Distinct(ks);
    forall k | 0 <= k < |ks| ensures RowAt(h, p, ks, k) { assert InRow(h, p, ks, k); }
  }
}
