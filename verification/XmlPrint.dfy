/** pugixml.cpp, node_output with format_raw: the printer walks the tree by its
    links, without a stack.  It writes what the recursive printer of XmlParse.dfy
    writes. */
module XmlPrint {
  import opened Bytes
  import opened Unescape
  import opened XmlSyntax

  const NULL := -1

  datatype NodeType = DocumentNode | ElementNode | PcdataNode

  // xml_node_struct; nodes are known by their index.
  datatype Node = Node(kind: NodeType, name: seq<byte>, value: seq<byte>, attrs: seq<Attr>, parent: int, firstChild: int, nextSibling: int)

  predicate IsNode(d: seq<Node>, n: int) {
    0 <= n < |d|
  }

  // The links at n spell out the tree t.
  ghost predicate Represents(d: seq<Node>, n: int, t: Tree)
    decreases t, 0
  {
    IsNode(d, n) &&
    match t
    case Text(v) => d[n].kind == PcdataNode && d[n].value == v
    case Elem(name, attrs, kids) =>
      d[n].kind == ElementNode && d[n].name == name && d[n].attrs == attrs && Chain(d, n, d[n].firstChild, kids)
  }

  // The children of p from c on.
  ghost predicate Chain(d: seq<Node>, p: int, c: int, kids: seq<Tree>)
    decreases kids, 1
  {
    if kids == [] then c == NULL
    else IsNode(d, c) && d[c].parent == p && Represents(d, c, kids[0]) && Chain(d, p, d[c].nextSibling, kids[1..])
  }

  lemma {:induction false} ChainHead(d: seq<Node>, p: int, c: int, kids: seq<Tree>)
    requires Chain(d, p, c, kids)
    ensures c == NULL <==> kids == []
    ensures kids != [] ==> IsNode(d, c) && d[c].parent == p && Represents(d, c, kids[0]) && Chain(d, p, d[c].nextSibling, kids[1..])
  {
  }

  // What is printed: a node with what is below it, or all children of a document.
  datatype Item = OfNode(t: Tree) | OfDocument(kids: seq<Tree>)

  ghost predicate Denotes(d: seq<Node>, n: int, x: Item) {
    match x
    case OfNode(t) => Represents(d, n, t)
    case OfDocument(kids) => IsNode(d, n) && d[n].kind == DocumentNode && Chain(d, n, d[n].firstChild, kids)
  }

  function KidsOf(x: Item): seq<Tree> {
    match x
    case OfNode(t) => if t.Elem? then t.kids else []
    case OfDocument(kids) => kids
  }

  lemma {:induction false} ChildrenOf(d: seq<Node>, n: int, x: Item)
    requires Denotes(d, n, x) && (x.OfNode? ==> x.t.Elem?)
    ensures IsNode(d, n) && Chain(d, n, d[n].firstChild, KidsOf(x)) && (d[n].firstChild == NULL <==> KidsOf(x) == [])
  {
    ChainHead(d, n, d[n].firstChild, KidsOf(x));
  }

  function PrintItem(x: Item): seq<byte> {
    match x
    case OfNode(t) => Print(t)
    case OfDocument(kids) => PrintAll(kids)
  }

  // ---------------------------------------------------------------------
  // A node is not below itself.

  lemma {:induction false} SameTree(d: seq<Node>, n: int, t: Tree, u: Tree)
    requires Represents(d, n, t) && Represents(d, n, u)
    ensures t == u
    decreases t, 0
  {
    if t.Elem? { SameChain(d, n, d[n].firstChild, t.kids, u.kids); }
  }

  lemma {:induction false} SameChain(d: seq<Node>, p: int, c: int, kids: seq<Tree>, others: seq<Tree>)
    requires Chain(d, p, c, kids) && Chain(d, p, c, others)
    ensures kids == others
    decreases kids, 1
  {
    if kids != [] {
      SameTree(d, c, kids[0], others[0]);
      SameChain(d, p, d[c].nextSibling, kids[1..], others[1..]);
      assert kids == [kids[0]] + kids[1..] && others == [others[0]] + others[1..];
    }
  }

  // ---------------------------------------------------------------------
  function Size(t: Tree): (n: nat)
    ensures 1 <= n
    decreases t, 0
  {
    match t
    case Text(_) => 1
    case Elem(_, _, kids) => 1 + SizeAll(kids)
  }

  function SizeAll(kids: seq<Tree>): (n: nat)
    decreases kids, 1
  {
    if kids == [] then 0 else Size(kids[0]) + SizeAll(kids[1..])
  }

  function SizeItem(x: Item): (n: nat)
    ensures 1 <= n
  {
    match x
    case OfNode(t) => Size(t)
    case OfDocument(kids) => 1 + SizeAll(kids)
  }

  // ---------------------------------------------------------------------
  // Where the walk is: the open elements from the root down, each with the
  // siblings still to come of the child the walk is in.

  datatype Frame = Frame(p: int, item: Item, later: seq<Tree>)

  lemma KidsAreSmaller(x: Item)
    ensures SizeAll(KidsOf(x)) < SizeItem(x)
    ensures KidsOf(x) != [] ==> Size(KidsOf(x)[0]) + SizeAll(KidsOf(x)[1..]) == SizeAll(KidsOf(x))
  {
  }

  // What node_output_end writes for the node of a frame.
  function Close(x: Item): seq<byte> {
    if x.OfNode? && x.t.Elem? then PrintClose(x.t) else []
  }

  // What is still to be written once the current node is done.
  function Rest(ctx: seq<Frame>): seq<byte> {
    if ctx == [] then []
    else PrintAll(ctx[|ctx| - 1].later) + (Close(ctx[|ctx| - 1].item) + Rest(ctx[..|ctx| - 1]))
  }

  // How many nodes are still to be visited behind the current one.
  function Work(ctx: seq<Frame>): nat {
    if ctx == [] then 0 else SizeAll(ctx[|ctx| - 1].later) + Work(ctx[..|ctx| - 1])
  }

  // node is a child in the last frame, and each frame's node in the one before it.
  ghost predicate PathOk(d: seq<Node>, root: int, all: Item, ctx: seq<Frame>, node: int, x: Item)
    decreases |ctx|
  {
    && Denotes(d, node, x)
    && (if ctx == [] then node == root && x == all
        else var f := ctx[|ctx| - 1];
          && x.OfNode? && d[node].parent == f.p && Chain(d, f.p, d[node].nextSibling, f.later)
          && Size(x.t) + SizeAll(f.later) < SizeItem(f.item)
          && PathOk(d, root, all, ctx[..|ctx| - 1], f.p, f.item))
  }

  lemma {:induction false} Smaller(d: seq<Node>, root: int, all: Item, ctx: seq<Frame>, node: int, x: Item)
    requires PathOk(d, root, all, ctx, node, x)
    ensures Denotes(d, root, all)
    ensures if ctx == [] then x == all else SizeItem(x) < SizeItem(all)
    decreases |ctx|
  {
    if ctx != [] {
      var f := ctx[|ctx| - 1];
      Smaller(d, root, all, ctx[..|ctx| - 1], f.p, f.item);
    }
  }

  // The walk is at the root exactly when no frame is left.
  lemma {:induction false} RootIsOutermost(d: seq<Node>, root: int, all: Item, ctx: seq<Frame>, node: int, x: Item)
    requires PathOk(d, root, all, ctx, node, x)
    ensures node == root <==> ctx == []
  {
    Smaller(d, root, all, ctx, node, x);
    if ctx != [] && node == root && all.OfNode? { SameTree(d, root, x.t, all.t); }
  }

  // ---------------------------------------------------------------------

  // node_output_start
  method OutputStart(node: Node, ghost t: Tree) returns (out: seq<byte>)
    requires t.Elem? && node.name == t.name && node.attrs == t.attrs && (node.firstChild == NULL <==> t.kids == [])
    ensures out == PrintOpen(t) + if t.kids == [] then [SPACE, SLASH, GT] else [GT]
  {
    out := [LT] + node.name;
    for i := 0 to |node.attrs|
      invariant out + PrintAttrs(t.attrs[i..]) == PrintOpen(t)
    {
      var a := node.attrs[i];
      assert t.attrs[i..][1..] == t.attrs[i + 1..];
      assert out + (PrintAttr(a) + PrintAttrs(t.attrs[i + 1..])) == out + PrintAttr(a) + PrintAttrs(t.attrs[i + 1..]);
      out := out + PrintAttr(a);
    }
    assert out + [] == out;
    out := out + if node.firstChild == NULL then [SPACE, SLASH, GT] else [GT];
  }

  // Begins the current node: what is written before its children, or for it if it has none.
  method Begin(d: seq<Node>, node: int, ghost x: Item) returns (out: seq<byte>, descend: bool)
    requires Denotes(d, node, x)
    ensures descend <==> KidsOf(x) != []
    ensures PrintItem(x) == out + if descend then PrintAll(KidsOf(x)) + Close(x) else []
  {
    if d[node].kind == PcdataNode {
      out, descend := Escape(Pcdata, d[node].value), false;
    } else if d[node].kind == ElementNode {
      ChildrenOf(d, node, x);
      out := OutputStart(d[node], x.t);
      descend := d[node].firstChild != NULL;
      if descend { assert PrintOpen(x.t) + [GT] + PrintAll(x.t.kids) + PrintClose(x.t) == PrintOpen(x.t) + [GT] + (PrintAll(x.t.kids) + PrintClose(x.t)); }
    } else {
      ChildrenOf(d, node, x);
      out, descend := [], d[node].firstChild != NULL;
    }
  }

  // To the first child.
  lemma {:induction false} Descended(d: seq<Node>, root: int, all: Item, ctx: seq<Frame>, node: int, x: Item)
    requires PathOk(d, root, all, ctx, node, x) && KidsOf(x) != []
    ensures IsNode(d, node) && PathOk(d, root, all, ctx + [Frame(node, x, KidsOf(x)[1..])], d[node].firstChild, OfNode(KidsOf(x)[0]))
  {
    var kids := KidsOf(x);
    var ctx' := ctx + [Frame(node, x, kids[1..])];
    ChildrenOf(d, node, x);
    KidsAreSmaller(x);
    ChainHead(d, node, d[node].firstChild, kids);
    assert ctx'[..|ctx'| - 1] == ctx;
  }

  lemma {:induction false} DescendedRest(ctx: seq<Frame>, node: int, x: Item)
    requires KidsOf(x) != []
    ensures var kids := KidsOf(x);
            var ctx' := ctx + [Frame(node, x, kids[1..])];
            && PrintAll(kids) + (Close(x) + Rest(ctx)) == Print(kids[0]) + Rest(ctx')
            && Size(kids[0]) + Work(ctx') < SizeItem(x) + Work(ctx)
  {
    var kids := KidsOf(x);
    var ctx' := ctx + [Frame(node, x, kids[1..])];
    assert ctx'[..|ctx'| - 1] == ctx;
    KidsAreSmaller(x);
    Assoc(Print(kids[0]), PrintAll(kids[1..]), Close(x) + Rest(ctx));
  }

  lemma Assoc(a: seq<byte>, b: seq<byte>, c: seq<byte>)
    ensures a + b + c == a + (b + c)
  {
  }

  function ToSibling(ctx: seq<Frame>): seq<Frame>
    requires ctx != [] && ctx[|ctx| - 1].later != []
  {
    ctx[|ctx| - 1 := ctx[|ctx| - 1].(later := ctx[|ctx| - 1].later[1..])]
  }

  // To the next sibling.
  lemma {:induction false} Advanced(d: seq<Node>, root: int, all: Item, ctx: seq<Frame>, node: int, x: Item)
    requires PathOk(d, root, all, ctx, node, x) && ctx != [] && IsNode(d, node) && d[node].nextSibling != NULL
    ensures ctx[|ctx| - 1].later != []
    ensures PathOk(d, root, all, ToSibling(ctx), d[node].nextSibling, OfNode(ctx[|ctx| - 1].later[0]))
  {
    var f := ctx[|ctx| - 1];
    ChainHead(d, f.p, d[node].nextSibling, f.later);
    var ctx' := ToSibling(ctx);
    assert ctx'[..|ctx'| - 1] == ctx[..|ctx| - 1];
  }

  lemma {:induction false} AdvancedRest(ctx: seq<Frame>)
    requires ctx != [] && ctx[|ctx| - 1].later != []
    ensures Rest(ctx) == Print(ctx[|ctx| - 1].later[0]) + Rest(ToSibling(ctx))
    ensures Size(ctx[|ctx| - 1].later[0]) + Work(ToSibling(ctx)) == Work(ctx)
  {
    var f := ctx[|ctx| - 1];
    var ctx' := ToSibling(ctx);
    assert ctx'[..|ctx'| - 1] == ctx[..|ctx| - 1];
    Assoc(Print(f.later[0]), PrintAll(f.later[1..]), Close(f.item) + Rest(ctx[..|ctx| - 1]));
  }

  // Back to the parent.
  lemma {:induction false} Climbed(d: seq<Node>, root: int, all: Item, ctx: seq<Frame>, node: int, x: Item)
    requires PathOk(d, root, all, ctx, node, x) && ctx != [] && IsNode(d, node) && d[node].nextSibling == NULL
    ensures var f := ctx[|ctx| - 1];
            && d[node].parent == f.p && IsNode(d, f.p) && PathOk(d, root, all, ctx[..|ctx| - 1], f.p, f.item)
            && Rest(ctx) == Close(f.item) + Rest(ctx[..|ctx| - 1]) && Work(ctx) == Work(ctx[..|ctx| - 1])
  {
    var f := ctx[|ctx| - 1];
    ChainHead(d, f.p, d[node].nextSibling, f.later);
    assert PrintAll([]) == [];
  }

  // Behind the last child: the end of the parent is written.
  method OutputEnd(d: seq<Node>, node: int, out0: seq<byte>, ghost x: Item) returns (out: seq<byte>)
    requires Denotes(d, node, x)
    ensures out == out0 + Close(x)
  {
    out := out0;
    if d[node].kind == ElementNode { out := out + ([LT, SLASH] + d[node].name + [GT]); } else { assert out + [] == out; }
  }

  // The inner loop: on to the next node to begin, closing the elements that end.
  method GoOn(d: seq<Node>, root: int, node0: int, out0: seq<byte>, ghost all: Item, ghost ctx0: seq<Frame>, ghost x0: Item)
    returns (node: int, out: seq<byte>, done: bool, ghost ctx: seq<Frame>, ghost x: Item)
    requires PathOk(d, root, all, ctx0, node0, x0)
    ensures PathOk(d, root, all, ctx, node, x) && (done <==> node == root)
    ensures out0 + Rest(ctx0) == out + if done then [] else PrintItem(x) + Rest(ctx)
    ensures !done ==> SizeItem(x) + Work(ctx) <= Work(ctx0)
  {
    node, out, ctx, x := node0, out0, ctx0, x0;
    while node != root
      invariant PathOk(d, root, all, ctx, node, x)
      invariant out + Rest(ctx) == out0 + Rest(ctx0) && Work(ctx) == Work(ctx0)
      decreases |ctx|
    {
      RootIsOutermost(d, root, all, ctx, node, x);
      if d[node].nextSibling != NULL {
        Advanced(d, root, all, ctx, node, x);
        AdvancedRest(ctx);
        node, ctx, x := d[node].nextSibling, ToSibling(ctx), OfNode(ctx[|ctx| - 1].later[0]);
        RootIsOutermost(d, root, all, ctx, node, x);
        done := false;
        return;
      }
      Climbed(d, root, all, ctx, node, x);
      ghost var item := ctx[|ctx| - 1].item;
      Assoc(out, Close(item), Rest(ctx[..|ctx| - 1]));
      node := d[node].parent;
      out := OutputEnd(d, node, out, item);
      ctx, x := ctx[..|ctx| - 1], item;
    }
    RootIsOutermost(d, root, all, ctx, node, x);
    done := true;
  }

  /** The walk writes what the recursive printer writes. */
  method NodeOutput(d: seq<Node>, root: int, ghost all: Item) returns (out: seq<byte>)
    requires Denotes(d, root, all)
    ensures out == PrintItem(all)
  {
    var node := root;
    ghost var ctx: seq<Frame>, x := [], all;
    var done := false;
    out := [];
    assert PrintItem(all) + Rest([]) == PrintItem(all);
    while !done
      invariant PathOk(d, root, all, ctx, node, x)
      invariant PrintItem(all) == out + if done then [] else PrintItem(x) + Rest(ctx)
      decreases !done, if done then 0 else SizeItem(x) + Work(ctx)
    {
      ghost var before := out;
      var text, descend := Begin(d, node, x);
      out := out + text;
      if descend {
        Descended(d, root, all, ctx, node, x);
        DescendedRest(ctx, node, x);
        ghost var kids := KidsOf(x);
        Regroup(before, text, PrintAll(kids), Close(x), Rest(ctx));
        ctx, x := ctx + [Frame(node, x, kids[1..])], OfNode(kids[0]);
        node := d[node].firstChild;
      } else {
        Regroup(before, text, [], [], Rest(ctx));
        node, out, done, ctx, x := GoOn(d, root, node, out, all, ctx, x);
      }
    }
  }

  lemma Regroup(a: seq<byte>, b: seq<byte>, c: seq<byte>, e: seq<byte>, f: seq<byte>)
    ensures a + (b + (c + e) + f) == a + b + (c + (e + f))
    ensures a + (b + [] + f) == a + b + f
  {
  }
}
