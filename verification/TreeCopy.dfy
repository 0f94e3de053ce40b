/** pugixml.cpp, node_copy_tree: the copy is made by walking the links of the source
    and of the copy in step.  The copy may lie inside the source: the walk leaves it
    out, and so ends, and copies the source as it was before. */
module TreeCopying {
  import opened TreeEditing

  // What is below a node.
  datatype T = T(kind: NodeType, data: Contents, kids: seq<T>)

  // The links say that t is at n, where only nodes of the set s are looked at, and
  // the node skip is left out.
  ghost predicate Spells(h: Heap, kids: Kids, s: set<int>, skip: int, n: int, t: T)
    decreases t, 0
  {
    && n in s && IsNode(h, n) && |kids| == |h|
    && h[n].kind == t.kind && h[n].data == t.data
    && SpellsAll(h, kids, s, skip, kids[n], t.kids)
  }

  ghost predicate SpellsAll(h: Heap, kids: Kids, s: set<int>, skip: int, ns: seq<int>, ts: seq<T>)
    decreases ts, |ns| + 1
  {
    if ns == [] then ts == []
    else if ns[0] == skip then SpellsAll(h, kids, s, skip, ns[1..], ts)
    else ts != [] && Spells(h, kids, s, skip, ns[0], ts[0]) && SpellsAll(h, kids, s, skip, ns[1..], ts[1..])
  }

  // The nodes of s are what they were.
  ghost predicate Unchanged(h: Heap, kids: Kids, h': Heap, kids': Kids, s: set<int>) {
    && |kids'| == |h'| && |kids| == |h|
    && forall n :: n in s && IsNode(h, n) ==> IsNode(h', n) && kids'[n] == kids[n] && SameNode(h[n], h'[n])
  }

  lemma {:induction false} StillSpells(h: Heap, kids: Kids, h': Heap, kids': Kids, s: set<int>, s': set<int>, skip: int, n: int, t: T)
    requires Spells(h, kids, s, skip, n, t) && Unchanged(h, kids, h', kids', s) && s <= s'
    ensures Spells(h', kids', s', skip, n, t)
    decreases t, 0
  {
    StillSpellsAll(h, kids, h', kids', s, s', skip, kids[n], t.kids);
  }

  lemma {:induction false} StillSpellsAll(h: Heap, kids: Kids, h': Heap, kids': Kids, s: set<int>, s': set<int>, skip: int, ns: seq<int>, ts: seq<T>)
    requires SpellsAll(h, kids, s, skip, ns, ts) && Unchanged(h, kids, h', kids', s) && s <= s'
    ensures SpellsAll(h', kids', s', skip, ns, ts)
    decreases ts, |ns| + 1
  {
    if ns != [] {
      if ns[0] == skip {
        StillSpellsAll(h, kids, h', kids', s, s', skip, ns[1..], ts);
      } else {
        StillSpells(h, kids, h', kids', s, s', skip, ns[0], ts[0]);
        StillSpellsAll(h, kids, h', kids', s, s', skip, ns[1..], ts[1..]);
      }
    }
  }

  lemma {:induction false} SpellsMore(h: Heap, kids: Kids, s: set<int>, ns: seq<int>, ts: seq<T>, n: int, t: T)
    requires SpellsAll(h, kids, s, NULL, ns, ts) && Spells(h, kids, s, NULL, n, t)
    ensures SpellsAll(h, kids, s, NULL, ns + [n], ts + [t])
    decreases |ns|
  {
    if ns == [] {
      assert ns + [n] == [n] && ts + [t] == [t] && [n][1..] == [] && [t][1..] == [];
    } else if ns[0] == NULL {
      assert (ns + [n])[1..] == ns[1..] + [n];
      SpellsMore(h, kids, s, ns[1..], ts, n, t);
    } else {
      assert (ns + [n])[1..] == ns[1..] + [n] && (ts + [t])[1..] == ts[1..] + [t];
      SpellsMore(h, kids, s, ns[1..], ts[1..], n, t);
    }
  }

  // ---------------------------------------------------------------------
  // Where the walk is: the source nodes from the root down to the parent of the
  // current node, each with its copy, the place of the child the walk is in, and the
  // trees of the children copied already (ks are their copies) and still to come.

  datatype Frame = Frame(a: int, d: int, i: nat, t: T, ks: seq<int>, done: seq<T>, todo: seq<T>)

  ghost predicate FrameOk(h: Heap, kids: Kids, s: set<int>, c: set<int>, dn: int, f: Frame) {
    && |kids| == |h| && IsNode(h, f.a) && f.a in s && f.i < |kids[f.a]|
    && IsNode(h, f.d) && f.d !in c && f.d !in s && h[f.d].kind == f.t.kind && h[f.d].data == f.t.data
    && SpellsAll(h, kids, s, dn, kids[f.a][f.i + 1..], f.todo)
    && SpellsAll(h, kids, c, NULL, f.ks, f.done)
  }

  // The tree of the child the walk is in, and its copy if it has been begun.
  ghost predicate Within(kids: Kids, f: Frame, x: seq<T>, open: seq<int>) {
    0 <= f.d < |kids| && f.t.kids == f.done + x + f.todo && kids[f.d] == f.ks + open
  }

  ghost predicate Linked(kids: Kids, f: Frame, g: Frame) {
    0 <= f.a < |kids| && f.i < |kids[f.a]| && kids[f.a][f.i] == g.a && f.d < g.d && Within(kids, f, [g.t], [g.d])
  }

  ghost predicate PathOk(h: Heap, kids: Kids, s: set<int>, c: set<int>, dn: int, ctx: seq<Frame>) {
    && ctx != [] && ctx[0].d == dn
    && (forall j :: 0 <= j < |ctx| ==> FrameOk(h, kids, s, c, dn, ctx[j]))
    && (forall j :: 0 <= j < |ctx| - 1 ==> Linked(kids, ctx[j], ctx[j + 1]))
  }

  lemma {:induction false} CopiesDiffer(h: Heap, kids: Kids, s: set<int>, c: set<int>, dn: int, ctx: seq<Frame>, j: nat)
    requires PathOk(h, kids, s, c, dn, ctx) && j < |ctx| - 1
    ensures ctx[j].d < ctx[|ctx| - 1].d
    decreases |ctx| - j
  {
    assert Linked(kids, ctx[j], ctx[j + 1]);
    if j + 1 < |ctx| - 1 { CopiesDiffer(h, kids, s, c, dn, ctx, j + 1); }
  }

  // Only the last copy and new nodes change: the path stays good.
  lemma {:induction false} PathStays(h: Heap, kids: Kids, h': Heap, kids': Kids, s: set<int>, c: set<int>, c': set<int>, dn: int, ctx: seq<Frame>)
    requires PathOk(h, kids, s, c, dn, ctx) && c <= c' && |h| <= |h'| && |kids'| == |h'|
    requires forall n :: 0 <= n < |h| ==> SameNode(h[n], h'[n]) && (n != ctx[|ctx| - 1].d ==> kids'[n] == kids[n])
    requires forall n :: n in c' && n !in c ==> n >= |h|
    ensures PathOk(h', kids', s, c', dn, ctx)
  {
    var d := ctx[|ctx| - 1].d;
    assert FrameOk(h, kids, s, c, dn, ctx[|ctx| - 1]);
    assert Unchanged(h, kids, h', kids', s) && Unchanged(h, kids, h', kids', c);
    forall j | 0 <= j < |ctx| ensures FrameOk(h', kids', s, c', dn, ctx[j]) {
      var f := ctx[j];
      assert FrameOk(h, kids, s, c, dn, f);
      StillSpellsAll(h, kids, h', kids', s, s, dn, kids[f.a][f.i + 1..], f.todo);
      StillSpellsAll(h, kids, h', kids', c, c', NULL, f.ks, f.done);
    }
    forall j | 0 <= j < |ctx| - 1 ensures Linked(kids', ctx[j], ctx[j + 1]) {
      assert Linked(kids, ctx[j], ctx[j + 1]) && FrameOk(h, kids, s, c, dn, ctx[j]);
      CopiesDiffer(h, kids, s, c, dn, ctx, j);
    }
  }

  // The walk is at sit, and what is to be copied there is x: one tree, or none at dn.
  ghost predicate AtNode(h: Heap, kids: Kids, s: set<int>, c: set<int>, dn: int, ctx: seq<Frame>, sit: int, x: seq<T>) {
    && PathOk(h, kids, s, c, dn, ctx)
    && FrameOk(h, kids, s, c, dn, ctx[|ctx| - 1])
    && var f := ctx[|ctx| - 1];
      && sit == kids[f.a][f.i] && Within(kids, f, x, [])
      && (if sit == dn then x == [] else |x| == 1 && Spells(h, kids, s, dn, sit, x[0]))
  }

  // The walk is done with sit.
  ghost predicate Behind(h: Heap, kids: Kids, s: set<int>, c: set<int>, dn: int, ctx: seq<Frame>, sit: int) {
    && PathOk(h, kids, s, c, dn, ctx)
    && FrameOk(h, kids, s, c, dn, ctx[|ctx| - 1])
    && var f := ctx[|ctx| - 1];
      sit == kids[f.a][f.i] && Within(kids, f, [], [])
  }

  // The same outermost node, copy and tree.
  ghost predicate SameStart(ctx: seq<Frame>, ctx': seq<Frame>) {
    ctx != [] && ctx' != [] && ctx'[0].a == ctx[0].a && ctx'[0].d == ctx[0].d && ctx'[0].t == ctx[0].t
  }

  // The first of the trees that a chain of siblings spells, unless it is dn.
  ghost function First(dn: int, ns: seq<int>, ts: seq<T>): (r: (seq<T>, seq<T>))
    requires ns != [] && (ns[0] != dn ==> ts != [])
    ensures ts == r.0 + r.1
  {
    if ns[0] == dn then ([], ts) else ([ts[0]], ts[1..])
  }

  lemma {:induction false} FirstSpells(h: Heap, kids: Kids, s: set<int>, dn: int, ns: seq<int>, ts: seq<T>)
    requires SpellsAll(h, kids, s, dn, ns, ts) && ns != []
    ensures ns[0] != dn ==> ts != [] && Spells(h, kids, s, dn, ns[0], First(dn, ns, ts).0[0]) && ns[0] in s && IsNode(h, ns[0])
    ensures SpellsAll(h, kids, s, dn, ns[1..], First(dn, ns, ts).1)
  {
  }

  // The path with another last frame.
  lemma {:induction false} LastFrame(h: Heap, kids: Kids, s: set<int>, c: set<int>, dn: int, ctx: seq<Frame>, f: Frame)
    requires PathOk(h, kids, s, c, dn, ctx) && FrameOk(h, kids, s, c, dn, f)
    requires var g := ctx[|ctx| - 1]; f.a == g.a && f.d == g.d && f.t == g.t
    ensures PathOk(h, kids, s, c, dn, ctx[|ctx| - 1 := f])
  {
    var ctx' := ctx[|ctx| - 1 := f];
    forall j | 0 <= j < |ctx'| - 1 ensures Linked(kids, ctx'[j], ctx'[j + 1]) { assert Linked(kids, ctx[j], ctx[j + 1]); }
  }

  // On to the next sibling.
  lemma {:induction false} ToSibling(h: Heap, kids: Kids, s: set<int>, c: set<int>, dn: int, ctx: seq<Frame>, sit: int) returns (ctx': seq<Frame>, x: seq<T>)
    requires Behind(h, kids, s, c, dn, ctx, sit)
    requires var f := ctx[|ctx| - 1]; f.i + 1 < |kids[f.a]|
    ensures var f := ctx[|ctx| - 1]; AtNode(h, kids, s, c, dn, ctx', kids[f.a][f.i + 1], x)
    ensures |ctx'| == |ctx| && ctx'[..|ctx| - 1] == ctx[..|ctx| - 1] && SameStart(ctx, ctx')
    ensures var f, f' := ctx[|ctx| - 1], ctx'[|ctx| - 1]; f'.a == f.a && f'.i == f.i + 1 && f'.d == f.d && f'.t == f.t && f.todo == x + f'.todo
  {
    var f := ctx[|ctx| - 1];
    var ns := kids[f.a][f.i + 1..];
    FirstSpells(h, kids, s, dn, ns, f.todo);
    x := First(dn, ns, f.todo).0;
    var f' := f.(i := f.i + 1, todo := First(dn, ns, f.todo).1);
    assert ns[1..] == kids[f.a][f'.i + 1..];
    assert f.done + [] + f.todo == f.done + x + f'.todo;
    LastFrame(h, kids, s, c, dn, ctx, f');
    ctx' := ctx[|ctx| - 1 := f'];
  }

  // Back to the parent: its copy is complete.
  lemma {:induction false} CopyDone(h: Heap, kids: Kids, s: set<int>, c: set<int>, dn: int, ctx: seq<Frame>, sit: int)
    requires Behind(h, kids, s, c, dn, ctx, sit)
    requires var f := ctx[|ctx| - 1]; f.i + 1 == |kids[f.a]|
    ensures var f := ctx[|ctx| - 1]; Spells(h, kids, c + {f.d}, NULL, f.d, f.t)
  {
    var f := ctx[|ctx| - 1];
    assert kids[f.a][f.i + 1..] == [] && f.todo == [];
    assert f.done + [] + [] == f.done && f.ks + [] == f.ks;
    StillSpellsAll(h, kids, h, kids, c, c + {f.d}, NULL, f.ks, f.done);
  }

  lemma {:induction false} ToParent(h: Heap, kids: Kids, s: set<int>, c: set<int>, dn: int, ctx: seq<Frame>, sit: int) returns (ctx': seq<Frame>)
    requires Behind(h, kids, s, c, dn, ctx, sit) && 1 < |ctx|
    requires var f := ctx[|ctx| - 1]; f.i + 1 == |kids[f.a]| && f.d >= 0
    ensures |ctx'| == |ctx| - 1 && ctx'[..|ctx| - 2] == ctx[..|ctx| - 2] && SameStart(ctx, ctx')
    ensures var f := ctx[|ctx| - 1]; Behind(h, kids, s, c + {f.d}, dn, ctx', f.a)
    ensures var g, g' := ctx[|ctx| - 2], ctx'[|ctx| - 2]; g'.a == g.a && g'.i == g.i && g'.d == g.d && g'.t == g.t && g'.todo == g.todo
  {
    var f, g := ctx[|ctx| - 1], ctx[|ctx| - 2];
    var c' := c + {f.d};
    CopyDone(h, kids, s, c, dn, ctx, sit);
    var low := ctx[..|ctx| - 1];
    Shorter(h, kids, s, c, c', dn, ctx);
    assert FrameOk(h, kids, s, c', dn, low[|low| - 1]) && Linked(kids, g, f);
    SpellsMore(h, kids, c', g.ks, g.done, f.d, f.t);
    var g' := g.(ks := g.ks + [f.d], done := g.done + [f.t]);
    assert g'.done + [] + g'.todo == g.done + [f.t] + g.todo && g'.ks + [] == g.ks + [f.d];
    LastFrame(h, kids, s, c', dn, low, g');
    ctx' := low[|low| - 1 := g'];
    assert ctx'[..|ctx| - 2] == ctx[..|ctx| - 2];
  }

  // The path without its last frame, whose copy is complete.
  lemma {:induction false} Shorter(h: Heap, kids: Kids, s: set<int>, c: set<int>, c': set<int>, dn: int, ctx: seq<Frame>)
    requires PathOk(h, kids, s, c, dn, ctx) && 1 < |ctx| && c' == c + {ctx[|ctx| - 1].d}
    ensures PathOk(h, kids, s, c', dn, ctx[..|ctx| - 1])
  {
    var low := ctx[..|ctx| - 1];
    forall j | 0 <= j < |low| ensures FrameOk(h, kids, s, c', dn, low[j]) {
      assert FrameOk(h, kids, s, c, dn, ctx[j]);
      CopiesDiffer(h, kids, s, c, dn, ctx, j);
      StillSpellsAll(h, kids, h, kids, c, c', NULL, ctx[j].ks, ctx[j].done);
    }
    forall j | 0 <= j < |low| - 1 ensures Linked(kids, low[j], low[j + 1]) { assert Linked(kids, ctx[j], ctx[j + 1]); }
  }

  // The heap after a copy of sit has been appended to dit.
  ghost predicate Grown(h: Heap, kids: Kids, h': Heap, kids': Kids, dit: int, sit: int) {
    && |kids| == |h| && |h'| == |h| + 1 && |kids'| == |h'| && IsNode(h, dit) && IsNode(h, sit)
    && kids'[|h|] == [] && kids'[dit] == kids[dit] + [|h|]
    && h'[|h|].kind == h[sit].kind && h'[|h|].data == h[sit].data
    && forall n :: 0 <= n < |h| ==> SameNode(h[n], h'[n]) && h'[n].parent == h[n].parent && (n != dit ==> kids'[n] == kids[n])
  }

  // A node without children has been copied.
  lemma {:induction false} LeafCopied(h: Heap, kids: Kids, h': Heap, kids': Kids, s: set<int>, c: set<int>, dn: int, ctx: seq<Frame>, sit: int, x: seq<T>)
    returns (ctx': seq<Frame>)
    requires AtNode(h, kids, s, c, dn, ctx, sit, x) && sit != dn && Grown(h, kids, h', kids', ctx[|ctx| - 1].d, sit) && kids[sit] == []
    ensures |ctx'| == |ctx| && ctx'[..|ctx| - 1] == ctx[..|ctx| - 1] && SameStart(ctx, ctx') && Behind(h', kids', s, c + {|h|}, dn, ctx', sit)
    ensures var f, f' := ctx[|ctx| - 1], ctx'[|ctx| - 1]; f'.a == f.a && f'.i == f.i && f'.d == f.d && f'.t == f.t && f'.todo == f.todo
  {
    var f := ctx[|ctx| - 1];
    var c' := c + {|h|};
    PathStays(h, kids, h', kids', s, c, c', dn, ctx);
    assert FrameOk(h', kids', s, c', dn, f);
    assert SpellsAll(h, kids, s, dn, kids[sit], x[0].kids) && x[0].kids == [];
    assert Spells(h', kids', c', NULL, |h|, x[0]);
    SpellsMore(h', kids', c', f.ks, f.done, |h|, x[0]);
    var f' := f.(ks := f.ks + [|h|], done := f.done + [x[0]]);
    assert f'.done + [] + f'.todo == f.done + x + f.todo && f'.ks + [] == f.ks + [] + [|h|];
    LastFrame(h', kids', s, c', dn, ctx, f');
    ctx' := ctx[|ctx| - 1 := f'];
    assert sit == kids'[f.a][f.i];
  }

  // A node with children has been copied: down to the first of them.
  lemma {:induction false} ToChild(h: Heap, kids: Kids, h': Heap, kids': Kids, s: set<int>, c: set<int>, dn: int, ctx: seq<Frame>, sit: int, x: seq<T>)
    returns (ctx': seq<Frame>, x': seq<T>)
    requires AtNode(h, kids, s, c, dn, ctx, sit, x) && sit != dn && Grown(h, kids, h', kids', ctx[|ctx| - 1].d, sit) && kids[sit] != []
    requires |h| !in c && |h| !in s && ctx[|ctx| - 1].d !in s
    ensures |ctx'| == |ctx| + 1 && ctx'[..|ctx|] == ctx && SameStart(ctx, ctx') && AtNode(h', kids', s, c, dn, ctx', kids[sit][0], x')
    ensures var g := ctx'[|ctx|]; g.a == sit && g.i == 0 && g.d == |h| && x[0].kids == x' + g.todo
  {
    var f := ctx[|ctx| - 1];
    PathStays(h, kids, h', kids', s, c, c, dn, ctx);
    StillSpells(h, kids, h', kids', s, s, dn, sit, x[0]);
    FirstSpells(h', kids', s, dn, kids'[sit], x[0].kids);
    var first := First(dn, kids'[sit], x[0].kids);
    x' := first.0;
    var g := Frame(sit, |h|, 0, x[0], [], [], first.1);
    assert g.done + x' + g.todo == x' + g.todo && g.ks + [] == [];
    assert FrameOk(h', kids', s, c, dn, g);
    ctx' := ctx + [g];
    assert x == [g.t] && f.ks + [] + [|h|] == f.ks + [|h|];
    assert Linked(kids', f, g);
    forall j | 0 <= j < |ctx'| - 1 ensures Linked(kids', ctx'[j], ctx'[j + 1]) {
      if j < |ctx| - 1 { assert Linked(kids', ctx[j], ctx[j + 1]); }
    }
  }

  // ---------------------------------------------------------------------
  // The copying.

  lemma {:induction false} AllocatedOk(h: Heap, kids: Kids, x: Node)
    requires IsForest(h, kids) && Acyclic(h) && x.parent == x.firstChild == x.nextSibling == NULL
    ensures IsForest(h + [x], kids + [[]]) && Acyclic(h + [x])
  {
    var h', kids' := h + [x], kids + [[]];
    forall p | 0 <= p < |h'| ensures Row(h', p, kids'[p]) && Distinct(kids'[p]) {
      if p < |h| {
        assert Row(h, p, kids[p]);
        forall i | 0 <= i < |kids[p]| ensures IsNode(h', kids[p][i]) && InRow(h', p, kids[p], i) { assert InRow(h, p, kids[p], i); }
      }
    }
    forall n | 0 <= n < |h'| ensures Placed(h', kids', n) {
      if n < |h| { assert Placed(h, kids, n); }
    }
    var depth :| DepthOk(h, depth);
    assert forall n :: 0 <= n < |h| && h[n].parent != NULL ==> IsNode(h, h[n].parent);
    assert DepthOk(h', depth + [0]);
  }

  // append_new_node and node_copy_contents
  method CopyNode(t: Tree, dit: int, sit: int) returns (copy: int)
    requires t.Sound() && IsNode(t.heap, dit) && IsNode(t.heap, sit)
    modifies t`heap, t`kids
    ensures t.Sound() && copy == |old(t.heap)| && Grown(old(t.heap), old(t.kids), t.heap, t.kids, dit, sit)
  {
    ghost var h, kids := t.heap, t.kids;
    copy := |t.heap|;
    var x := Node(t.heap[sit].kind, t.heap[dit].document, t.heap[sit].data, NULL, NULL, NULL, NULL);
    AllocatedOk(h, kids, x);
    t.heap := t.heap + [x];
    t.kids := t.kids + [[]];
    NotYetBelow(t.heap, t.kids, copy);
    ghost var h1 := t.heap;
    t.AppendNode(copy, dit);
    assert IsForest(t.heap, t.kids) && Row(t.heap, dit, t.kids[dit]) && t.kids[dit][|t.kids[dit]| - 1] == copy;
    MoveKeepsAcyclic(h1, t.heap, copy, dit);
    assert t.kids[dit] == kids[dit] + [copy];
  }

  lemma {:induction false} NotYetBelow(h: Heap, kids: Kids, c: int)
    requires IsForest(h, kids) && IsNode(h, c) && kids[c] == []
    ensures forall n :: IsNode(h, n) && n != c ==> !InSubtree(h, c, n)
  {
    forall n | IsNode(h, n) && n != c ensures !InSubtree(h, c, n) {
      if InSubtree(h, c, n) {
        var k: nat :| Up(h, n, k) == c;
        LeafIsNotAbove(h, kids, c, n, k);
      }
    }
  }

  lemma {:induction false} LeafIsNotAbove(h: Heap, kids: Kids, c: int, n: int, k: nat)
    requires IsForest(h, kids) && IsNode(h, c) && kids[c] == [] && IsNode(h, n) && n != c
    ensures Up(h, n, k) != c
    decreases k
  {
    if k != 0 {
      var p := h[n].parent;
      assert Placed(h, kids, n);
      assert Up(h, n, k) == Up(h, p, k - 1);
      if p != NULL { LeafIsNotAbove(h, kids, c, p, k - 1); }
    }
  }

  function Size(t: T): (n: nat)
    ensures 1 <= n
    decreases t, 0
  {
    1 + SizeAll(t.kids)
  }

  function SizeAll(ts: seq<T>): (n: nat)
    decreases ts, 1
  {
    if ts == [] then 0 else Size(ts[0]) + SizeAll(ts[1..])
  }

  lemma {:induction false} SizeSum(a: seq<T>, b: seq<T>)
    ensures SizeAll(a + b) == SizeAll(a) + SizeAll(b)
    decreases |a|
  {
    if a == [] {
      assert a + b == b;
    } else {
      assert (a + b)[1..] == a[1..] + b;
      SizeSum(a[1..], b);
    }
  }

  // How much is still to be copied behind the current node, and how many places of
  // the source are still to be passed.
  ghost function Work(ctx: seq<Frame>): nat {
    if ctx == [] then 0 else SizeAll(ctx[|ctx| - 1].todo) + Work(ctx[..|ctx| - 1])
  }

  ghost function Places(kids: Kids, ctx: seq<Frame>): nat {
    if ctx == [] then 0 else Ahead(kids, ctx[|ctx| - 1]) + Places(kids, ctx[..|ctx| - 1])
  }

  ghost function Ahead(kids: Kids, f: Frame): nat {
    if 0 <= f.a < |kids| && f.i < |kids[f.a]| then |kids[f.a]| - f.i else 0
  }

  // The outermost frame.
  ghost predicate Begins(ctx: seq<Frame>, sn: int, dn: int, tree: T) {
    ctx != [] && ctx[0].a == sn && ctx[0].d == dn && ctx[0].t == tree
  }

  // Further in, the source nodes lie below sn.
  lemma {:induction false} BelowRoot(h: Heap, kids: Kids, s: set<int>, c: set<int>, dn: int, ctx: seq<Frame>, depth: seq<nat>, j: nat)
    requires IsForest(h, kids) && DepthOk(h, depth) && PathOk(h, kids, s, c, dn, ctx) && j < |ctx|
    ensures FrameOk(h, kids, s, c, dn, ctx[0]) && FrameOk(h, kids, s, c, dn, ctx[j])
    ensures if j == 0 then depth[ctx[j].a] == depth[ctx[0].a] else depth[ctx[0].a] < depth[ctx[j].a]
    decreases j
  {
    assert FrameOk(h, kids, s, c, dn, ctx[0]) && FrameOk(h, kids, s, c, dn, ctx[j]);
    if j != 0 {
      BelowRoot(h, kids, s, c, dn, ctx, depth, j - 1);
      assert Linked(kids, ctx[j - 1], ctx[j]);
      assert Row(h, ctx[j - 1].a, kids[ctx[j - 1].a]) && InRow(h, ctx[j - 1].a, kids[ctx[j - 1].a], ctx[j - 1].i);
    }
  }

  // What the links at sit and at its parent's copy lead to.
  lemma {:induction false} LinksAt(h: Heap, kids: Kids, s: set<int>, c: set<int>, dn: int, ctx: seq<Frame>, sit: int)
    requires IsForest(h, kids) && Acyclic(h) && PathOk(h, kids, s, c, dn, ctx)
    requires var f := ctx[|ctx| - 1]; FrameOk(h, kids, s, c, dn, f) && sit == kids[f.a][f.i]
    ensures var f := ctx[|ctx| - 1]; var ks := kids[f.a];
            && IsNode(h, sit) && h[sit].parent == f.a && h[sit].nextSibling == (if f.i + 1 < |ks| then ks[f.i + 1] else NULL)
            && sit != ctx[0].a && (f.a == ctx[0].a <==> |ctx| == 1)
            && (1 < |ctx| ==> h[f.d].parent == ctx[|ctx| - 2].d)
  {
    var f := ctx[|ctx| - 1];
    assert Row(h, f.a, kids[f.a]) && InRow(h, f.a, kids[f.a], f.i);
    var depth :| DepthOk(h, depth);
    BelowRoot(h, kids, s, c, dn, ctx, depth, |ctx| - 1);
    if 1 < |ctx| {
      var g := ctx[|ctx| - 2];
      assert Linked(kids, g, f) && FrameOk(h, kids, s, c, dn, g);
      assert kids[g.d][|kids[g.d]| - 1] == f.d;
      InRowOf(h, kids, g.d, f.d);
    }
  }

  ghost predicate Leaving(h: Heap, kids: Kids, s: set<int>, c: set<int>, sn: int, dn: int, tree: T, ctx: seq<Frame>, sit: int, dit: int) {
    Behind(h, kids, s, c, dn, ctx, sit) && Begins(ctx, sn, dn, tree) && dit == ctx[|ctx| - 1].d
  }

  ghost predicate Arriving(h: Heap, kids: Kids, s: set<int>, c: set<int>, sn: int, dn: int, tree: T, ctx: seq<Frame>, sit: int, dit: int, x: seq<T>) {
    AtNode(h, kids, s, c, dn, ctx, sit, x) && Begins(ctx, sn, dn, tree) && dit == ctx[|ctx| - 1].d && sit != sn && IsNode(h, sit)
  }

  lemma {:induction false} LeavingNode(h: Heap, kids: Kids, s: set<int>, c: set<int>, sn: int, dn: int, tree: T, ctx: seq<Frame>, sit: int, dit: int)
    requires IsForest(h, kids) && Acyclic(h) && Leaving(h, kids, s, c, sn, dn, tree, ctx, sit, dit)
    ensures IsNode(h, sit) && IsNode(h, dit) && h[sit].parent != NULL && sit != sn
  {
    LinksAt(h, kids, s, c, dn, ctx, sit);
  }

  lemma {:induction false} OnToSibling(h: Heap, kids: Kids, s: set<int>, c: set<int>, sn: int, dn: int, tree: T, ctx: seq<Frame>, sit: int, dit: int)
    returns (ctx': seq<Frame>, x: seq<T>)
    requires IsForest(h, kids) && Acyclic(h) && Leaving(h, kids, s, c, sn, dn, tree, ctx, sit, dit) && IsNode(h, sit) && h[sit].nextSibling != NULL
    ensures Arriving(h, kids, s, c, sn, dn, tree, ctx', h[sit].nextSibling, dit, x)
    ensures Work(ctx') + SizeAll(x) == Work(ctx) && Places(kids, ctx') < Places(kids, ctx)
  {
    LinksAt(h, kids, s, c, dn, ctx, sit);
    ctx', x := ToSibling(h, kids, s, c, dn, ctx, sit);
    MovedAlong(kids, ctx, ctx', x);
    LinksAt(h, kids, s, c, dn, ctx', h[sit].nextSibling);
  }

  lemma {:induction false} MovedAlong(kids: Kids, ctx: seq<Frame>, ctx': seq<Frame>, x: seq<T>)
    requires 0 < |ctx| == |ctx'| && ctx'[..|ctx| - 1] == ctx[..|ctx| - 1]
    requires var f, f' := ctx[|ctx| - 1], ctx'[|ctx| - 1]; f'.a == f.a && f'.i == f.i + 1 && f.todo == x + f'.todo
    requires var f := ctx[|ctx| - 1]; 0 <= f.a < |kids| && f.i < |kids[f.a]|
    ensures Work(ctx') + SizeAll(x) == Work(ctx) && Places(kids, ctx') < Places(kids, ctx)
  {
    SizeSum(x, ctx'[|ctx| - 1].todo);
  }

  lemma {:induction false} OnToParent(h: Heap, kids: Kids, s: set<int>, c: set<int>, sn: int, dn: int, tree: T, ctx: seq<Frame>, sit: int, dit: int)
    returns (c': set<int>, ctx': seq<Frame>)
    requires IsForest(h, kids) && Acyclic(h) && Leaving(h, kids, s, c, sn, dn, tree, ctx, sit, dit) && IsNode(h, sit) && IsNode(h, dit) && h[sit].nextSibling == NULL
    ensures h[sit].parent == sn ==> Spells(h, kids, c + {dn}, NULL, dn, tree) && c' == c
    ensures h[sit].parent != sn ==>
      && Leaving(h, kids, s, c', sn, dn, tree, ctx', h[sit].parent, h[dit].parent) && |ctx'| < |ctx|
      && Work(ctx') == Work(ctx) && Places(kids, ctx') <= Places(kids, ctx) && c' == c + {dit} && dit !in s && dit != dn
  {
    var f := ctx[|ctx| - 1];
    LinksAt(h, kids, s, c, dn, ctx, sit);
    CopyDone(h, kids, s, c, dn, ctx, sit);
    assert kids[f.a][f.i + 1..] == [] && f.todo == [];
    c', ctx' := c, ctx;
    if h[sit].parent != sn {
      ctx' := ToParent(h, kids, s, c, dn, ctx, sit);
      CopiesDiffer(h, kids, s, c, dn, ctx, 0);
      Popped(kids, ctx, ctx');
      c' := c + {dit};
    }
  }

  // c has grown by nodes of the copy.
  ghost predicate NewCopies(h: Heap, s: set<int>, dn: int, c0: set<int>, c: set<int>) {
    c0 <= c && forall n :: n in c && n !in c0 ==> IsNode(h, n) && n !in s && n != dn
  }

  // The inner loop: on to the next node of the source.
  method GoOn(h: Heap, ghost kids: Kids, sit0: int, dit0: int, sn: int, ghost dn: int, ghost s: set<int>, ghost c0: set<int>, ghost ctx0: seq<Frame>, ghost tree: T)
    returns (sit: int, dit: int, ghost c: set<int>, ghost ctx: seq<Frame>, ghost x: seq<T>)
    requires IsForest(h, kids) && Acyclic(h) && Leaving(h, kids, s, c0, sn, dn, tree, ctx0, sit0, dit0)
    ensures sit != NULL && (sit == sn ==> Spells(h, kids, c + {dn}, NULL, dn, tree))
    ensures sit != sn ==> Arriving(h, kids, s, c, sn, dn, tree, ctx, sit, dit, x)
    ensures sit != sn ==> Work(ctx) + SizeAll(x) == Work(ctx0) && Places(kids, ctx) < Places(kids, ctx0)
    ensures NewCopies(h, s, dn, c0, c)
  {
    sit, dit, c, ctx := ClimbUp(h, kids, sit0, dit0, sn, dn, s, c0, ctx0, tree);
    x := [];
    if sit != sn {
      ctx, x := OnToSibling(h, kids, s, c, sn, dn, tree, ctx, sit, dit);
      sit := h[sit].nextSibling;
    }
  }

  ghost predicate OnTheWay(h: Heap, kids: Kids, s: set<int>, c0: set<int>, c: set<int>, sn: int, dn: int, tree: T, ctx0: seq<Frame>, ctx: seq<Frame>, sit: int, dit: int) {
    && Leaving(h, kids, s, c, sn, dn, tree, ctx, sit, dit) && IsNode(h, sit) && IsNode(h, dit) && h[sit].parent != NULL && sit != sn
    && Work(ctx) == Work(ctx0) && Places(kids, ctx) <= Places(kids, ctx0) && NewCopies(h, s, dn, c0, c)
  }

  lemma {:induction false} StepUp(h: Heap, kids: Kids, s: set<int>, c0: set<int>, c: set<int>, sn: int, dn: int, tree: T, ctx0: seq<Frame>, ctx: seq<Frame>, sit: int, dit: int)
    returns (c': set<int>, ctx': seq<Frame>)
    requires IsForest(h, kids) && Acyclic(h) && OnTheWay(h, kids, s, c0, c, sn, dn, tree, ctx0, ctx, sit, dit) && h[sit].nextSibling == NULL
    ensures NewCopies(h, s, dn, c0, c') && h[sit].parent != NULL
    ensures h[sit].parent == sn ==> Spells(h, kids, c' + {dn}, NULL, dn, tree)
    ensures h[sit].parent != sn ==> OnTheWay(h, kids, s, c0, c', sn, dn, tree, ctx0, ctx', h[sit].parent, h[dit].parent) && |ctx'| < |ctx|
  {
    c', ctx' := OnToParent(h, kids, s, c, sn, dn, tree, ctx, sit, dit);
    if h[sit].parent != sn { LeavingNode(h, kids, s, c', sn, dn, tree, ctx', h[sit].parent, h[dit].parent); }
  }

  // Up to a node with a next sibling, or to the root.
  method ClimbUp(h: Heap, ghost kids: Kids, sit0: int, dit0: int, sn: int, ghost dn: int, ghost s: set<int>, ghost c0: set<int>, ghost ctx0: seq<Frame>, ghost tree: T)
    returns (sit: int, dit: int, ghost c: set<int>, ghost ctx: seq<Frame>)
    requires IsForest(h, kids) && Acyclic(h) && Leaving(h, kids, s, c0, sn, dn, tree, ctx0, sit0, dit0)
    ensures sit == sn ==> sit != NULL && Spells(h, kids, c + {dn}, NULL, dn, tree) && NewCopies(h, s, dn, c0, c)
    ensures sit != sn ==> OnTheWay(h, kids, s, c0, c, sn, dn, tree, ctx0, ctx, sit, dit) && h[sit].nextSibling != NULL
  {
    sit, dit, c, ctx := sit0, dit0, c0, ctx0;
    LeavingNode(h, kids, s, c, sn, dn, tree, ctx, sit, dit);
    while h[sit].nextSibling == NULL
      invariant OnTheWay(h, kids, s, c0, c, sn, dn, tree, ctx0, ctx, sit, dit)
      decreases |ctx|
    {
      c, ctx := StepUp(h, kids, s, c0, c, sn, dn, tree, ctx0, ctx, sit, dit);
      sit, dit := h[sit].parent, h[dit].parent;
      if sit == sn { return; }
    }
  }

  lemma {:induction false} Popped(kids: Kids, ctx: seq<Frame>, ctx': seq<Frame>)
    requires 1 < |ctx| && |ctx'| == |ctx| - 1 && ctx'[..|ctx| - 2] == ctx[..|ctx| - 2] && ctx[|ctx| - 1].todo == []
    requires var g, g' := ctx[|ctx| - 2], ctx'[|ctx| - 2]; g'.a == g.a && g'.i == g.i && g'.todo == g.todo
    ensures Work(ctx') == Work(ctx) && Places(kids, ctx') <= Places(kids, ctx)
  {
    var low := ctx[..|ctx| - 1];
    assert low[..|low| - 1] == ctx[..|ctx| - 2];
  }

  ghost function Range(a: int, b: int): (s: set<int>)
    ensures forall n :: n in s <==> a <= n < b
    decreases b - a
  {
    if a >= b then {} else Range(a, b - 1) + {b - 1}
  }

  ghost function Others(m: nat, dn: int): (s: set<int>)
    ensures forall n :: n in s <==> 0 <= n < m && n != dn
  {
    Range(0, m) - {dn}
  }

  ghost function Copies(m: nat, m': nat, dn: int): (s: set<int>)
    ensures forall n :: n in s <==> n == dn || m <= n < m'
  {
    {dn} + Range(m, m')
  }

  // What the copying leaves alone.
  ghost predicate OnlyBelow(h0: Heap, kids0: Kids, h: Heap, kids: Kids, dn: int) {
    && |kids0| == |h0| <= |h| == |kids|
    && forall n :: 0 <= n < |h0| ==> SameNode(h0[n], h[n]) && h[n].parent == h0[n].parent && (n != dn ==> kids[n] == kids0[n])
  }

  // A copy of sit is made and the walk goes down, or is done with sit.
  lemma {:induction false} AfterCopy(h: Heap, kids: Kids, h': Heap, kids': Kids, s: set<int>, c: set<int>, sn: int, dn: int, tree: T, ctx: seq<Frame>, sit: int, dit: int, x: seq<T>)
    returns (c': set<int>, ctx': seq<Frame>, x': seq<T>)
    requires Arriving(h, kids, s, c, sn, dn, tree, ctx, sit, dit, x) && sit != dn && Grown(h, kids, h', kids', dit, sit)
    requires IsForest(h', kids') && Acyclic(h') && |h| !in c && |h| !in s && dit !in s && sit != dit
    ensures c' <= c + {|h|}
    ensures kids[sit] == [] ==> c' == c + {|h|} && Leaving(h', kids', s, c', sn, dn, tree, ctx', sit, dit) && Work(ctx') < Work(ctx) + SizeAll(x)
    ensures kids[sit] != [] ==> c' == c && Arriving(h', kids', s, c', sn, dn, tree, ctx', kids[sit][0], |h|, x') && Work(ctx') + SizeAll(x') < Work(ctx) + SizeAll(x)
  {
    assert x == [x[0]] && SizeAll(x) == Size(x[0]) + SizeAll([]);
    if kids[sit] == [] {
      ctx' := LeafCopied(h, kids, h', kids', s, c, dn, ctx, sit, x);
      c', x' := c + {|h|}, [];
    } else {
      ctx', x' := ToChild(h, kids, h', kids', s, c, dn, ctx, sit, x);
      c' := c;
      SizeSum(x', ctx'[|ctx|].todo);
      LinksAt(h', kids', s, c, dn, ctx', kids[sit][0]);
    }
  }

  // The copy has its contents; nothing has been copied below it yet.
  lemma {:induction false} Start(h: Heap, kids: Kids, s: set<int>, sn: int, dn: int, tree: T) returns (ctx: seq<Frame>, x: seq<T>)
    requires IsForest(h, kids) && Acyclic(h) && IsNode(h, dn) && kids[dn] == [] && dn !in s && Spells(h, kids, s, dn, sn, tree)
    requires h[dn].kind == h[sn].kind && h[dn].data == h[sn].data
    ensures h[sn].firstChild == (if kids[sn] == [] then NULL else kids[sn][0])
    ensures kids[sn] == [] ==> Spells(h, kids, {dn}, NULL, dn, tree)
    ensures kids[sn] != [] ==> Arriving(h, kids, s, {}, sn, dn, tree, ctx, kids[sn][0], dn, x)
  {
    assert Row(h, sn, kids[sn]);
    ctx, x := [], [];
    if kids[sn] != [] {
      FirstSpells(h, kids, s, dn, kids[sn], tree.kids);
      var first := First(dn, kids[sn], tree.kids);
      x := first.0;
      var f := Frame(sn, dn, 0, tree, [], [], first.1);
      assert f.done + x + f.todo == x + f.todo && f.ks + [] == [];
      ctx := [f];
      assert FrameOk(h, kids, s, {}, dn, f);
      LinksAt(h, kids, s, {}, dn, ctx, kids[sn][0]);
    }
  }

  lemma {:induction false} ContentsOk(h: Heap, kids: Kids, n: int, data: Contents)
    requires IsForest(h, kids) && Acyclic(h) && IsNode(h, n)
    ensures IsForest(h[n := h[n].(data := data)], kids) && Acyclic(h[n := h[n].(data := data)])
  {
    var h' := h[n := h[n].(data := data)];
    forall p | 0 <= p < |h| ensures Row(h', p, kids[p]) {
      assert Row(h, p, kids[p]);
      forall i | 0 <= i < |kids[p]| ensures IsNode(h', kids[p][i]) && InRow(h', p, kids[p], i) { assert InRow(h, p, kids[p], i); }
    }
    forall m | 0 <= m < |h| ensures Placed(h', kids, m) { assert Placed(h, kids, m); }
    var depth :| DepthOk(h, depth);
    assert DepthOk(h', depth);
  }

  /** node_copy_tree: below dn stands a copy of the tree at sn, made of new nodes only, as
      that tree was without dn; no other node has changed. */
  lemma {:induction false} ContentsAndBelow(h0: Heap, h1: Heap, kids1: Kids, h: Heap, kids: Kids, dn: int)
    requires IsNode(h0, dn) && |h1| == |h0| && h1 == h0[dn := h0[dn].(data := h1[dn].data)] && OnlyBelow(h1, kids1, h, kids, dn)
    ensures |h0| <= |h|
    ensures forall n :: 0 <= n < |h0| ==> h[n].parent == h0[n].parent && h[n].kind == h0[n].kind
    ensures forall n :: 0 <= n < |h0| && n != dn ==> kids[n] == kids1[n] && SameNode(h0[n], h[n])
  {
  }

  method NodeCopyTree(t: Tree, dn: int, sn: int, ghost tree: T)
    requires t.Sound() && IsNode(t.heap, dn) && IsNode(t.heap, sn) && dn != sn && t.kids[dn] == []
    requires t.heap[dn].kind == t.heap[sn].kind && Spells(t.heap, t.kids, Others(|t.heap|, dn), dn, sn, tree)
    modifies t`heap, t`kids
    ensures t.Sound() && |old(t.heap)| <= |t.heap|
    ensures Spells(t.heap, t.kids, Copies(|old(t.heap)|, |t.heap|, dn), NULL, dn, tree)
    ensures forall n :: 0 <= n < |old(t.heap)| ==> t.heap[n].parent == old(t.heap)[n].parent && t.heap[n].kind == old(t.heap)[n].kind
    ensures forall n :: 0 <= n < |old(t.heap)| && n != dn ==> t.kids[n] == old(t.kids)[n] && SameNode(old(t.heap)[n], t.heap[n])
  {
    ghost var h0, m, s := t.heap, |t.heap|, Others(|t.heap|, dn);
    ContentsOk(t.heap, t.kids, dn, t.heap[sn].data);
    t.heap := t.heap[dn := t.heap[dn].(data := t.heap[sn].data)];
    ghost var h1, kids1 := t.heap, t.kids;
    StillSpells(h0, kids1, h1, kids1, s, s, dn, sn, tree);
    ghost var c: set<int> := {};
    ghost var ctx, x := Start(h1, kids1, s, sn, dn, tree);
    var dit, sit := dn, t.heap[sn].firstChild;
    c := CopyAll(t, sit, sn, dn, m, s, ctx, x, tree);
    ContentsAndBelow(h0, h1, kids1, t.heap, t.kids, dn);
    StillSpells(t.heap, t.kids, t.heap, t.kids, c + {dn}, Copies(m, |t.heap|, dn), NULL, dn, tree);
  }

  method CopyAll(t: Tree, sit0: int, sn: int, dn: int, ghost m: nat, ghost s: set<int>, ghost ctx0: seq<Frame>, ghost x0: seq<T>, ghost tree: T) returns (ghost c: set<int>)
    requires t.Sound() && IsNode(t.heap, sn) && s == Others(m, dn) && 0 <= dn < m == |t.heap|
    requires Copying(t.heap, t.kids, m, s, {}, sn, dn, tree, ctx0, sit0, dn, x0)
    modifies t`heap, t`kids
    ensures t.Sound() && OnlyBelow(old(t.heap), old(t.kids), t.heap, t.kids, dn)
    ensures Spells(t.heap, t.kids, c + {dn}, NULL, dn, tree) && forall n :: n in c ==> m <= n < |t.heap|
  {
    ghost var h0, kids0 := t.heap, t.kids;
    var sit, dit := sit0, dn;
    ghost var ctx, x := ctx0, x0;
    c := {};
    while sit != NULL && sit != sn
      invariant t.Sound() && OnlyBelow(h0, kids0, t.heap, t.kids, dn) && IsNode(t.heap, sn)
      invariant Copying(t.heap, t.kids, m, s, c, sn, dn, tree, ctx, sit, dit, x)
      decreases sit != NULL && sit != sn, Work(ctx) + SizeAll(x), Places(t.kids, ctx)
    {
      ghost var h, kids, last := t.heap, t.kids, if sit == dn then dn else dit;
      sit, dit, c, ctx, x := CopyOne(t, sit, dit, sn, dn, m, s, c, ctx, x, tree);
      KeptOn(h0, kids0, h, kids, t.heap, t.kids, dn, last);
    }
  }

  lemma {:induction false} KeptOn(h0: Heap, kids0: Kids, h: Heap, kids: Kids, h': Heap, kids': Kids, dn: int, last: int)
    requires OnlyBelow(h0, kids0, h, kids, dn) && OnlyBelow(h, kids, h', kids', last) && last !in Others(|h0|, dn)
    ensures OnlyBelow(h0, kids0, h', kids', dn)
  {
  }

  // The walk is at sit, or has ended.
  ghost predicate Copying(h: Heap, kids: Kids, m: nat, s: set<int>, c: set<int>, sn: int, dn: int, tree: T, ctx: seq<Frame>, sit: int, dit: int, x: seq<T>) {
    && (if sit == NULL || sit == sn then Spells(h, kids, c + {dn}, NULL, dn, tree)
        else Arriving(h, kids, s, c, sn, dn, tree, ctx, sit, dit, x))
    && m <= |h| && forall n :: n in c ==> m <= n < |h|
  }

  // What is still to be done: first what is to be copied, then the places to be passed.
  ghost predicate LessToDo(kids: Kids, ctx: seq<Frame>, x: seq<T>, kids0: Kids, ctx0: seq<Frame>, x0: seq<T>) {
    || Work(ctx) + SizeAll(x) < Work(ctx0) + SizeAll(x0)
    || (Work(ctx) + SizeAll(x) == Work(ctx0) + SizeAll(x0) && Places(kids, ctx) < Places(kids0, ctx0))
  }

  lemma {:induction false} GrownKeeps(h: Heap, kids: Kids, h': Heap, kids': Kids, dit: int, sit: int)
    requires Grown(h, kids, h', kids', dit, sit) && IsForest(h', kids')
    ensures OnlyBelow(h, kids, h', kids', dit) && (sit != dit ==> kids'[sit] == kids[sit])
    ensures h'[sit].firstChild == if kids'[sit] == [] then NULL else kids'[sit][0]
    ensures sit != dit && kids[sit] != [] ==> kids[sit][0] != NULL
  {
    assert Row(h', sit, kids'[sit]);
    if sit != dit && kids[sit] != [] { assert InRow(h', sit, kids'[sit], 0); }
  }

  // Where copying sit leads: down to its first child, or behind it.
  ghost predicate Copied(h: Heap, kids: Kids, m: nat, s: set<int>, c: set<int>, sn: int, dn: int, tree: T, ctx: seq<Frame>, sit: int, dit: int, copy: int, x: seq<T>) {
    && IsNode(h, sit) && m <= |h| && (forall n :: n in c ==> m <= n < |h|)
    && if h[sit].firstChild == NULL then x == [] && Leaving(h, kids, s, c, sn, dn, tree, ctx, sit, dit)
       else Arriving(h, kids, s, c, sn, dn, tree, ctx, h[sit].firstChild, copy, x)
  }

  lemma {:induction false} CopyOutside(h: Heap, kids: Kids, s: set<int>, c: set<int>, sn: int, dn: int, tree: T, ctx: seq<Frame>, sit: int, dit: int, x: seq<T>)
    requires Arriving(h, kids, s, c, sn, dn, tree, ctx, sit, dit, x)
    ensures dit !in s && dit !in c && IsNode(h, dit) && (sit != dn ==> sit in s)
  {
    assert FrameOk(h, kids, s, c, dn, ctx[|ctx| - 1]);
  }

  lemma {:induction false} HereCopied(h: Heap, kids: Kids, h': Heap, kids': Kids, m: nat, s: set<int>, c0: set<int>, sn: int, dn: int, tree: T, ctx0: seq<Frame>, sit: int, dit: int, x0: seq<T>)
    returns (c: set<int>, ctx: seq<Frame>, x: seq<T>)
    requires Arriving(h, kids, s, c0, sn, dn, tree, ctx0, sit, dit, x0) && sit != dn && Grown(h, kids, h', kids', dit, sit)
    requires IsForest(h', kids') && Acyclic(h') && s == Others(m, dn) && m <= |h| && forall n :: n in c0 ==> m <= n < |h|
    ensures Copied(h', kids', m, s, c, sn, dn, tree, ctx, sit, dit, |h|, x) && Work(ctx) + SizeAll(x) < Work(ctx0) + SizeAll(x0)
    ensures OnlyBelow(h, kids, h', kids', dit) && dit !in s
  {
    CopyOutside(h, kids, s, c0, sn, dn, tree, ctx0, sit, dit, x0);
    GrownKeeps(h, kids, h', kids', dit, sit);
    c, ctx, x := AfterCopy(h, kids, h', kids', s, c0, sn, dn, tree, ctx0, sit, dit, x0);
    if kids[sit] == [] {
      x := [];
      assert Leaving(h', kids', s, c, sn, dn, tree, ctx, sit, dit) && h'[sit].firstChild == NULL;
    } else {
      assert Arriving(h', kids', s, c, sn, dn, tree, ctx, kids[sit][0], |h|, x) && h'[sit].firstChild == kids[sit][0];
    }
    OneMore(c0, c, m, |h|);
  }

  lemma OneMore(c: set<int>, c': set<int>, m: nat, k: nat)
    requires c' <= c + {k} && m <= k && forall n :: n in c ==> m <= n < k
    ensures forall n :: n in c' ==> m <= n < k + 1
  {
  }

  // Copies sit and goes down, or is done with it.
  method CopyHere(t: Tree, sit: int, dit: int, ghost sn: int, ghost dn: int, ghost m: nat, ghost s: set<int>, ghost c0: set<int>, ghost ctx0: seq<Frame>, ghost x0: seq<T>, ghost tree: T)
    returns (copy: int, down: bool, ghost c: set<int>, ghost ctx: seq<Frame>, ghost x: seq<T>)
    requires t.Sound() && s == Others(m, dn) && sit != dn && m <= |t.heap| && dn < m && IsNode(t.heap, dit)
    requires Arriving(t.heap, t.kids, s, c0, sn, dn, tree, ctx0, sit, dit, x0) && forall n :: n in c0 ==> m <= n < |t.heap|
    modifies t`heap, t`kids
    ensures t.Sound() && OnlyBelow(old(t.heap), old(t.kids), t.heap, t.kids, dit)
    ensures Copied(t.heap, t.kids, m, s, c, sn, dn, tree, ctx, sit, dit, copy, x) && down == (t.heap[sit].firstChild != NULL)
    ensures Work(ctx) + SizeAll(x) < Work(ctx0) + SizeAll(x0)
  {
    ghost var h, kids := t.heap, t.kids;
    copy := CopyNode(t, dit, sit);
    c, ctx, x := HereCopied(h, kids, t.heap, t.kids, m, s, c0, sn, dn, tree, ctx0, sit, dit, x0);
    down := t.heap[sit].firstChild != NULL;
  }

  lemma {:induction false} Skipped(h: Heap, kids: Kids, s: set<int>, c: set<int>, sn: int, dn: int, tree: T, ctx: seq<Frame>, sit: int, dit: int, x: seq<T>)
    requires Arriving(h, kids, s, c, sn, dn, tree, ctx, sit, dit, x) && sit == dn
    ensures x == [] && Leaving(h, kids, s, c, sn, dn, tree, ctx, sit, dit)
  {
  }

  // One round.
  method CopyOne(t: Tree, sit0: int, dit0: int, sn: int, dn: int, ghost m: nat, ghost s: set<int>, ghost c0: set<int>, ghost ctx0: seq<Frame>, ghost x0: seq<T>, ghost tree: T)
    returns (sit: int, dit: int, ghost c: set<int>, ghost ctx: seq<Frame>, ghost x: seq<T>)
    requires t.Sound() && sit0 != NULL && sit0 != sn && s == Others(m, dn) && dn < m && IsNode(t.heap, sn)
    requires Copying(t.heap, t.kids, m, s, c0, sn, dn, tree, ctx0, sit0, dit0, x0)
    modifies t`heap, t`kids
    ensures t.Sound() && IsNode(t.heap, sn) && Copying(t.heap, t.kids, m, s, c, sn, dn, tree, ctx, sit, dit, x)
    ensures sit != sn ==> LessToDo(t.kids, ctx, x, old(t.kids), ctx0, x0)
    ensures OnlyBelow(old(t.heap), old(t.kids), t.heap, t.kids, if sit0 == dn then dn else dit0) && dit0 !in s && |old(t.heap)| <= |t.heap|
  {
    sit, dit, c, ctx, x := sit0, dit0, c0, ctx0, x0;
    CopyOutside(t.heap, t.kids, s, c, sn, dn, tree, ctx, sit, dit, x);
    if sit != dn {
      var copy, down;
      copy, down, c, ctx, x := CopyHere(t, sit, dit, sn, dn, m, s, c, ctx, x, tree);
      if down {
        sit, dit := t.heap[sit].firstChild, copy;
        return;
      }
    } else {
      Skipped(t.heap, t.kids, s, c, sn, dn, tree, ctx, sit, dit, x);
    }
    var h := t.heap;
    ghost var kids, before := t.kids, c;
    sit, dit, c, ctx, x := GoOn(h, kids, sit, dit, sn, dn, s, c, ctx, tree);
    Went(h, kids, m, s, before, c, sn, dn, tree, ctx, sit, dit, x);
    assert Copying(h, kids, m, s, c, sn, dn, tree, ctx, sit, dit, x);
  }

  lemma {:induction false} Went(h: Heap, kids: Kids, m: nat, s: set<int>, before: set<int>, c: set<int>, sn: int, dn: int, tree: T, ctx: seq<Frame>, sit: int, dit: int, x: seq<T>)
    requires s == Others(m, dn) && m <= |h| && sit != NULL && forall n :: n in before ==> m <= n < |h|
    requires before <= c && forall n :: n in c && n !in before ==> IsNode(h, n) && n !in s && n != dn
    requires sit == sn ==> Spells(h, kids, c + {dn}, NULL, dn, tree)
    requires sit != sn ==> Arriving(h, kids, s, c, sn, dn, tree, ctx, sit, dit, x)
    ensures Copying(h, kids, m, s, c, sn, dn, tree, ctx, sit, dit, x)
  {
  }

  // ---------------------------------------------------------------------
  // Copies in a document (append_copy and its kind).

  // Every node of a forest has a tree.
  lemma {:induction false} TreeAt(h: Heap, kids: Kids, depth: seq<nat>, most: nat, n: int) returns (t: T)
    requires IsForest(h, kids) && DepthOk(h, depth) && IsNode(h, n) && forall k :: 0 <= k < |depth| ==> depth[k] <= most
    ensures Spells(h, kids, Range(0, |h|), NULL, n, t)
    decreases most - depth[n], 1, 0
  {
    KidsDeeper(h, kids, depth, n);
    var ts := TreesAt(h, kids, depth, most, n, kids[n]);
    t := T(h[n].kind, h[n].data, ts);
  }

  lemma {:induction false} KidsDeeper(h: Heap, kids: Kids, depth: seq<nat>, n: int)
    requires IsForest(h, kids) && DepthOk(h, depth) && IsNode(h, n)
    ensures forall i :: 0 <= i < |kids[n]| ==> IsNode(h, kids[n][i]) && depth[n] < depth[kids[n][i]]
  {
    assert Row(h, n, kids[n]);
    forall i | 0 <= i < |kids[n]| ensures IsNode(h, kids[n][i]) && depth[n] < depth[kids[n][i]] { assert InRow(h, n, kids[n], i); }
  }

  lemma {:induction false} TreesAt(h: Heap, kids: Kids, depth: seq<nat>, most: nat, p: int, ns: seq<int>) returns (ts: seq<T>)
    requires IsForest(h, kids) && DepthOk(h, depth) && IsNode(h, p) && forall k :: 0 <= k < |depth| ==> depth[k] <= most
    requires forall i :: 0 <= i < |ns| ==> IsNode(h, ns[i]) && depth[p] < depth[ns[i]]
    ensures SpellsAll(h, kids, Range(0, |h|), NULL, ns, ts)
    decreases most - depth[p], 0, |ns|
  {
    if ns == [] { return []; }
    var t := TreeAt(h, kids, depth, most, ns[0]);
    var rest := TreesAt(h, kids, depth, most, p, ns[1..]);
    ts := [t] + rest;
  }

  // dn has been added to the row of p, and to no other.
  ghost predicate Added(h: Heap, kids: Kids, h': Heap, kids': Kids, p: int, i: nat, dn: int) {
    && |kids| == |h| == dn && |h'| == |kids'| == |h| + 1 && IsNode(h, p) && i <= |kids[p]|
    && kids'[p] == Inserted(kids[p], i, dn) && kids'[dn] == []
    && forall n :: 0 <= n < |h| ==> SameNode(h[n], h'[n]) && (n != p ==> kids'[n] == kids[n])
  }

  lemma {:induction false} InsertedSkipped(h: Heap, kids: Kids, s: set<int>, dn: int, ns: seq<int>, i: nat, ts: seq<T>)
    requires SpellsAll(h, kids, s, dn, ns, ts) && i <= |ns|
    ensures SpellsAll(h, kids, s, dn, Inserted(ns, i, dn), ts)
    decreases i
  {
    var ns' := Inserted(ns, i, dn);
    if i == 0 {
      assert ns'[1..] == ns;
    } else {
      assert ns'[1..] == Inserted(ns[1..], i - 1, dn);
      InsertedSkipped(h, kids, s, dn, ns[1..], i - 1, if ns[0] == dn then ts else ts[1..]);
    }
  }

  // Without the new node the trees are the ones there were.
  lemma {:induction false} SpellsWithout(h: Heap, kids: Kids, h': Heap, kids': Kids, p: int, i: nat, dn: int, n: int, t: T)
    requires IsForest(h, kids) && Added(h, kids, h', kids', p, i, dn) && Spells(h, kids, Range(0, dn), NULL, n, t)
    ensures Spells(h', kids', Others(|h'|, dn), dn, n, t)
    decreases t, 0
  {
    assert Row(h, n, kids[n]);
    SpellsAllWithout(h, kids, h', kids', p, i, dn, kids[n], t.kids);
    if n == p { InsertedSkipped(h', kids', Others(|h'|, dn), dn, kids[p], i, t.kids); }
  }

  lemma {:induction false} SpellsAllWithout(h: Heap, kids: Kids, h': Heap, kids': Kids, p: int, i: nat, dn: int, ns: seq<int>, ts: seq<T>)
    requires IsForest(h, kids) && Added(h, kids, h', kids', p, i, dn) && SpellsAll(h, kids, Range(0, dn), NULL, ns, ts)
    requires forall k :: 0 <= k < |ns| ==> IsNode(h, ns[k])
    ensures SpellsAll(h', kids', Others(|h'|, dn), dn, ns, ts)
    decreases ts, |ns| + 1
  {
    if ns != [] {
      assert ns[0] != NULL && ns[0] != dn;
      SpellsWithout(h, kids, h', kids', p, i, dn, ns[0], ts[0]);
      SpellsAllWithout(h, kids, h', kids', p, i, dn, ns[1..], ts[1..]);
    }
  }

  // dn is a new child of p, number i, and stands above a copy of tree; nothing else has changed.
  ghost predicate CopyMade(h: Heap, kids: Kids, h': Heap, kids': Kids, p: int, i: nat, dn: int, tree: T) {
    && |kids| == |h| == dn < |h'| == |kids'| && IsNode(h, p) && i <= |kids[p]|
    && kids'[p] == Inserted(kids[p], i, dn) && Spells(h', kids', Copies(dn, |h'|, dn), NULL, dn, tree)
    && forall n :: 0 <= n < |h| ==> SameNode(h[n], h'[n]) && (n != p ==> kids'[n] == kids[n])
  }

  method Allocate(t: Tree, kind: NodeType, document: int) returns (dn: int)
    requires t.Sound()
    modifies t`heap, t`kids
    ensures t.Sound() && dn == |old(t.heap)| && t.heap == old(t.heap) + [Node(kind, document, NOTHING, NULL, NULL, NULL, NULL)]
    ensures t.kids == old(t.kids) + [[]]
  {
    dn := |t.heap|;
    var x := Node(kind, document, NOTHING, NULL, NULL, NULL, NULL);
    AllocatedOk(t.heap, t.kids, x);
    t.heap := t.heap + [x];
    t.kids := t.kids + [[]];
  }

  // After linking the new node below p.
  lemma {:induction false} AddedSound(h: Heap, kids: Kids, h1: Heap, h': Heap, kids': Kids, p: int, i: nat, dn: int)
    requires IsForest(h, kids) && IsNode(h, p) && i <= |kids[p]| && dn == |h| && |h1| == dn + 1 && h1[..dn] == h
    requires IsForest(h1, kids + [[]]) && Acyclic(h1) && Reparented(h1, h', dn)
    requires kids' == (kids + [[]])[p := Inserted(kids[p], i, dn)] && IsForest(h', kids')
    requires forall n :: 0 <= n < |h1| ==> SameNode(h1[n], h'[n])
    ensures Acyclic(h') && Added(h, kids, h', kids', p, i, dn)
  {
    assert Row(h', p, kids'[p]) && kids'[p][i] == dn;
    NotYetBelow(h1, kids + [[]], dn);
    MoveKeepsAcyclic(h1, h', dn, p);
    assert forall n :: 0 <= n < |h| ==> h1[n] == h1[..dn][n];
  }

  // allocate_node and append_node or prepend_node
  method NewChild(t: Tree, parent: int, kind: NodeType, last: bool) returns (dn: int)
    requires t.Sound() && IsNode(t.heap, parent)
    modifies t`heap, t`kids
    ensures t.Sound() && dn == |old(t.heap)| && IsNode(t.heap, dn) && t.heap[dn].kind == kind
    ensures Added(old(t.heap), old(t.kids), t.heap, t.kids, parent, if last then |old(t.kids)[parent]| else 0, dn)
  {
    ghost var h, kids, i := t.heap, t.kids, if last then |t.kids[parent]| else 0;
    dn := Allocate(t, kind, t.heap[parent].document);
    ghost var h1 := t.heap;
    if last { t.AppendNode(dn, parent); } else { t.PrependNode(dn, parent); }
    AddedSound(h, kids, h1, t.heap, t.kids, parent, i, dn);
  }

  lemma {:induction false} MadeFrom(h: Heap, kids: Kids, h1: Heap, kids1: Kids, h': Heap, kids': Kids, p: int, i: nat, dn: int, tree: T)
    requires Added(h, kids, h1, kids1, p, i, dn) && |h1| <= |h'| == |kids'|
    requires Spells(h', kids', Copies(|h1|, |h'|, dn), NULL, dn, tree)
    requires forall n :: 0 <= n < |h1| && n != dn ==> kids'[n] == kids1[n] && SameNode(h1[n], h'[n])
    ensures CopyMade(h, kids, h', kids', p, i, dn, tree)
  {
    StillSpells(h', kids', h', kids', Copies(|h1|, |h'|, dn), Copies(dn, |h'|, dn), NULL, dn, tree);
  }

  /** append_copy and prepend_copy: null if a node of that kind cannot go there.  The copied
      node may be the parent or above it: what is copied is the tree as it was before. */
  method CopyInto(t: Tree, parent: int, proto: int, last: bool, ghost tree: T) returns (dn: int)
    requires t.Sound() && (parent == NULL || IsNode(t.heap, parent)) && (proto == NULL || IsNode(t.heap, proto))
    requires proto != NULL ==> Spells(t.heap, t.kids, Range(0, |t.heap|), NULL, proto, tree)
    modifies t`heap, t`kids
    ensures t.Sound() && (dn == NULL <==> !AllowInsertChild(KindOf(old(t.heap), parent), KindOf(old(t.heap), proto)))
    ensures dn == NULL ==> t.heap == old(t.heap) && t.kids == old(t.kids)
    ensures dn != NULL ==> CopyMade(old(t.heap), old(t.kids), t.heap, t.kids, parent, if last then |old(t.kids)[parent]| else 0, dn, tree)
  {
    if !AllowInsertChild(KindOf(t.heap, parent), KindOf(t.heap, proto)) { return NULL; }
    ghost var h, kids, i := t.heap, t.kids, if last then |t.kids[parent]| else 0;
    dn := NewChild(t, parent, t.heap[proto].kind, last);
    ghost var h1, kids1 := t.heap, t.kids;
    SpellsWithout(h, kids, h1, kids1, parent, i, dn, proto, tree);
    NodeCopyTree(t, dn, proto, tree);
    MadeFrom(h, kids, h1, kids1, t.heap, t.kids, parent, i, dn, tree);
  }
}
