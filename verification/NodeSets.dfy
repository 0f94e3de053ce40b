/** xpath_node_set_raw: a list of nodes with a record of how it is ordered
    (pugixml.cpp, xpath_get_order, xpath_sort, xpath_first, remove_duplicates). */
module NodeSets {
  import opened Documents
  import opened Axes
  import opened XPath
  import DocumentOrder
  import Sorting
  import Collections

  datatype SetType = Unsorted | Sorted | SortedReverse

  datatype NodeSetRaw = NodeSetRaw(items: seq<int>, type': SetType)

  // How much of a node-set the caller needs.
  datatype Mode = EvalAll | EvalAny | EvalFirst

  ghost predicate Distinct(s: seq<int>) {
    forall i, j :: 0 <= i < j < |s| ==> s[i] != s[j]
  }

  ghost predicate OrderedAs(s: seq<int>, t: SetType) {
    match t
    case Unsorted => Distinct(s)
    case Sorted => Ascending(s)
    case SortedReverse => Descending(s)
  }

  ghost predicate Nodes(d: Doc, s: seq<int>) {
    forall i :: 0 <= i < |s| ==> IsNode(d, s[i])
  }

  // What a partial answer owes each member of the full set: itself, or a member
  // at or before it, or just some member.
  ghost predicate Covers(mode: Mode, items: seq<int>, m: int) {
    match mode
    case EvalAll => m in items
    case EvalFirst => exists k :: k in items && k <= m
    case EvalAny => items != []
  }

  // ns is an answer to an evaluation of the set s in the given mode.
  ghost predicate Answers(d: Doc, ns: NodeSetRaw, mode: Mode, s: set<int>) {
    && OrderedAs(ns.items, ns.type')
    && Nodes(d, ns.items)
    && (forall m :: m in ns.items ==> m in s)
    && (forall m :: m in s ==> Covers(mode, ns.items, m))
  }

  lemma OrderedIsDistinct(s: seq<int>, t: SetType)
    requires OrderedAs(s, t)
    ensures Distinct(s)
  {
  }

  lemma MemberOfSeq(s: seq<int>) returns (m: int)
    requires s != []
    ensures m in s
  {
    m := s[0];
  }

  // Early exit is sound: an answer is empty exactly when the set is.
  lemma AnswerEmpty(d: Doc, ns: NodeSetRaw, mode: Mode, s: set<int>)
    requires Answers(d, ns, mode, s)
    ensures ns.items == [] <==> s == {}
  {
    if s != {} {
      var m := Collections.Member(s);
      assert Covers(mode, ns.items, m);
    }
    if ns.items != [] {
      var m := MemberOfSeq(ns.items);
    }
  }

  // Early exit is sound: the first node of an answer is the first node of the set.
  lemma AnswerFirst(d: Doc, ns: NodeSetRaw, mode: Mode, s: set<int>, m: int)
    requires Answers(d, ns, mode, s) && mode != EvalAny
    requires m in ns.items && forall k :: k in ns.items ==> m <= k
    ensures s != {} && m == Min(s)
  {
    assert m in s;
    assert Covers(mode, ns.items, Min(s));
  }

  lemma DistinctCount(items: seq<int>, s: set<int>)
    requires Distinct(items) && (forall m :: m in items <==> m in s)
    ensures |items| == |s|
    decreases |items|
  {
    if items == [] {
      if s != {} { var m := Collections.Member(s); }
    } else {
      var m := items[|items| - 1];
      var rest := items[..|items| - 1];
      assert items == rest + [m];
      DistinctCount(rest, s - {m});
    }
  }

  lemma {:induction false} OrderedLists(d: Doc, s: set<int>, hi: nat)
    ensures Ascending(Ordered(d, s, hi))
    ensures forall m :: m in Ordered(d, s, hi) <==> 0 <= m < hi && m in s
    decreases hi
  {
    if hi != 0 {
      OrderedLists(d, s, hi - 1);
      var o := Ordered(d, s, hi - 1);
      forall i | 0 <= i < |o| ensures o[i] < hi - 1 {
        assert o[i] in o;
      }
    }
  }

  lemma LastOfAscending(a: seq<int>, x: int)
    requires Ascending(a) && x in a
    ensures x <= a[|a| - 1]
  {
  }

  // An ascending list is determined by its members.
  lemma {:induction false} AscendingUnique(a: seq<int>, b: seq<int>)
    requires Ascending(a) && Ascending(b) && forall m :: m in a <==> m in b
    ensures a == b
    decreases |a|
  {
    if a == [] {
      if b != [] { var m := MemberOfSeq(b); }
    } else {
      var x := a[|a| - 1];
      assert x in b;
      var y := b[|b| - 1];
      assert y in a;
      LastOfAscending(a, y);
      LastOfAscending(b, x);
      var a', b' := a[..|a| - 1], b[..|b| - 1];
      assert a == a' + [x] && b == b' + [x];
      forall m ensures m in a' <==> m in b' {
        DropLast(a, m);
        DropLast(b, m);
      }
      AscendingUnique(a', b');
    }
  }

  lemma DropLast(a: seq<int>, m: int)
    requires Ascending(a) && a != []
    ensures m in a[..|a| - 1] <==> m in a && m != a[|a| - 1]
  {
    assert a == a[..|a| - 1] + [a[|a| - 1]];
  }

  // ---------------------------------------------------------------------

  method GetOrder(d: Doc, s: seq<int>) returns (t: SetType)
    requires WellFormed(d) && Nodes(d, s) && Distinct(s)
    ensures OrderedAs(s, t)
    ensures t != Unsorted || 2 < |s|
  {
    if |s| < 2 { return Sorted; }
    var first := DocumentOrder.DocumentLess(d, s[0], s[1]);
    var it := 1;
    while it + 1 < |s|
      invariant 1 <= it < |s|
      invariant if first then Ascending(s[..it + 1]) else Descending(s[..it + 1])
    {
      var less := DocumentOrder.DocumentLess(d, s[it], s[it + 1]);
      if less != first { return Unsorted; }
      assert s[..it + 2] == s[..it + 1] + [s[it + 1]];
      assert s[..it + 1][it] == s[it];
      it := it + 1;
    }
    assert s[..it + 1] == s;
    t := if first then Sorted else SortedReverse;
  }

  // The comparator of the sort.  It is no strict order, as it puts an attribute
  // before itself.
  function Comparator(d: Doc): (int, int) -> bool {
    (x: int, y: int) => DocumentOrder.Precedes(d, x, y)
  }

  lemma NodeOrderIsTotal(d: Doc)
    ensures Sorting.TotalOrder(Comparator(d))
  {
    assert forall x, y :: Sorting.AtMost(Comparator(d), x, y) <==> x <= y;
  }

  // Sorting in document order, also a sequence that holds a node several times.
  method SortNodes(d: Doc, s: seq<int>) returns (r: seq<int>)
    ensures multiset(r) == multiset(s) && forall i, j :: 0 <= i < j < |r| ==> r[i] <= r[j]
    ensures Distinct(s) ==> Ascending(r)
    ensures forall m :: m in r <==> m in s
  {
    var a := new int[|s|](i requires 0 <= i < |s| => s[i]);
    assert a[..] == s;
    NodeOrderIsTotal(d);
    Sorting.Sort(a, 0, a.Length, Comparator(d));
    r := a[..];
    SortedNodes(d, s, r);
    if Distinct(s) { SortedDistinct(s, r); }
  }

  lemma SortedNodes(d: Doc, s: seq<int>, t: seq<int>)
    requires Sorting.Rearranged(s, t, 0, |s|) && Sorting.SortedRange(Comparator(d), t, 0, |t|)
    ensures multiset(t) == multiset(s) && forall i, j :: 0 <= i < j < |t| ==> t[i] <= t[j]
    ensures forall m :: m in t <==> m in s
  {
    assert s[0..|s|] == s && t[0..|s|] == t;
    forall i, j | 0 <= i < j < |t| ensures t[i] <= t[j] {
      assert Sorting.AtMost(Comparator(d), t[i], t[j]);
    }
    forall m ensures m in t <==> m in s {
      assert m in multiset(t) <==> m in multiset(s);
    }
  }

  method ReverseNodes(s: seq<int>) returns (r: seq<int>)
    requires Descending(s)
    ensures Ascending(r) && forall m :: m in r <==> m in s
  {
    var a := new int[|s|](i requires 0 <= i < |s| => s[i]);
    assert a[..] == s;
    Sorting.ReverseInPlace(a, 0, a.Length);
    r := a[..];
    ReversedMembers(s, r);
  }

  method SortDo(d: Doc, ns: NodeSetRaw) returns (r: NodeSetRaw)
    requires WellFormed(d) && Nodes(d, ns.items) && OrderedAs(ns.items, ns.type')
    ensures r.type' == Sorted && Ascending(r.items)
    ensures forall m :: m in r.items <==> m in ns.items
  {
    OrderedIsDistinct(ns.items, ns.type');
    var t, items := ns.type', ns.items;
    if t == Unsorted {
      var order := GetOrder(d, items);
      if order == Unsorted {
        items := SortNodes(d, items);
        t := Sorted;
      } else {
        t := order;
      }
    }
    if t != Sorted { items := ReverseNodes(items); }
    r := NodeSetRaw(items, Sorted);
  }

  lemma SortedDistinct(s: seq<int>, t: seq<int>)
    requires Distinct(s) && multiset(t) == multiset(s) && forall i, j :: 0 <= i < j < |t| ==> t[i] <= t[j]
    ensures Ascending(t)
  {
    DistinctMultiset(s);
    forall i, j | 0 <= i < j < |t| ensures t[i] < t[j] {
      OnceInMultiset(t, i, j);
    }
  }

  lemma DistinctMultiset(s: seq<int>)
    requires Distinct(s)
    ensures forall m :: multiset(s)[m] <= 1
    decreases |s|
  {
    if s != [] {
      var x := s[|s| - 1];
      assert s == s[..|s| - 1] + [x];
      DistinctMultiset(s[..|s| - 1]);
      assert x !in s[..|s| - 1];
      assert multiset(s) == multiset(s[..|s| - 1]) + multiset{x};
    }
  }

  lemma OnceInMultiset(t: seq<int>, i: int, j: int)
    requires 0 <= i < j < |t| && multiset(t)[t[i]] <= 1
    ensures t[i] != t[j]
  {
    assert t == t[..i] + [t[i]] + t[i + 1..j] + [t[j]] + t[j + 1..];
    assert multiset(t) == multiset(t[..i]) + multiset{t[i]} + multiset(t[i + 1..j]) + multiset{t[j]} + multiset(t[j + 1..]);
  }

  lemma ReversedMembers(s: seq<int>, t: seq<int>)
    requires t == Sorting.Reversed(s) && Descending(s)
    ensures Ascending(t) && forall m :: m in t <==> m in s
  {
    forall m ensures m in t <==> m in s {
      if m in s {
        var k :| 0 <= k < |s| && s[k] == m;
        assert t[|s| - 1 - k] == m;
      }
      if m in t {
        var k :| 0 <= k < |t| && t[k] == m;
        assert s[|s| - 1 - k] == m;
      }
    }
  }

  // duplicate_comparator: attributes first, then by address.
  predicate DuplicateLess(w: World, a: int, b: int) {
    var aa, ba := IsNode(w.d, a) && IsAttr(w.d, a), IsNode(w.d, b) && IsAttr(w.d, b);
    if aa then (if ba then w.lib.address(a) < w.lib.address(b) else true)
    else if ba then false else w.lib.address(a) < w.lib.address(b)
  }

  // Different nodes have different addresses.
  ghost predicate DistinctAddresses(lib: Lib) {
    forall x, y :: lib.address(x) == lib.address(y) ==> x == y
  }

  lemma DuplicateOrderIsTotal(w: World)
    requires DistinctAddresses(w.lib)
    ensures Sorting.TotalOrder((a: int, b: int) => DuplicateLess(w, a, b))
  {
    var less := (a: int, b: int) => DuplicateLess(w, a, b);
    forall x, y ensures Sorting.AtMost(less, x, y) <==> x == y || DuplicateLess(w, x, y) { }
  }

  // remove_duplicates on a set that is not sorted.
  method RemoveDuplicates(w: World, items: seq<int>) returns (r: seq<int>)
    requires DistinctAddresses(w.lib)
    ensures Distinct(r) && forall m :: m in r <==> m in items
  {
    var a := new int[|items|](i requires 0 <= i < |items| => items[i]);
    assert a[..] == items;
    var less := (x: int, y: int) => DuplicateLess(w, x, y);
    DuplicateOrderIsTotal(w);
    Sorting.Sort(a, 0, a.Length, less);
    ghost var sorted := a[..];
    assert forall m :: m in sorted <==> m in items by {
      assert items[0..|items|] == items && sorted[0..|items|] == sorted;
      forall m ensures m in sorted <==> m in items {
        assert m in multiset(sorted) <==> m in multiset(items);
      }
    }
    var end := Sorting.UniqueInPlace(a, 0, a.Length);
    Sorting.UniqueOfSorted(less, sorted, 0, |sorted|);
    assert sorted[0..|sorted|] == sorted;
    r := a[..end];
    assert r == Sorting.Unique(sorted, 0, |sorted|);
  }

  // xpath_first: the first node in document order, NULL if there is none.
  method First(d: Doc, ns: NodeSetRaw) returns (m: int)
    requires WellFormed(d) && Nodes(d, ns.items) && OrderedAs(ns.items, ns.type')
    ensures ns.items == [] ==> m == NULL
    ensures ns.items != [] ==> m in ns.items && forall k :: k in ns.items ==> m <= k
  {
    var s := ns.items;
    if s == [] { return NULL; }
    match ns.type'
    case Sorted => m := s[0];
    case SortedReverse => m := s[|s| - 1];
    case Unsorted =>
      var result, it := 0, 1;
      while it != |s|
        invariant 1 <= it <= |s| && 0 <= result < it
        invariant forall k :: 0 <= k < it ==> s[result] <= s[k]
      {
        var less := DocumentOrder.DocumentLess(d, s[it], s[result]);
        if less { result := it; }
        it := it + 1;
      }
      m := s[result];
  }
}
