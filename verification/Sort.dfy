/** The sort library behind XPath node sets (pugixml.cpp): three-way partition
    from the middle out, median-of-three and median-of-nine pivots, insertion
    sort for small chunks, unique and reverse.  Iterators are array indices and
    a range [lo, hi) is the C++ [begin, end). */
module Sorting {

  ghost predicate AtMost<T>(less: (T, T) -> bool, x: T, y: T) {
    x == y || less(x, y)
  }

  // less puts different elements in a total order; what it says of an element
  // and itself is left open.
  ghost predicate TotalOrder<T(!new)>(less: (T, T) -> bool) {
    && (forall x, y :: AtMost(less, x, y) || AtMost(less, y, x))
    && (forall x, y :: AtMost(less, x, y) && AtMost(less, y, x) ==> x == y)
    && (forall x, y, z :: AtMost(less, x, y) && AtMost(less, y, z) ==> AtMost(less, x, z))
  }

  ghost predicate SortedRange<T>(less: (T, T) -> bool, s: seq<T>, lo: int, hi: int)
    requires 0 <= lo <= hi <= |s|
  {
    forall i, j :: lo <= i < j < hi ==> AtMost(less, s[i], s[j])
  }

  // t is s with the elements of the range [lo, hi) rearranged.
  ghost predicate Rearranged<T>(s: seq<T>, t: seq<T>, lo: int, hi: int)
    requires 0 <= lo <= hi <= |s|
  {
    && |t| == |s|
    && multiset(t[lo..hi]) == multiset(s[lo..hi])
    && (forall k :: 0 <= k < lo || hi <= k < |s| ==> t[k] == s[k])
  }

  lemma SwapRearranges<T>(s: seq<T>, i: int, j: int, lo: int, hi: int)
    requires 0 <= lo <= i < hi <= |s| && lo <= j < hi
    ensures Rearranged(s, s[i := s[j]][j := s[i]], lo, hi)
  {
    var t := s[i := s[j]][j := s[i]];
    assert t[lo..hi] == s[lo..hi][i - lo := s[j]][j - lo := s[i]];
  }

  lemma RearrangedTrans<T>(s: seq<T>, t: seq<T>, u: seq<T>, lo: int, hi: int)
    requires 0 <= lo <= hi <= |s| && Rearranged(s, t, lo, hi) && Rearranged(t, u, lo, hi)
    ensures Rearranged(s, u, lo, hi)
  {
  }

  // A rearrangement of a part is a rearrangement of the whole.
  lemma RearrangedWiden<T>(s: seq<T>, t: seq<T>, from: int, to: int, lo: int, hi: int)
    requires 0 <= lo <= from <= to <= hi <= |s| && Rearranged(s, t, from, to)
    ensures Rearranged(s, t, lo, hi)
  {
    assert s[lo..hi] == s[lo..from] + s[from..to] + s[to..hi];
    assert t[lo..hi] == t[lo..from] + t[from..to] + t[to..hi];
    assert t[lo..from] == s[lo..from];
    assert t[to..hi] == s[to..hi];
  }

  method Swap<T>(a: array<T>, i: int, j: int, ghost lo: int, ghost hi: int)
    requires 0 <= lo <= i < hi <= a.Length && lo <= j < hi
    modifies a
    ensures a[i] == old(a[j]) && a[j] == old(a[i])
    ensures forall k :: 0 <= k < a.Length && k != i && k != j ==> a[k] == old(a[k])
    ensures Rearranged(old(a[..]), a[..], lo, hi)
  {
    ghost var s := a[..];
    SwapRearranges(s, i, j, lo, hi);
    var t := a[i];
    a[i] := a[j];
    a[j] := t;
    assert a[..] == s[i := s[j]][j := s[i]];
  }

  method CopyBackwards<T>(a: array<T>, begin: int, end: int, target: int)
    requires 0 <= begin <= end < a.Length && target == end + 1
    modifies a
    ensures forall k :: begin < k <= end ==> a[k] == old(a[k - 1])
    ensures forall k :: 0 <= k <= begin || end < k < a.Length ==> a[k] == old(a[k])
  {
    var e, t := end, target;
    while e != begin
      invariant begin <= e <= end && t == e + 1
      invariant forall k :: e < k <= end ==> a[k] == old(a[k - 1])
      invariant forall k :: 0 <= k <= e || end < k < a.Length ==> a[k] == old(a[k])
    {
      t := t - 1;
      e := e - 1;
      a[t] := a[e];
    }
  }

  // t is s with s[it] taken out and put back at hole, the run between shifted up.
  ghost predicate Inserted<T>(s: seq<T>, t: seq<T>, hole: int, it: int)
    requires 0 <= hole <= it < |s|
  {
    && |t| == |s|
    && (forall k :: 0 <= k < hole || it < k < |s| ==> t[k] == s[k])
    && t[hole] == s[it]
    && (forall k :: hole < k <= it ==> t[k] == s[k - 1])
  }

  lemma InsertedRearranges<T>(s: seq<T>, t: seq<T>, hole: int, it: int, lo: int, hi: int)
    requires 0 <= lo <= hole <= it < hi <= |s| && Inserted(s, t, hole, it)
    ensures Rearranged(s, t, lo, hi)
  {
    assert s[lo..hi] == s[lo..hole] + s[hole..it] + [s[it]] + s[it + 1..hi];
    assert t[lo..hi] == t[lo..hole] + [t[hole]] + t[hole + 1..it + 1] + t[it + 1..hi];
    assert t[lo..hole] == s[lo..hole] && t[it + 1..hi] == s[it + 1..hi];
    assert t[hole + 1..it + 1] == s[hole..it];
  }

  lemma InsertedSorted<T(!new)>(less: (T, T) -> bool, s: seq<T>, t: seq<T>, lo: int, hole: int, it: int)
    requires 0 <= lo <= hole <= it < |s| && TotalOrder(less) && Inserted(s, t, hole, it)
    requires SortedRange(less, s, lo, it)
    requires hole < it ==> AtMost(less, s[it], s[hole])
    requires lo < hole ==> AtMost(less, s[hole - 1], s[it])
    ensures SortedRange(less, t, lo, it + 1)
  {
    forall i, j | lo <= i < j <= it ensures AtMost(less, t[i], t[j]) {
      if j == hole && i < hole - 1 { assert AtMost(less, s[i], s[hole - 1]); }
      if i == hole && hole < j - 1 { assert AtMost(less, s[hole], s[j - 1]); }
    }
  }

  // The inner loop of insertion sort, which has no bounds test of its own:
  // less(val, a[lo]) is false, so it stops at lo + 1 at the latest.
  method UnguardedInsert<T(==,!new)>(a: array<T>, ghost lo: int, it: int, less: (T, T) -> bool) returns (ghost hole: int)
    requires 0 <= lo < it < a.Length && !less(a[it], a[lo])
    modifies a
    ensures lo < hole <= it && Inserted(old(a[..]), a[..], hole, it)
    ensures hole < it ==> less(old(a[it]), old(a[hole]))
    ensures !less(old(a[it]), old(a[hole - 1]))
  {
    var val := a[it];
    var h := it;
    while less(val, a[h - 1])
      invariant lo < h <= it
      invariant forall k :: h < k <= it ==> a[k] == old(a[k - 1])
      invariant forall k :: 0 <= k < h || it < k < a.Length ==> a[k] == old(a[k])
      invariant h < it ==> less(val, old(a[h]))
      decreases h
    {
      a[h] := a[h - 1];
      h := h - 1;
    }
    a[h] := val;
    hole := h;
  }

  // One round of insertion sort: a[it] goes into the sorted range before it.
  method InsertOne<T(==,!new)>(a: array<T>, lo: int, it: int, less: (T, T) -> bool)
    requires 0 <= lo < it < a.Length && TotalOrder(less) && SortedRange(less, a[..], lo, it)
    modifies a
    ensures Rearranged(old(a[..]), a[..], lo, it + 1)
    ensures SortedRange(less, a[..], lo, it + 1)
  {
    ghost var s := a[..];
    ghost var hole := lo;
    var val := a[it];
    if less(val, a[lo]) {
      CopyBackwards(a, lo, it, it + 1);
      a[lo] := val;
    } else {
      hole := UnguardedInsert(a, lo, it, less);
    }
    InsertedFits(less, s, a[..], lo, hole, it);
  }

  lemma InsertedFits<T(!new)>(less: (T, T) -> bool, s: seq<T>, t: seq<T>, lo: int, hole: int, it: int)
    requires 0 <= lo <= hole <= it < |s| && TotalOrder(less) && Inserted(s, t, hole, it)
    requires SortedRange(less, s, lo, it)
    requires hole < it ==> less(s[it], s[hole])
    requires lo < hole ==> !less(s[it], s[hole - 1])
    ensures Rearranged(s, t, lo, it + 1) && SortedRange(less, t, lo, it + 1)
  {
    if lo < hole { assert AtMost(less, s[hole - 1], s[it]); }
    InsertedRearranges(s, t, hole, it, lo, it + 1);
    InsertedSorted(less, s, t, lo, hole, it);
  }

  method InsertionSort<T(==,!new)>(a: array<T>, lo: int, hi: int, less: (T, T) -> bool)
    requires 0 <= lo < hi <= a.Length && TotalOrder(less)
    modifies a
    ensures Rearranged(old(a[..]), a[..], lo, hi)
    ensures SortedRange(less, a[..], lo, hi)
  {
    ghost var s := a[..];
    var it := lo + 1;
    while it != hi
      invariant lo < it <= hi
      invariant Rearranged(s, a[..], lo, hi)
      invariant SortedRange(less, a[..], lo, it)
    {
      ghost var t := a[..];
      InsertOne(a, lo, it, less);
      RearrangedWiden(t, a[..], lo, it + 1, lo, hi);
      RearrangedTrans(s, t, a[..], lo, hi);
      it := it + 1;
    }
  }

  // The zones of a three-way partition around the value p: at most p in [lt, eqbeg),
  // equal in [eqbeg, eqend), at least p in [eqend, gt).
  ghost predicate Zones<T>(less: (T, T) -> bool, s: seq<T>, p: T, lt: int, eqbeg: int, eqend: int, gt: int) {
    && 0 <= lt <= eqbeg < eqend <= gt <= |s|
    && (forall k :: lt <= k < eqbeg ==> AtMost(less, s[k], p))
    && (forall k :: eqbeg <= k < eqend ==> s[k] == p)
    && (forall k :: eqend <= k < gt ==> AtMost(less, p, s[k]))
  }

  // Extends the right zones until an element that belongs on the left is met.
  method ScanRight<T(==,!new)>(a: array<T>, ghost p: T, ghost lo: int, ghost lt: int, eqbeg: int, eqend0: int, gt0: int, hi: int, less: (T, T) -> bool)
    returns (eqend: int, gt: int)
    requires 0 <= lo <= lt && gt0 <= hi <= a.Length && TotalOrder(less)
    requires Zones(less, a[..], p, lt, eqbeg, eqend0, gt0)
    modifies a
    ensures gt0 <= gt <= hi && Rearranged(old(a[..]), a[..], lo, hi) && Zones(less, a[..], p, lt, eqbeg, eqend, gt)
    ensures forall k :: 0 <= k < lt ==> a[k] == old(a[k])
    ensures gt < hi ==> AtMost(less, a[gt], p)
  {
    eqend, gt := eqend0, gt0;
    while gt != hi
      invariant gt0 <= gt <= hi && Rearranged(old(a[..]), a[..], lo, hi) && Zones(less, a[..], p, lt, eqbeg, eqend, gt)
      invariant forall k :: 0 <= k < lt ==> a[k] == old(a[k])
      decreases hi - gt
    {
      if !less(a[eqbeg], a[gt]) {
        if a[gt] == a[eqbeg] {
          Swap(a, gt, eqend, lo, hi);
          eqend := eqend + 1;
        } else {
          break;
        }
      }
      gt := gt + 1;
    }
  }

  // Extends the left zones until an element that belongs on the right is met.
  method ScanLeft<T(==,!new)>(a: array<T>, ghost p: T, lo: int, lt0: int, eqbeg0: int, ghost eqend: int, ghost gt: int, ghost hi: int, less: (T, T) -> bool)
    returns (lt: int, eqbeg: int)
    requires 0 <= lo <= lt0 && gt <= hi <= a.Length && TotalOrder(less)
    requires Zones(less, a[..], p, lt0, eqbeg0, eqend, gt)
    modifies a
    ensures lo <= lt <= lt0 && Rearranged(old(a[..]), a[..], lo, hi) && Zones(less, a[..], p, lt, eqbeg, eqend, gt)
    ensures forall k :: gt <= k < a.Length ==> a[k] == old(a[k])
    ensures lo < lt ==> AtMost(less, p, a[lt - 1])
  {
    lt, eqbeg := lt0, eqbeg0;
    while lt != lo
      invariant lo <= lt <= lt0 && Rearranged(old(a[..]), a[..], lo, hi) && Zones(less, a[..], p, lt, eqbeg, eqend, gt)
      invariant forall k :: gt <= k < a.Length ==> a[k] == old(a[k])
      decreases lt - lo
    {
      if !less(a[lt - 1], a[eqbeg]) {
        if a[eqbeg] == a[lt - 1] {
          ghost var s := a[..];
          eqbeg := eqbeg - 1;
          Swap(a, lt - 1, eqbeg, lo, hi);
          RearrangedTrans(old(a[..]), s, a[..], lo, hi);
          EqualOnLeft(less, s, a[..], p, lt, eqbeg + 1, eqend, gt);
        } else {
          break;
        }
      }
      lt := lt - 1;
    }
  }

  // An element equal to p in front of the zones changes places with the last lesser one.
  lemma EqualOnLeft<T>(less: (T, T) -> bool, s: seq<T>, t: seq<T>, p: T, lt: int, eqbeg: int, eqend: int, gt: int)
    requires Zones(less, s, p, lt, eqbeg, eqend, gt) && 0 < lt && s[lt - 1] == p
    requires |t| == |s| && t[lt - 1] == s[eqbeg - 1] && t[eqbeg - 1] == p
    requires forall k :: 0 <= k < |s| && k != lt - 1 && k != eqbeg - 1 ==> t[k] == s[k]
    ensures Zones(less, t, p, lt - 1, eqbeg - 1, eqend, gt)
  {
  }

  // Both scans are stuck or one is done: moves the equal zone to let one element
  // through, or exchanges the two offending elements.
  method MakeRoom<T(==,!new)>(a: array<T>, ghost p: T, lo: int, lt0: int, eqbeg0: int, eqend0: int, gt0: int, hi: int, ghost less: (T, T) -> bool)
    returns (lt: int, eqbeg: int, eqend: int, gt: int)
    requires 0 <= lo <= lt0 && gt0 <= hi <= a.Length && TotalOrder(less)
    requires Zones(less, a[..], p, lt0, eqbeg0, eqend0, gt0)
    requires lo < lt0 || gt0 < hi
    requires gt0 < hi ==> AtMost(less, a[gt0], p)
    requires lo < lt0 ==> AtMost(less, p, a[lt0 - 1])
    modifies a
    ensures lo <= lt <= lt0 && gt0 <= gt <= hi && (hi - gt) + (lt - lo) < (hi - gt0) + (lt0 - lo)
    ensures Rearranged(old(a[..]), a[..], lo, hi) && Zones(less, a[..], p, lt, eqbeg, eqend, gt)
  {
    lt, eqbeg, eqend, gt := lt0, eqbeg0, eqend0, gt0;
    if gt == hi {
      ShiftDown(a, p, lo, lt, eqbeg, eqend, gt, hi, less);
      lt, eqbeg, eqend := lt - 1, eqbeg - 1, eqend - 1;
    } else if lt == lo {
      ShiftUp(a, p, lo, lt, eqbeg, eqend, gt, hi, less);
      eqbeg, eqend, gt := eqbeg + 1, eqend + 1, gt + 1;
    } else {
      lt := lt - 1;
      Swap(a, gt, lt, lo, hi);
      gt := gt + 1;
    }
  }

  // A greater element in front of the zones: they move down by one.
  method ShiftDown<T(==,!new)>(a: array<T>, ghost p: T, lo: int, lt: int, eqbeg: int, eqend: int, gt: int, hi: int, ghost less: (T, T) -> bool)
    requires 0 <= lo < lt && gt <= hi <= a.Length && TotalOrder(less)
    requires Zones(less, a[..], p, lt, eqbeg, eqend, gt) && AtMost(less, p, a[lt - 1])
    modifies a
    ensures Rearranged(old(a[..]), a[..], lo, hi) && Zones(less, a[..], p, lt - 1, eqbeg - 1, eqend - 1, gt)
  {
    if lt != eqbeg { Swap(a, lt - 1, eqbeg - 1, lo, hi); }
    Swap(a, eqbeg - 1, eqend - 1, lo, hi);
  }

  // A lesser element behind the zones: they move up by one.
  method ShiftUp<T(==,!new)>(a: array<T>, ghost p: T, lo: int, lt: int, eqbeg: int, eqend: int, gt: int, hi: int, ghost less: (T, T) -> bool)
    requires 0 <= lo <= lt && gt < hi <= a.Length && TotalOrder(less)
    requires Zones(less, a[..], p, lt, eqbeg, eqend, gt) && AtMost(less, a[gt], p)
    modifies a
    ensures Rearranged(old(a[..]), a[..], lo, hi) && Zones(less, a[..], p, lt, eqbeg + 1, eqend + 1, gt + 1)
  {
    if eqend != gt { Swap(a, eqbeg, eqend, lo, hi); }
    Swap(a, gt, eqbeg, lo, hi);
  }

  method Partition<T(==,!new)>(a: array<T>, lo: int, middle: int, hi: int, less: (T, T) -> bool) returns (eqbeg: int, eqend: int)
    requires 0 <= lo <= middle < hi <= a.Length && TotalOrder(less)
    modifies a
    ensures lo <= eqbeg < eqend <= hi && Rearranged(old(a[..]), a[..], lo, hi)
    ensures Zones(less, a[..], old(a[middle]), lo, eqbeg, eqend, hi)
  {
    ghost var s := a[..];
    ghost var p := a[middle];
    eqbeg, eqend := middle, middle + 1;
    while eqbeg != lo && a[eqbeg - 1] == a[eqbeg]
      invariant lo <= eqbeg < eqend && forall k :: eqbeg <= k < eqend ==> a[k] == p
    {
      eqbeg := eqbeg - 1;
    }
    while eqend != hi && a[eqend] == a[eqbeg]
      invariant eqbeg < eqend <= hi && forall k :: eqbeg <= k < eqend ==> a[k] == p
    {
      eqend := eqend + 1;
    }
    var lt, gt := eqbeg, eqend;
    while true
      invariant lo <= lt && gt <= hi && Rearranged(s, a[..], lo, hi) && Zones(less, a[..], p, lt, eqbeg, eqend, gt)
      decreases (hi - gt) + (lt - lo)
    {
      ghost var t := a[..];
      eqend, gt := ScanRight(a, p, lo, lt, eqbeg, eqend, gt, hi, less);
      ghost var u := a[..];
      lt, eqbeg := ScanLeft(a, p, lo, lt, eqbeg, eqend, gt, hi, less);
      RearrangedTrans(s, t, u, lo, hi);
      RearrangedTrans(s, u, a[..], lo, hi);
      if gt == hi && lt == lo {
        return;
      }
      ghost var v := a[..];
      lt, eqbeg, eqend, gt := MakeRoom(a, p, lo, lt, eqbeg, eqend, gt, hi, less);
      RearrangedTrans(s, v, a[..], lo, hi);
    }
  }

  method Median3<T(==,!new)>(a: array<T>, first: int, middle: int, last: int, less: (T, T) -> bool, ghost lo: int, ghost hi: int)
    requires 0 <= lo <= first < hi <= a.Length && lo <= middle < hi && lo <= last < hi
    modifies a
    ensures Rearranged(old(a[..]), a[..], lo, hi)
  {
    if less(a[middle], a[first]) { Swap(a, middle, first, lo, hi); }
    if less(a[last], a[middle]) { Swap(a, last, middle, lo, hi); }
    if less(a[middle], a[first]) { Swap(a, middle, first, lo, hi); }
  }

  method Median<T(==,!new)>(a: array<T>, first: int, middle: int, last: int, less: (T, T) -> bool)
    requires 0 <= first < last < a.Length && middle == first + (last + 1 - first) / 2
    modifies a
    ensures Rearranged(old(a[..]), a[..], first, last + 1)
  {
    if last - first <= 40 {
      Median3(a, first, middle, last, less, first, last + 1);
    } else {
      var step := (last - first + 1) / 8;
      MedianOfThirds(a, first, middle, last, step, less);
      Median3(a, first + step, middle, last - step, less, first, last + 1);
    }
  }

  // The medians of three at the front, in the middle and at the end.
  method MedianOfThirds<T(==,!new)>(a: array<T>, first: int, middle: int, last: int, step: int, less: (T, T) -> bool)
    requires 0 <= first && last < a.Length && 0 <= step
    requires first + 2 * step <= last && first + step <= middle <= last - step
    modifies a
    ensures Rearranged(old(a[..]), a[..], first, last + 1)
  {
    ghost var s := a[..];
    Median3(a, first, first + step, first + 2 * step, less, first, last + 1);
    ghost var t := a[..];
    Median3(a, middle - step, middle, middle + step, less, first, last + 1);
    RearrangedTrans(s, t, a[..], first, last + 1);
    ghost var u := a[..];
    Median3(a, last - 2 * step, last - step, last, less, first, last + 1);
    RearrangedTrans(s, u, a[..], first, last + 1);
  }

  // Nothing in [lo, mid) is greater than anything in [mid, hi).
  ghost predicate SplitAt<T>(less: (T, T) -> bool, s: seq<T>, lo: int, mid: int, hi: int)
    requires 0 <= lo <= mid <= hi <= |s|
  {
    forall i, j :: lo <= i < mid <= j < hi ==> AtMost(less, s[i], s[j])
  }

  // Where the element at k came from.
  lemma RearrangedFrom<T>(s: seq<T>, t: seq<T>, lo: int, hi: int, k: int) returns (k': int)
    requires 0 <= lo <= hi <= |s| && Rearranged(s, t, lo, hi) && 0 <= k < |s|
    ensures 0 <= k' < |s| && s[k'] == t[k]
    ensures if lo <= k < hi then lo <= k' < hi else k' == k
  {
    k' := k;
    if lo <= k < hi {
      assert t[k] == t[lo..hi][k - lo];
      assert t[k] in multiset(s[lo..hi]);
      var i :| 0 <= i < hi - lo && s[lo..hi][i] == t[k];
      k' := lo + i;
    }
  }

  // Rearranging one side of a split keeps the split.
  lemma SplitKept<T(!new)>(less: (T, T) -> bool, s: seq<T>, t: seq<T>, lo: int, mid: int, hi: int, from: int, to: int)
    requires 0 <= lo <= mid <= hi <= |s| && lo <= from <= to <= hi && (to <= mid || mid <= from)
    requires SplitAt(less, s, lo, mid, hi) && Rearranged(s, t, from, to)
    ensures SplitAt(less, t, lo, mid, hi)
  {
    forall i, j | lo <= i < mid <= j < hi ensures AtMost(less, t[i], t[j]) {
      var i' := RearrangedFrom(s, t, from, to, i);
      var j' := RearrangedFrom(s, t, from, to, j);
    }
  }

  lemma SplitExtend<T>(less: (T, T) -> bool, s: seq<T>, lo: int, begin: int, mid: int, end: int, hi: int)
    requires 0 <= lo <= begin <= mid <= end <= hi <= |s|
    requires SplitAt(less, s, lo, begin, hi) && SplitAt(less, s, begin, mid, end) && SplitAt(less, s, lo, end, hi)
    ensures SplitAt(less, s, lo, mid, hi)
  {
  }

  lemma SortedJoin<T>(less: (T, T) -> bool, s: seq<T>, lo: int, mid: int, hi: int)
    requires 0 <= lo <= mid <= hi <= |s|
    requires SortedRange(less, s, lo, mid) && SortedRange(less, s, mid, hi) && SplitAt(less, s, lo, mid, hi)
    ensures SortedRange(less, s, lo, hi)
  {
  }

  lemma ZonesSplit<T(!new)>(less: (T, T) -> bool, s: seq<T>, p: T, lo: int, eqbeg: int, eqend: int, hi: int)
    requires TotalOrder(less) && Zones(less, s, p, lo, eqbeg, eqend, hi)
    ensures SplitAt(less, s, lo, eqbeg, hi) && SplitAt(less, s, lo, eqend, hi)
    ensures SortedRange(less, s, eqbeg, eqend)
  {
  }

  // What the loop of sort keeps: the finished ends are sorted and split off.
  ghost predicate SortState<T>(less: (T, T) -> bool, s: seq<T>, lo: int, begin: int, end: int, hi: int)
    requires 0 <= lo <= begin <= end <= hi <= |s|
  {
    && SortedRange(less, s, lo, begin) && SortedRange(less, s, end, hi)
    && SplitAt(less, s, lo, begin, hi) && SplitAt(less, s, lo, end, hi)
  }

  lemma StateKept<T(!new)>(less: (T, T) -> bool, s: seq<T>, t: seq<T>, lo: int, begin: int, end: int, hi: int)
    requires 0 <= lo <= begin <= end <= hi <= |s|
    requires SortState(less, s, lo, begin, end, hi) && Rearranged(s, t, begin, end)
    ensures SortState(less, t, lo, begin, end, hi) && Rearranged(s, t, lo, hi)
  {
    SplitKept(less, s, t, lo, begin, hi, begin, end);
    SplitKept(less, s, t, lo, end, hi, begin, end);
    RearrangedWiden(s, t, begin, end, lo, hi);
  }

  method Sort<T(==,!new)>(a: array<T>, lo: int, hi: int, less: (T, T) -> bool)
    requires 0 <= lo <= hi <= a.Length && TotalOrder(less)
    modifies a
    ensures Rearranged(old(a[..]), a[..], lo, hi) && SortedRange(less, a[..], lo, hi)
    decreases hi - lo, 1
  {
    ghost var s := a[..];
    var begin, end := lo, hi;
    while end - begin > 32
      invariant lo <= begin <= end <= hi && Rearranged(s, a[..], lo, hi)
      invariant SortState(less, a[..], lo, begin, end, hi)
      decreases end - begin
    {
      ghost var t := a[..];
      begin, end := SortRound(a, lo, begin, end, hi, less);
      RearrangedTrans(s, t, a[..], lo, hi);
    }
    ghost var t := a[..];
    if begin != end { InsertionSort(a, begin, end, less); }
    StateKept(less, t, a[..], lo, begin, end, hi);
    RearrangedTrans(s, t, a[..], lo, hi);
    SortedJoin(less, a[..], begin, end, hi);
    SortedJoin(less, a[..], lo, begin, hi);
  }

  // One round of the loop: partition, sort the smaller side, continue with the larger.
  method SortRound<T(==,!new)>(a: array<T>, ghost lo: int, begin: int, end: int, ghost hi: int, less: (T, T) -> bool)
    returns (begin': int, end': int)
    requires 0 <= lo <= begin && begin + 32 < end && end <= hi <= a.Length && TotalOrder(less)
    requires SortState(less, a[..], lo, begin, end, hi)
    modifies a
    ensures begin <= begin' <= end' <= end && end' - begin' < end - begin
    ensures Rearranged(old(a[..]), a[..], lo, hi)
    ensures SortState(less, a[..], lo, begin', end', hi)
    decreases end - begin, 0
  {
    ghost var s := a[..];
    var middle := begin + (end - begin) / 2;
    Median(a, begin, middle, end - 1, less);
    ghost var t := a[..];
    var eqbeg, eqend := Partition(a, begin, middle, end, less);
    ghost var u := a[..];
    RearrangedTrans(s, t, u, begin, end);
    ZonesSplit(less, u, t[middle], begin, eqbeg, eqend, end);
    if eqbeg - begin > end - eqend {
      Sort(a, eqend, end, less);
      RoundDone(less, s, u, a[..], lo, begin, eqbeg, eqend, end, hi, eqend, end);
      SortedJoin(less, a[..], eqbeg, eqend, end);
      SortedJoin(less, a[..], eqbeg, end, hi);
      begin', end' := begin, eqbeg;
    } else {
      Sort(a, begin, eqbeg, less);
      RoundDone(less, s, u, a[..], lo, begin, eqbeg, eqend, end, hi, begin, eqbeg);
      SortedJoin(less, a[..], begin, eqbeg, eqend);
      SortedJoin(less, a[..], lo, begin, eqend);
      begin', end' := eqend, end;
    }
  }

  lemma RoundDone<T(!new)>(less: (T, T) -> bool, s: seq<T>, u: seq<T>, v: seq<T>, lo: int, begin: int, eqbeg: int, eqend: int, end: int, hi: int, from: int, to: int)
    requires 0 <= lo <= begin <= eqbeg <= eqend <= end <= hi <= |s|
    requires (from, to) == (begin, eqbeg) || (from, to) == (eqend, end)
    requires SortState(less, s, lo, begin, end, hi)
    requires Rearranged(s, u, begin, end) && Rearranged(u, v, from, to)
    requires SplitAt(less, u, begin, eqbeg, end) && SplitAt(less, u, begin, eqend, end) && SortedRange(less, u, eqbeg, eqend)
    ensures SortState(less, v, lo, begin, end, hi) && Rearranged(s, v, lo, hi)
    ensures SplitAt(less, v, lo, eqbeg, hi) && SplitAt(less, v, lo, eqend, hi)
    ensures SplitAt(less, v, begin, eqbeg, end) && SplitAt(less, v, begin, eqend, end)
    ensures SortedRange(less, v, eqbeg, eqend)
  {
    SplitKept(less, u, v, begin, eqbeg, end, from, to);
    SplitKept(less, u, v, begin, eqend, end, from, to);
    RearrangedWiden(u, v, from, to, begin, end);
    RearrangedTrans(s, u, v, begin, end);
    StateKept(less, s, v, lo, begin, end, hi);
    SplitExtend(less, v, lo, begin, eqbeg, end, hi);
    SplitExtend(less, v, lo, begin, eqend, end, hi);
  }

  // ---------------------------------------------------------------------
  // unique and reverse.

  // What unique leaves of the range [lo, hi): each element that differs from the last one kept.
  function Unique<T(==)>(s: seq<T>, lo: int, hi: int): (u: seq<T>)
    requires 0 <= lo <= hi <= |s|
    ensures |u| <= hi - lo && (lo < hi ==> 0 < |u| && u[|u| - 1] == s[hi - 1])
    decreases hi
  {
    if lo == hi then []
    else if lo + 1 == hi then [s[lo]]
    else
      var u := Unique(s, lo, hi - 1);
      if s[hi - 1] == u[|u| - 1] then u else u + [s[hi - 1]]
  }

  ghost predicate Below<T>(less: (T, T) -> bool, x: T, y: T) {
    x != y && less(x, y)
  }

  // On a sorted range unique keeps the set of elements and leaves no duplicates.
  lemma {:induction false} UniqueOfSorted<T(!new)>(less: (T, T) -> bool, s: seq<T>, lo: int, hi: int)
    requires 0 <= lo <= hi <= |s| && TotalOrder(less) && SortedRange(less, s, lo, hi)
    ensures forall x :: x in Unique(s, lo, hi) <==> x in s[lo..hi]
    ensures forall i, j :: 0 <= i < j < |Unique(s, lo, hi)| ==> Below(less, Unique(s, lo, hi)[i], Unique(s, lo, hi)[j])
    decreases hi
  {
    if lo < hi {
      assert s[lo..hi] == s[lo..hi - 1] + [s[hi - 1]];
      if lo + 1 < hi {
        UniqueOfSorted(less, s, lo, hi - 1);
        assert AtMost(less, s[hi - 2], s[hi - 1]);
        if s[hi - 1] != s[hi - 2] { StaysBelow(less, Unique(s, lo, hi - 1), s[hi - 1]); }
      }
    }
  }

  lemma StaysBelow<T(!new)>(less: (T, T) -> bool, u: seq<T>, x: T)
    requires TotalOrder(less) && u != [] && Below(less, u[|u| - 1], x)
    requires forall i, j :: 0 <= i < j < |u| ==> Below(less, u[i], u[j])
    ensures forall i, j :: 0 <= i < j < |u + [x]| ==> Below(less, (u + [x])[i], (u + [x])[j])
  {
    forall i | 0 <= i < |u| ensures Below(less, u[i], x) {
      var y := u[|u| - 1];
      assert AtMost(less, u[i], y) && AtMost(less, y, x);
    }
  }

  // The fast skip over a head without equal neighbours.
  method SkipDistinctHead<T(==)>(a: array<T>, lo: int, hi: int) returns (begin: int)
    requires 0 <= lo < hi <= a.Length
    ensures lo <= begin < hi && a[..][lo..begin + 1] == Unique(a[..], lo, begin + 1)
  {
    begin := lo;
    while hi - begin > 1 && a[begin] != a[begin + 1]
      invariant lo <= begin < hi
      invariant a[..][lo..begin + 1] == Unique(a[..], lo, begin + 1)
    {
      DistinctHead(a[..], lo, begin);
      begin := begin + 1;
    }
  }

  lemma DistinctHead<T>(s: seq<T>, lo: int, begin: int)
    requires 0 <= lo <= begin && begin + 1 < |s| && s[begin] != s[begin + 1]
    requires s[lo..begin + 1] == Unique(s, lo, begin + 1)
    ensures s[lo..begin + 2] == Unique(s, lo, begin + 2)
  {
    UniqueNext(s, lo, begin + 1);
    assert s[lo..begin + 2] == s[lo..begin + 1] + [s[begin + 1]];
  }

  // The merge loop after begin elements of s: t holds what unique keeps of them.
  ghost predicate Merged<T>(s: seq<T>, t: seq<T>, lo: int, write: int, begin: int)
    requires 0 <= lo <= write < begin <= |s| && |t| == |s|
  {
    && t[lo..write + 1] == Unique(s, lo, begin)
    && (forall k :: begin <= k < |s| || 0 <= k < lo ==> t[k] == s[k])
  }

  method UniqueInPlace<T(==)>(a: array<T>, lo: int, hi: int) returns (end: int)
    requires 0 <= lo <= hi <= a.Length
    modifies a
    ensures lo <= end <= hi && a[lo..end] == Unique(old(a[..]), lo, hi)
    ensures forall k :: 0 <= k < lo || hi <= k < a.Length ==> a[k] == old(a[k])
  {
    if lo == hi { return lo; }
    ghost var s := a[..];
    var write := SkipDistinctHead(a, lo, hi);
    var begin := write + 1;
    while begin != hi
      invariant lo <= write < begin <= hi && Merged(s, a[..], lo, write, begin)
    {
      ghost var w, t := write, a[..];
      if a[begin] != a[write] {
        write := write + 1;
        a[write] := a[begin];
      }
      MergeStep(s, t, a[..], lo, w, write, begin);
      begin := begin + 1;
    }
    end := write + 1;
    assert a[lo..end] == a[..][lo..end];
  }

  lemma MergeStep<T>(s: seq<T>, t: seq<T>, t': seq<T>, lo: int, write: int, write': int, begin: int)
    requires 0 <= lo <= write < begin < |s| && |t| == |s| && Merged(s, t, lo, write, begin)
    requires if t[begin] == t[write] then write' == write && t' == t else write' == write + 1 && t' == t[write' := t[begin]]
    ensures Merged(s, t', lo, write', begin + 1)
  {
    UniqueNext(s, lo, begin);
    var kept := t[lo..write + 1];
    assert kept[|kept| - 1] == t[write];
    if write' != write {
      assert t'[lo..write' + 1] == kept + [s[begin]];
    }
  }

  lemma UniqueNext<T>(s: seq<T>, lo: int, k: int)
    requires 0 <= lo < k < |s|
    ensures Unique(s, lo, k + 1) == if s[k] == s[k - 1] then Unique(s, lo, k) else Unique(s, lo, k) + [s[k]]
  {
  }

  function Reversed<T>(s: seq<T>): (r: seq<T>)
    ensures |r| == |s| && forall k :: 0 <= k < |s| ==> r[k] == s[|s| - 1 - k]
  {
    if |s| == 0 then [] else Reversed(s[1..]) + [s[0]]
  }

  method ReverseInPlace<T>(a: array<T>, lo: int, hi: int)
    requires 0 <= lo <= hi <= a.Length
    modifies a
    ensures a[lo..hi] == Reversed(old(a[lo..hi]))
    ensures forall k :: 0 <= k < lo || hi <= k < a.Length ==> a[k] == old(a[k])
  {
    var begin, end := lo, hi;
    while end - begin > 1
      invariant lo <= begin <= end + 1 && end <= hi && begin - lo == hi - end
      invariant forall k :: lo <= k < begin ==> a[k] == old(a[hi - 1 - (k - lo)])
      invariant forall k :: end <= k < hi ==> a[k] == old(a[lo + (hi - 1 - k)])
      invariant forall k :: (begin <= k < end) || 0 <= k < lo || hi <= k < a.Length ==> a[k] == old(a[k])
    {
      end := end - 1;
      a[begin], a[end] := a[end], a[begin];
      begin := begin + 1;
    }
    ghost var s, t := old(a[lo..hi]), a[lo..hi];
    forall k | 0 <= k < hi - lo ensures t[k] == s[hi - lo - 1 - k] {
      assert t[k] == a[lo + k];
      assert s[hi - lo - 1 - k] == old(a[hi - 1 - k]);
    }
    Mirror(s, t);
  }

  lemma Mirror<T>(s: seq<T>, t: seq<T>)
    requires |t| == |s| && forall k :: 0 <= k < |s| ==> t[k] == s[|s| - 1 - k]
    ensures t == Reversed(s)
  {
  }
}
