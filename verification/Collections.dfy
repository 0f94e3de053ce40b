/** Small facts about sets and maps, stated for any element type. */
module Collections {

  lemma Member<T>(s: set<T>) returns (x: T)
    requires s != {}
    ensures x in s
  {
    x :| x in s;
  }

  lemma SameSet<T>(s: set<T>, t: set<T>)
    requires forall x :: x in s <==> x in t
    ensures s == t
  {
  }

  // The elements of a sequence.
  function Members<T>(l: seq<T>): set<T> {
    set x | x in l
  }

  lemma MembersAre<T>(l: seq<T>, s: set<T>)
    requires forall x :: x in l <==> x in s
    ensures Members(l) == s
  {
  }

  lemma SubsetCardinality<T>(s: set<T>, t: set<T>)
    requires s <= t
    ensures |s| <= |t|
    ensures |s| == |t| ==> s == t
    decreases s
  {
    if s != {} {
      var x := Member(s);
      SubsetCardinality(s - {x}, t - {x});
    }
  }
}
