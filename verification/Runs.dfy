/** Runs of any step relation. */
module Runs {

  ghost predicate Steps<S(!new)>(step: (S, S) -> bool, n: nat, x: S, y: S)
    decreases n
  {
    if n == 0 then x == y else exists z :: step(x, z) && Steps(step, n - 1, z, y)
  }

  ghost predicate Leads<S(!new)>(step: (S, S) -> bool, x: S, y: S) {
    exists n: nat :: Steps(step, n, x, y)
  }

  lemma {:induction false} NoStep<S(!new)>(step: (S, S) -> bool, x: S)
    ensures Leads(step, x, x)
  {
    assert Steps(step, 0, x, x);
  }

  lemma {:induction false} OneStep<S(!new)>(step: (S, S) -> bool, x: S, y: S)
    requires step(x, y)
    ensures Leads(step, x, y)
  {
    assert Steps(step, 0, y, y);
    assert Steps(step, 1, x, y);
  }

  lemma {:induction false} StepsSum<S(!new)>(step: (S, S) -> bool, m: nat, n: nat, x: S, y: S, z: S)
    requires Steps(step, m, x, y) && Steps(step, n, y, z)
    ensures Steps(step, m + n, x, z)
    decreases m
  {
    if m != 0 {
      var w :| step(x, w) && Steps(step, m - 1, w, y);
      StepsSum(step, m - 1, n, w, y, z);
    }
  }

  lemma {:induction false} Then<S(!new)>(step: (S, S) -> bool, x: S, y: S, z: S)
    requires Leads(step, x, y) && Leads(step, y, z)
    ensures Leads(step, x, z)
  {
    var m: nat :| Steps(step, m, x, y);
    var n: nat :| Steps(step, n, y, z);
    StepsSum(step, m, n, x, y, z);
  }
}
