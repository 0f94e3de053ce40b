/** Quadratic probing (pugixml.cpp, compact_hash_table): bucket, bucket + 1,
    bucket + 1 + 2, and so on, modulo the capacity.  For a power of two this
    visits every bucket exactly once before it repeats. */
module Probing {
  import Collections

  function Pow2(k: nat): (c: nat)
    ensures 1 <= c
  {
    if k == 0 then 1 else 2 * Pow2(k - 1)
  }

  ghost predicate IsPow2(c: nat) {
    exists k: nat :: Pow2(k) == c
  }

  // 0 + 1 + ... + p
  function Tri(p: nat): (t: nat) {
    if p == 0 then 0 else Tri(p - 1) + p
  }

  // The bucket of probe number p for a key whose hash is h.
  function Bucket(h: nat, p: nat, c: nat): (b: nat)
    requires 0 < c
    ensures b < c
  {
    (h + Tri(p)) % c
  }

  lemma {:induction false} TriTwice(p: nat)
    ensures 2 * Tri(p) == p * (p + 1)
    decreases p
  {
    if p != 0 { TriTwice(p - 1); }
  }

  // If 2^k divides a * b and a is odd, it divides b.
  lemma {:induction false} OddFactor(a: nat, b: nat, k: nat, m: nat) returns (n: nat)
    requires a % 2 == 1 && a * b == Pow2(k) * m
    ensures b == Pow2(k) * n
    decreases k
  {
    if k == 0 {
      n := b;
    } else {
      var half := Pow2(k - 1) * m;
      assert a * b == 2 * half by { Twice(Pow2(k - 1), m); }
      EvenFactor(a, b);
      var b' := b / 2;
      assert b == 2 * b';
      assert a * b' == half by { Twice(b', a); }
      n := OddFactor(a, b', k - 1, m);
      Twice(Pow2(k - 1), n);
    }
  }

  lemma Twice(x: nat, y: nat)
    ensures (2 * x) * y == 2 * (x * y) && y * (2 * x) == 2 * (y * x) && x * y == y * x
  {
  }

  lemma EvenFactor(a: nat, b: nat)
    requires a % 2 == 1 && (a * b) % 2 == 0
    ensures b % 2 == 0
  {
    if b % 2 == 1 { OddProduct(a, b); }
  }

  lemma OddProduct(a: nat, b: nat)
    requires a % 2 == 1 && b % 2 == 1
    ensures (a * b) % 2 == 1
  {
    var x, y := a / 2, b / 2;
    assert a * b == (2 * x + 1) * (2 * y + 1) == 2 * (2 * x * y + x + y) + 1;
  }

  lemma SameRemainder(x: nat, y: nat, c: nat) returns (m: nat)
    requires 0 < c && x <= y && x % c == y % c
    ensures y - x == c * m
  {
    m := y / c - x / c;
    assert y == c * (y / c) + y % c && x == c * (x / c) + x % c;
    assert y - x == c * (y / c) - c * (x / c) == c * (y / c - x / c);
    if m < 0 { NegativeProduct(c, m); }
  }

  lemma NegativeProduct(c: nat, m: int)
    requires 0 < c && m < 0
    ensures c * m < 0
  {
  }

  lemma {:induction false} TriMonotone(i: nat, j: nat)
    requires i <= j
    ensures Tri(i) <= Tri(j)
    decreases j
  {
    if i < j { TriMonotone(i, j - 1); }
  }

  // A positive multiple of x is at least x.
  lemma Multiple(x: nat, n: nat)
    requires 0 < x * n
    ensures x <= x * n
  {
  }

  lemma {:induction false} DifferenceOfSquares(i: nat, j: nat)
    requires i < j
    ensures 2 * (Tri(j) - Tri(i)) == (j - i) * (j + i + 1)
  {
    TriTwice(i);
    TriTwice(j);
    assert j * (j + 1) - i * (i + 1) == (j - i) * (j + i + 1);
  }

  // Of two numbers below 2^k one of which is odd, the product is no multiple of 2^k.
  lemma {:induction false} NoMultiple(x: nat, y: nat, k: nat, m: nat)
    requires 0 < x < Pow2(k) && 0 < y < Pow2(k) && (x + y) % 2 == 1
    ensures x * y != Pow2(k) * m
  {
    assert y * x == x * y;
    if x % 2 == 1 { OddNoMultiple(x, y, k, m); } else { OddNoMultiple(y, x, k, m); }
  }

  lemma OddNoMultiple(x: nat, y: nat, k: nat, m: nat)
    requires x % 2 == 1 && 0 < y < Pow2(k)
    ensures x * y != Pow2(k) * m
  {
    if x * y == Pow2(k) * m {
      Multiple(Pow2(k), FactorOf(x, y, k, m));
    }
  }

  ghost function FactorOf(a: nat, b: nat, k: nat, m: nat): (n: nat)
    requires a % 2 == 1 && a * b == Pow2(k) * m
    ensures b == Pow2(k) * n
  {
    assert exists n: nat :: b == Pow2(k) * n by { var n := OddFactor(a, b, k, m); }
    var n: nat :| b == Pow2(k) * n;
    n
  }

  /** Different probes see different buckets. */
  lemma {:induction false} ProbesDiffer(h: nat, i: nat, j: nat, k: nat)
    requires i < j < Pow2(k)
    ensures Bucket(h, i, Pow2(k)) != Bucket(h, j, Pow2(k))
  {
    var c := Pow2(k);
    if Bucket(h, i, c) == Bucket(h, j, c) {
      TriMonotone(i, j);
      var m := SameRemainder(h + Tri(i), h + Tri(j), c);
      TriApart(i, j, k, m, c * m);
    }
  }

  lemma {:induction false} TriApart(i: nat, j: nat, k: nat, m: nat, d: nat)
    requires i < j < Pow2(k) && d == Pow2(k) * m
    ensures Tri(j) - Tri(i) != d
  {
    var x, y := j - i, j + i + 1;
    DifferenceOfSquares(i, j);
    Twice(Pow2(k), m);
    assert Pow2(k + 1) == 2 * Pow2(k);
    NoMultiple(x, y, k + 1, m);
  }

  // The buckets of the first n probes.
  ghost function Seen(h: nat, n: nat, c: nat): (s: set<int>)
    requires 0 < c
    decreases n
  {
    if n == 0 then {} else Seen(h, n - 1, c) + {Bucket(h, n - 1, c)}
  }

  lemma {:induction false} SeenMembers(h: nat, n: nat, c: nat)
    requires 0 < c
    ensures forall b :: b in Seen(h, n, c) <==> exists p :: 0 <= p < n && Bucket(h, p, c) == b
    decreases n
  {
    if n != 0 { SeenMembers(h, n - 1, c); }
  }

  lemma {:induction false} SeenSize(h: nat, n: nat, k: nat)
    requires n <= Pow2(k)
    ensures |Seen(h, n, Pow2(k))| == n
    decreases n
  {
    if n != 0 {
      var c := Pow2(k);
      SeenSize(h, n - 1, k);
      SeenMembers(h, n - 1, c);
      forall p | 0 <= p < n - 1 ensures Bucket(h, p, c) != Bucket(h, n - 1, c) { ProbesDiffer(h, p, n - 1, k); }
      assert Bucket(h, n - 1, c) !in Seen(h, n - 1, c);
    }
  }

  ghost function Below(n: nat): (s: set<int>)
    ensures |s| == n && forall b :: b in s <==> 0 <= b < n
  {
    if n == 0 then {} else Below(n - 1) + {n - 1}
  }

  /** Every bucket is seen by some probe. */
  lemma {:induction false} ProbesCover(h: nat, c: nat, b: nat) returns (p: nat)
    requires IsPow2(c) && b < c
    ensures p < c && Bucket(h, p, c) == b
  {
    var k: nat :| Pow2(k) == c;
    SeenSize(h, c, k);
    SeenMembers(h, c, c);
    assert Seen(h, c, c) <= Below(c);
    Collections.SubsetCardinality(Seen(h, c, c), Below(c));
    assert b in Seen(h, c, c);
    p :| 0 <= p < c && Bucket(h, p, c) == b;
  }
}
