/** Facts about division by a variable. */
module Arithmetic {

  lemma Scaled(d: nat, k: int)
    ensures 1 <= k ==> d <= d * k
    ensures k <= -1 ==> d * k + d <= 0
  {
  }

  lemma QuotientUnique(i: nat, d: nat, q: nat, r: nat)
    requires r < d && i == d * q + r
    ensures i / d == q && i % d == r
  {
    var Q, R := i / d, i % d;
    assert d * Q + R == i;
    assert d * (Q - q) == r - R;
    Scaled(d, Q - q);
  }

  lemma AddRemainder(x: nat, y: nat, c: nat)
    requires 0 < c
    ensures (x + y) % c == (x % c + y) % c
  {
    var q, z := x / c, x % c + y;
    Distributes(c, q, z / c);
    QuotientUnique(x + y, c, q + z / c, z % c);
  }

  lemma AddMultiple(x: nat, c: nat, k: nat)
    requires 0 < c
    ensures (x + c * k) % c == x % c
  {
    Distributes(c, x / c, k);
    QuotientUnique(x + c * k, c, x / c + k, x % c);
  }

  lemma Distributes(c: nat, x: nat, y: nat)
    ensures c * (x + y) == c * x + c * y
  {
  }
}
