/** Facts about products and fresh numbers that the solver needs spelled out. */
module Arithmetic {
  lemma MulMonotone(a: nat, b: nat, c: nat)
    requires a <= b
    ensures a * c <= b * c
  {
  }

  lemma MulStrict(a: nat, b: nat, c: nat)
    requires a < b && c > 0
    ensures a * c < b * c
  {
  }

  lemma MulGap(p: nat, q: nat, y: nat)
    ensures p < q ==> p * y + y <= q * y
  {
    if p < q {
      MulMonotone(p + 1, q, y);
      assert (p + 1) * y == p * y + y;
    }
  }

  lemma Regroup(a: int, b: int, c: int)
    ensures a * (b * c) == (a * b) * c
  {
  }

  lemma Distribute(a: int, b: int, c: int)
    ensures (a + b) * c == a * c + b * c
  {
  }

  lemma Negated(a: int, b: int)
    ensures (-a) * (-b) == a * b && (-a) * b == -(a * b) && a * (-b) == -(a * b)
  {
  }

  lemma MultipleIsZero(k: int, m: nat)
    requires m > 0
    ensures (k * m) % m == 0
  {
    var q, r := (k * m) / m, (k * m) % m;
    assert k * m == q * m + r;
    assert (k - q) * m == r;
    Multiples(k - q, m);
  }

  lemma Multiples(d: int, m: nat)
    ensures d >= 1 ==> d * m >= m
    ensures d <= -1 ==> d * m <= -(m as int)
  {
    if d >= 1 { assert (d - 1) * m >= 0; }
    if d <= -1 { assert (-d - 1) * m >= 0; }
  }

  /** A number above all members of a set. */
  ghost function Above(s: set<nat>): (a: nat)
    ensures a != 0 && a !in s && forall x :: x in s ==> x < a
  {
    if s == {} then 1 else
    var x :| x in s;
    var b := Above(s - {x});
    assert forall y :: y in s ==> y == x || y in s - {x};
    if b > x then b else x + 1
  }
}
