/** Quotients and remainders. */
module Arithmetic {
  /** A quotient and a remainder are determined by the number they give. */
  lemma DivMod(q: nat, d: nat, r: nat)
    requires r < d
    ensures (q * d + r) / d == q && (q * d + r) % d == r
  {
    var x := q * d + r;
    var p, s := x / d, x % d;
    assert x == p * d + s && s < d;
    SmallMultiple(p - q, d, r - s);
  }

  /** A multiple of d closer to 0 than d is 0. */
  lemma SmallMultiple(e: int, d: int, x: int)
    requires x == e * d && 0 - d < x < d
    ensures e == 0
  {
    assert (0 - e) * d == 0 - e * d;
    if e > 0 {
      ProductAtLeast(e, d);
    } else if e < 0 {
      ProductAtLeast(0 - e, d);
    }
  }

  lemma ProductAtLeast(e: int, d: int)
    requires 0 < e && 0 < d
    ensures d <= e * d
  {
    if e > 1 {
      ProductAtLeast(e - 1, d);
      assert e * d == (e - 1) * d + d;
    }
  }

  /** Dividing by a and then by b is dividing by a * b. */
  lemma Nested(x: nat, a: nat, b: nat)
    requires 0 < a && 0 < b
    ensures 0 < a * b && x / a / b == x / (a * b) && x % a + a * (x / a % b) == x % (a * b)
  {
    var y, s := Euclid(x, a);
    var p, r := Euclid(y, b);
    SplitTwice(p, r, s, a, b, x);
    DivMod(p, a * b, a * r + s);
  }

  lemma Euclid(x: nat, d: nat) returns (q: nat, r: nat)
    requires 0 < d
    ensures q == x / d && r == x % d && x == q * d + r
  {
    q, r := x / d, x % d;
  }

  lemma SplitTwice(p: nat, r: nat, s: nat, a: nat, b: nat, x: nat)
    requires x == (p * b + r) * a + s && r < b && s < a
    ensures x == p * (a * b) + (a * r + s) && a * r + s < a * b
  {
    assert (p * b + r) * a == p * (a * b) + a * r;
    assert a * (r + 1) == a * r + a;
    MulMonotonic(a, r + 1, b);
  }

  lemma MulAssociative(a: nat, b: nat, c: nat)
    ensures a * b * c == a * (b * c)
  {
  }

  lemma MulMonotonic(a: nat, x: nat, y: nat)
    requires x <= y
    ensures a * x <= a * y
  {
    assert a * y == a * x + a * (y - x);
  }

  lemma QuotientAtLeast(q: int, d: nat, n: nat)
    requires 0 < d && q * d <= n
    ensures q <= n / d
  {
    var e := n / d + 1 - q;
    assert e * d == n / d * d + d - q * d;
    assert e * d > 0;
  }
}
