/** Quotients and products of natural numbers. */
module Arithmetic {

  lemma {:induction false} LessByFactor(d: nat, x: int, y: int)
    requires d * x < d * y
    ensures x < y
  {}

  lemma {:induction false} MulMonotone(c: nat, a: int, b: int)
    requires a <= b
    ensures c * a <= c * b
  {}

  lemma {:induction false} QuotientUnique(x: int, d: nat, q: int, m: int)
    requires 0 <= m < d && x == d * q + m
    ensures x / d == q && x % d == m
  {
    var p := x / d;
    assert x == d * p + x % d;
    LessByFactor(d, q, p + 1);
    LessByFactor(d, p, q + 1);
  }

  lemma {:induction false} DivExact(a: nat, d: nat)
    requires 0 < d
    ensures a * d / d == a
  {
    QuotientUnique(a * d, d, a, 0);
  }

  lemma {:induction false} DivBetween(x: int, d: nat, lo: int, hi: int)
    requires 0 < d && d * lo <= x <= d * hi
    ensures lo <= x / d <= hi
  {
    var q := x / d;
    assert x == d * q + x % d;
    LessByFactor(d, lo, q + 1);
    LessByFactor(d, q, hi + 1);
  }

  lemma {:induction false} DivMonotone(a: nat, b: nat, d: nat)
    requires a <= b && 0 < d
    ensures a / d <= b / d
  {
    assert a == d * (a / d) + a % d && b == d * (b / d) + b % d;
    LessByFactor(d, a / d, b / d + 1);
  }

  lemma {:induction false} DivBelow(a: nat, q: nat, d: nat)
    requires 0 < d && a < q * d
    ensures a / d < q
  {
    assert a == d * (a / d) + a % d && q * d == d * q;
    LessByFactor(d, a / d, q);
  }

  lemma {:induction false} DivMulAdd(x: nat, d: nat, z: nat)
    requires 0 < d
    ensures (x + d * z) / d == x / d + z
    ensures (x + d * z) % d == x % d
  {
    assert x + d * z == d * (x / d + z) + x % d;
    QuotientUnique(x + d * z, d, x / d + z, x % d);
  }

  /** A quotient and a remainder taken in two steps. */
  lemma {:induction false} DivModTwice(x: nat, a: nat, b: nat)
    requires 0 < a && 0 < b
    ensures 0 < a * b
    ensures x / (a * b) == x / a / b
    ensures x % (a * b) == a * (x / a % b) + x % a
  {
    var y := x / a;
    var q, m := y / b, a * (y % b) + x % a;
    assert y == b * q + y % b;
    assert x == a * y + x % a;
    assert a * y == a * (b * q) + a * (y % b);
    assert a * (b * q) == a * b * q;
    MulMonotone(a, y % b, b - 1);
    QuotientUnique(x, a * b, q, m);
  }
}
