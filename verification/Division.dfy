/** Division by a product is division twice. */
module Division {
  lemma MulMonotone(d: nat, a: int, b: int)
    requires a <= b
    ensures d * a <= d * b
  {
    assert d * (b - a) >= 0;
  }

  lemma QuotientIs(x: nat, d: nat, q: nat)
    requires d > 0 && d * q <= x < d * q + d
    ensures x / d == q
  {
    var p := x / d;
    assert x == d * p + x % d;
    if p < q { MulMonotone(d, p + 1, q); }
    if p > q { MulMonotone(d, q + 1, p); }
  }

  lemma Scale(a: nat, u: nat, m: nat, v: nat)
    requires m * v <= u < m * v + m
    ensures a * m * v <= a * u && a * u + a <= a * m * v + a * m
  {
    MulMonotone(a, m * v, u);
    MulMonotone(a, u + 1, m * v + m);
    Distribute(a, u, 1);
    Distribute(a, m * v, m);
    Associate(a, m, v);
  }

  lemma Distribute(a: nat, x: nat, y: nat)
    ensures a * (x + y) == a * x + a * y
  {}

  lemma Associate(a: nat, x: nat, y: nat)
    ensures a * (x * y) == a * x * y
  {}

  lemma Remainder(x: nat, d: nat)
    requires d > 0
    ensures d * (x / d) <= x < d * (x / d) + d
  {}

  lemma DivideTwice(n: nat, a: nat, m: nat)
    requires a > 0 && m > 0
    ensures a * m > 0 && n / a / m == n / (a * m)
  {
    var u := n / a;
    var v := u / m;
    Remainder(n, a);
    Remainder(u, m);
    Scale(a, u, m, v);
    MulMonotone(a, 1, m);
    QuotientIs(n, a * m, v);
  }
}
