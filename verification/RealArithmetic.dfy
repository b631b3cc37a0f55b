/** Products and quotients of reals in the unit interval. */
module RealArithmetic {

  lemma ProductNonNegative(a: real, b: real)
    requires a >= 0.0 && b >= 0.0
    ensures a * b >= 0.0
  {
  }

  lemma PositiveProduct(a: real, b: real)
    requires a > 0.0 && b > 0.0
    ensures a * b > 0.0
  {
  }

  lemma PositiveFactor(a: real, b: real)
    requires b > 0.0 && a * b > 0.0
    ensures a > 0.0
  {
    if a <= 0.0 { ProductNonNegative(-a, b); }
  }

  /** A number's share of the next one is below 1 from zero on, and above 1 below
      minus one. */
  lemma ShareOfNext(x: real)
    requires x >= 0.0 || x < -1.0
    ensures x / (x + 1.0) * (x + 1.0) == x
    ensures x >= 0.0 ==> x / (x + 1.0) < 1.0
    ensures x < -1.0 ==> x / (x + 1.0) > 1.0
  {
    var rate, y := x / (x + 1.0), x + 1.0;
    assert rate * y == x;
    Distribute(rate, y);
    if x >= 0.0 { PositiveFactor(1.0 - rate, y); } else { PositiveFactor(rate - 1.0, -y); }
  }

  lemma Distribute(rate: real, y: real)
    ensures (1.0 - rate) * y == y - rate * y
    ensures (rate - 1.0) * -y == y - rate * y
  {
  }

  lemma ProductInUnit(a: real, b: real) returns (p: real)
    requires 0.0 <= a <= 1.0 && 0.0 <= b
    ensures p == a * b && 0.0 <= p <= b
  {
    ProductNonNegative(a, b);
    ProductNonNegative(1.0 - a, b);
    p := a * b;
  }

  lemma FractionInUnit(x: real, window: real) returns (q: real)
    requires 0.0 <= x <= window && window > 0.0
    ensures q == x / window && 0.0 <= q <= 1.0
  {
    q := x / window;
    assert q * window == x;
    assert q > 1.0 ==> (q - 1.0) * window > 0.0;
    assert q < 0.0 ==> (0.0 - q) * window > 0.0;
  }

  lemma QuotientMonotone(a: real, b: real, k: real)
    requires a <= b && k > 0.0
    ensures a / k <= b / k
  {
    var p, q := a / k, b / k;
    assert p * k == a && q * k == b;
    if p > q { ProductNonNegative(p - q, k); }
  }

  lemma QuotientAntitone(a: real, b: real, k: real)
    requires a <= b && k < 0.0
    ensures a / k >= b / k
  {
    var p, q := a / k, b / k;
    assert p * k == a && q * k == b;
    if p < q { ProductNonNegative(q - p, -k); }
  }

  /** A combination with non-negative weights summing to at most 1. */
  lemma WeightedSumInUnit(a: real, wa: real, b: real, wb: real, c: real, wc: real, d: real, wd: real)
    requires 0.0 <= a <= 1.0 && 0.0 <= b <= 1.0 && 0.0 <= c <= 1.0 && 0.0 <= d <= 1.0
    requires wa >= 0.0 && wb >= 0.0 && wc >= 0.0 && wd >= 0.0 && wa + wb + wc + wd <= 1.0
    ensures 0.0 <= a * wa + b * wb + c * wc + d * wd <= 1.0
  {
    var p := ProductInUnit(a, wa);
    var q := ProductInUnit(b, wb);
    var r := ProductInUnit(c, wc);
    var t := ProductInUnit(d, wd);
    assert p + q + r + t <= wa + wb + wc + wd;
  }
}
