/** Facts about products and quotients by a positive number. */
module Division {

  lemma Euclid(x: int, d: int)
    requires d > 0
    ensures x == d * (x / d) + x % d
  {
  }

  lemma Distribute(d: int, a: int, b: int)
    ensures d * a - d * b == d * (a - b)
  {
  }

  lemma MulMonotone(d: int, a: int, b: int)
    requires d > 0 && a <= b
    ensures d * a <= d * b
  {
  }

  lemma Remainder(x: int, d: int, q: int, r: int)
    requires d > 0 && x == d * q + r && 0 <= r < d
    ensures x % d == r && x / d == q
  {
    var p := x / d;
    Euclid(x, d);
    Distribute(d, q, p);
    if q > p {
      MulMonotone(d, 1, q - p);
    } else if q < p {
      MulMonotone(d, q - p, -1);
    }
  }

  lemma QuotientBound(x: int, d: int, m: int)
    requires d > 0 && d * m <= x
    ensures m <= x / d
  {
    Euclid(x, d);
    if x / d + 1 <= m {
      MulMonotone(d, x / d + 1, m);
      Distribute(d, x / d + 1, x / d);
    }
  }
}
