/** Quotient, remainder and powers of two. */
module Division {
  function Power(n: int): (p: int)
    ensures p >= 1
  {
    if n <= 0 then 1 else 2 * Power(n - 1)
  }

  /** Whatever looks like quotient and remainder is quotient and remainder. */
  lemma ModUnique(a: int, d: int, q: int, r: int)
    requires 1 <= d && a == d * q + r && 0 <= r < d
    ensures a % d == r && a / d == q
  {
    var q', r' := a / d, a % d;
    assert a == d * q' + r';
    if q > q' {
      AtLeast(d, q, q');
    } else if q < q' {
      AtLeast(d, q', q);
    }
  }

  lemma AtLeast(d: int, x: int, y: int)
    requires 1 <= d && x > y
    ensures d * x >= d * y + d
  {
    Product(d, x - y - 1);
    assert d * (x - y - 1) == d * x - d * y - d;
  }

  lemma Product(a: int, b: int)
    requires 0 <= a && 0 <= b
    ensures 0 <= a * b
  {
  }
}
