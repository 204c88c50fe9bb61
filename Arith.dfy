/** Division with remainder, for the masks and casts of the VM. */
module Arith {

  /** Division with remainder is unique. */
  lemma ModUnique(x: int, d: int, q: int, r: int)
    requires d > 0 && x == d * q + r && 0 <= r < d
    ensures x / d == q && x % d == r
  {
    var q', r' := x / d, x % d;
    assert x == d * q' + r';
    if q > q' {
      MulGap(d, q, q');
    } else if q < q' {
      MulGap(d, q', q);
    }
  }

  lemma MulAtLeast(d: int, e: int)
    requires d > 0 && e >= 1
    ensures d * e >= d
  {
  }

  lemma MulGap(d: int, a: int, b: int)
    requires d > 0 && a > b
    ensures d * a - d * b >= d
  {
    MulAtLeast(d, a - b);
    assert d * a - d * b == d * (a - b);
  }

  /** Adding a multiple of the divisor leaves the remainder alone. */
  lemma ModShift(x: int, q: int, m: int)
    requires m > 0
    ensures (x + q * m) % m == x % m
  {
    var p := x / m;
    assert x == m * p + x % m;
    assert x + q * m == m * (p + q) + x % m;
    ModUnique(x + q * m, m, p + q, x % m);
  }
}
