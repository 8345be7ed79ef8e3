/** The few facts about division by a variable that the models need. */
module Arithmetic {
  lemma MulBound(d: int, n: int)
    requires n > 0
    ensures d >= 1 ==> d * n >= n
    ensures d <= -1 ==> d * n <= -n
  {
    if d >= 1 { assert (d - 1) * n >= 0; }
    if d <= -1 { assert (-d - 1) * n >= 0; }
  }

  lemma MultipleMod(q: int, n: int)
    requires n > 0
    ensures (q * n) % n == 0
  {
    var x := q * n;
    var d := q - x / n;
    assert x == x / n * n + x % n;
    assert d * n == x % n;
    MulBound(d, n);
  }

  lemma SameQuotient(m: int, a: int, b: int, q: int, r: int)
    requires 0 <= b < m && 0 <= r < m && m * a + b == m * q + r
    ensures a == q && b == r
  {
    assert (a - q) * m == r - b;
    MulBound(a - q, m);
  }

  lemma Quotient(x: int, m: int, q: int, r: int)
    requires 0 <= r < m && x == m * q + r
    ensures x / m == q && x % m == r
  {
    SameQuotient(m, x / m, x % m, q, r);
  }

  /** ALIGN: the least multiple of `align` not below `x`. */
  function RoundUp(x: int, align: int): (r: int)
    requires align > 0
    ensures r % align == 0 && x <= r < x + align
  {
    MultipleMod((x + align - 1) / align, align);
    (x + align - 1) / align * align
  }

  /** Alignments accepted by memalign are powers of two, as ALIGN's mask demands. */
  predicate PowerOfTwo(n: int) {
    n == 1 || (n > 1 && n % 2 == 0 && PowerOfTwo(n / 2))
  }

  lemma LargePowerIs16Multiple(n: int)
    requires PowerOfTwo(n) && n > 16
    ensures n % 16 == 0
  {
    assert PowerOfTwo(n / 2) && PowerOfTwo(n / 2 / 2) && PowerOfTwo(n / 2 / 2 / 2);
  }

  lemma MultipleOfMultiple(x: int, a: int)
    requires a > 0 && a % 16 == 0 && x % a == 0
    ensures x % 16 == 0
  {
    assert x == x / a * a == x / a * (a / 16) * 16;
  }

  lemma SumAligned(x: int, y: int)
    requires x % 16 == 0 && y % 16 == 0
    ensures (x + y) % 16 == 0 && (x - y) % 16 == 0
  {
    var p, q := x / 16, y / 16;
    assert x + y == 16 * (p + q) && x - y == 16 * (p - q);
  }
}
