/** Multiplication, division and remainder by a variable, in the few forms the models need. */
module Arith {

  lemma MulSign(d: int, m: nat)
    ensures d >= 1 ==> d * m >= m
    ensures d <= -1 ==> d * m <= 0 - m
  {
  }

  lemma MulMono(a: int, b: int, m: nat)
    requires a <= b
    ensures a * m <= b * m
  {
  }

  lemma MulAssoc(a: int, b: int, c: int)
    ensures a * (b * c) == (a * b) * c
  {
  }

  lemma Distribute(a: int, b: int, m: int)
    ensures (a + b) * m == a * m + b * m
    ensures (a - b) * m == a * m - b * m
  {
  }

  /** Different multiples of m lie at least m apart. */
  lemma MultiplesApart(base: int, i: int, j: int, m: nat)
    requires base + i * m != base + j * m
    ensures base + i * m + m <= base + j * m || base + j * m + m <= base + i * m
  {
    Distribute(i, j, m);
    MulSign(i - j, m);
  }

  /** Quotient and remainder are the only pair with x == q * m + r and 0 <= r < m. */
  lemma DivModUnique(x: int, m: nat, q: int, r: int)
    requires m > 0 && x == q * m + r && 0 <= r < m
    ensures x / m == q && x % m == r
  {
    var d := q - x / m;
    assert x == (x / m) * m + x % m;
    Distribute(q, x / m, m);
    assert d * m == x % m - r;
    MulSign(d, m);
  }

  lemma ModOfMultiple(k: int, m: nat)
    requires m > 0
    ensures (k * m) % m == 0 && (k * m) / m == k
  {
    DivModUnique(k * m, m, k, 0);
  }

  lemma DivMono(a: int, b: int, m: nat)
    requires m > 0 && a <= b
    ensures a / m <= b / m
  {
    var d := a / m - b / m;
    assert a == (a / m) * m + a % m && b == (b / m) * m + b % m;
    Distribute(a / m, b / m, m);
    MulSign(d, m);
  }

  /** Adding multiples of m changes no remainder. */
  lemma ModAddMultiple(x: int, k: int, m: nat)
    requires m > 0
    ensures (x + k * m) % m == x % m && (x + k * m) / m == x / m + k
  {
    assert x == (x / m) * m + x % m;
    Distribute(x / m, k, m);
    DivModUnique(x + k * m, m, x / m + k, x % m);
  }

  /** A remainder may be taken of either operand of a sum first. */
  lemma ModAdd(x: int, y: int, m: nat)
    requires m > 0
    ensures (x % m + y) % m == (x + y) % m
  {
    assert x == (x / m) * m + x % m;
    ModAddMultiple(x % m + y, x / m, m);
  }

  /** Numbers with the same remainder differ by a multiple of m. */
  lemma SameRemainder(x: int, y: int, m: nat)
    requires m > 0 && x % m == y % m
    ensures (y - x) % m == 0 && y - x == (y / m - x / m) * m
  {
    assert x == (x / m) * m + x % m && y == (y / m) * m + y % m;
    Distribute(y / m, x / m, m);
    ModOfMultiple(y / m - x / m, m);
  }
}
