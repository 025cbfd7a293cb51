/** The arithmetic that the modules share: powers, products, quotients and remainders. */
module IndexMath {

  function Least(a: int, b: int): int { if b < a then b else a }

  function Greatest(a: int, b: int): int { if a < b then b else a }

  function Distance(a: nat, b: nat): nat { if a < b then b - a else a - b }

  function Pow2(n: nat): (p: nat)
    ensures p > 0
  {
    if n == 0 then 1 else 2 * Pow2(n - 1)
  }

  lemma MulMono(d: nat, a: int, b: int)
    ensures a <= b ==> d * a <= d * b
  {
  }

  /** A quotient and a remainder in range are the quotient and the remainder. */
  lemma DivModUnique(x: int, d: nat, q: int, r: int)
    requires d > 0 && x == d * q + r && 0 <= r < d
    ensures x / d == q && x % d == r
  {
    MulMono(d, q + 1, x / d);
    MulMono(d, x / d + 1, q);
    assert d * (q + 1) == d * q + d;
    assert d * (x / d + 1) == d * (x / d) + d;
  }

  lemma DivModOf(x: int, d: nat)
    requires d > 0
    ensures x == d * (x / d) + x % d && 0 <= x % d < d
  {
  }

  /** Row-major positions of different rows do not overlap. */
  lemma RowBelow(d: nat, q: nat, r: nat, n: nat)
    requires q < n && r < d
    ensures 0 <= d * q + r < d * n
  {
    MulMono(d, q + 1, n);
    MulMono(d, 0, q);
    assert d * (q + 1) == d * q + d;
  }

  /** Conversely a position below d * n has its row below n. */
  lemma RowOf(x: nat, d: nat, n: nat)
    requires d > 0 && x < d * n
    ensures 0 <= x / d < n && 0 <= x % d < d && x == d * (x / d) + x % d
  {
    MulMono(d, n, x / d);
  }

  /** (x + d - 1) / d for nonnegative x: the least number of blocks of size d that cover x. */
  function CeilDiv(x: nat, d: nat): nat
    requires d > 0
  {
    (x + d - 1) / d
  }

  lemma CeilDivBounds(x: nat, d: nat)
    requires d > 0
    ensures x <= d * CeilDiv(x, d) < x + d
  {
    DivModOf(x + d - 1, d);
  }

  /** Dividing twice is dividing by the product. */
  lemma DivDiv(t: nat, a: nat, b: nat)
    requires a > 0 && b > 0
    ensures a * b > 0 && t / a / b == t / (a * b)
  {
    var q := t / a;
    DivModOf(t, a);
    DivModOf(q, b);
    var rem := a * (q % b) + t % a;
    RowBelow(a, q % b, t % a, b);
    assert t == (a * b) * (q / b) + rem by {
      assert a * q == a * (b * (q / b)) + a * (q % b);
      assert a * (b * (q / b)) == (a * b) * (q / b);
    }
    DivModUnique(t, a * b, q / b, rem);
  }
}
