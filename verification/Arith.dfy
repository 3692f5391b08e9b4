/** Multiplication and division facts shared by the models. */
module Arith {
  /** The number of elements of an array with these dimensions. */
  function Product(dims: seq<nat>): nat { if dims == [] then 1 else dims[0] * Product(dims[1..]) }

  lemma MulMonotone(a: int, b: int, c: nat)
    requires a <= b
    ensures a * c <= b * c
  {}

  /** Quotient and remainder are determined by the defining equation. */
  lemma DivUnique(i: int, m: nat, q: int, r: int)
    requires 0 <= r < m && i == q * m + r
    ensures i / m == q && i % m == r
  {
    var d := i / m - q;
    assert i == (i / m) * m + i % m;
    assert d * m == r - i % m;
    if d >= 1 {
      MulMonotone(1, d, m);
    } else if d <= -1 {
      MulMonotone(d, -1, m);
    }
  }

  lemma MulAssoc(a: int, b: int, c: int)
    ensures a * b * c == a * (b * c)
  {}

  lemma MulCommutes(a: int, b: int)
    ensures a * b == b * a
  {}

  lemma MulNonNegative(a: nat, b: nat)
    ensures a * b >= 0
  {}

  lemma DivMod(n: nat, m: nat)
    requires m > 0
    ensures 0 <= n / m && 0 <= n % m < m && n == n / m * m + n % m
  {}
}
