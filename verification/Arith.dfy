/** Non-linear facts the solver is not asked to find on its own. */
module Arith {

  /** Division with remainder, written out. */
  lemma DivMod(a: int, q: int)
    requires q > 0
    ensures a == q * (a / q) + a % q
    ensures 0 <= a % q < q
  {
  }

  lemma QuotientUnique(q: int, x: int, r: int, y: int, s: int)
    requires 0 <= r < q && 0 <= s < q && q * x + r == q * y + s
    ensures x == y && r == s
  {
    if x > y {
      MulLe(1, x - y, q);
      MulDistSub(x, y, q);
    } else if x < y {
      MulLe(1, y - x, q);
      MulDistSub(y, x, q);
    }
  }

  /** ... and it is unique. */
  lemma DivModUnique(a: int, q: int, x: int, r: int)
    requires q > 0 && a == q * x + r && 0 <= r < q
    ensures a / q == x && a % q == r
  {
    DivMod(a, q);
    QuotientUnique(q, x, r, a / q, a % q);
  }

  lemma MulLe(a: int, b: int, c: int)
    requires a <= b && 0 <= c
    ensures a * c <= b * c
  {
  }

  lemma MulMono(c: int, x: int, y: int)
    requires 0 <= c <= x && 0 <= c <= y
    ensures c * c <= x * y
  {
    assert c * c <= x * c;
    assert x * c <= x * y;
  }

  lemma MulAssoc(a: int, b: int, c: int)
    ensures a * (b * c) == (a * b) * c
  {
  }

  lemma MulDistSub(a: int, b: int, c: int)
    ensures (a - b) * c == a * c - b * c
  {
  }
}
