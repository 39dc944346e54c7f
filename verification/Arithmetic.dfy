/** Products, quotients and remainders the solver does not find by itself. */
module Arithmetic {

  function Min(a: int, b: int): int { if a < b then a else b }
  function Max(a: int, b: int): int { if a > b then a else b }

  lemma MultiplyMonotone(a: nat, b: nat, d: nat)
    requires a <= b
    ensures a * d <= b * d
  {
  }

  lemma DivModOf(q: nat, r: nat, d: nat)
    requires r < d
    ensures (q * d + r) / d == q && (q * d + r) % d == r
  {
    var n := q * d + r;
    assert (n / d + 1) * d == n / d * d + d && (q + 1) * d == q * d + d;
    if n / d < q {
      MultiplyMonotone(n / d + 1, q, d);
    } else if n / d > q {
      MultiplyMonotone(q + 1, n / d, d);
    }
  }

  lemma ModStep(x: nat, d: nat)
    requires d > 0
    ensures (x + 1) % d == if x % d == d - 1 then 0 else x % d + 1
  {
    assert x == x / d * d + x % d;
    if x % d == d - 1 {
      assert (x / d + 1) * d == x / d * d + d;
      DivModOf(x / d + 1, 0, d);
    } else {
      DivModOf(x / d, x % d + 1, d);
    }
  }
}
