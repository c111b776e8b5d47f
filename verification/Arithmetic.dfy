/** Division facts that the solver does not find for a divisor that is a variable. */
module Arithmetic {
  lemma MulStep(p: nat, x: int, y: int)
    requires x < y
    ensures p * x + p <= p * y
  {
    assert p * y == p * x + p + p * (y - x - 1);
  }

  lemma DivUnique(a: nat, p: nat, q: int, r: nat)
    requires a == p * q + r && r < p
    ensures a / p == q && a % p == r
  {
    if a / p < q {
      MulStep(p, a / p, q);
      assert false;
    } else if q < a / p {
      MulStep(p, q, a / p);
      assert false;
    }
  }

  lemma HalvedAgain(p: nat, x: nat, y: nat)
    requires 2 * x <= y
    ensures 2 * p * x <= p * y
  {
    assert p * y == 2 * p * x + p * (y - 2 * x);
  }

  lemma Regroup(p: nat, x: nat)
    ensures 2 * p * x == 2 * (p * x)
  {
  }
}
