/** Arithmetic shared by the modules. */
module Arithmetic {
  function Min(a: int, b: int): int {
    if a <= b then a else b
  }

  lemma {:induction false} MultiplesApart(p: nat, a: int, b: int)
    requires a < b
    ensures p * a + p <= p * b == b * p
    decreases b - a
  {
    if a + 1 < b {
      MultiplesApart(p, a, b - 1);
    }
  }
}
