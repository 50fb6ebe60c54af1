/** Integer facts about row-major layouts that the solver does not find by
    itself, because they multiply two variables. */
module Arith {

  function Min(a: nat, b: nat): nat {
    if a < b then a else b
  }

  /** Multiplication by a natural number is monotone. */
  lemma MulLe(a: nat, b: nat, k: nat)
    requires a <= b
    ensures a * k <= b * k
  {
    var d: nat := b - a;
    assert b * k == (a + d) * k;
    assert (a + d) * k == a * k + d * k;
  }

  /** One more row of width `k`. */
  lemma MulSucc(a: nat, k: nat)
    ensures (a + 1) * k == a * k + k
  {
  }

  /** Row `r` of `rows` rows of width `w` ends within the layout. */
  lemma MulStep(r: nat, w: nat, rows: nat)
    requires r < rows
    ensures r * w + w <= rows * w
  {
    MulLe(r + 1, rows, w);
    MulSucc(r, w);
  }
}
