/**
 * Facts about multiplication of naturals that the offset and chunk proofs of
 * both the key tables and the images need, stated with plain variables so the
 * solver does not have to find them inside larger terms.
 */
module Arith {
  /** Multiplying by u keeps order, and a positive u also reflects it. */
  lemma MulMonotone(u: nat, a: nat, b: nat)
    ensures a <= b ==> u * a <= u * b
    ensures u > 0 && u * a <= u * b ==> a <= b
  {
    if a <= b {
      assert u * b == u * a + u * (b - a);
    } else {
      assert u * a == u * b + u * (a - b);
      assert u > 0 ==> u * (a - b) > 0;
    }
  }

  /** Between a < b there is at least one whole k: a*k + k <= b*k. */
  lemma MulStep(a: nat, b: nat, k: nat)
    requires a < b
    ensures a * k + k <= b * k
  {
    assert b * k == a * k + (b - a) * k;
    assert (b - a) * k >= k by {
      assert (b - a) * k == k + (b - a - 1) * k;
    }
  }
}
