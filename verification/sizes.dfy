/** Sizes of sets and of budgets that may be negative. */
module Sizes {
  function Max0(n: int): nat { if n > 0 then n else 0 }

  lemma SubsetSize<T>(a: set<T>, b: set<T>)
    requires a <= b
    ensures |a| <= |b|
  {
    assert b == a + (b - a);
  }
}
