/** Small facts about lists and integers that several components share. */
module Basics {

  ghost predicate Distinct<T(!new)>(xs: seq<T>) {
    forall i, j :: 0 <= i < j < |xs| ==> xs[i] != xs[j]
  }

  function Min(a: int, b: int): int {
    if a < b then a else b
  }

  /** A multiple is zero or at least as far from zero as what it is a multiple of. */
  lemma MultipleIsNotSmaller(n: int, d: int)
    requires n >= 0
    ensures d >= 1 ==> n * d >= n
    ensures d <= -1 ==> n * d + n <= 0
  {
    if d >= 1 {
      NotNegative(n, d - 1);
      assert n * d == n * (d - 1) + n;
    } else if d <= -1 {
      NotNegative(n, -1 - d);
      assert n * d + n == -(n * (-1 - d));
    }
  }

  lemma {:induction false} NotNegative(n: int, d: nat)
    requires n >= 0
    ensures n * d >= 0
  {
    if d > 0 {
      NotNegative(n, d - 1);
      assert n * d == n * (d - 1) + n;
    }
  }
}
