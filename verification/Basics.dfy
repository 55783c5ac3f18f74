/** Definitions that several components share. */
module Basics {

  /** 2 to the power of 32. */
  const WORD := 0x1_0000_0000

  function Min(a: int, b: int): int {
    if a < b then a else b
  }

  function Max(a: int, b: int): int {
    if a > b then a else b
  }

  function Zeros(n: nat): (z: seq<int>)
    ensures |z| == n && forall i :: 0 <= i < n ==> z[i] == 0
  {
    seq(n, _ => 0)
  }

  /** Quotient and remainder are the only numbers that fit the division. */
  lemma DivModUnique(k: int, total: int, q: int, r: int)
    requires total > 0 && k == q * total + r && 0 <= r < total
    ensures k / total == q && k % total == r
  {
    var d := q - k / total;
    assert d * total == k % total - r by {
      assert k == k / total * total + k % total;
      assert (q - k / total) * total == q * total - k / total * total;
    }
  }
}
