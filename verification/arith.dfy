/** Small facts about integer multiplication and Euclidean division that the
    solver does not find unaided. */
module Arith {

  lemma Distribute(x: int, y: int, z: int)
    ensures x * (y + z) == x * y + x * z
  {
  }

  lemma MulMonotone(a: int, b: int, c: nat)
    requires a <= b
    ensures a * c <= b * c && c * a <= c * b
  {
  }

  /** Quotient and remainder are determined by the division equation. */
  lemma DivModUnique(a: int, b: int, q: int, r: int)
    requires b > 0 && a == q * b + r && 0 <= r < b
    ensures a / b == q && a % b == r
  {
    var q', r' := a / b, a % b;
    assert a == q' * b + r';
    if q' > q {
      assert q' * b >= (q + 1) * b by { MulMonotone(q + 1, q', b); }
    } else if q' < q {
      assert q * b >= (q' + 1) * b by { MulMonotone(q' + 1, q, b); }
    }
  }

  lemma DivCancel(a: nat, b: nat)
    requires a > 0
    ensures (a * b) / a == b
  {
    DivModUnique(a * b, a, b, 0);
  }

  /** Where block k starts when blocks of `n` entries are laid end to end. This is
      `n * k` (see `BlocksIsProduct`), built up one block at a time so that offsets
      into a bank stay linear facts. */
  function Blocks(n: nat, k: nat): nat
  {
    if k == 0 then 0 else Blocks(n, k - 1) + n
  }

  lemma {:induction false} BlocksIsProduct(n: nat, k: nat)
    ensures Blocks(n, k) == n * k
  {
    if k > 0 {
      BlocksIsProduct(n, k - 1);
      Distribute(n, k - 1, 1);
    }
  }

  lemma {:induction false} BlocksMonotone(n: nat, j: nat, k: nat)
    requires j <= k
    ensures Blocks(n, j) <= Blocks(n, k)
    decreases k
  {
    if j < k {
      BlocksMonotone(n, j, k - 1);
    }
  }
}
