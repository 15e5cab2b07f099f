/** Bit-level helpers over 16-bit words. The derivative-order field of a
    configuration word is a 16-bit set whose bit d stands for derivative order d. */
module Bits {

  /** `(x >> i) & 1`, as a boolean. */
  predicate Bit(x: bv16, i: nat)
    requires i < 16
  {
    (x >> i) & 1 == 1
  }

  /** The positions of the set bits of `x`. */
  function BitSet(x: bv16): set<nat>
  {
    set i: nat | i < 16 && Bit(x, i)
  }

  /** `std::popcount`: the number of set bits. */
  function Popcount(x: bv16): nat
  {
    |BitSet(x)|
  }

  /** The bits of `1 << d` are exactly bit d. The solver handles each shift
      amount as a constant, so the proof is a case split on `d`. */
  lemma BitOfShift(d: nat, i: nat)
    requires d < 16 && i < 16
    ensures Bit(1 << d, i) <==> i == d
  {
    if d == 0 {} else if d == 1 {} else if d == 2 {} else if d == 3 {}
    else if d == 4 {} else if d == 5 {} else if d == 6 {} else if d == 7 {}
    else if d == 8 {} else if d == 9 {} else if d == 10 {} else if d == 11 {}
    else if d == 12 {} else if d == 13 {} else if d == 14 {} else {}
  }

  /** A bit of `a | b` is set iff it is set in `a` or in `b`. */
  lemma BitOfOr(a: bv16, b: bv16, i: nat)
    requires i < 16
    ensures Bit(a | b, i) <==> Bit(a, i) || Bit(b, i)
  {
    if i == 0 {} else if i == 1 {} else if i == 2 {} else if i == 3 {}
    else if i == 4 {} else if i == 5 {} else if i == 6 {} else if i == 7 {}
    else if i == 8 {} else if i == 9 {} else if i == 10 {} else if i == 11 {}
    else if i == 12 {} else if i == 13 {} else if i == 14 {} else {}
  }

  /** A word none of whose sixteen bits is set is zero. */
  lemma NoBitsIsZero(x: bv16)
    requires forall i: nat :: i < 16 ==> !Bit(x, i)
    ensures x == 0
  {
    assert !Bit(x, 0) && !Bit(x, 1) && !Bit(x, 2) && !Bit(x, 3);
    assert !Bit(x, 4) && !Bit(x, 5) && !Bit(x, 6) && !Bit(x, 7);
    assert !Bit(x, 8) && !Bit(x, 9) && !Bit(x, 10) && !Bit(x, 11);
    assert !Bit(x, 12) && !Bit(x, 13) && !Bit(x, 14) && !Bit(x, 15);
  }

  /** The lowest set position at or above `k`, or 16 when there is none. */
  function LowestSetFrom(x: bv16, k: nat): (r: nat)
    requires k <= 16
    ensures k <= r <= 16
    ensures forall i: nat :: k <= i < r ==> !Bit(x, i)
    ensures r < 16 ==> Bit(x, r)
    decreases 16 - k
  {
    if k == 16 then 16 else if Bit(x, k) then k else LowestSetFrom(x, k + 1)
  }

  /** `std::countr_zero` of a nonzero word: the position of its lowest set bit. */
  function CountrZero(x: bv16): (r: nat)
    requires x != 0
    ensures r < 16 && Bit(x, r)
    ensures forall i: nat :: i < r ==> !Bit(x, i)
  {
    var r := LowestSetFrom(x, 0);
    assert r < 16 by {
      if r == 16 { NoBitsIsZero(x); }
    }
    r
  }

  /** One past the highest set position below `k`, or 0 when there is none. */
  function SignificantBelow(x: bv16, k: nat): (r: nat)
    requires k <= 16
    ensures r <= k
    ensures forall i: nat :: r <= i < k ==> !Bit(x, i)
    ensures r > 0 ==> Bit(x, r - 1)
  {
    if k == 0 then 0 else if Bit(x, k - 1) then k else SignificantBelow(x, k - 1)
  }

  /** The bit length of `x`; on the 64-bit word that holds the field this is
      `64 - std::countl_zero(x)`. */
  function BitLength(x: bv16): (r: nat)
    ensures r <= 16
    ensures forall i: nat :: r <= i < 16 ==> !Bit(x, i)
    ensures r > 0 ==> Bit(x, r - 1)
  {
    SignificantBelow(x, 16)
  }
}
