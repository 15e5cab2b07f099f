/** The dense linear-algebra primitives the filter calls, as exact sums over reals:
    `sdot`, `sgemv` (transposed, column-major), `vsSubI`, `vsAbs`, `vsMulI`. */
module Blas {
  import opened Arith

  function Sum(v: seq<real>): real
  {
    if |v| == 0 then 0.0 else v[0] + Sum(v[1..])
  }

  function Ones(n: nat): (v: seq<real>)
    ensures |v| == n && forall i :: 0 <= i < n ==> v[i] == 1.0
  {
    seq(n, _ => 1.0)
  }

  /** `sdot`. */
  function Dot(a: seq<real>, b: seq<real>): real
    requires |a| == |b|
  {
    if |a| == 0 then 0.0 else a[0] * b[0] + Dot(a[1..], b[1..])
  }

  /** `vsSubI` with a scalar second operand: every element minus `c`. */
  function SubScalar(v: seq<real>, c: real): (r: seq<real>)
    ensures |r| == |v| && forall i {:trigger r[i]} :: 0 <= i < |v| ==> r[i] == v[i] - c
  {
    seq(|v|, i requires 0 <= i < |v| => v[i] - c)
  }

  /** `vsMulI` with a scalar second operand: every element times `c`. */
  function Scale(v: seq<real>, c: real): (r: seq<real>)
    ensures |r| == |v| && forall i {:trigger r[i]} :: 0 <= i < |v| ==> r[i] == v[i] * c
  {
    seq(|v|, i requires 0 <= i < |v| => v[i] * c)
  }

  function Abs(x: real): real
  {
    if x < 0.0 then -x else x
  }

  /** `vsAbs`. */
  function AbsAll(v: seq<real>): (r: seq<real>)
    ensures |r| == |v| && forall i {:trigger r[i]} :: 0 <= i < |v| ==> r[i] == Abs(v[i])
  {
    seq(|v|, i requires 0 <= i < |v| => Abs(v[i]))
  }

  /** Elementwise sum of two vectors (the `beta = 1` accumulation of `sgemv`). */
  function Add(a: seq<real>, b: seq<real>): (r: seq<real>)
    requires |a| == |b|
    ensures |r| == |a| && forall i {:trigger r[i]} :: 0 <= i < |a| ==> r[i] == a[i] + b[i]
  {
    if |a| == 0 then [] else [a[0] + b[0]] + Add(a[1..], b[1..])
  }

  /** Transposed `sgemv` with unit scaling over a column-major matrix that starts at
      offset `off` of `a` and has leading dimension `lda`: entry j of the result is the
      dot product of the first `m` entries of column j with the first `m` entries of `x`
      (see `GemvTColumns`). Only the entries the call reads need to exist, so the last
      column may end early. */
  function GemvT(a: seq<real>, off: nat, lda: nat, m: nat, cols: nat, x: seq<real>): (y: seq<real>)
    requires m <= |x|
    requires cols > 0 ==> off + Blocks(lda, cols - 1) + m <= |a|
    ensures |y| == cols
    decreases cols
  {
    if cols == 0 then []
    else GemvT(a, off, lda, m, cols - 1, x) + [Dot(a[off + Blocks(lda, cols - 1)..off + Blocks(lda, cols - 1) + m], x[..m])]
  }

  lemma {:induction false} GemvTColumns(a: seq<real>, off: nat, lda: nat, m: nat, cols: nat, x: seq<real>)
    requires m <= |x|
    requires cols > 0 ==> off + Blocks(lda, cols - 1) + m <= |a|
    ensures ColumnProducts(a, off, lda, m, x, GemvT(a, off, lda, m, cols, x))
    decreases cols
  {
    if cols > 0 {
      if cols > 1 {
        BlocksMonotone(lda, cols - 2, cols - 1);
      }
      GemvTColumns(a, off, lda, m, cols - 1, x);
      AppendColumn(a, off, lda, m, x, GemvT(a, off, lda, m, cols - 1, x), GemvT(a, off, lda, m, cols, x));
    }
  }

  /** Entry j of `y` is the product of column j of the matrix with `x`. */
  predicate ColumnProducts(a: seq<real>, off: nat, lda: nat, m: nat, x: seq<real>, y: seq<real>)
    requires m <= |x|
  {
    forall j {:trigger y[j]} :: 0 <= j < |y| ==>
      off + Blocks(lda, j) + m <= |a| && y[j] == Dot(a[off + Blocks(lda, j)..off + Blocks(lda, j) + m], x[..m])
  }

  /** Appending the product of the next column keeps every entry a column product. */
  lemma {:induction false} AppendColumn(a: seq<real>, off: nat, lda: nat, m: nat, x: seq<real>,
                     prev: seq<real>, y: seq<real>)
    requires m <= |x| && off + Blocks(lda, |prev|) + m <= |a| && ColumnProducts(a, off, lda, m, x, prev)
    requires y == prev + [Dot(a[off + Blocks(lda, |prev|)..off + Blocks(lda, |prev|) + m], x[..m])]
    ensures ColumnProducts(a, off, lda, m, x, y)
  {
    forall j | 0 <= j < |y|
      ensures off + Blocks(lda, j) + m <= |a|
        && y[j] == Dot(a[off + Blocks(lda, j)..off + Blocks(lda, j) + m], x[..m])
    {
      if j < |prev| {
        assert y[j] == prev[j];
      }
    }
  }

  lemma {:induction false} DotOnes(v: seq<real>)
    ensures Dot(v, Ones(|v|)) == Sum(v)
  {
    if |v| > 0 {
      assert Ones(|v|)[1..] == Ones(|v| - 1);
      DotOnes(v[1..]);
    }
  }

  /** A dot product splits over concatenation. */
  lemma {:induction false} DotAppend(a1: seq<real>, a2: seq<real>, b1: seq<real>, b2: seq<real>)
    requires |a1| == |b1| && |a2| == |b2|
    ensures Dot(a1 + a2, b1 + b2) == Dot(a1, b1) + Dot(a2, b2)
  {
    if |a1| > 0 {
      assert (a1 + a2)[1..] == a1[1..] + a2;
      assert (b1 + b2)[1..] == b1[1..] + b2;
      DotAppend(a1[1..], a2, b1[1..], b2);
    } else {
      assert a1 + a2 == a2 && b1 + b2 == b2;
    }
  }

  lemma ScaleTail(v: seq<real>, c: real)
    requires |v| > 0
    ensures Scale(v, c)[1..] == Scale(v[1..], c)
  {
    forall i | 0 <= i < |v| - 1
      ensures Scale(v, c)[1..][i] == Scale(v[1..], c)[i]
    {
      assert v[1..][i] == v[i + 1];
    }
  }

  lemma {:induction false} SumScale(v: seq<real>, c: real)
    ensures Sum(Scale(v, c)) == Sum(v) * c
  {
    if |v| > 0 {
      ScaleTail(v, c);
      SumScale(v[1..], c);
    }
  }

  lemma {:induction false} SumSubScalar(v: seq<real>, c: real)
    ensures Sum(SubScalar(v, c)) == Sum(v) - |v| as real * c
  {
    if |v| > 0 {
      assert SubScalar(v, c)[1..] == SubScalar(v[1..], c);
      SumSubScalar(v[1..], c);
    }
  }

  lemma {:induction false} SumAbsNonnegative(v: seq<real>)
    ensures Sum(AbsAll(v)) >= 0.0
  {
    if |v| > 0 {
      assert AbsAll(v)[1..] == AbsAll(v[1..]);
      SumAbsNonnegative(v[1..]);
    }
  }

  lemma SumAbsScale(v: seq<real>, c: real)
    ensures Sum(AbsAll(Scale(v, c))) == Sum(AbsAll(v)) * Abs(c)
  {
    AbsOfScale(v, c);
    SumScale(AbsAll(v), Abs(c));
  }

  /** Taking magnitudes commutes with scaling, up to the magnitude of the factor. */
  lemma AbsOfScale(v: seq<real>, c: real)
    ensures AbsAll(Scale(v, c)) == Scale(AbsAll(v), Abs(c))
  {
    forall i | 0 <= i < |v|
      ensures AbsAll(Scale(v, c))[i] == Scale(AbsAll(v), Abs(c))[i]
    {
      AbsOfProduct(v[i], c);
    }
  }

  lemma AbsOfProduct(x: real, c: real)
    ensures Abs(x * c) == Abs(x) * Abs(c)
  {
    if x < 0.0 && c < 0.0 {
      assert x * c == (-x) * (-c);
    } else if x < 0.0 {
      assert -(x * c) == (-x) * c;
    } else if c < 0.0 {
      assert -(x * c) == x * (-c);
    }
  }
}
