/**
 The working distance matrix of relaxed neighbor joining.

 The algorithm keeps one dense square buffer of size m0 x m0 and works on its
 leading m x m block, where m is the number of active nodes; shrinking the
 matrix by one only shrinks that block. Specifications look at the active
 block as a value of type `Matrix`.
 */
module Matrices {

  type Matrix = seq<seq<real>>

  predicate IsSquare(M: Matrix, n: nat) {
    |M| == n && forall a :: 0 <= a < n ==> |M[a]| == n
  }

  predicate Symmetric(M: Matrix)
    requires IsSquare(M, |M|)
  {
    forall a, b :: 0 <= a < |M| && 0 <= b < |M| ==> M[a][b] == M[b][a]
  }

  predicate ZeroDiagonal(M: Matrix)
    requires IsSquare(M, |M|)
  {
    forall a :: 0 <= a < |M| ==> M[a][a] == 0.0
  }

  /** The active m x m block of the buffer `d`. */
  ghost function Mat(d: array2<real>, m: nat): (M: Matrix)
    reads d
    requires m <= d.Length0 && m <= d.Length1
    ensures IsSquare(M, m)
    ensures forall a, b :: 0 <= a < m && 0 <= b < m ==> M[a][b] == d[a, b]
  {
    seq(m, a requires 0 <= a < m reads d => seq(m, b requires 0 <= b < m reads d => d[a, b]))
  }

  /** Two square matrices that agree entry by entry are equal. */
  lemma SameEntries(M: Matrix, N: Matrix, n: nat)
    requires IsSquare(M, n) && IsSquare(N, n)
    requires forall a, b :: 0 <= a < n && 0 <= b < n ==> M[a][b] == N[a][b]
    ensures M == N
  {
    forall a | 0 <= a < n
      ensures M[a] == N[a]
    {
      assert forall b :: 0 <= b < n ==> M[a][b] == N[a][b];
    }
  }

  /** Sum of column k over the first n rows (numpy's sum along axis 0). */
  function ColumnSum(M: Matrix, k: nat, n: nat): real
    requires IsSquare(M, |M|) && k < |M| && n <= |M|
  {
    if n == 0 then 0.0 else ColumnSum(M, k, n - 1) + M[n - 1][k]
  }

  /** Sum of row k over the first n columns. */
  function RowSum(M: Matrix, k: nat, n: nat): real
    requires IsSquare(M, |M|) && k < |M| && n <= |M|
  {
    if n == 0 then 0.0 else RowSum(M, k, n - 1) + M[k][n - 1]
  }

  /**
   The normalised sum vector r: every column sum divided by m - 2, defined
   only when at least three nodes are active, which the main loop guarantees.
   */
  function RowSums(M: Matrix): (r: seq<real>)
    requires IsSquare(M, |M|) && |M| >= 3
    ensures |r| == |M|
    ensures forall k :: 0 <= k < |M| ==> r[k] * (|M| as real - 2.0) == ColumnSum(M, k, |M|)
  {
    assert (1.0 / (|M| as real - 2.0)) * (|M| as real - 2.0) == 1.0;
    seq(|M|, k requires 0 <= k < |M| => ColumnSum(M, k, |M|) * (1.0 / (|M| as real - 2.0)))
  }

  /**
   The sums are taken along axis 0, that is down the columns; on a symmetric
   matrix this is the same as the row sums the method is described with.
   */
  lemma {:induction false} ColumnSumIsRowSum(M: Matrix, k: nat, n: nat)
    requires IsSquare(M, |M|) && Symmetric(M) && k < |M| && n <= |M|
    ensures ColumnSum(M, k, n) == RowSum(M, k, n)
  {
    if n > 0 {
      ColumnSumIsRowSum(M, k, n - 1);
      assert M[n - 1][k] == M[k][n - 1];
    }
  }

  /** Computes the normalised sums of the active block, column by column. */
  method ComputeRowSums(d: array2<real>, m: nat) returns (r: seq<real>)
    requires 3 <= m <= d.Length0 && m <= d.Length1
    ensures r == RowSums(Mat(d, m))
  {
    ghost var M := Mat(d, m);
    var scale := 1.0 / (m as real - 2.0);
    r := [];
    var k := 0;
    while k < m
      invariant 0 <= k <= m
      invariant |r| == k
      invariant forall t :: 0 <= t < k ==> r[t] == RowSums(M)[t]
    {
      var s := 0.0;
      var a := 0;
      while a < m
        invariant 0 <= a <= m
        invariant s == ColumnSum(M, k, a)
      {
        s := s + d[a, k];
        a := a + 1;
      }
      r := r + [s * scale];
      k := k + 1;
    }
  }
}
