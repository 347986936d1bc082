/** Dense real matrices and vectors as used throughout gitano's matrix
    operations: a vector is a sequence of reals, a matrix a sequence of rows.
    Doubles are modelled as mathematical reals (no rounding, no NaN). */
module Matrix {

  type Vector = seq<real>
  type Mat = seq<seq<real>>

  function Abs(x: real): (r: real)
    ensures r >= 0.0
    ensures r == x || r == -x
  {
    if x < 0.0 then -x else x
  }

  /** Number of columns of a matrix; a matrix without rows has none. */
  function Cols<T>(m: seq<seq<T>>): nat
  {
    if |m| == 0 then 0 else |m[0]|
  }

  /** Every row has the same length, as in a GSL matrix. */
  predicate IsRect<T>(m: seq<seq<T>>)
  {
    forall i :: 0 <= i < |m| ==> |m[i]| == Cols(m)
  }

  /** A K x K matrix with K = |m|. */
  predicate IsSquare<T>(m: seq<seq<T>>)
  {
    forall i :: 0 <= i < |m| ==> |m[i]| == |m|
  }

  predicate NonNegative(m: Mat)
    requires IsSquare(m)
  {
    forall i, j :: 0 <= i < |m| && 0 <= j < |m| ==> m[i][j] >= 0.0
  }

  predicate Symmetric(m: Mat)
    requires IsSquare(m)
  {
    forall i, j :: 0 <= i < |m| && 0 <= j < |m| ==> m[i][j] == m[j][i]
  }

  /** vector_sum: the entries added up front to back. */
  function VectorSum(v: Vector): real
  {
    if |v| == 0 then 0.0 else VectorSum(v[..|v| - 1]) + v[|v| - 1]
  }

  /** matrix_sum: every entry added up in row-major order. */
  function MatrixSum(m: Mat): real
  {
    if |m| == 0 then 0.0 else MatrixSum(m[..|m| - 1]) + VectorSum(m[|m| - 1])
  }

  lemma {:induction false} VectorSumNonNegative(v: Vector)
    requires forall i :: 0 <= i < |v| ==> v[i] >= 0.0
    ensures VectorSum(v) >= 0.0
  {
    if |v| > 0 {
      VectorSumNonNegative(v[..|v| - 1]);
    }
  }

  lemma {:induction false} MatrixSumNonNegative(m: Mat)
    requires forall i, j :: 0 <= i < |m| && 0 <= j < |m[i]| ==> m[i][j] >= 0.0
    ensures MatrixSum(m) >= 0.0
  {
    if |m| > 0 {
      MatrixSumNonNegative(m[..|m| - 1]);
      VectorSumNonNegative(m[|m| - 1]);
    }
  }

  /** With non-negative entries, every entry is at most vector_sum. */
  lemma {:induction false} VectorSumBound(v: Vector, j: nat)
    requires forall i :: 0 <= i < |v| ==> v[i] >= 0.0
    requires j < |v|
    ensures v[j] <= VectorSum(v)
  {
    var n := |v| - 1;
    assert forall i :: 0 <= i < n ==> v[..n][i] >= 0.0;
    if j == n {
      VectorSumNonNegative(v[..n]);
    } else {
      VectorSumBound(v[..n], j);
      assert v[..n][j] == v[j];
    }
  }

  /** With non-negative entries, every entry is at most matrix_sum. */
  lemma {:induction false} MatrixSumBound(m: Mat, i: nat, j: nat)
    requires forall a, b :: 0 <= a < |m| && 0 <= b < |m[a]| ==> m[a][b] >= 0.0
    requires i < |m| && j < |m[i]|
    ensures m[i][j] <= MatrixSum(m)
  {
    var n := |m| - 1;
    assert forall a, b :: 0 <= a < n && 0 <= b < |m[..n][a]| ==> m[..n][a][b] >= 0.0;
    if i == n {
      MatrixSumNonNegative(m[..n]);
      VectorSumBound(m[n], j);
    } else {
      MatrixSumBound(m[..n], i, j);
      VectorSumNonNegative(m[n]);
      assert m[..n][i] == m[i];
    }
  }

  lemma {:induction false} VectorSumZero(v: Vector)
    requires forall i :: 0 <= i < |v| ==> v[i] == 0.0
    ensures VectorSum(v) == 0.0
  {
    if |v| > 0 {
      VectorSumZero(v[..|v| - 1]);
    }
  }

  /** A matrix of zeros sums to 0. */
  lemma {:induction false} MatrixSumZero(m: Mat)
    requires forall i, j :: 0 <= i < |m| && 0 <= j < |m[i]| ==> m[i][j] == 0.0
    ensures MatrixSum(m) == 0.0
  {
    if |m| > 0 {
      MatrixSumZero(m[..|m| - 1]);
      VectorSumZero(m[|m| - 1]);
    }
  }

  /** Overwriting one entry changes the sum by exactly the difference. */
  lemma {:induction false} VectorSumUpdate(v: Vector, j: nat, x: real)
    requires j < |v|
    ensures VectorSum(v[j := x]) == VectorSum(v) - v[j] + x
  {
    var n := |v|;
    if j < n - 1 {
      assert v[j := x][..n - 1] == v[..n - 1][j := x];
      VectorSumUpdate(v[..n - 1], j, x);
    } else {
      assert v[j := x][..n - 1] == v[..n - 1];
    }
  }

  lemma {:induction false} MatrixSumRowUpdate(m: Mat, i: nat, row: Vector)
    requires i < |m|
    ensures MatrixSum(m[i := row]) == MatrixSum(m) - VectorSum(m[i]) + VectorSum(row)
  {
    var n := |m|;
    if i < n - 1 {
      assert m[i := row][..n - 1] == m[..n - 1][i := row];
      MatrixSumRowUpdate(m[..n - 1], i, row);
    } else {
      assert m[i := row][..n - 1] == m[..n - 1];
    }
  }

  /** Zeroing the entry (i, j) lowers the matrix sum by that entry. */
  lemma MatrixSumZeroCell(m: Mat, i: nat, j: nat)
    requires i < |m| && j < |m[i]|
    ensures MatrixSum(m[i := m[i][j := 0.0]]) == MatrixSum(m) - m[i][j]
  {
    VectorSumUpdate(m[i], j, 0.0);
    MatrixSumRowUpdate(m, i, m[i][j := 0.0]);
  }
}
