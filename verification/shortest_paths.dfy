/** shortest_paths: Floyd-Warshall over a weight matrix with a "no edge"
    sentinel gMax equal to the sum of all entries.  Off-diagonal cells start
    at the weight when it is positive and at gMax otherwise; a relaxation is
    accepted only when the candidate sum is strictly below gMax; whatever
    still equals gMax at the end becomes +infinity. */
module ShortestPaths {
  import opened Matrix
  import opened Distances

  /** The matrix before relaxation: the diagonal is 0 (the result is
      calloc'ed and the diagonal never written), an off-diagonal cell holds
      the weight when positive and the sentinel g otherwise. */
  function InitDistances(A: Mat, g: real): (r: Mat)
    requires IsSquare(A)
    ensures |r| == |A| && IsSquare(r)
  {
    seq(|A|, i requires 0 <= i < |A| =>
      seq(|A|, j requires 0 <= j < |A| =>
        if i == j then 0.0 else if A[i][j] > 0.0 then A[i][j] else g))
  }

  /** One relaxation of a cell currently at `cur` by the candidate `cand`. */
  function RelaxCell(cur: real, cand: real, g: real): (r: real)
    ensures r == cur || r == cand
    ensures r <= cur
    ensures r != cur ==> r < g
    ensures cand < g ==> r <= cand
    ensures cand >= g ==> r == cur
  {
    if cur < g && cand < g then (if cur < cand then cur else cand)
    else if cand < g then cand
    else cur
  }

  /** The matrix after the first k rounds of relaxation, each round relaxing
      every cell from the previous round's values (pivot k-1). */
  function Layer(A: Mat, g: real, k: nat): (r: Mat)
    requires IsSquare(A) && k <= |A|
    ensures |r| == |A| && IsSquare(r)
  {
    if k == 0 then InitDistances(A, g)
    else
      var L := Layer(A, g, k - 1);
      seq(|A|, i requires 0 <= i < |A| =>
        seq(|A|, j requires 0 <= j < |A| =>
          RelaxCell(L[i][j], L[i][k - 1] + L[k - 1][j], g)))
  }

  /** The final pass: every cell still equal to the sentinel becomes +infinity. */
  function Finalize(L: Mat, g: real): (d: seq<seq<Dist>>)
    requires IsSquare(L)
    ensures |d| == |L| && IsSquare(d)
    ensures forall i, j :: 0 <= i < |L| && 0 <= j < |L| ==>
      (d[i][j].Inf? <==> L[i][j] == g) && (d[i][j].Fin? ==> d[i][j].value == L[i][j])
  {
    seq(|L|, i requires 0 <= i < |L| =>
      seq(|L|, j requires 0 <= j < |L| =>
        if L[i][j] == g then Inf else Fin(L[i][j])))
  }

  /** The distances shortest_paths computes on a non-negative matrix. */
  function FloydWarshall(A: Mat): (d: seq<seq<Dist>>)
    requires IsSquare(A)
    ensures |d| == |A| && IsSquare(d)
  {
    Finalize(Layer(A, MatrixSum(A), |A|), MatrixSum(A))
  }

  /** On a non-negative matrix every round keeps the diagonal at 0 and every cell non-negative. */
  lemma {:induction false} LayerNonNegative(A: Mat, k: nat)
    requires IsSquare(A) && NonNegative(A) && k <= |A|
    ensures forall i :: 0 <= i < |A| ==> Layer(A, MatrixSum(A), k)[i][i] == 0.0
    ensures forall i, j :: 0 <= i < |A| && 0 <= j < |A| ==> Layer(A, MatrixSum(A), k)[i][j] >= 0.0
  {
    MatrixSumNonNegative(A);
    if k > 0 {
      LayerNonNegative(A, k - 1);
    }
  }

  /** Rounds only ever lower cells. */
  lemma {:induction false} LayerBelowInit(A: Mat, g: real, k: nat)
    requires IsSquare(A) && k <= |A|
    ensures forall i, j :: 0 <= i < |A| && 0 <= j < |A| ==> Layer(A, g, k)[i][j] <= InitDistances(A, g)[i][j]
  {
    if k > 0 {
      LayerBelowInit(A, g, k - 1);
    }
  }

  /** The all-zero matrix: gMax is 0, so even the diagonal equals the
      sentinel and every cell, the diagonal included, is reported +infinity. */
  lemma ZeroGraphUnreachable(A: Mat)
    requires IsSquare(A)
    requires forall i, j :: 0 <= i < |A| && 0 <= j < |A| ==> A[i][j] == 0.0
    ensures forall i, j :: 0 <= i < |A| && 0 <= j < |A| ==> FloydWarshall(A)[i][j] == Inf
  {
    MatrixSumZero(A);
    LayerNonNegative(A, |A|);
    LayerBelowInit(A, 0.0, |A|);
  }

  /** A one-way edge carrying the whole weight of the matrix equals the
      sentinel and is lost: the sentinel only stands for "no edge" when every
      edge weighs less than the total, as on a symmetric matrix where each
      edge is counted twice. */
  lemma SoleDirectedEdgeLost()
    ensures IsSquare([[0.0, 5.0], [0.0, 0.0]])
    ensures FloydWarshall([[0.0, 5.0], [0.0, 0.0]])[0][1] == Inf
  {
    var A := [[0.0, 5.0], [0.0, 0.0]];
    var none: Mat := [];
    var empty: Vector := [];
    assert A[..1] == [[0.0, 5.0]] && A[..1][..0] == none;
    assert A[1][..1] == [0.0] && A[0][..1] == [0.0] && [0.0][..0] == empty;
    assert MatrixSum(A) == 5.0;
    LayerNonNegative(A, 1);
    assert Layer(A, 5.0, 0)[0][1] == 5.0;
    assert Layer(A, 5.0, 1)[0][1] == 5.0;
    assert Layer(A, 5.0, 2)[0][1] == 5.0;
  }

  /** Round k+1 leaves row k and column k alone, because the pivot's own
      diagonal cell is 0: this is what makes the in-place update agree with
      the round-by-round one. */
  lemma LayerPivotStable(A: Mat, k: nat)
    requires IsSquare(A) && NonNegative(A) && k < |A|
    ensures forall i :: 0 <= i < |A| ==>
      Layer(A, MatrixSum(A), k + 1)[i][k] == Layer(A, MatrixSum(A), k)[i][k]
    ensures forall j :: 0 <= j < |A| ==>
      Layer(A, MatrixSum(A), k + 1)[k][j] == Layer(A, MatrixSum(A), k)[k][j]
  {
    LayerNonNegative(A, k);
  }

  /** Every cell of `m` is at most its initial value, and differs from it only by being below g. */
  ghost predicate OnlyLowered(m: Mat, init: Mat, g: real)
    requires IsSquare(m) && IsSquare(init) && |m| == |init|
  {
    forall a, b :: 0 <= a < |m| && 0 <= b < |m| ==>
      m[a][b] <= init[a][b] && (m[a][b] == init[a][b] || m[a][b] < g)
  }

  /** Lowering one cell within the rule keeps OnlyLowered. */
  lemma LowerCell(m: Mat, init: Mat, g: real, i: nat, j: nat, x: real)
    requires IsSquare(m) && IsSquare(init) && |m| == |init| && i < |m| && j < |m|
    requires OnlyLowered(m, init, g)
    requires x <= m[i][j] && (x == m[i][j] || x < g)
    ensures IsSquare(m[i := m[i][j := x]])
    ensures OnlyLowered(m[i := m[i][j := x]], init, g)
  {
    var m' := m[i := m[i][j := x]];
    forall a, b | 0 <= a < |m'| && 0 <= b < |m'|
      ensures m'[a][b] <= init[a][b] && (m'[a][b] == init[a][b] || m'[a][b] < g)
    {
      if a == i && b == j {
      } else {
        assert m'[a][b] == m[a][b];
      }
    }
  }

  /** Row `row` agrees with `after` before column j and with `before` from column j on. */
  ghost predicate SplitAt(row: seq<real>, before: seq<real>, after: seq<real>, j: nat)
    requires |row| == |before| == |after| && j <= |row|
  {
    (forall b :: 0 <= b < j ==> row[b] == after[b]) && (forall b :: j <= b < |row| ==> row[b] == before[b])
  }

  lemma SplitAdvance(row: seq<real>, before: seq<real>, after: seq<real>, j: nat)
    requires |row| == |before| == |after| && j < |row|
    requires SplitAt(row, before, after, j)
    ensures SplitAt(row[j := after[j]], before, after, j + 1)
  {
  }

  lemma LayerStep(A: Mat, g: real, k: nat, i: nat, j: nat)
    requires IsSquare(A) && k < |A| && i < |A| && j < |A|
    ensures Layer(A, g, k + 1)[i][j] ==
      RelaxCell(Layer(A, g, k)[i][j], Layer(A, g, k)[i][k] + Layer(A, g, k)[k][j], g)
  {
  }

  /** The row pass through pivot k starts from round-k values in row i and the pivot row. */
  ghost predicate ExactRow(A: Mat, ret: Mat, i: nat, k: nat)
    requires IsSquare(A) && |ret| == |A| && IsSquare(ret) && i < |A| && k < |A|
  {
    NonNegative(A) && ret[i] == Layer(A, MatrixSum(A), k)[i] && ret[k] == Layer(A, MatrixSum(A), k)[k]
  }

  /** The state of the row pass before column j. */
  ghost predicate RowPassState(A: Mat, ret: Mat, r: Mat, i: nat, j: nat, k: nat)
    requires IsSquare(A) && |ret| == |A| && IsSquare(ret) && i < |A| && j <= |A| && k < |A|
  {
    && |r| == |A| && IsSquare(r)
    && (forall a :: 0 <= a < |A| && a != i ==> r[a] == ret[a])
    && OnlyLowered(r, InitDistances(A, MatrixSum(A)), MatrixSum(A))
    && (ExactRow(A, ret, i, k) ==>
          SplitAt(r[i], Layer(A, MatrixSum(A), k)[i], Layer(A, MatrixSum(A), k + 1)[i], j))
  }

  /** Relaxing cell (i, j) advances the row pass by one column. */
  lemma RowPassStep(A: Mat, ret: Mat, r: Mat, i: nat, j: nat, k: nat)
    requires IsSquare(A) && |ret| == |A| && IsSquare(ret) && i < |A| && j < |A| && k < |A|
    requires RowPassState(A, ret, r, i, j, k)
    ensures RowPassState(A, ret, r[i := r[i][j := RelaxCell(r[i][j], r[i][k] + r[k][j], MatrixSum(A))]], i, j + 1, k)
  {
    var g := MatrixSum(A);
    var next := RelaxCell(r[i][j], r[i][k] + r[k][j], g);
    var r' := r[i := r[i][j := next]];
    LowerCell(r, InitDistances(A, g), g, i, j, next);
    assert forall a :: 0 <= a < |A| && a != i ==> r'[a] == ret[a];
    if ExactRow(A, ret, i, k) {
      ExactRowStep(A, ret, r, i, j, k);
    }
  }

  lemma ExactRowStep(A: Mat, ret: Mat, r: Mat, i: nat, j: nat, k: nat)
    requires IsSquare(A) && |ret| == |A| && IsSquare(ret) && i < |A| && j < |A| && k < |A|
    requires |r| == |A| && IsSquare(r)
    requires forall a :: 0 <= a < |A| && a != i ==> r[a] == ret[a]
    requires ExactRow(A, ret, i, k)
    requires SplitAt(r[i], Layer(A, MatrixSum(A), k)[i], Layer(A, MatrixSum(A), k + 1)[i], j)
    ensures SplitAt(r[i][j := RelaxCell(r[i][j], r[i][k] + r[k][j], MatrixSum(A))],
                    Layer(A, MatrixSum(A), k)[i], Layer(A, MatrixSum(A), k + 1)[i], j + 1)
  {
    var g := MatrixSum(A);
    var L0 := Layer(A, g, k);
    var L1 := Layer(A, g, k + 1);
    LayerPivotStable(A, k);
    assert r[i][k] == L0[i][k];
    assert r[k][j] == L0[k][j];
    LayerStep(A, g, k, i, j);
    SplitAdvance(r[i], L0[i], L1[i], j);
  }

  /** One pass of the innermost loop: row i relaxed in place through pivot k. */
  method RelaxRow(A: Mat, ret: Mat, i: nat, k: nat) returns (r: Mat)
    requires IsSquare(A) && |ret| == |A| && IsSquare(ret) && i < |A| && k < |A|
    requires OnlyLowered(ret, InitDistances(A, MatrixSum(A)), MatrixSum(A))
    ensures |r| == |A| && IsSquare(r)
    ensures forall a :: 0 <= a < |A| && a != i ==> r[a] == ret[a]
    ensures OnlyLowered(r, InitDistances(A, MatrixSum(A)), MatrixSum(A))
    ensures NonNegative(A) && ret[i] == Layer(A, MatrixSum(A), k)[i] && ret[k] == Layer(A, MatrixSum(A), k)[k] ==>
      r[i] == Layer(A, MatrixSum(A), k + 1)[i]
  {
    var n := |A|;
    var g := MatrixSum(A);
    r := ret;
    var j := 0;
    while j < n
      invariant 0 <= j <= n
      invariant RowPassState(A, ret, r, i, j, k)
    {
      var curDist := r[i][j];
      var newDist := r[i][k] + r[k][j];
      var next := curDist;
      if curDist < g && newDist < g {
        next := if curDist < newDist then curDist else newDist;
      } else if newDist < g {
        next := newDist;
      }
      assert next == RelaxCell(curDist, newDist, g);
      RowPassStep(A, ret, r, i, j, k);
      r := r[i := r[i][j := next]];
      j := j + 1;
    }
    if ExactRow(A, ret, i, k) {
      assert r[i] == Layer(A, g, k + 1)[i];
    }
  }

  /** One pass of the pivot loop: every row relaxed in place through pivot k. */
  method RelaxRound(A: Mat, ret: Mat, k: nat) returns (r: Mat)
    requires IsSquare(A) && |ret| == |A| && IsSquare(ret) && k < |A|
    requires OnlyLowered(ret, InitDistances(A, MatrixSum(A)), MatrixSum(A))
    ensures |r| == |A| && IsSquare(r)
    ensures OnlyLowered(r, InitDistances(A, MatrixSum(A)), MatrixSum(A))
    ensures NonNegative(A) && ret == Layer(A, MatrixSum(A), k) ==> r == Layer(A, MatrixSum(A), k + 1)
  {
    var n := |A|;
    ghost var g := MatrixSum(A);
    ghost var exact := NonNegative(A) && ret == Layer(A, g, k);
    ghost var L0 := Layer(A, g, k);
    ghost var L1 := Layer(A, g, k + 1);
    if exact {
      LayerPivotStable(A, k);
    }
    r := ret;
    var i := 0;
    while i < n
      invariant 0 <= i <= n
      invariant |r| == n && IsSquare(r)
      invariant OnlyLowered(r, InitDistances(A, g), g)
      invariant exact ==>
        (forall a :: 0 <= a < i ==> r[a] == L1[a]) && (forall a :: i <= a < n ==> r[a] == L0[a])
    {
      r := RelaxRow(A, r, i, k);
      i := i + 1;
    }
    if exact {
      assert r == L1;
    }
  }

  /** shortest_paths, relaxing in place in the source's k, i, j loop order.
      For any square matrix: a cell is reported +infinity only if it started
      at or above gMax, and a finite result never exceeds its initial value
      and, when it differs from it, lies strictly below gMax.  For a
      non-negative matrix the result is exactly FloydWarshall(A). */
  method ShortestPaths(A: Mat) returns (d: seq<seq<Dist>>)
    requires IsSquare(A)
    ensures |d| == |A| && IsSquare(d)
    ensures forall i, j :: 0 <= i < |A| && 0 <= j < |A| && d[i][j].Inf? ==>
      InitDistances(A, MatrixSum(A))[i][j] == MatrixSum(A)
    ensures forall i, j :: 0 <= i < |A| && 0 <= j < |A| && d[i][j].Fin? ==>
      && d[i][j].value != MatrixSum(A)
      && d[i][j].value <= InitDistances(A, MatrixSum(A))[i][j]
      && (d[i][j].value == InitDistances(A, MatrixSum(A))[i][j] || d[i][j].value < MatrixSum(A))
    ensures NonNegative(A) ==> d == FloydWarshall(A)
  {
    var n := |A|;
    var g := MatrixSum(A);
    var ret := InitDistances(A, g);
    var k := 0;
    while k < n
      invariant 0 <= k <= n
      invariant |ret| == n && IsSquare(ret)
      invariant OnlyLowered(ret, InitDistances(A, g), g)
      invariant NonNegative(A) ==> ret == Layer(A, g, k)
    {
      ret := RelaxRound(A, ret, k);
      k := k + 1;
    }
    d := Finalize(ret, g);
  }
}
