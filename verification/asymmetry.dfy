/** apply_assymetry_vector: every unordered pair i < j, taken in row-major
    order, consumes one gene p of the solution vector; a positive weight
    A[i][j] is split into 2*p*A[i][j] from i to j and 2*(1-p)*A[i][j] from
    j to i.  Cells no pair writes (the diagonal, and both cells of a pair
    whose upper weight is not positive) are left as allocated; this model
    takes them to be 0. */
module Asymmetry {
  import opened Matrix
  import opened Pairs

  /** The share 2*q*w of an edge of weight w that a direction with fraction q receives. */
  function Share(q: real, w: real): real
  {
    2.0 * q * w
  }

  /** The value apply_assymetry_vector leaves in cell (a, b). */
  function DirectedWeight(A: Mat, p: Vector, a: nat, b: nat): real
    requires IsSquare(A) && a < |A| && b < |A| && |p| >= NumPairs(|A|)
  {
    if a < b && A[a][b] > 0.0 then
      PairIndexBounds(|A|, a, b);
      Share(p[PairIndex(|A|, a, b)], A[a][b])
    else if b < a && A[b][a] > 0.0 then
      PairIndexBounds(|A|, b, a);
      Share(1.0 - p[PairIndex(|A|, b, a)], A[b][a])
    else 0.0
  }

  /** The directed matrix for solution vector p.  Each undirected edge keeps
      its total mass 2*A[i][j], only the upper weight A[i][j] is consulted,
      and the diagonal and absent edges stay 0. */
  function ApplyAsymmetry(A: Mat, p: Vector): (r: Mat)
    requires IsSquare(A) && |p| >= NumPairs(|A|)
    ensures |r| == |A| && IsSquare(r)
    ensures forall a, b :: 0 <= a < b < |A| && A[a][b] > 0.0 ==> r[a][b] + r[b][a] == 2.0 * A[a][b]
    ensures forall a, b :: 0 <= a < b < |A| && !(A[a][b] > 0.0) ==> r[a][b] == 0.0 && r[b][a] == 0.0
    ensures forall a :: 0 <= a < |A| ==> r[a][a] == 0.0
  {
    seq(|A|, a requires 0 <= a < |A| =>
      seq(|A|, b requires 0 <= b < |A| => DirectedWeight(A, p, a, b)))
  }

  /** A gene of 0.5 hands each direction of a positive edge its original weight. */
  lemma HalfGeneIsSymmetric(A: Mat, p: Vector, a: nat, b: nat)
    requires IsSquare(A) && |p| >= NumPairs(|A|) && a < b < |A| && A[a][b] > 0.0
    requires PairIndex(|A|, a, b) < |p| && p[PairIndex(|A|, a, b)] == 0.5
    ensures ApplyAsymmetry(A, p)[a][b] == A[a][b]
    ensures ApplyAsymmetry(A, p)[b][a] == A[a][b]
  {
  }

  /** Gene t steers exactly the pair enumerated at slot t: the pair (a, b)
      reads the gene at PairIndex(a, b), the number of pairs before it in
      row-major order. */
  lemma GeneSteersItsPair(A: Mat, p: Vector, a: nat, b: nat)
    requires IsSquare(A) && |p| >= NumPairs(|A|) && a < b < |A| && A[a][b] > 0.0
    ensures PairIndex(|A|, a, b) < NumPairs(|A|) == |PairList(|A|)|
    ensures PairList(|A|)[PairIndex(|A|, a, b)] == (a, b)
    ensures ApplyAsymmetry(A, p)[a][b] == 2.0 * p[PairIndex(|A|, a, b)] * A[a][b]
    ensures ApplyAsymmetry(A, p)[b][a] == 2.0 * (1.0 - p[PairIndex(|A|, a, b)]) * A[a][b]
  {
    PairIndexBounds(|A|, a, b);
    PairListShape(|A|);
  }

  /** The lower triangle of A is never read, and neither is any gene past
      slot NumPairs(K) - 1. */
  lemma UpperTriangleOnly(A: Mat, B: Mat, p: Vector, q: Vector)
    requires IsSquare(A) && IsSquare(B) && |A| == |B|
    requires |p| >= NumPairs(|A|) && |q| >= NumPairs(|A|)
    requires forall a, b :: 0 <= a < b < |A| ==> A[a][b] == B[a][b]
    requires p[..NumPairs(|A|)] == q[..NumPairs(|A|)]
    ensures ApplyAsymmetry(A, p) == ApplyAsymmetry(B, q)
  {
    var n := |A|;
    forall a | 0 <= a < n
      ensures ApplyAsymmetry(A, p)[a] == ApplyAsymmetry(B, q)[a]
    {
      forall b | 0 <= b < n
        ensures DirectedWeight(A, p, a, b) == DirectedWeight(B, q, a, b)
      {
        DirectedWeightUpper(A, B, p, q, a, b);
      }
    }
  }

  lemma DirectedWeightUpper(A: Mat, B: Mat, p: Vector, q: Vector, a: nat, b: nat)
    requires IsSquare(A) && IsSquare(B) && |A| == |B| && a < |A| && b < |A|
    requires |p| >= NumPairs(|A|) && |q| >= NumPairs(|A|)
    requires forall a, b :: 0 <= a < b < |A| ==> A[a][b] == B[a][b]
    requires p[..NumPairs(|A|)] == q[..NumPairs(|A|)]
    ensures DirectedWeight(A, p, a, b) == DirectedWeight(B, q, a, b)
  {
    var n := |A|;
    if a < b {
      PairIndexBounds(n, a, b);
      SamePrefixEntry(p, q, NumPairs(n), PairIndex(n, a, b));
    } else if b < a {
      PairIndexBounds(n, b, a);
      SamePrefixEntry(p, q, NumPairs(n), PairIndex(n, b, a));
    }
    DirectedWeightCongruent(A, B, p, q, a, b);
  }

  /** Cell (a, b) depends only on the upper weight and the gene of its pair. */
  lemma DirectedWeightCongruent(A: Mat, B: Mat, p: Vector, q: Vector, a: nat, b: nat)
    requires IsSquare(A) && IsSquare(B) && |A| == |B| && a < |A| && b < |A|
    requires |p| >= NumPairs(|A|) && |q| >= NumPairs(|A|)
    requires a < b ==> (A[a][b] == B[a][b] && PairIndex(|A|, a, b) < NumPairs(|A|)
      && p[PairIndex(|A|, a, b)] == q[PairIndex(|A|, a, b)])
    requires b < a ==> (A[b][a] == B[b][a] && PairIndex(|A|, b, a) < NumPairs(|A|)
      && p[PairIndex(|A|, b, a)] == q[PairIndex(|A|, b, a)])
    ensures DirectedWeight(A, p, a, b) == DirectedWeight(B, q, a, b)
  {
  }

  lemma SamePrefixEntry(p: Vector, q: Vector, m: nat, t: nat)
    requires m <= |p| && m <= |q| && p[..m] == q[..m] && t < m
    ensures p[t] == q[t]
  {
    assert p[t] == p[..m][t] && q[t] == q[..m][t];
  }

  /** Pairs (lo, hi) = (min(a, b), max(a, b)), lo < hi, that the loops have
      handled before reaching pair (i, j). */
  predicate Handled(a: nat, b: nat, i: nat, j: nat)
  {
    var lo := if a < b then a else b;
    var hi := if a < b then b else a;
    lo < hi && (lo < i || (lo == i && hi < j))
  }

  /** The state of the loops before pair (i, j). */
  ghost predicate Partial(A: Mat, p: Vector, ret: Mat, i: nat, j: nat)
    requires IsSquare(A) && |p| >= NumPairs(|A|)
  {
    && |ret| == |A| && IsSquare(ret)
    && forall a, b :: 0 <= a < |A| && 0 <= b < |A| ==>
         ret[a][b] == (if Handled(a, b, i, j) then DirectedWeight(A, p, a, b) else 0.0)
  }

  /** The two stores the loop body makes for pair (i, j) with gene pv and
      weight val: nothing when val is not positive. */
  function WritePair(ret: Mat, i: nat, j: nat, pv: real, val: real): (r: Mat)
    requires IsSquare(ret) && i < |ret| && j < |ret|
    ensures |r| == |ret| && IsSquare(r)
  {
    if val > 0.0 then
      var r1 := ret[i := ret[i][j := Share(pv, val)]];
      r1[j := r1[j][i := Share(1.0 - pv, val)]]
    else ret
  }

  lemma PartialStep(A: Mat, p: Vector, ret: Mat, i: nat, j: nat)
    requires IsSquare(A) && |p| >= NumPairs(|A|) && i < j < |A|
    requires Partial(A, p, ret, i, j)
    ensures PairIndex(|A|, i, j) < |p|
    ensures Partial(A, p, WritePair(ret, i, j, p[PairIndex(|A|, i, j)], A[i][j]), i, j + 1)
  {
    PairIndexBounds(|A|, i, j);
    var r := WritePair(ret, i, j, p[PairIndex(|A|, i, j)], A[i][j]);
    forall a, b | 0 <= a < |A| && 0 <= b < |A|
      ensures r[a][b] == (if Handled(a, b, i, j + 1) then DirectedWeight(A, p, a, b) else 0.0)
    {
      PartialCell(A, p, ret, i, j, a, b);
    }
  }

  lemma PartialCell(A: Mat, p: Vector, ret: Mat, i: nat, j: nat, a: nat, b: nat)
    requires IsSquare(A) && |p| >= NumPairs(|A|) && i < j < |A| && a < |A| && b < |A|
    requires PairIndex(|A|, i, j) < |p|
    requires Partial(A, p, ret, i, j)
    ensures var r := WritePair(ret, i, j, p[PairIndex(|A|, i, j)], A[i][j]);
      r[a][b] == (if Handled(a, b, i, j + 1) then DirectedWeight(A, p, a, b) else 0.0)
  {
    var r := WritePair(ret, i, j, p[PairIndex(|A|, i, j)], A[i][j]);
    WritePairCells(ret, i, j, p[PairIndex(|A|, i, j)], A[i][j], a, b);
    if a == i && b == j {
      assert Handled(a, b, i, j + 1) && !Handled(a, b, i, j);
    } else if a == j && b == i {
      assert Handled(a, b, i, j + 1) && !Handled(a, b, i, j);
    } else {
      assert Handled(a, b, i, j + 1) == Handled(a, b, i, j);
    }
  }

  /** What WritePair leaves in cell (a, b). */
  lemma WritePairCells(ret: Mat, i: nat, j: nat, pv: real, val: real, a: nat, b: nat)
    requires IsSquare(ret) && i < j < |ret| && a < |ret| && b < |ret|
    ensures WritePair(ret, i, j, pv, val)[a][b] ==
      if val <= 0.0 then ret[a][b]
      else if a == i && b == j then Share(pv, val)
      else if a == j && b == i then Share(1.0 - pv, val)
      else ret[a][b]
  {
  }

  /** Finishing row i is starting row i + 1. */
  lemma PartialNextRow(A: Mat, p: Vector, ret: Mat, i: nat)
    requires IsSquare(A) && |p| >= NumPairs(|A|) && i < |A|
    requires Partial(A, p, ret, i, |A|)
    ensures Partial(A, p, ret, i + 1, i + 2)
  {
    assert forall a: nat, b: nat :: a < |A| && b < |A| ==> Handled(a, b, i, |A|) == Handled(a, b, i + 1, i + 2);
  }

  /** After the last row every pair has been handled. */
  lemma PartialDone(A: Mat, p: Vector, ret: Mat)
    requires IsSquare(A) && |p| >= NumPairs(|A|)
    requires Partial(A, p, ret, |A|, |A| + 1)
    ensures ret == ApplyAsymmetry(A, p)
  {
    forall a | 0 <= a < |A|
      ensures ret[a] == ApplyAsymmetry(A, p)[a]
    {
      assert forall b :: 0 <= b < |A| ==> ret[a][b] == DirectedWeight(A, p, a, b);
    }
  }

  /** apply_assymetry_vector as written, with its running slot counter: the
      result is ApplyAsymmetry(A, pvec), and the counter ends at exactly
      K(K-1)/2 whether or not each pair carries an edge. */
  method ApplyAsymmetryLoop(A: Mat, pvec: Vector) returns (ret: Mat, ctr: nat)
    requires IsSquare(A) && |pvec| >= NumPairs(|A|)
    ensures ret == ApplyAsymmetry(A, pvec)
    ensures ctr == NumPairs(|A|)
  {
    var n := |A|;
    ret := seq(n, _ => seq(n, _ => 0.0));
    ctr := 0;
    var i := 0;
    while i < n
      invariant 0 <= i <= n
      invariant ctr == RowStart(n, i)
      invariant Partial(A, pvec, ret, i, i + 1)
    {
      var j := i + 1;
      while j < n
        invariant i + 1 <= j <= n
        invariant ctr == RowStart(n, i) + (j - i - 1)
        invariant Partial(A, pvec, ret, i, j)
      {
        PartialStep(A, pvec, ret, i, j);
        var p := pvec[ctr];
        var val := A[i][j];
        ret := WritePair(ret, i, j, p, val);
        ctr := ctr + 1;
        j := j + 1;
      }
      PartialNextRow(A, pvec, ret, i);
      i := i + 1;
    }
    RowStartTotal(n);
    PartialDone(A, pvec, ret);
  }
}
