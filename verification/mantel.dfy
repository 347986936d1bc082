/** mantel_correlation: the Pearson correlation of the strict upper triangles
    of two equally shaped matrices, restricted to the pairs where both
    entries are positive (+infinity counts as positive).  The correlation
    itself (GSL's gsl_stats_correlation) is a parameter of the model. */
module Mantel {
  import opened Matrix
  import opened Distances
  import opened Pairs

  type Pair = (nat, nat)

  /** The correlation routine: any total function of the two extracted vectors. */
  type Pearson = (seq<Dist>, seq<Dist>) -> real

  predicate SameShape<T>(x: seq<seq<T>>, y: seq<seq<T>>)
  {
    |x| == |y| && Cols(x) == Cols(y)
  }

  predicate InCell<T>(m: seq<seq<T>>, p: Pair)
  {
    p.0 < |m| && p.1 < |m[p.0]|
  }

  /** The test `x(i,j) > 0 & y(i,j) > 0` of both passes. */
  predicate Qualifies(x: seq<seq<Dist>>, y: seq<seq<Dist>>, p: Pair)
  {
    InCell(x, p) && InCell(y, p) && IsPositive(x[p.0][p.1]) && IsPositive(y[p.0][p.1])
  }

  /** The pairs of ps that pass the test, in the order of ps. */
  function Selected(x: seq<seq<Dist>>, y: seq<seq<Dist>>, ps: seq<Pair>): (r: seq<Pair>)
    ensures |r| <= |ps|
    ensures forall t :: 0 <= t < |r| ==> Qualifies(x, y, r[t])
  {
    if |ps| == 0 then []
    else
      var p := ps[|ps| - 1];
      Selected(x, y, ps[..|ps| - 1]) + (if Qualifies(x, y, p) then [p] else [])
  }

  /** The entries of m at the pairs q, in order. */
  function Values(m: seq<seq<Dist>>, q: seq<Pair>): (r: seq<Dist>)
    requires forall t :: 0 <= t < |q| ==> InCell(m, q[t])
    ensures |r| == |q|
  {
    seq(|q|, t requires 0 <= t < |q| && InCell(m, q[t]) => m[q[t].0][q[t].1])
  }

  /** The requirement of mantel_correlation on its arguments: GSL matrices,
      and, when the size guard passes, at least as many columns as rows
      (the loops index columns up to the row count). */
  predicate MantelArgs(x: seq<seq<Dist>>, y: seq<seq<Dist>>)
  {
    IsRect(x) && IsRect(y) && (SameShape(x, y) ==> |x| <= Cols(x))
  }

  /** mantel_correlation.  Mismatched shapes yield 0 whatever the
      correlation routine; otherwise it is applied to the x- and y-values of
      the qualifying upper-triangle pairs, both taken at the same pairs. */
  function MantelCorrelation(x: seq<seq<Dist>>, y: seq<seq<Dist>>, pearson: Pearson): (r: real)
    requires MantelArgs(x, y)
    ensures !SameShape(x, y) ==> r == 0.0
    ensures SameShape(x, y) ==>
      var q := Selected(x, y, PairList(|x|));
      exists xs: seq<Dist>, ys: seq<Dist> ::
        |xs| == |ys| == |q| && r == pearson(xs, ys) &&
        (forall t :: 0 <= t < |q| ==> xs[t] == x[q[t].0][q[t].1] && ys[t] == y[q[t].0][q[t].1])
  {
    if !SameShape(x, y) then 0.0
    else
      var q := Selected(x, y, PairList(|x|));
      var xs := Values(x, q);
      var ys := Values(y, q);
      assert forall t :: 0 <= t < |q| ==> xs[t] == x[q[t].0][q[t].1] && ys[t] == y[q[t].0][q[t].1];
      pearson(xs, ys)
  }

  lemma SelectedSnoc(x: seq<seq<Dist>>, y: seq<seq<Dist>>, ps: seq<Pair>, p: Pair)
    ensures Selected(x, y, ps + [p]) == Selected(x, y, ps) + (if Qualifies(x, y, p) then [p] else [])
  {
    assert (ps + [p])[..|ps|] == ps;
  }

  /** Selection keeps exactly the qualifying members of ps. */
  lemma {:induction false} SelectedMembers(x: seq<seq<Dist>>, y: seq<seq<Dist>>, ps: seq<Pair>)
    ensures forall p :: p in Selected(x, y, ps) <==> p in ps && Qualifies(x, y, p)
  {
    if |ps| > 0 {
      SelectedMembers(x, y, ps[..|ps| - 1]);
      assert ps == ps[..|ps| - 1] + [ps[|ps| - 1]];
    }
  }

  /** Pairs strictly above the diagonal of a k x k matrix, strictly
      increasing in row-major order. */
  ghost predicate RowMajor(k: nat, ps: seq<Pair>)
  {
    && (forall t :: 0 <= t < |ps| ==> ps[t].0 < ps[t].1 < k)
    && (forall t, u :: 0 <= t < u < |ps| ==> PairIndex(k, ps[t].0, ps[t].1) < PairIndex(k, ps[u].0, ps[u].1))
  }

  /** Selection preserves the order of its input. */
  lemma {:induction false} SelectedRowMajor(x: seq<seq<Dist>>, y: seq<seq<Dist>>, k: nat, ps: seq<Pair>)
    requires RowMajor(k, ps)
    ensures RowMajor(k, Selected(x, y, ps))
  {
    if |ps| > 0 {
      var init := ps[..|ps| - 1];
      var last := ps[|ps| - 1];
      assert RowMajor(k, init);
      SelectedRowMajor(x, y, k, init);
      SelectedMembers(x, y, init);
      var s := Selected(x, y, init);
      forall t | 0 <= t < |s|
        ensures s[t].0 < s[t].1 < k && PairIndex(k, s[t].0, s[t].1) < PairIndex(k, last.0, last.1)
      {
        assert s[t] in init;
        MemberBeforeLast(k, ps, s[t]);
      }
    }
  }

  lemma MemberBeforeLast(k: nat, ps: seq<Pair>, p: Pair)
    requires RowMajor(k, ps) && |ps| > 0 && p in ps[..|ps| - 1]
    ensures p.0 < p.1 < k
    ensures PairIndex(k, p.0, p.1) < PairIndex(k, ps[|ps| - 1].0, ps[|ps| - 1].1)
  {
    var v :| 0 <= v < |ps| - 1 && ps[..|ps| - 1][v] == p;
    assert ps[v] == p;
  }

  lemma PairListRowMajor(k: nat)
    ensures RowMajor(k, PairList(k))
  {
    PairListShape(k);
    forall t | 0 <= t < |PairList(k)|
      ensures PairIndex(k, PairList(k)[t].0, PairList(k)[t].1) == t
    {
      PairListIndexed(k, t);
    }
  }

  /** The pairs the two passes extract are exactly the qualifying pairs of the
      strict upper triangle, each once, in row-major order; lower-triangle and
      diagonal entries are never consulted. */
  lemma ExtractedPairs(x: seq<seq<Dist>>, y: seq<seq<Dist>>)
    ensures RowMajor(|x|, Selected(x, y, PairList(|x|)))
    ensures forall a: nat, b: nat :: a < b < |x| && Qualifies(x, y, (a, b)) ==>
      (a, b) in Selected(x, y, PairList(|x|))
  {
    var k := |x|;
    PairListRowMajor(k);
    SelectedRowMajor(x, y, k, PairList(k));
    SelectedMembers(x, y, PairList(k));
    PairListShape(k);
    forall a: nat, b: nat | a < b < k && Qualifies(x, y, (a, b))
      ensures (a, b) in Selected(x, y, PairList(k))
    {
      assert PairList(k)[PairIndex(k, a, b)] == (a, b);
    }
  }

  lemma {:induction false} SelectedUpper(x: seq<seq<Dist>>, y: seq<seq<Dist>>, x': seq<seq<Dist>>, y': seq<seq<Dist>>,
                                         ps: seq<Pair>)
    requires forall t :: 0 <= t < |ps| ==> Qualifies(x, y, ps[t]) == Qualifies(x', y', ps[t])
    ensures Selected(x, y, ps) == Selected(x', y', ps)
  {
    if |ps| > 0 {
      SelectedUpper(x, y, x', y', ps[..|ps| - 1]);
    }
  }

  /** Entries on or below the diagonal do not affect the correlation. */
  lemma MantelUpperTriangleOnly(x: seq<seq<Dist>>, y: seq<seq<Dist>>, x': seq<seq<Dist>>, y': seq<seq<Dist>>,
                                pearson: Pearson)
    requires MantelArgs(x, y) && MantelArgs(x', y')
    requires SameShape(x, y) && SameShape(x, x') && SameShape(y, y')
    requires forall a, b :: 0 <= a < b < |x| ==> x[a][b] == x'[a][b] && y[a][b] == y'[a][b]
    ensures MantelCorrelation(x, y, pearson) == MantelCorrelation(x', y', pearson)
  {
    var k := |x|;
    PairListShape(k);
    SelectedUpper(x, y, x', y', PairList(k));
    var q := Selected(x, y, PairList(k));
    ExtractedPairs(x, y);
    assert Values(x, q) == Values(x', q);
    assert Values(y, q) == Values(y', q);
  }

  /** With a symmetric correlation routine the arguments may be swapped. */
  lemma MantelSwap(x: seq<seq<Dist>>, y: seq<seq<Dist>>, pearson: Pearson)
    requires MantelArgs(x, y) && MantelArgs(y, x)
    requires forall u, v :: pearson(u, v) == pearson(v, u)
    ensures MantelCorrelation(x, y, pearson) == MantelCorrelation(y, x, pearson)
  {
    if SameShape(x, y) {
      var k := |x|;
      PairListShape(k);
      SelectedUpper(x, y, y, x, PairList(k));
    }
  }

  /** The pairs visited before (i, j): rows 0 .. i-1, then row i up to column j-1. */
  function RowPrefix(k: nat, i: nat, j: nat): seq<Pair>
    requires i < k && i + 1 <= j <= k
  {
    PairsBefore(k, i) + RowPairs(k, i)[..j - i - 1]
  }

  lemma RowPrefixStart(k: nat, i: nat)
    requires i < k
    ensures RowPrefix(k, i, i + 1) == PairsBefore(k, i)
  {
  }

  lemma RowPrefixStep(k: nat, i: nat, j: nat)
    requires i < k && i + 1 <= j < k
    ensures RowPrefix(k, i, j + 1) == RowPrefix(k, i, j) + [(i, j)]
  {
    assert RowPairs(k, i)[..j - i] == RowPairs(k, i)[..j - i - 1] + [(i, j)];
  }

  lemma RowPrefixEnd(k: nat, i: nat)
    requires i < k
    ensures RowPrefix(k, i, k) == PairsBefore(k, i + 1)
  {
    assert RowPairs(k, i)[..k - i - 1] == RowPairs(k, i);
  }

  /** Visiting pair (i, j) appends it to the selection exactly when both
      entries there are positive. */
  lemma VisitStep(x: seq<seq<Dist>>, y: seq<seq<Dist>>, i: nat, j: nat)
    requires MantelArgs(x, y) && SameShape(x, y) && i < j < |x|
    ensures j < |x[i]| && j < |y[i]|
    ensures Qualifies(x, y, (i, j)) <==> IsPositive(x[i][j]) && IsPositive(y[i][j])
    ensures Selected(x, y, RowPrefix(|x|, i, j + 1)) ==
      Selected(x, y, RowPrefix(|x|, i, j)) + (if Qualifies(x, y, (i, j)) then [(i, j)] else [])
  {
    RowPrefixStep(|x|, i, j);
    SelectedSnoc(x, y, RowPrefix(|x|, i, j), (i, j));
  }

  lemma ValuesSnoc(m: seq<seq<Dist>>, q: seq<Pair>, p: Pair)
    requires forall t :: 0 <= t < |q| ==> InCell(m, q[t])
    requires InCell(m, p)
    ensures Values(m, q + [p]) == Values(m, q) + [m[p.0][p.1]]
  {
  }

  /** xvec and yvec hold the values at the selected pairs of ps. */
  predicate Extracted(x: seq<seq<Dist>>, y: seq<seq<Dist>>, xvec: seq<Dist>, yvec: seq<Dist>, ps: seq<Pair>)
  {
    xvec == Values(x, Selected(x, y, ps)) && yvec == Values(y, Selected(x, y, ps))
  }

  lemma ExtractStep(x: seq<seq<Dist>>, y: seq<seq<Dist>>, xvec: seq<Dist>, yvec: seq<Dist>, i: nat, j: nat)
    requires MantelArgs(x, y) && SameShape(x, y) && i < j < |x|
    requires Extracted(x, y, xvec, yvec, RowPrefix(|x|, i, j))
    ensures j < |x[i]| && j < |y[i]|
    ensures IsPositive(x[i][j]) && IsPositive(y[i][j]) ==>
      Extracted(x, y, xvec + [x[i][j]], yvec + [y[i][j]], RowPrefix(|x|, i, j + 1))
    ensures !(IsPositive(x[i][j]) && IsPositive(y[i][j])) ==>
      Extracted(x, y, xvec, yvec, RowPrefix(|x|, i, j + 1))
  {
    VisitStep(x, y, i, j);
    ValuesSnoc(x, Selected(x, y, RowPrefix(|x|, i, j)), (i, j));
    ValuesSnoc(y, Selected(x, y, RowPrefix(|x|, i, j)), (i, j));
  }

  /** The first pass: notempty_ctr is the number of qualifying upper pairs. */
  method CountNotEmpty(x: seq<seq<Dist>>, y: seq<seq<Dist>>) returns (notEmpty: nat)
    requires MantelArgs(x, y) && SameShape(x, y)
    ensures notEmpty == |Selected(x, y, PairList(|x|))|
  {
    var k := |x|;
    notEmpty := 0;
    var i := 0;
    while i < k
      invariant 0 <= i <= k
      invariant notEmpty == |Selected(x, y, PairsBefore(k, i))|
    {
      var j := i + 1;
      RowPrefixStart(k, i);
      while j < k
        invariant i + 1 <= j <= k
        invariant notEmpty == |Selected(x, y, RowPrefix(k, i, j))|
      {
        VisitStep(x, y, i, j);
        if IsPositive(x[i][j]) && IsPositive(y[i][j]) {
          notEmpty := notEmpty + 1;
        }
        j := j + 1;
      }
      RowPrefixEnd(k, i);
      i := i + 1;
    }
  }

  /** The second pass: xvec and yvec receive the x- and y-values of the
      qualifying upper pairs, in visiting order. */
  method ExtractNotEmpty(x: seq<seq<Dist>>, y: seq<seq<Dist>>) returns (xvec: seq<Dist>, yvec: seq<Dist>)
    requires MantelArgs(x, y) && SameShape(x, y)
    ensures xvec == Values(x, Selected(x, y, PairList(|x|)))
    ensures yvec == Values(y, Selected(x, y, PairList(|x|)))
    ensures |xvec| == |yvec| == |Selected(x, y, PairList(|x|))|
  {
    var k := |x|;
    xvec, yvec := [], [];
    var i := 0;
    while i < k
      invariant 0 <= i <= k
      invariant Extracted(x, y, xvec, yvec, PairsBefore(k, i))
    {
      var j := i + 1;
      RowPrefixStart(k, i);
      while j < k
        invariant i + 1 <= j <= k
        invariant Extracted(x, y, xvec, yvec, RowPrefix(k, i, j))
      {
        ExtractStep(x, y, xvec, yvec, i, j);
        if IsPositive(x[i][j]) && IsPositive(y[i][j]) {
          xvec := xvec + [x[i][j]];
          yvec := yvec + [y[i][j]];
        }
        j := j + 1;
      }
      RowPrefixEnd(k, i);
      i := i + 1;
    }
  }

  /** mantel_correlation as written: size guard, counting pass, extraction
      pass, correlation.  The vectors filled by the second pass have exactly
      the length the first pass counted. */
  method MantelLoop(x: seq<seq<Dist>>, y: seq<seq<Dist>>, pearson: Pearson) returns (ret: real)
    requires MantelArgs(x, y)
    ensures ret == MantelCorrelation(x, y, pearson)
  {
    ret := 0.0;
    if |x| != |y| || Cols(x) != Cols(y) {
      return;
    }
    var notEmpty := CountNotEmpty(x, y);
    var xvec, yvec := ExtractNotEmpty(x, y);
    assert |xvec| == |yvec| == notEmpty;
    ret := pearson(xvec, yvec);
  }
}
