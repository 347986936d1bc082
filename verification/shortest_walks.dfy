/** What shortest_paths means: on a symmetric, non-negative weight matrix
    with a positive total, every finite result is the length of a shortest
    walk along positive edges, and +infinity marks exactly the pairs that no
    walk connects.  The proof goes through the textbook Floyd-Warshall
    recurrence over extended distances (Ref), which knows nothing of the
    gMax sentinel. */
module ShortestWalks {
  import opened Matrix
  import opened Distances
  import opened ShortestPaths

  ghost predicate InRange(A: Mat, w: seq<nat>)
  {
    forall t :: 0 <= t < |w| ==> w[t] < |A|
  }

  /** Every step of w follows a positive off-diagonal weight of A, i.e. an
      edge shortest_paths initialises with its weight. */
  ghost predicate Steps(A: Mat, w: seq<nat>)
    requires IsSquare(A) && InRange(A, w)
  {
    forall t :: 0 <= t < |w| - 1 ==> w[t] != w[t + 1] && A[w[t]][w[t + 1]] > 0.0
  }

  /** w is a walk from i to j along edges of A. */
  ghost predicate IsWalk(A: Mat, w: seq<nat>, i: nat, j: nat)
    requires IsSquare(A)
  {
    |w| >= 1 && w[0] == i && w[|w| - 1] == j && InRange(A, w) && Steps(A, w)
  }

  /** All nodes strictly inside the walk are below k. */
  ghost predicate InteriorBelow(w: seq<nat>, k: nat)
  {
    forall t :: 0 < t < |w| - 1 ==> w[t] < k
  }

  ghost predicate Distinct(w: seq<nat>)
  {
    forall a, b :: 0 <= a < b < |w| ==> w[a] != w[b]
  }

  /** Total weight of the steps of w. */
  ghost function Len(A: Mat, w: seq<nat>): real
    requires IsSquare(A) && InRange(A, w)
    decreases |w|
  {
    if |w| <= 1 then 0.0 else A[w[0]][w[1]] + Len(A, w[1..])
  }

  /** Extended-distance Floyd-Warshall: the shortest distance from i to j
      using only intermediate nodes below k. */
  function Ref(A: Mat, k: nat, i: nat, j: nat): Dist
    requires IsSquare(A) && k <= |A| && i < |A| && j < |A|
  {
    if k == 0 then
      (if i == j then Fin(0.0) else if A[i][j] > 0.0 then Fin(A[i][j]) else Inf)
    else
      DMin(Ref(A, k - 1, i, j), DAdd(Ref(A, k - 1, i, k - 1), Ref(A, k - 1, k - 1, j)))
  }

  /** A distance written with the sentinel g standing for +infinity. */
  function Encode(d: Dist, g: real): real
  {
    if d.Inf? then g else d.value
  }

  // ---------------------------------------------------------------------
  // Walk algebra

  lemma LenSplit(A: Mat, w: seq<nat>, m: nat)
    requires IsSquare(A) && InRange(A, w) && m < |w|
    ensures Len(A, w) == Len(A, w[..m + 1]) + Len(A, w[m..])
  {
    assert w[..m + 1] + w[m..][1..] == w;
    ConcatLen(A, w[..m + 1], w[m..]);
  }

  lemma {:induction false} LenNonNegative(A: Mat, w: seq<nat>)
    requires IsSquare(A) && NonNegative(A) && InRange(A, w)
    ensures Len(A, w) >= 0.0
  {
    if |w| > 1 {
      LenNonNegative(A, w[1..]);
    }
  }

  /** Two weight matrices that agree on every step of w give it the same length. */
  lemma {:induction false} LenAgree(A: Mat, B: Mat, w: seq<nat>)
    requires IsSquare(A) && IsSquare(B) && |A| == |B| && InRange(A, w)
    requires forall t :: 0 <= t < |w| - 1 ==> A[w[t]][w[t + 1]] == B[w[t]][w[t + 1]]
    ensures Len(A, w) == Len(B, w)
  {
    if |w| > 1 {
      LenAgree(A, B, w[1..]);
    }
  }

  lemma SubWalk(A: Mat, w: seq<nat>, i: nat, j: nat, a: nat, b: nat, k: nat)
    requires IsSquare(A) && IsWalk(A, w, i, j) && a <= b < |w|
    ensures IsWalk(A, w[a..b + 1], w[a], w[b])
    ensures InteriorBelow(w, k) ==> InteriorBelow(w[a..b + 1], k)
  {
  }

  /** Joining a walk i..m to a walk m..j. */
  lemma Concat(A: Mat, u: seq<nat>, v: seq<nat>, i: nat, m: nat, j: nat, k: nat)
    requires IsSquare(A) && IsWalk(A, u, i, m) && IsWalk(A, v, m, j)
    ensures IsWalk(A, u + v[1..], i, j)
    ensures Len(A, u + v[1..]) == Len(A, u) + Len(A, v)
    ensures InteriorBelow(u, k) && InteriorBelow(v, k) && (|u| == 1 || |v| == 1 || m < k) ==>
      InteriorBelow(u + v[1..], k)
  {
    ConcatIndex(u, v);
    ConcatWalk(A, u, v, i, m, j);
    ConcatLen(A, u, v);
  }

  lemma ConcatWalk(A: Mat, u: seq<nat>, v: seq<nat>, i: nat, m: nat, j: nat)
    requires IsSquare(A) && IsWalk(A, u, i, m) && IsWalk(A, v, m, j)
    ensures IsWalk(A, u + v[1..], i, j)
  {
    var c := u + v[1..];
    ConcatIndex(u, v);
    forall t | 0 <= t < |c| - 1
      ensures c[t] != c[t + 1] && A[c[t]][c[t + 1]] > 0.0
    {
      if t < |u| - 1 {
        assert c[t] == u[t] && c[t + 1] == u[t + 1];
      } else {
        assert c[t] == v[t - |u| + 1] && c[t + 1] == v[t - |u| + 2];
      }
    }
  }

  lemma {:induction false} ConcatLen(A: Mat, u: seq<nat>, v: seq<nat>)
    requires IsSquare(A) && InRange(A, u) && InRange(A, v) && |u| >= 1 && |v| >= 1 && u[|u| - 1] == v[0]
    ensures InRange(A, u + v[1..])
    ensures Len(A, u + v[1..]) == Len(A, u) + Len(A, v)
  {
    var c := u + v[1..];
    ConcatIndex(u, v);
    if |u| == 1 {
      assert c == v;
    } else {
      assert c[1..] == u[1..] + v[1..];
      ConcatLen(A, u[1..], v);
    }
  }

  lemma ConcatIndex(u: seq<nat>, v: seq<nat>)
    requires |u| >= 1 && |v| >= 1 && u[|u| - 1] == v[0]
    ensures forall t :: 0 <= t < |u + v[1..]| ==>
      (u + v[1..])[t] == if t < |u| then u[t] else v[t - |u| + 1]
  {
  }

  /** The first interior position of w holding node m. */
  lemma FirstInterior(w: seq<nat>, m: nat) returns (p: nat)
    requires exists t :: 0 < t < |w| - 1 && w[t] == m
    ensures 0 < p < |w| - 1 && w[p] == m
    ensures forall t :: 0 < t < p ==> w[t] != m
  {
    var t0 :| 0 < t0 < |w| - 1 && w[t0] == m;
    p := 1;
    while w[p] != m
      invariant 1 <= p <= t0
      invariant forall t :: 0 < t < p ==> w[t] != m
      decreases t0 - p
    {
      p := p + 1;
    }
  }

  // ---------------------------------------------------------------------
  // Ref is realised by a walk and is a lower bound on every walk

  /** Every finite Ref distance is the length of a walk whose interior stays below k. */
  lemma {:induction false} RefSound(A: Mat, k: nat, i: nat, j: nat) returns (w: seq<nat>)
    requires IsSquare(A) && k <= |A| && i < |A| && j < |A|
    requires Ref(A, k, i, j).Fin?
    ensures IsWalk(A, w, i, j) && InteriorBelow(w, k)
    ensures Len(A, w) == Ref(A, k, i, j).value
  {
    if k == 0 {
      if i == j {
        w := [i];
      } else {
        w := [j];
        assert Len(A, w) == 0.0;
        w := [i] + w;
      }
    } else {
      var m := k - 1;
      if Ref(A, k, i, j) == Ref(A, m, i, j) {
        w := RefSound(A, m, i, j);
      } else {
        var u := RefSound(A, m, i, m);
        var v := RefSound(A, m, m, j);
        Concat(A, u, v, i, m, j, k);
        w := u + v[1..];
      }
    }
  }

  /** Ref through k is no longer than any walk whose interior stays below k. */
  lemma {:induction false} RefOptimal(A: Mat, k: nat, i: nat, j: nat, w: seq<nat>)
    requires IsSquare(A) && NonNegative(A) && k <= |A| && i < |A| && j < |A|
    requires IsWalk(A, w, i, j) && InteriorBelow(w, k)
    ensures Ref(A, k, i, j).Fin? && Ref(A, k, i, j).value <= Len(A, w)
    decreases k, |w|
  {
    if k == 0 {
      if |w| > 1 {
        assert |w| == 2;
        assert w[1..] == [j];
      }
    } else {
      var m := k - 1;
      if forall t :: 0 < t < |w| - 1 ==> w[t] != m {
        RefOptimal(A, m, i, j, w);
      } else {
        var p := FirstInterior(w, m);
        SplitAtPivot(A, w, i, j, m, p);
        RefOptimal(A, m, i, m, w[..p + 1]);
        RefOptimalFromPivot(A, m, j, w[p..]);
        assert Ref(A, k, i, j) == DMin(Ref(A, m, i, j), DAdd(Ref(A, m, i, m), Ref(A, m, m, j)));
      }
    }
  }

  /** Splitting a walk at its first interior visit p of node m gives a walk
      to m avoiding m inside, and a walk from m. */
  lemma SplitAtPivot(A: Mat, w: seq<nat>, i: nat, j: nat, m: nat, p: nat)
    requires IsSquare(A) && IsWalk(A, w, i, j) && InteriorBelow(w, m + 1)
    requires 0 < p < |w| - 1 && w[p] == m && forall t :: 0 < t < p ==> w[t] != m
    ensures IsWalk(A, w[..p + 1], i, m) && InteriorBelow(w[..p + 1], m)
    ensures IsWalk(A, w[p..], m, j) && InteriorBelow(w[p..], m + 1)
    ensures |w[p..]| < |w|
    ensures Len(A, w) == Len(A, w[..p + 1]) + Len(A, w[p..])
  {
    SubWalk(A, w, i, j, 0, p, m + 1);
    SubWalk(A, w, i, j, p, |w| - 1, m + 1);
    assert w[0..p + 1] == w[..p + 1];
    assert w[p..|w|] == w[p..];
    LenSplit(A, w, p);
  }

  /** The pivot case: a walk leaving node m, whose interior stays below m+1, is
      no shorter than Ref through m from m. */
  lemma {:induction false} RefOptimalFromPivot(A: Mat, m: nat, j: nat, s: seq<nat>)
    requires IsSquare(A) && NonNegative(A) && m < |A| && j < |A|
    requires IsWalk(A, s, m, j) && InteriorBelow(s, m + 1)
    ensures Ref(A, m, m, j).Fin? && Ref(A, m, m, j).value <= Len(A, s)
    decreases m + 1, |s|
  {
    if forall t :: 0 < t < |s| - 1 ==> s[t] != m {
      RefOptimal(A, m, m, j, s);
    } else {
      var p := FirstInterior(s, m);
      SplitAtPivot(A, s, m, j, m, p);
      RefOptimalFromPivot(A, m, j, s[p..]);
      LenNonNegative(A, s[..p + 1]);
    }
  }

  // ---------------------------------------------------------------------
  // Finite Ref distances lie below the sentinel

  /** Removing the closed sub-walk between two visits of the same node. */
  lemma CutCycle(A: Mat, w: seq<nat>, i: nat, j: nat, k: nat, p: nat, q: nat)
    returns (w': seq<nat>)
    requires IsSquare(A) && NonNegative(A) && IsWalk(A, w, i, j) && InteriorBelow(w, k)
    requires p < q < |w| && w[p] == w[q]
    ensures IsWalk(A, w', i, j) && InteriorBelow(w', k)
    ensures |w'| < |w| && Len(A, w') <= Len(A, w)
  {
    var u := w[..p + 1];
    var v := w[q..];
    SubWalk(A, w, i, j, 0, p, k);
    SubWalk(A, w, i, j, q, |w| - 1, k);
    assert w[0..p + 1] == u;
    assert w[q..|w|] == v;
    Concat(A, u, v, i, w[p], j, k);
    w' := u + v[1..];
    CutCycleLen(A, w, p, q);
  }

  lemma CutCycleLen(A: Mat, w: seq<nat>, p: nat, q: nat)
    requires IsSquare(A) && NonNegative(A) && InRange(A, w)
    requires p < q < |w| && w[p] == w[q]
    ensures InRange(A, w[..p + 1] + w[q..][1..])
    ensures Len(A, w[..p + 1] + w[q..][1..]) <= Len(A, w)
  {
    var u, tail, mid, v := w[..p + 1], w[p..], w[p..q + 1], w[q..];
    assert InRange(A, u) && InRange(A, tail) && Len(A, w) == Len(A, u) + Len(A, tail) by {
      SplitLen(A, w, p);
    }
    assert InRange(A, mid) && InRange(A, v) && Len(A, tail) == Len(A, mid) + Len(A, v) by {
      SplitLen(A, tail, q - p);
      assert tail[..q - p + 1] == mid;
      assert tail[q - p..] == v;
    }
    assert Len(A, mid) >= 0.0 by {
      LenNonNegative(A, mid);
    }
    ConcatLen(A, u, v);
  }

  /** Len splits at any visited position. */
  lemma SplitLen(A: Mat, w: seq<nat>, p: nat)
    requires IsSquare(A) && InRange(A, w) && p < |w|
    ensures InRange(A, w[..p + 1]) && InRange(A, w[p..])
    ensures Len(A, w) == Len(A, w[..p + 1]) + Len(A, w[p..])
  {
    SliceInRange(A, w, 0, p + 1);
    SliceInRange(A, w, p, |w|);
    assert w[..p + 1] + w[p..][1..] == w;
    ConcatLen(A, w[..p + 1], w[p..]);
  }

  lemma SliceInRange(A: Mat, w: seq<nat>, a: nat, b: nat)
    requires InRange(A, w) && a <= b <= |w|
    ensures InRange(A, w[a..b])
  {
    forall t | 0 <= t < b - a
      ensures w[a..b][t] < |A|
    {
      assert w[a..b][t] == w[a + t];
    }
  }

  /** Cutting out cycles: every walk has a repetition-free sub-walk with the
      same ends, no more interior, and no greater length. */
  lemma {:induction false} Shortcut(A: Mat, w: seq<nat>, i: nat, j: nat, k: nat) returns (s: seq<nat>)
    requires IsSquare(A) && NonNegative(A) && IsWalk(A, w, i, j) && InteriorBelow(w, k)
    ensures IsWalk(A, s, i, j) && InteriorBelow(s, k) && Distinct(s)
    ensures Len(A, s) <= Len(A, w)
    decreases |w|
  {
    if Distinct(w) {
      s := w;
    } else {
      var p, q :| 0 <= p < q < |w| && w[p] == w[q];
      var w' := CutCycle(A, w, i, j, k, p, q);
      s := Shortcut(A, w', i, j, k);
    }
  }

  /** A repetition-free walk crosses each undirected edge at most once, and a
      symmetric matrix counts every edge twice in its sum. */
  lemma {:induction false} SimpleWalkBound(A: Mat, s: seq<nat>)
    requires IsSquare(A) && Symmetric(A) && NonNegative(A) && InRange(A, s) && Distinct(s)
    ensures 2.0 * Len(A, s) <= MatrixSum(A)
    decreases |s|
  {
    if |s| <= 1 {
      MatrixSumNonNegative(A);
    } else {
      var a, b := s[0], s[1];
      var A2 := DropEdge(A, a, b);
      var rest := s[1..];
      forall t | 0 <= t < |rest| - 1
        ensures A[rest[t]][rest[t + 1]] == A2[rest[t]][rest[t + 1]]
      {
        assert rest[t] == s[t + 1] && rest[t + 1] == s[t + 2];
      }
      LenAgree(A, A2, rest);
      SimpleWalkBound(A2, rest);
    }
  }

  /** A with the undirected edge {a, b} removed: still symmetric and
      non-negative, and lighter by twice the edge's weight. */
  lemma DropEdge(A: Mat, a: nat, b: nat) returns (A2: Mat)
    requires IsSquare(A) && Symmetric(A) && NonNegative(A) && a < |A| && b < |A| && a != b
    ensures IsSquare(A2) && |A2| == |A| && Symmetric(A2) && NonNegative(A2)
    ensures MatrixSum(A2) == MatrixSum(A) - 2.0 * A[a][b]
    ensures forall x, y :: 0 <= x < |A| && 0 <= y < |A| && x != a && x != b ==> A2[x][y] == A[x][y]
    ensures forall y :: 0 <= y < |A| && y != b ==> A2[a][y] == A[a][y]
    ensures forall y :: 0 <= y < |A| && y != a ==> A2[b][y] == A[b][y]
  {
    var A1 := A[a := A[a][b := 0.0]];
    A2 := A1[b := A1[b][a := 0.0]];
    MatrixSumZeroCell(A, a, b);
    MatrixSumZeroCell(A1, b, a);
    assert forall x, y :: 0 <= x < |A| && 0 <= y < |A| ==>
      A2[x][y] == (if (x == a && y == b) || (x == b && y == a) then 0.0 else A[x][y]);
  }

  lemma RefNonNegative(A: Mat, k: nat, i: nat, j: nat)
    requires IsSquare(A) && NonNegative(A) && k <= |A| && i < |A| && j < |A|
    ensures Ref(A, k, i, j).Fin? ==> Ref(A, k, i, j).value >= 0.0
  {
    if Ref(A, k, i, j).Fin? {
      var w := RefSound(A, k, i, j);
      LenNonNegative(A, w);
    }
  }

  /** On a symmetric non-negative matrix with positive total, every finite
      Ref distance is strictly below that total. */
  lemma RefBelowSentinel(A: Mat, k: nat, i: nat, j: nat)
    requires IsSquare(A) && Symmetric(A) && NonNegative(A) && MatrixSum(A) > 0.0
    requires k <= |A| && i < |A| && j < |A|
    ensures Ref(A, k, i, j).Fin? ==> Ref(A, k, i, j).value < MatrixSum(A)
  {
    if Ref(A, k, i, j).Fin? {
      var w := RefSound(A, k, i, j);
      var s := Shortcut(A, w, i, j, k);
      RefOptimal(A, k, i, j, s);
      SimpleWalkBound(A, s);
      if |s| > 1 {
        LenNonNegative(A, s[1..]);
      }
    }
  }

  // ---------------------------------------------------------------------
  // The sentinel computation agrees with Ref

  /** One relaxation on sentinel-encoded distances is DMin/DAdd on the
      distances themselves, provided every finite value involved is below
      the sentinel and the legs are non-negative. */
  lemma EncodeRelax(c: Dist, a: Dist, b: Dist, g: real)
    requires g > 0.0
    requires c.Fin? ==> c.value < g
    requires a.Fin? ==> 0.0 <= a.value < g
    requires b.Fin? ==> 0.0 <= b.value < g
    requires DMin(c, DAdd(a, b)).Fin? ==> DMin(c, DAdd(a, b)).value < g
    ensures RelaxCell(Encode(c, g), Encode(a, g) + Encode(b, g), g) == Encode(DMin(c, DAdd(a, b)), g)
  {
  }

  /** The hypotheses of EncodeRelax, for the cells one round of relaxation reads. */
  lemma RefStepFacts(A: Mat, k: nat, i: nat, j: nat)
    requires IsSquare(A) && Symmetric(A) && NonNegative(A) && MatrixSum(A) > 0.0
    requires k < |A| && i < |A| && j < |A|
    ensures Ref(A, k, i, j).Fin? ==> Ref(A, k, i, j).value < MatrixSum(A)
    ensures Ref(A, k, i, k).Fin? ==> 0.0 <= Ref(A, k, i, k).value < MatrixSum(A)
    ensures Ref(A, k, k, j).Fin? ==> 0.0 <= Ref(A, k, k, j).value < MatrixSum(A)
    ensures Ref(A, k + 1, i, j) == DMin(Ref(A, k, i, j), DAdd(Ref(A, k, i, k), Ref(A, k, k, j)))
    ensures Ref(A, k + 1, i, j).Fin? ==> Ref(A, k + 1, i, j).value < MatrixSum(A)
  {
    RefBelowSentinel(A, k, i, j);
    RefBelowSentinel(A, k, i, k);
    RefBelowSentinel(A, k, k, j);
    RefBelowSentinel(A, k + 1, i, j);
    RefNonNegative(A, k, i, k);
    RefNonNegative(A, k, k, j);
  }

  lemma LayerRefCell(A: Mat, k: nat, i: nat, j: nat)
    requires IsSquare(A) && Symmetric(A) && NonNegative(A) && MatrixSum(A) > 0.0
    requires k < |A| && i < |A| && j < |A|
    requires Layer(A, MatrixSum(A), k)[i][j] == Encode(Ref(A, k, i, j), MatrixSum(A))
    requires Layer(A, MatrixSum(A), k)[i][k] == Encode(Ref(A, k, i, k), MatrixSum(A))
    requires Layer(A, MatrixSum(A), k)[k][j] == Encode(Ref(A, k, k, j), MatrixSum(A))
    ensures Layer(A, MatrixSum(A), k + 1)[i][j] == Encode(Ref(A, k + 1, i, j), MatrixSum(A))
  {
    var g := MatrixSum(A);
    LayerStep(A, g, k, i, j);
    RefStepFacts(A, k, i, j);
    EncodeRelax(Ref(A, k, i, j), Ref(A, k, i, k), Ref(A, k, k, j), g);
  }

  /** Round k of the sentinel relaxation holds exactly Ref through k, with
      gMax standing for +infinity. */
  lemma {:induction false} LayerMatchesRef(A: Mat, k: nat)
    requires IsSquare(A) && Symmetric(A) && NonNegative(A) && MatrixSum(A) > 0.0
    requires k <= |A|
    ensures forall a, b :: 0 <= a < |A| && 0 <= b < |A| ==>
      Layer(A, MatrixSum(A), k)[a][b] == Encode(Ref(A, k, a, b), MatrixSum(A))
  {
    if k == 0 {
      forall a, b | 0 <= a < |A| && 0 <= b < |A|
        ensures Layer(A, MatrixSum(A), 0)[a][b] == Encode(Ref(A, 0, a, b), MatrixSum(A))
      {
        RefBelowSentinel(A, 0, a, b);
      }
    } else {
      LayerMatchesRef(A, k - 1);
      forall a, b | 0 <= a < |A| && 0 <= b < |A|
        ensures Layer(A, MatrixSum(A), k)[a][b] == Encode(Ref(A, k, a, b), MatrixSum(A))
      {
        LayerRefCell(A, k - 1, a, b);
      }
    }
  }

  lemma FloydWarshallIsRef(A: Mat)
    requires IsSquare(A) && Symmetric(A) && NonNegative(A) && MatrixSum(A) > 0.0
    ensures forall i, j :: 0 <= i < |A| && 0 <= j < |A| ==> FloydWarshall(A)[i][j] == Ref(A, |A|, i, j)
  {
    LayerMatchesRef(A, |A|);
    forall i, j | 0 <= i < |A| && 0 <= j < |A|
      ensures FloydWarshall(A)[i][j] == Ref(A, |A|, i, j)
    {
      RefBelowSentinel(A, |A|, i, j);
    }
  }

  lemma RefDiagonalZero(A: Mat, k: nat, i: nat)
    requires IsSquare(A) && NonNegative(A) && k <= |A| && i < |A|
    ensures Ref(A, k, i, i) == Fin(0.0)
  {
    assert IsWalk(A, [i], i, i);
    RefOptimal(A, k, i, i, [i]);
    RefNonNegative(A, k, i, i);
  }

  /** shortest_paths on a non-negative matrix with a positive total, directed
      or not, keeps the diagonal at 0. */
  lemma ShortestPathsDiagonalZero(A: Mat, i: nat)
    requires IsSquare(A) && NonNegative(A) && MatrixSum(A) > 0.0
    requires i < |A|
    ensures FloydWarshall(A)[i][i] == Fin(0.0)
  {
    LayerNonNegative(A, |A|);
  }

  /** On the same matrices, no walk along positive edges is shorter than the
      reported distance; in particular +infinity means no walk at all. */
  lemma ShortestPathsAreLowerBounds(A: Mat, i: nat, j: nat, w: seq<nat>)
    requires IsSquare(A) && Symmetric(A) && NonNegative(A) && MatrixSum(A) > 0.0
    requires i < |A| && j < |A| && IsWalk(A, w, i, j)
    ensures FloydWarshall(A)[i][j].Fin? && FloydWarshall(A)[i][j].value <= Len(A, w)
  {
    FloydWarshallIsRef(A);
    RefOptimal(A, |A|, i, j, w);
  }

  /** On the same matrices, every finite distance is the length of some walk. */
  lemma ShortestPathsAreAttained(A: Mat, i: nat, j: nat) returns (w: seq<nat>)
    requires IsSquare(A) && Symmetric(A) && NonNegative(A) && MatrixSum(A) > 0.0
    requires i < |A| && j < |A| && FloydWarshall(A)[i][j].Fin?
    ensures IsWalk(A, w, i, j) && Len(A, w) == FloydWarshall(A)[i][j].value
  {
    FloydWarshallIsRef(A);
    w := RefSound(A, |A|, i, j);
  }
}
