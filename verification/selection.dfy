/** The pieces of fitness-proportional selection: vector_cumsum,
    first_index_greater_than and the maximum search of gsl_vector_max_index,
    and the roulette draw main.c builds from them. */
module Selection {
  import opened Matrix

  /** What first_index_greater_than returns for an empty vector: the
      unsigned conversion of size - 1 = -1. */
  const EmptyIndex: nat := 0xFFFF_FFFF

  /** |v[0]| + ... + |v[n-1]|: the reference for vector_cumsum. */
  function AbsPrefix(v: Vector, n: nat): real
    requires n <= |v|
  {
    if n == 0 then 0.0 else AbsPrefix(v, n - 1) + Abs(v[n - 1])
  }

  lemma {:induction false} AbsPrefixMonotone(v: Vector, m: nat, n: nat)
    requires m <= n <= |v|
    ensures 0.0 <= AbsPrefix(v, m) <= AbsPrefix(v, n)
  {
    if m < n {
      AbsPrefixMonotone(v, m, n - 1);
    } else if m > 0 {
      AbsPrefixMonotone(v, m - 1, m);
    }
  }

  /** For non-negative entries the absolute prefix is vector_sum of the prefix. */
  lemma {:induction false} AbsPrefixOfNonNegative(v: Vector, n: nat)
    requires n <= |v|
    requires forall i :: 0 <= i < |v| ==> v[i] >= 0.0
    ensures AbsPrefix(v, n) == VectorSum(v[..n])
  {
    if n > 0 {
      AbsPrefixOfNonNegative(v, n - 1);
      assert v[..n][..n - 1] == v[..n - 1];
    }
  }

  /** Entry i of vector_cumsum's result, by the loop's recurrence. */
  function CumAt(v: Vector, i: nat): real
    requires i < |v|
  {
    if i == 0 then v[0] else Abs(CumAt(v, i - 1)) + Abs(v[i])
  }

  lemma {:induction false} CumAtClosedForm(v: Vector, i: nat)
    requires 1 <= i < |v|
    ensures CumAt(v, i) == AbsPrefix(v, i + 1)
  {
    if i > 1 {
      CumAtClosedForm(v, i - 1);
      AbsPrefixMonotone(v, 0, i);
    } else {
      assert AbsPrefix(v, 1) == Abs(v[0]);
    }
  }

  /** vector_cumsum: the first entry is copied as is; every later entry is
      |previous| + |v[i]|, so from index 1 on it is the running total of
      the absolute values.  An empty vector is outside its domain (it writes
      entry 0 unconditionally). */
  function Cumsum(v: Vector): (r: Vector)
    requires |v| > 0
    ensures |r| == |v|
    ensures r[0] == v[0]
    ensures forall i {:trigger r[i]} :: 1 <= i < |v| ==> r[i] == AbsPrefix(v, i + 1)
  {
    var r := seq(|v|, i requires 0 <= i < |v| => CumAt(v, i));
    assert forall i :: 1 <= i < |v| ==> r[i] == AbsPrefix(v, i + 1) by {
      forall i | 1 <= i < |v| {
        CumAtClosedForm(v, i);
      }
    }
    r
  }

  /** The cumulative vector never decreases, whatever the signs of v. */
  lemma CumsumNonDecreasing(v: Vector, i: nat, j: nat)
    requires i <= j < |v|
    ensures Cumsum(v)[i] <= Cumsum(v)[j]
  {
    AbsPrefixMonotone(v, if i == 0 then 1 else i + 1, j + 1);
    if i == 0 {
      assert AbsPrefix(v, 1) == Abs(v[0]);
    }
  }

  /** For non-negative fitness values the cumulative vector holds the plain
      prefix sums and ends at vector_sum. */
  lemma CumsumOfNonNegative(v: Vector)
    requires |v| > 0
    requires forall i :: 0 <= i < |v| ==> v[i] >= 0.0
    ensures forall i :: 0 <= i < |v| ==> Cumsum(v)[i] == VectorSum(v[..i + 1])
    ensures Cumsum(v)[|v| - 1] == VectorSum(v)
  {
    forall i | 0 <= i < |v|
      ensures Cumsum(v)[i] == VectorSum(v[..i + 1])
    {
      AbsPrefixOfNonNegative(v, i + 1);
      if i == 0 {
        assert v[..1][..0] == [];
      }
    }
    assert v[..|v|] == v;
  }

  function FirstAbove(v: Vector, d: real, i: nat): (r: nat)
    requires 0 < |v| && i < |v|
    ensures i <= r < |v|
    ensures forall t :: i <= t < r ==> v[t] <= d
    ensures v[r] > d || r == |v| - 1
    decreases |v| - i
  {
    if v[i] > d then i
    else if i == |v| - 1 then |v| - 1
    else FirstAbove(v, d, i + 1)
  }

  /** first_index_greater_than: the first index whose entry exceeds d; if
      there is none, the last index; for an empty vector, the unsigned
      wrap-around of -1. */
  function FirstIndexGreaterThan(v: Vector, d: real): (r: nat)
    ensures |v| == 0 ==> r == EmptyIndex
    ensures |v| > 0 ==> r < |v|
    ensures |v| > 0 ==> v[r] > d || r == |v| - 1
    ensures forall t :: 0 <= t < r && t < |v| ==> v[t] <= d
  {
    if |v| == 0 then EmptyIndex else FirstAbove(v, d, 0)
  }

  /** gsl_vector_max_index: the position of the maximum, the lowest one on ties. */
  function MaxIndex(v: Vector): (r: nat)
    requires |v| > 0
    ensures r < |v|
    ensures forall t :: 0 <= t < |v| ==> v[t] <= v[r]
    ensures forall t :: 0 <= t < r ==> v[t] < v[r]
  {
    if |v| == 1 then 0
    else
      var m := MaxIndex(v[..|v| - 1]);
      if v[|v| - 1] > v[m] then |v| - 1 else m
  }

  /** The roulette draw of main.c: the draw r (a uniform variate times the
      signed total vector_sum(rho)) looked up in the cumulative vector. */
  function Roulette(rho: Vector, r: real): (i: nat)
    requires |rho| > 0
    ensures i < |rho|
  {
    FirstIndexGreaterThan(Cumsum(rho), r)
  }

  /** The draw r lies in [0, vector_sum(rho)). */
  predicate DrawInRange(rho: Vector, r: real)
  {
    0.0 <= r < VectorSum(rho)
  }

  /** A uniform variate in [0, 1) scaled by a positive total lands in [0, total). */
  lemma ScaledDraw(rho: Vector, u: real)
    requires 0.0 <= u < 1.0 && VectorSum(rho) > 0.0
    ensures DrawInRange(rho, u * VectorSum(rho))
  {
  }

  /** Draw r falls in the cumulative slot [c[i-1], c[i]) of solution i. */
  ghost predicate InSlot(c: Vector, r: real, i: nat)
    requires i < |c|
  {
    (i == 0 || c[i - 1] <= r) && r < c[i]
  }

  /** With non-negative fitness and a draw in [0, total), the draw selects
      the solution whose slot [cum[i-1], cum[i]), of width rho[i], contains
      it: selection is proportional to fitness. */
  lemma RouletteProportional(rho: Vector, r: real)
    requires |rho| > 0
    requires forall i :: 0 <= i < |rho| ==> rho[i] >= 0.0
    requires DrawInRange(rho, r)
    ensures InSlot(Cumsum(rho), r, Roulette(rho, r))
    ensures var c, i := Cumsum(rho), Roulette(rho, r);
      c[i] - (if i == 0 then 0.0 else c[i - 1]) == rho[i]
  {
    var c := Cumsum(rho);
    CumsumOfNonNegative(rho);
    var i := Roulette(rho, r);
    if i > 0 {
      assert rho[..i + 1][..i] == rho[..i];
    }
  }

  /** The same for the draw main.c makes: a uniform variate u in [0, 1)
      times the total. */
  lemma RouletteUniform(rho: Vector, u: real)
    requires |rho| > 0
    requires forall i :: 0 <= i < |rho| ==> rho[i] >= 0.0
    requires VectorSum(rho) > 0.0 && 0.0 <= u < 1.0
    ensures InSlot(Cumsum(rho), u * VectorSum(rho), Roulette(rho, u * VectorSum(rho)))
  {
    ScaledDraw(rho, u);
    RouletteProportional(rho, u * VectorSum(rho));
  }

  /** Fitness values 0.5, -0.5, 0.5: the signed total is 0.5 while the
      cumulative vector is 0.5, 1.0, 1.5, so every draw u * 0.5 with u in
      [0, 1) selects solution 0, and solution 2, as fit as solution 0, is
      never selected. */
  lemma RouletteMixedSigns(u: real)
    requires 0.0 <= u < 1.0
    ensures VectorSum([0.5, -0.5, 0.5]) == 0.5
    ensures Roulette([0.5, -0.5, 0.5], u * 0.5) == 0
  {
    var rho := [0.5, -0.5, 0.5];
    assert rho[..2] == [0.5, -0.5];
    assert rho[..2][..1] == [0.5];
    assert [0.5][..0] == [];
    assert rho[..3] == rho;
    assert Cumsum(rho)[0] == 0.5;
  }
}
