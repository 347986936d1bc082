/** The canonical enumeration of unordered node pairs (i, j), i < j < K, in
    row-major order: i ascending, then j ascending.  Both the asymmetry
    mapping and the Mantel extraction walk the strict upper triangle in this
    order, and a solution vector holds one gene per pair. */
module Pairs {

  /** Number of unordered pairs of k nodes: node k-1 pairs with the k-1 before it. */
  function NumPairs(k: nat): nat
  {
    if k == 0 then 0 else NumPairs(k - 1) + (k - 1)
  }

  /** The count agrees with the formula k(k-1)/2 init_solutions_matrix uses. */
  lemma {:induction false} NumPairsClosedForm(k: nat)
    ensures 2 * NumPairs(k) == k * (k - 1)
    ensures NumPairs(k) == k * (k - 1) / 2
  {
    if k > 0 {
      NumPairsClosedForm(k - 1);
    }
  }

  /** Number of pairs that come before row i: rows 0 .. i-1, where row r holds k-1-r pairs. */
  function RowStart(k: nat, i: nat): nat
    requires i <= k
  {
    if i == 0 then 0 else RowStart(k, i - 1) + (k - i)
  }

  /** The slot of pair (i, j): how many pairs precede it in row-major order. */
  function PairIndex(k: nat, i: nat, j: nat): nat
    requires i < j < k
  {
    RowStart(k, i) + (j - i - 1)
  }

  lemma {:induction false} RowStartClosedForm(k: nat, i: nat)
    requires i <= k
    ensures 2 * RowStart(k, i) == i * (2 * k - i - 1)
  {
    if i > 0 {
      RowStartClosedForm(k, i - 1);
    }
  }

  /** All k rows together hold exactly k(k-1)/2 pairs. */
  lemma RowStartTotal(k: nat)
    ensures RowStart(k, k) == NumPairs(k)
  {
    RowStartClosedForm(k, k);
    NumPairsClosedForm(k);
  }

  lemma {:induction false} RowStartMonotone(k: nat, a: nat, b: nat)
    requires a <= b <= k
    ensures RowStart(k, a) <= RowStart(k, b)
  {
    if a < b {
      RowStartMonotone(k, a, b - 1);
    }
  }

  /** Pair slots lie in [0, NumPairs(k)). */
  lemma PairIndexBounds(k: nat, i: nat, j: nat)
    requires i < j < k
    ensures PairIndex(k, i, j) < NumPairs(k)
  {
    RowStartMonotone(k, i + 1, k);
    RowStartTotal(k);
  }

  /** Pair slots strictly increase in row-major order. */
  lemma PairIndexOrdered(k: nat, i: nat, j: nat, i': nat, j': nat)
    requires i < j < k && i' < j' < k
    requires i < i' || (i == i' && j < j')
    ensures PairIndex(k, i, j) < PairIndex(k, i', j')
  {
    if i < i' {
      RowStartMonotone(k, i + 1, i');
    }
  }

  /** The pairs of row i, in order. */
  function RowPairs(k: nat, i: nat): (r: seq<(nat, nat)>)
    requires i < k
    ensures |r| == k - 1 - i
  {
    seq(k - 1 - i, t requires 0 <= t < k - 1 - i => (i, i + 1 + t))
  }

  /** The pairs of rows 0 .. i-1, in order. */
  function PairsBefore(k: nat, i: nat): seq<(nat, nat)>
    requires i <= k
  {
    if i == 0 then [] else PairsBefore(k, i - 1) + RowPairs(k, i - 1)
  }

  function PairList(k: nat): seq<(nat, nat)>
  {
    PairsBefore(k, k)
  }

  lemma {:induction false} PairsBeforeShape(k: nat, i: nat)
    requires i <= k
    ensures |PairsBefore(k, i)| == RowStart(k, i)
    ensures forall t :: 0 <= t < |PairsBefore(k, i)| ==>
      PairsBefore(k, i)[t].0 < i && PairsBefore(k, i)[t].0 < PairsBefore(k, i)[t].1 < k
    ensures forall a: nat, b: nat :: a < b < k && a < i ==>
      PairIndex(k, a, b) < |PairsBefore(k, i)| && PairsBefore(k, i)[PairIndex(k, a, b)] == (a, b)
  {
    if i > 0 {
      PairsBeforeShape(k, i - 1);
      RowStartMonotone(k, i, k);
      forall a: nat, b: nat | a < b < k && a < i
        ensures PairIndex(k, a, b) < |PairsBefore(k, i)| && PairsBefore(k, i)[PairIndex(k, a, b)] == (a, b)
      {
        if a + 1 < i {
          RowStartMonotone(k, a + 1, i - 1);
        }
      }
    }
  }

  /** The enumeration has NumPairs(k) entries, each a pair i < j < k, and the
      pair (i, j) sits at slot PairIndex(k, i, j): the two definitions of
      the canonical order agree. */
  lemma PairListShape(k: nat)
    ensures |PairList(k)| == NumPairs(k)
    ensures forall t :: 0 <= t < |PairList(k)| ==> PairList(k)[t].0 < PairList(k)[t].1 < k
    ensures forall a: nat, b: nat :: a < b < k ==>
      PairIndex(k, a, b) < |PairList(k)| && PairList(k)[PairIndex(k, a, b)] == (a, b)
  {
    PairsBeforeShape(k, k);
    RowStartTotal(k);
  }

  /** Every slot holds the pair whose index it is, so the enumeration is
      strictly increasing in row-major order. */
  lemma PairListIndexed(k: nat, t: nat)
    requires t < NumPairs(k)
    ensures t < |PairList(k)|
    ensures PairList(k)[t].0 < PairList(k)[t].1 < k
    ensures PairIndex(k, PairList(k)[t].0, PairList(k)[t].1) == t
  {
    PairListShape(k);
    var p := PairList(k)[t];
    PairIndexBounds(k, p.0, p.1);
    PairListInjectiveIndex(k, t, PairIndex(k, p.0, p.1));
  }

  /** The enumeration lists no pair twice: equal entries sit at the same slot. */
  lemma PairListInjectiveIndex(k: nat, t: nat, u: nat)
    requires t < NumPairs(k) && u < NumPairs(k)
    ensures |PairList(k)| == NumPairs(k)
    ensures PairList(k)[t] == PairList(k)[u] ==> t == u
  {
    PairListShape(k);
    PairsBeforeDistinct(k, k);
  }

  lemma {:induction false} PairsBeforeDistinct(k: nat, i: nat)
    requires i <= k
    ensures forall t, u :: 0 <= t < u < |PairsBefore(k, i)| ==> PairsBefore(k, i)[t] != PairsBefore(k, i)[u]
  {
    if i > 0 {
      PairsBeforeDistinct(k, i - 1);
      PairsBeforeShape(k, i - 1);
    }
  }
}
