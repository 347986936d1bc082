/** Extended non-negative distances: a finite real or the +infinity that
    shortest_paths writes for unreachable pairs. */
module Distances {
  import opened Matrix

  datatype Dist = Fin(value: real) | Inf

  /** Path concatenation: infinite as soon as one leg is. */
  function DAdd(a: Dist, b: Dist): (r: Dist)
    ensures r.Inf? <==> a.Inf? || b.Inf?
    ensures r.Fin? ==> r.value == a.value + b.value
  {
    if a.Inf? || b.Inf? then Inf else Fin(a.value + b.value)
  }

  /** The shorter of two distances. */
  function DMin(a: Dist, b: Dist): (r: Dist)
    ensures r == a || r == b
    ensures r.Inf? <==> a.Inf? && b.Inf?
    ensures r.Fin? ==> (a.Fin? ==> r.value <= a.value) && (b.Fin? ==> r.value <= b.value)
  {
    if a.Inf? then b
    else if b.Inf? then a
    else if a.value <= b.value then a
    else b
  }

  /** The `> 0` test of the C code applied to a double that may be +infinity. */
  predicate IsPositive(d: Dist)
  {
    d.Inf? || d.value > 0.0
  }

  /** A real matrix read as a matrix of (finite) doubles. */
  function Lift(m: Mat): (r: seq<seq<Dist>>)
    ensures |r| == |m|
    ensures forall i :: 0 <= i < |m| ==> |r[i]| == |m[i]|
    ensures forall i, j :: 0 <= i < |m| && 0 <= j < |m[i]| ==> r[i][j] == Fin(m[i][j])
  {
    seq(|m|, i requires 0 <= i < |m| => seq(|m[i]|, j requires 0 <= j < |m[i]| => Fin(m[i][j])))
  }
}
