/** evaluate_fitness: the fitness of a solution is the Mantel correlation of
    the external matrix with the directed graph that solution induces. */
module Fitness {
  import opened Matrix
  import opened Distances
  import opened Pairs
  import opened Asymmetry
  import opened Mantel

  /** A solutions matrix for a K-node graph: one row of K(K-1)/2 genes per solution. */
  predicate Solutions(pop: Mat, k: nat)
  {
    forall i :: 0 <= i < |pop| ==> |pop[i]| == NumPairs(k)
  }

  lemma LiftRect(m: Mat)
    requires IsRect(m)
    ensures IsRect(Lift(m)) && Cols(Lift(m)) == Cols(m)
  {
  }

  /** The Mantel correlation of the external matrix with the directed graph of p. */
  function SolutionFitness(external: Mat, graph: Mat, p: Vector, pearson: Pearson): (r: real)
    requires IsSquare(graph) && IsRect(external) && |p| >= NumPairs(|graph|)
    ensures !SameShape(external, graph) ==> r == 0.0
  {
    LiftRect(external);
    MantelCorrelation(Lift(external), Lift(ApplyAsymmetry(graph, p)), pearson)
  }

  /** evaluate_fitness: one correlation per solution row, the row alone
      deciding its value. */
  function EvaluateFitness(pop: Mat, external: Mat, graph: Mat, pearson: Pearson): (r: Vector)
    requires IsSquare(graph) && IsRect(external) && Solutions(pop, |graph|)
    ensures |r| == |pop|
    ensures forall i :: 0 <= i < |pop| ==> r[i] == SolutionFitness(external, graph, pop[i], pearson)
  {
    seq(|pop|, i requires 0 <= i < |pop| => SolutionFitness(external, graph, pop[i], pearson))
  }

  /** Equal rows score equally, wherever they sit in whichever population. */
  lemma FitnessRowwise(pop: Mat, pop': Mat, external: Mat, graph: Mat, pearson: Pearson, i: nat, i': nat)
    requires IsSquare(graph) && IsRect(external)
    requires Solutions(pop, |graph|) && Solutions(pop', |graph|)
    requires i < |pop| && i' < |pop'| && pop[i] == pop'[i']
    ensures EvaluateFitness(pop, external, graph, pearson)[i] == EvaluateFitness(pop', external, graph, pearson)[i']
  {
  }

  /** An external matrix whose shape differs from the graph's scores every
      solution 0. */
  lemma FitnessShapeMismatch(pop: Mat, external: Mat, graph: Mat, pearson: Pearson)
    requires IsSquare(graph) && IsRect(external) && Solutions(pop, |graph|)
    requires |external| != |graph| || Cols(external) != |graph|
    ensures forall i :: 0 <= i < |pop| ==> EvaluateFitness(pop, external, graph, pearson)[i] == 0.0
  {
  }

  /** A solution whose genes are all 0.5, like the initial best vector,
      scores the undirected graph itself when its weights are non-negative. */
  lemma HalfSolutionScoresGraph(external: Mat, graph: Mat, p: Vector, pearson: Pearson)
    requires IsSquare(graph) && NonNegative(graph) && IsRect(external)
    requires |p| == NumPairs(|graph|) && forall t :: 0 <= t < |p| ==> p[t] == 0.5
    ensures IsRect(Lift(external)) && IsRect(Lift(graph))
    ensures MantelArgs(Lift(external), Lift(graph))
    ensures SolutionFitness(external, graph, p, pearson) == MantelCorrelation(Lift(external), Lift(graph), pearson)
  {
    var n := |graph|;
    var d := ApplyAsymmetry(graph, p);
    LiftRect(external);
    LiftRect(graph);
    LiftRect(d);
    if SameShape(Lift(external), Lift(d)) {
      forall a, b | 0 <= a < b < n
        ensures Lift(d)[a][b] == Lift(graph)[a][b]
      {
        if graph[a][b] > 0.0 {
          PairIndexBounds(n, a, b);
          HalfGeneIsSymmetric(graph, p, a, b);
        }
      }
      MantelUpperTriangleOnly(Lift(external), Lift(d), Lift(external), Lift(graph), pearson);
    }
  }
}
