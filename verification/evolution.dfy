/** The genetic search of main.c: seeding, and per generation the ratchet on
    the best-ever correlation, elitism, fitness-proportional selection and
    mutation.  Random draws are parameters: the uniform variates and Gaussian
    noise gsl_rng would deliver are passed in as sequences. */
module Evolution {
  import opened Matrix
  import opened Distances
  import opened Pairs
  import opened ShortestPaths
  import opened Mantel
  import opened Selection
  import opened Fitness

  const NumSolutions: nat := 100
  const NumGenerations: nat := 1000
  /** Per-gene mutation probability. */
  const Mu: real := 0.1
  /** The population, the best-ever solution vector and its correlation. */
  datatype State = State(pop: Mat, best: Vector, rhoMax: real)

  /** The draws consumed for one new solution row: the selection variate,
      then per gene a mutation variate and the noise used if it mutates.
      The noise is taken to come from a Gaussian with mean 0 and standard
      deviation mu_sd = 0.01; nothing here depends on its distribution. */
  datatype RowDraws = RowDraws(select: real, mutate: seq<real>, noise: seq<real>)

  /** Every row of the population and the best vector hold g genes. */
  predicate WellFormed(s: State, g: nat)
  {
    |s.best| == g && forall i :: 0 <= i < |s.pop| ==> |s.pop[i]| == g
  }

  predicate DrawsFor(draws: seq<RowDraws>, rows: nat, g: nat)
  {
    |draws| == rows && forall i :: 0 <= i < |draws| ==> |draws[i].mutate| == g && |draws[i].noise| == g
  }

  /** The rows of a matrix laid end to end. */
  function Flatten(m: Mat): Vector
  {
    if |m| == 0 then [] else m[0] + Flatten(m[1..])
  }

  /** init_solutions_matrix: nSols rows of K(K-1)/2 genes filled row by row
      from the uniform variates u, so that the rows read in order are
      exactly the variates drawn. */
  function InitSolutions(nSols: nat, nNodes: nat, u: seq<real>): (r: Mat)
    requires |u| == nSols * NumPairs(nNodes)
    ensures |r| == nSols && Solutions(r, nNodes)
    ensures Flatten(r) == u
  {
    var c := NumPairs(nNodes);
    if nSols == 0 then []
    else
      assert (nSols - 1) * c == nSols * c - c;
      var rest := InitSolutions(nSols - 1, nNodes, u[c..]);
      assert ([u[..c]] + rest)[1..] == rest;
      assert u[..c] + u[c..] == u;
      [u[..c]] + rest
  }

  /** The ratchet: the generation's first maximal correlation replaces the
      best-ever one, and its solution the best vector, only when strictly
      larger. */
  function Ratchet(s: State, rho: Vector): (r: State)
    requires |rho| == |s.pop| > 0
    ensures r.pop == s.pop
    ensures r.rhoMax >= s.rhoMax
    ensures forall i :: 0 <= i < |rho| ==> rho[i] <= r.rhoMax
    ensures (exists i :: 0 <= i < |rho| && rho[i] > s.rhoMax) ==>
      r.rhoMax == rho[MaxIndex(rho)] && r.best == s.pop[MaxIndex(rho)]
    ensures (forall i :: 0 <= i < |rho| ==> rho[i] <= s.rhoMax) ==> r == s
  {
    var idx := MaxIndex(rho);
    if rho[idx] > s.rhoMax then State(s.pop, s.pop[idx], rho[idx]) else s
  }

  /** The mutation loop: a gene whose variate is at most Mu receives its
      noise, the others are kept; nothing clamps genes to [0, 1]. */
  function Mutate(v: Vector, us: seq<real>, noise: seq<real>): (r: Vector)
    requires |us| == |v| && |noise| == |v|
    ensures |r| == |v|
  {
    seq(|v|, j requires 0 <= j < |v| => if us[j] <= Mu then v[j] + noise[j] else v[j])
  }

  /** Mutation changes only genes whose variate is at most Mu, each by its noise. */
  lemma MutateChangesOnlyDrawnGenes(v: Vector, us: seq<real>, noise: seq<real>, j: nat)
    requires |us| == |v| && |noise| == |v| && j < |v|
    ensures Mutate(v, us, noise)[j] != v[j] ==> us[j] <= Mu && noise[j] != 0.0
    ensures Mutate(v, us, noise)[j] - v[j] == (if us[j] <= Mu then noise[j] else 0.0)
  {
  }

  /** No draw under Mu, or zero noise: the row is copied unchanged. */
  lemma MutateIdentity(v: Vector, us: seq<real>, noise: seq<real>)
    requires |us| == |v| && |noise| == |v|
    requires forall j :: 0 <= j < |v| ==> us[j] > Mu || noise[j] == 0.0
    ensures Mutate(v, us, noise) == v
  {
  }

  /** Genes can leave [0, 1]: a gene at 1.0 drawn for mutation with positive
      noise exceeds 1. */
  lemma MutateUnclamped()
    ensures Mutate([1.0], [0.0], [0.01]) == [1.01]
  {
  }

  /** The parent of new row i >= 2: the roulette draw of main.c with the
      row's selection variate (see Selection.RouletteUniform). */
  function Parent(s: State, rho: Vector, d: RowDraws): (p: nat)
    requires |rho| == |s.pop| > 0
    ensures p < |s.pop|
  {
    Roulette(rho, d.select * VectorSum(rho))
  }

  /** One generation given the fitness rho of the current population: the
      ratchet, the best vector copied into rows 0 and 1, and every further
      row a mutated copy of a roulette-selected parent. */
  function Step(s: State, rho: Vector, draws: seq<RowDraws>): (r: State)
    requires |s.pop| >= 2 && |rho| == |s.pop|
    requires WellFormed(s, |s.best|) && DrawsFor(draws, |s.pop| - 2, |s.best|)
    ensures |r.pop| == |s.pop| && WellFormed(r, |s.best|)
  {
    var t := Ratchet(s, rho);
    var pop' := seq(|s.pop|, i requires 0 <= i < |s.pop| =>
      if i < 2 then t.best
      else
        var d := draws[i - 2];
        Mutate(s.pop[Parent(s, rho, d)], d.mutate, d.noise));
    State(pop', t.best, t.rhoMax)
  }

  /** Elitism: rows 0 and 1 of the next population are the best-ever vector,
      which is the old one or a row of the current population scoring the
      new maximum. */
  lemma StepElitism(s: State, rho: Vector, draws: seq<RowDraws>)
    requires |s.pop| >= 2 && |rho| == |s.pop|
    requires WellFormed(s, |s.best|) && DrawsFor(draws, |s.pop| - 2, |s.best|)
    ensures var r := Step(s, rho, draws);
      r.pop[0] == r.best && r.pop[1] == r.best
    ensures var r := Step(s, rho, draws);
      (r.best == s.best && r.rhoMax == s.rhoMax) ||
      (exists i :: 0 <= i < |s.pop| && r.best == s.pop[i] && r.rhoMax == rho[i] > s.rhoMax)
  {
    var t := Ratchet(s, rho);
    if exists i :: 0 <= i < |rho| && rho[i] > s.rhoMax {
      var m := MaxIndex(rho);
      assert t.best == s.pop[m] && t.rhoMax == rho[m] > s.rhoMax;
    }
  }

  /** The best-ever correlation never falls and bounds every correlation of
      the generation. */
  lemma StepRatchet(s: State, rho: Vector, draws: seq<RowDraws>)
    requires |s.pop| >= 2 && |rho| == |s.pop|
    requires WellFormed(s, |s.best|) && DrawsFor(draws, |s.pop| - 2, |s.best|)
    ensures Step(s, rho, draws).rhoMax >= s.rhoMax
    ensures forall i :: 0 <= i < |rho| ==> rho[i] <= Step(s, rho, draws).rhoMax
  {
  }

  /** Every row from 2 on descends from a row of the current population: it
      keeps the parent's genes except where the mutation variate is at most
      Mu. */
  lemma StepOffspring(s: State, rho: Vector, draws: seq<RowDraws>, i: nat)
    requires |s.pop| >= 2 && |rho| == |s.pop|
    requires WellFormed(s, |s.best|) && DrawsFor(draws, |s.pop| - 2, |s.best|)
    requires 2 <= i < |s.pop|
    ensures var p, d := Parent(s, rho, draws[i - 2]), draws[i - 2];
      Step(s, rho, draws).pop[i] == Mutate(s.pop[p], d.mutate, d.noise)
    ensures var p, d := Parent(s, rho, draws[i - 2]), draws[i - 2];
      forall j :: 0 <= j < |s.best| && d.mutate[j] > Mu ==> Step(s, rho, draws).pop[i][j] == s.pop[p][j]
  {
  }

  /** One pass of the generation loop: evaluate, then step. */
  function Generation(s: State, external: Mat, graph: Mat, pearson: Pearson, draws: seq<RowDraws>): (r: State)
    requires IsSquare(graph) && IsRect(external) && |s.pop| >= 2
    requires Solutions(s.pop, |graph|) && WellFormed(s, NumPairs(|graph|))
    requires DrawsFor(draws, |s.pop| - 2, NumPairs(|graph|))
    ensures |r.pop| == |s.pop| && Solutions(r.pop, |graph|) && WellFormed(r, NumPairs(|graph|))
    ensures r.rhoMax >= s.rhoMax
  {
    var rho := EvaluateFitness(s.pop, external, graph, pearson);
    StepRatchet(s, rho, draws);
    Step(s, rho, draws)
  }

  /** After a generation in which the best vector changed, the new best
      vector scores exactly the new best-ever correlation. */
  lemma GenerationBestScores(s: State, external: Mat, graph: Mat, pearson: Pearson, draws: seq<RowDraws>)
    requires IsSquare(graph) && IsRect(external) && |s.pop| >= 2
    requires Solutions(s.pop, |graph|) && WellFormed(s, NumPairs(|graph|))
    requires DrawsFor(draws, |s.pop| - 2, NumPairs(|graph|))
    ensures var r := Generation(s, external, graph, pearson, draws);
      r.best == s.best || SolutionFitness(external, graph, r.best, pearson) == r.rhoMax
  {
    var rho := EvaluateFitness(s.pop, external, graph, pearson);
    StepElitism(s, rho, draws);
  }

  /** Generations run one after another, one entry of gens per generation. */
  function Run(s: State, external: Mat, graph: Mat, pearson: Pearson, gens: seq<seq<RowDraws>>): (r: State)
    requires IsSquare(graph) && IsRect(external) && |s.pop| >= 2
    requires Solutions(s.pop, |graph|) && WellFormed(s, NumPairs(|graph|))
    requires forall g :: 0 <= g < |gens| ==> DrawsFor(gens[g], |s.pop| - 2, NumPairs(|graph|))
    ensures |r.pop| == |s.pop| && Solutions(r.pop, |graph|) && WellFormed(r, NumPairs(|graph|))
    decreases |gens|
  {
    if |gens| == 0 then s
    else Run(Generation(s, external, graph, pearson, gens[0]), external, graph, pearson, gens[1..])
  }

  /** Over any number of generations the best-ever correlation never falls. */
  lemma {:induction false} RunRatchet(s: State, external: Mat, graph: Mat, pearson: Pearson, gens: seq<seq<RowDraws>>)
    requires IsSquare(graph) && IsRect(external) && |s.pop| >= 2
    requires Solutions(s.pop, |graph|) && WellFormed(s, NumPairs(|graph|))
    requires forall g :: 0 <= g < |gens| ==> DrawsFor(gens[g], |s.pop| - 2, NumPairs(|graph|))
    ensures Run(s, external, graph, pearson, gens).rhoMax >= s.rhoMax
    decreases |gens|
  {
    if |gens| > 0 {
      var s' := Generation(s, external, graph, pearson, gens[0]);
      RunRatchet(s', external, graph, pearson, gens[1..]);
    }
  }

  /** The best vector at the end either is still the seed or scores exactly
      the final best-ever correlation. */
  lemma {:induction false} RunBestScores(s: State, external: Mat, graph: Mat, pearson: Pearson, gens: seq<seq<RowDraws>>)
    requires IsSquare(graph) && IsRect(external) && |s.pop| >= 2
    requires Solutions(s.pop, |graph|) && WellFormed(s, NumPairs(|graph|))
    requires forall g :: 0 <= g < |gens| ==> DrawsFor(gens[g], |s.pop| - 2, NumPairs(|graph|))
    ensures var r := Run(s, external, graph, pearson, gens);
      (r.best == s.best && r.rhoMax == s.rhoMax) || SolutionFitness(external, graph, r.best, pearson) == r.rhoMax
    decreases |gens|
  {
    if |gens| > 0 {
      var s' := Generation(s, external, graph, pearson, gens[0]);
      var rho := EvaluateFitness(s.pop, external, graph, pearson);
      StepElitism(s, rho, gens[0]);
      RunBestScores(s', external, graph, pearson, gens[1..]);
      var r := Run(s', external, graph, pearson, gens[1..]);
      if r.best == s'.best && r.rhoMax == s'.rhoMax && s'.best != s.best {
        GenerationBestScores(s, external, graph, pearson, gens[0]);
      }
    }
  }

  /** The start of the search: the correlation of the shortest-path
      distances of the graph with the external matrix is the best-ever
      value, the best vector has every gene 0.5, and the population comes
      from the uniform variates u. */
  method Seed(graph: Mat, external: Mat, pearson: Pearson, u: seq<real>) returns (s: State, rhoObs: real)
    requires IsSquare(graph) && IsSquare(external) && |external| == |graph|
    requires |u| == NumSolutions * NumPairs(|graph|)
    ensures |s.pop| == NumSolutions && Solutions(s.pop, |graph|) && WellFormed(s, NumPairs(|graph|))
    ensures s.pop == InitSolutions(NumSolutions, |graph|, u)
    ensures s.best == seq(NumPairs(|graph|), _ => 0.5)
    ensures s.rhoMax == rhoObs
    ensures NonNegative(graph) ==> rhoObs == MantelCorrelation(FloydWarshall(graph), Lift(external), pearson)
  {
    var cgd := ShortestPaths.ShortestPaths(graph);
    assert IsRect(Lift(external)) by { LiftRect(external); }
    rhoObs := MantelCorrelation(cgd, Lift(external), pearson);
    var pop := InitSolutions(NumSolutions, |graph|, u);
    s := State(pop, seq(NumPairs(|graph|), _ => 0.5), rhoObs);
  }

  /** main after argument checking: seed, then NumGenerations generations.
      The final best-ever correlation is at least the shortest-path one. */
  method Evolve(graph: Mat, external: Mat, pearson: Pearson, u: seq<real>, gens: seq<seq<RowDraws>>)
    returns (final: State, rhoObs: real)
    requires IsSquare(graph) && IsSquare(external) && |external| == |graph|
    requires |u| == NumSolutions * NumPairs(|graph|)
    requires |gens| == NumGenerations
    requires forall g :: 0 <= g < |gens| ==> DrawsFor(gens[g], NumSolutions - 2, NumPairs(|graph|))
    ensures |final.pop| == NumSolutions && WellFormed(final, NumPairs(|graph|))
    ensures final.rhoMax >= rhoObs
    ensures final.best == seq(NumPairs(|graph|), _ => 0.5) ||
            SolutionFitness(external, graph, final.best, pearson) == final.rhoMax
  {
    var s;
    s, rhoObs := Seed(graph, external, pearson, u);
    final := Run(s, external, graph, pearson, gens);
    RunRatchet(s, external, graph, pearson, gens);
    RunBestScores(s, external, graph, pearson, gens);
  }
}
