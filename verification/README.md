# gitano `evolve`: a Dafny model

`evolve` searches for an asymmetry of the edge weights of an undirected
graph. It tries to make the graph's distances correlate as well as possible
with an external distance matrix.

A solution is a vector of K(K-1)/2 genes, one per node pair i < j. The gene
p of pair (i, j) turns the undirected weight w into two directed weights:
2pw from i to j and 2(1-p)w from j to i. The fitness of a solution is a
Mantel-style correlation between the external matrix and the resulting
directed matrix. It is computed only over upper-triangle cells that are
positive in both matrices.

The search starts from the correlation of the external matrix with the
graph's Floyd–Warshall shortest-path distances. It then runs a genetic loop
over 100 solutions for 1000 generations. Each generation does four things:

- a ratchet keeps the best correlation ever seen, together with its vector;
- the best vector is copied into rows 0 and 1 (elitism);
- every other row is a roulette-selected parent;
- each parent gene mutates, with probability 0.1, by Gaussian noise.

## Modules

- `matrix.dfy` (`Matrix`): matrices as sequences of rows, with `matrix_sum` and `vector_sum`.
- `distances.dfy` (`Distances`): distances extended with +infinity. This is the GSL_POSINF that `shortest_paths` writes.
- `pairs.dfy` (`Pairs`): the row-major enumeration of the pairs i < j that both the gene vector and the Mantel loops follow.
- `shortest_paths.dfy` (`ShortestPaths`): `shortest_paths`. It has a round-by-round definition and the in-place triple loop as a method.
- `shortest_walks.dfy` (`ShortestWalks`): walks in the graph, and the proof that the distances are minimal walk lengths on symmetric non-negative graphs.
- `asymmetry.dfy` (`Asymmetry`): `apply_assymetry_vector`.
- `mantel.dfy` (`Mantel`): `mantel_correlation`. The correlation routine `gsl_stats_correlation` is a parameter.
- `selection.dfy` (`Selection`): `vector_cumsum`, `first_index_greater_than`, `gsl_vector_max_index`, and the roulette draw built from them.
- `fitness.dfy` (`Fitness`): `evaluate_fitness`.
- `evolution.dfy` (`Evolution`): `init_solutions_matrix` and the seeding and generation loop of `main`. Random variates are parameters.
- `program.dfy` (`Program`): the argument-count check of `main`.

## Model

| member | source | states |
|---|---|---|
| Matrix.MatrixSumNonNegative | gitano/matrix_ops.c:111-118 | The sum of a matrix with non-negative entries is non-negative. |
| Matrix.MatrixSumBound | gitano/matrix_ops.c:14 | With non-negative entries every entry is at most `matrix_sum`, so the sentinel gMax of `shortest_paths` is at least every edge weight. |
| Matrix.MatrixSumZero | gitano/matrix_ops.c:111-118 | An all-zero matrix sums to 0. |
| Matrix.MatrixSumZeroCell | gitano/matrix_ops.c:111-118 | Zeroing one entry lowers the sum by exactly that entry. |
| Matrix.VectorSumNonNegative | gitano/matrix_ops.c:120-125 | `vector_sum` of non-negative entries is non-negative. |
| Matrix.VectorSumBound | gitano/matrix_ops.c:120-125 | With non-negative entries every entry is at most `vector_sum`. |
| Distances.Lift | gitano/matrix_ops.c:150 | A plain double matrix handed to `mantel_correlation`, which also receives the +infinity-bearing shortest-path matrix (main.c line 54), becomes a matrix of finite distances with the same shape and values. |
| Pairs.NumPairsClosedForm | gitano/matrix_ops.c:131 | The number of pairs i < j below K is K(K-1)/2, the column count of `init_solutions_matrix`. |
| Pairs.RowStartTotal | gitano/matrix_ops.c:66-75 | The slot counter, at the start of the row past the last, equals K(K-1)/2. |
| Pairs.PairIndexBounds | gitano/matrix_ops.c:66-75 | The slot the counter reaches at pair (i, j) lies in [0, K(K-1)/2). |
| Pairs.PairIndexOrdered | gitano/matrix_ops.c:66-75 | Slots grow strictly in row-major order of the pairs. |
| Pairs.PairListIndexed | gitano/matrix_ops.c:66-75 | The t-th enumerated pair is a pair i < j below K, and its slot is t. |
| Pairs.PairListInjectiveIndex | gitano/matrix_ops.c:66-75 | The enumeration lists no pair twice: two slots holding the same pair are the same slot. |
| ShortestPaths.InitDistances | gitano/matrix_ops.c:14-27 | The diagonal starts at 0, a positive weight at itself, and anything else at gMax. |
| ShortestPaths.RelaxCell | gitano/matrix_ops.c:33-39 | One update is the old or the candidate value and never raises the cell. A candidate at or above gMax is ignored; below gMax it is an upper bound on the result. |
| ShortestPaths.Finalize | gitano/matrix_ops.c:44-50 | A cell becomes +infinity exactly when it equals gMax; otherwise it keeps its value. |
| ShortestPaths.Layer | gitano/matrix_ops.c:30-42 | Round k of the triple loop, defined round by round from the initial matrix; its contract states that each round is again K×K. LayerBelowInit, LayerNonNegative and LayerPivotStable state what the rounds do, and RelaxRound proves the in-place loop computes them. |
| ShortestPaths.FloydWarshall | gitano/matrix_ops.c:13-54 | The result of `shortest_paths`: round K, finalised against gMax. Its contract states that the result is K×K. The method ShortestPaths proves the in-place code equals it for non-negative weights, and FloydWarshallIsRef relates it to shortest walks. |
| ShortestPaths.LayerNonNegative | gitano/matrix_ops.c:30-42 | With non-negative weights, every round keeps the diagonal at 0 and every cell non-negative. |
| ShortestPaths.LayerBelowInit | gitano/matrix_ops.c:30-42 | No round raises a cell above its initial value. |
| ShortestPaths.LayerPivotStable | gitano/matrix_ops.c:30-42 | With non-negative weights, round k leaves row k and column k unchanged. This is why the in-place update equals the round-by-round one. |
| ShortestPaths.ZeroGraphUnreachable | gitano/matrix_ops.c:14-50 | On an all-zero matrix gMax is 0, so every cell becomes +infinity, the diagonal included. |
| ShortestPaths.SoleDirectedEdgeLost | gitano/matrix_ops.c:14-50 | A one-way edge that carries the matrix's whole weight equals gMax and is reported as +infinity. |
| ShortestPaths.RelaxRow | gitano/matrix_ops.c:32-40 | The in-place inner loop over j changes only row i, and no cell rises above its initial value. With non-negative weights, if rows i and k hold round k, row i ends as in round k+1. |
| ShortestPaths.RelaxRound | gitano/matrix_ops.c:31-41 | The loop over i keeps every cell at or below its initial value. With non-negative weights it turns round k into round k+1 in place. |
| ShortestPaths.ShortestPaths | gitano/matrix_ops.c:13-54 | For any square matrix the result is square. +infinity appears exactly where the cell was never lowered from its initial value gMax. A finite result is never gMax and never above its initial value. With non-negative weights the result is exactly the round-by-round Floyd–Warshall matrix. |
| ShortestWalks.LenNonNegative | gitano/matrix_ops.c:30-42 | A walk over non-negative weights has non-negative length. |
| ShortestWalks.RefSound | gitano/matrix_ops.c:30-42 | Every finite extended Floyd–Warshall distance with intermediates below k is the length of a walk with that restriction. |
| ShortestWalks.RefOptimal | gitano/matrix_ops.c:30-42 | No such walk is shorter than the extended distance. |
| ShortestWalks.Shortcut | gitano/matrix_ops.c:30-42 | Every walk has a repetition-free walk with the same ends that is no longer. |
| ShortestWalks.SimpleWalkBound | gitano/matrix_ops.c:14 | On a symmetric non-negative matrix, twice the length of a repetition-free walk is at most the matrix sum. |
| ShortestWalks.RefBelowSentinel | gitano/matrix_ops.c:14-24 | On symmetric non-negative graphs with positive total, every finite distance is below gMax, so the sentinel never hides a real distance. |
| ShortestWalks.LayerMatchesRef | gitano/matrix_ops.c:30-42 | Round k of the sentinel computation encodes the extended distance with intermediates below k. |
| ShortestWalks.FloydWarshallIsRef | gitano/matrix_ops.c:13-54 | On symmetric non-negative graphs with positive total, `shortest_paths` returns the extended Floyd–Warshall distances. |
| ShortestWalks.ShortestPathsDiagonalZero | gitano/matrix_ops.c:19-21 | On any non-negative matrix with positive total, directed or not, the diagonal of the result is 0. |
| ShortestWalks.ShortestPathsAreLowerBounds | gitano/matrix_ops.c:13-54 | On symmetric non-negative matrices with positive total, every walk from i to j is at least as long as the reported distance. In particular, +infinity means there is no walk. |
| ShortestWalks.ShortestPathsAreAttained | gitano/matrix_ops.c:13-54 | On symmetric non-negative matrices with positive total, every finite reported distance is the length of some walk. |
| Asymmetry.ApplyAsymmetry | gitano/matrix_ops.c:60-79 | The result is a K×K matrix. A positive upper edge keeps its total mass 2·A[i][j] across its two directions. A non-positive upper edge leaves both cells 0, and the diagonal is 0. |
| Asymmetry.HalfGeneIsSymmetric | gitano/matrix_ops.c:70-73 | A gene of 0.5 gives both directions the original weight. |
| Asymmetry.GeneSteersItsPair | gitano/matrix_ops.c:66-75 | The gene at slot PairIndex(i, j) is the one enumerated for (i, j). It sets i→j to 2pw and j→i to 2(1-p)w. |
| Asymmetry.UpperTriangleOnly | gitano/matrix_ops.c:66-69 | The lower triangle and genes past slot K(K-1)/2 - 1 are never read. |
| Asymmetry.ApplyAsymmetryLoop | gitano/matrix_ops.c:60-79 | The loop with its running counter computes ApplyAsymmetry, and the counter ends at K(K-1)/2. |
| Mantel.Selected | gitano/matrix_ops.c:177 | The kept pairs are no more than the candidates, and every kept pair is positive in both matrices. |
| Mantel.SelectedMembers | gitano/matrix_ops.c:175-180 | A pair is kept if and only if it is a candidate and positive in both matrices. |
| Mantel.ExtractedPairs | gitano/matrix_ops.c:185-193 | The extracted pairs are in strict row-major order, and every qualifying upper pair is among them. |
| Mantel.MantelCorrelation | gitano/matrix_ops.c:161-206 | Matrices of different sizes give 0. Otherwise the result is the correlation of the x- and y-values taken at the same qualifying pairs. |
| Mantel.MantelUpperTriangleOnly | gitano/matrix_ops.c:175-193 | Entries on or below the diagonal do not affect the result. |
| Mantel.MantelSwap | gitano/matrix_ops.c:161-206 | With a symmetric correlation routine, swapping the matrices does not change the result. |
| Mantel.CountNotEmpty | gitano/matrix_ops.c:175-180 | The first pass counts exactly the qualifying upper pairs. |
| Mantel.ExtractNotEmpty | gitano/matrix_ops.c:182-193 | The second pass fills xvec and yvec with the values at those pairs, in visiting order. |
| Mantel.MantelLoop | gitano/matrix_ops.c:161-206 | The two-pass procedure equals MantelCorrelation. The vectors have exactly the length the first pass counted. |
| Selection.AbsPrefixMonotone | gitano/matrix_ops.c:215-219 | Running totals of absolute values are non-negative and do not decrease. |
| Selection.Cumsum | gitano/matrix_ops.c:209-223 | Entry 0 is v[0] as is. Every later entry i is \|v[0]\| + … + \|v[i]\|. |
| Selection.CumsumNonDecreasing | gitano/matrix_ops.c:209-223 | The cumulative vector never decreases, whatever the signs. |
| Selection.CumsumOfNonNegative | gitano/matrix_ops.c:209-223 | For non-negative fitness, entry i is `vector_sum` of the first i+1 values, and the last entry is `vector_sum`. |
| Selection.FirstIndexGreaterThan | gitano/matrix_ops.c:226-233 | The result is the first index whose entry exceeds d, or the last index if there is none; all earlier entries are at most d. An empty vector gives 0xFFFFFFFF. |
| Selection.MaxIndex | gitano/main.c:77-78 | The result is the position of a maximum, the first one on ties. |
| Selection.Roulette | gitano/main.c:110-112 | The selected index is a valid row. |
| Selection.RouletteProportional | gitano/main.c:100-112 | With non-negative fitness and a draw in [0, `vector_sum`), the selected row is the one whose cumulative slot contains the draw. That slot is as wide as the row's fitness. |
| Selection.RouletteUniform | gitano/main.c:111-112 | The same holds for the actual draw, a uniform variate times `vector_sum`. |
| Selection.RouletteMixedSigns | gitano/main.c:100-112 | With fitness 0.5, -0.5, 0.5 every draw selects row 0, and row 2 is never chosen. |
| Fitness.SolutionFitness | gitano/matrix_ops.c:148-150 | An external matrix of a different shape scores 0. |
| Fitness.EvaluateFitness | gitano/matrix_ops.c:142-158 | There is one score per solution row. Row i scores the Mantel correlation of the external matrix with the directed graph of row i. |
| Fitness.FitnessRowwise | gitano/matrix_ops.c:147-153 | Equal rows score equally, whatever population they are in. |
| Fitness.FitnessShapeMismatch | gitano/matrix_ops.c:164-166 | If the external matrix's shape differs from the graph's, every solution scores 0. |
| Fitness.HalfSolutionScoresGraph | gitano/main.c:64-66 | An all-0.5 vector on a non-negative graph scores the undirected graph itself. |
| Evolution.InitSolutions | gitano/matrix_ops.c:130-139 | The result has nSols rows of K(K-1)/2 genes. Read row by row, it is exactly the sequence of uniform draws. |
| Evolution.Ratchet | gitano/main.c:76-83 | The population is unchanged and the best-ever correlation never falls and bounds every score of the generation. On a strict improvement, the first maximal row becomes the best vector. Otherwise nothing changes. |
| Evolution.Mutate | gitano/main.c:116-122 | The mutation loop over a copied row. Its contract states that the length is kept; MutateChangesOnlyDrawnGenes and MutateIdentity state the per-gene effect. |
| Evolution.MutateChangesOnlyDrawnGenes | gitano/main.c:116-122 | A gene changes only if its variate is at most mu, and then by exactly its noise. |
| Evolution.MutateIdentity | gitano/main.c:116-122 | With no variate at or below mu, or with zero noise, the row is copied unchanged. |
| Evolution.MutateUnclamped | gitano/main.c:116-122 | A mutated gene can leave [0, 1]. |
| Evolution.Parent | gitano/main.c:110-112 | The roulette draw of main.c: a uniform variate times the signed `vector_sum`, looked up in the cumulative vector. Its contract states that the parent is a row of the current population; RouletteUniform states that for non-negative fitness it lands in that row's slot. |
| Evolution.Step | gitano/main.c:79-125 | One generation after evaluation: ratchet, elitism, selection and mutation. Its contract states that the population keeps its size and gene count. StepElitism, StepRatchet and StepOffspring state what it does. |
| Evolution.StepElitism | gitano/main.c:104-106 | Rows 0 and 1 of the next population are the best vector. That vector is either the old one, or a current row that scored the new, strictly larger maximum. |
| Evolution.StepRatchet | gitano/main.c:79-83 | After a step, the best-ever correlation has not fallen and bounds the generation's scores. |
| Evolution.StepOffspring | gitano/main.c:110-125 | Each row from 2 on is the mutated roulette parent. Genes with a variate above mu are the parent's. |
| Evolution.Generation | gitano/main.c:71-131 | A generation keeps the population's size and gene count and never lowers the best-ever correlation. |
| Evolution.GenerationBestScores | gitano/main.c:74-83 | If the best vector changed, it scores exactly the new best-ever correlation. |
| Evolution.Run | gitano/main.c:71-131 | The generation loop, one generation per entry of draws. Its contract states that the population keeps its size and gene count. RunRatchet and RunBestScores state what it does. |
| Evolution.RunRatchet | gitano/main.c:71-131 | Over any number of generations the best-ever correlation never falls. |
| Evolution.RunBestScores | gitano/main.c:71-131 | At the end the best vector is either still the seed, or it scores exactly the final best-ever correlation. |
| Evolution.Seed | gitano/main.c:52-66 | The population has 100 rows drawn by `init_solutions_matrix`. The best vector is all 0.5. The best-ever correlation is the observed one, which for non-negative graphs is the Mantel correlation of the shortest-path matrix with the external matrix. |
| Evolution.Evolve | gitano/main.c:52-131 | The final best-ever correlation is at least the observed one. The final best vector is either all 0.5 or scores exactly that correlation. |
| Program.ParseArgs | gitano/main.c:34-37 | Usage is reported if and only if argc is not 4, and then with the usage text. Otherwise the arguments are taken positionally. |
| Program.ParseArgsCountOnly | gitano/main.c:34 | Whether usage is reported depends only on the number of arguments. |

## Left out

- Reading and writing matrices (`load_matrix`, `dump_matrix`, `dump_vector`, `printf`) is I/O and is not modelled. Loaded matrices are inputs, K×K as `load_matrix` allocates them.
- `atoi(argv[1])` is not modelled. The node count is the size of the graph matrix.
- The random number generator (`init_rng`, `gsl_rng_uniform`, `gsl_ran_gaussian`) is not modelled; its draws are parameters. The model takes the selection variate, the per-gene mutation variates and the noise of each new row as separate inputs. It does not model how they interleave in one stream. That the noise follows N(0, 0.01) is an assumption about the inputs, not a proved fact.
- `gsl_stats_correlation` is a function parameter. Its Pearson formula, and its result for vectors of length 0 or 1, are outside the model.
- Floating point is modelled as exact reals. NaN, rounding and IEEE comparisons with +infinity are not modelled; +infinity is a separate `Inf` value that compares as positive.
- Cells that `apply_assymetry_vector` never writes come from `gsl_matrix_alloc` and hold unspecified values. The model takes them to be 0.
- `prev_corr`, in main.c lines 86-91, is computed but never used, so it is left out. Memory management (`gsl_*_free`, `gsl_matrix_memcpy`) is also left out.
- ShortestPaths.ShortestPaths: the exact equality with the round-by-round computation is proved only for non-negative weights. For negative weights only the sentinel facts are stated, because the in-place loop then depends on the order of updates.
- ShortestWalks.FloydWarshallIsRef: minimal-walk correctness is proved only for symmetric non-negative matrices with a positive sum. SoleDirectedEdgeLost shows that the sentinel can hide an edge on other matrices.
- Evolution.Parent: there is no separate proof that the parent is proportional to fitness. It is defined as the roulette draw, and RouletteUniform states the proportionality for that draw.
- Selection.Cumsum: an empty vector is excluded, because `vector_cumsum` writes entry 0 unconditionally.
- The size guard of `mantel_correlation` compares the row counts twice. The model tests rows and columns once each, which is the same condition.

## Notes on the code

- In the code, the roulette threshold is a uniform variate times `vector_sum(rho)`, the signed sum (main.c line 111). It is not the last entry of the cumulative vector. The model follows the code. With mixed-sign fitness the two differ (RouletteMixedSigns).
- The best-ever correlation is seeded with the correlation of the shortest-path matrix with the external matrix (main.c lines 54 and 64). The seed best vector, all 0.5, instead scores the correlation of the external matrix with the adjacency weights themselves (HalfSolutionScoresGraph). So if no generation beats the seed value, the reported best vector need not score the reported best correlation. This is why Evolve's postcondition is a disjunction.
- `vector_cumsum` copies entry 0 as is and takes absolute values only from entry 1 on. The model follows that.
