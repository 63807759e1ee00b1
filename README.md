# Olivia immunization selectors in Dafny

This project models the immunization module of Olivia (`olivia/immunization.py`),
which picks the packages of a dependency network to protect ("immunize") so
that the network is less exposed to cascading failure. It also measures how
much immunizing a given set helps. The model covers:

- **Delta evaluator** (`immunization_delta`). The vulnerability of the whole
  network (`f1`) and of the network rebuilt without the immunized set
  (`f2`). `f2` is scaled by the size correction `(|V| - |n|) / |V|`. The
  result is the triple `(f1, f2, f1 - f2)`. The network object is a class:
  its graph is changed during the rebuild and put back afterwards.
- **Naive ranking** (`iset_naive_ranking`). The packages named by a top-k
  query of a metric table.
- **Delta frame** (`iset_delta_frame_reach`, `iset_delta_frame_impact`). One
  generic selection used by both variants. It keeps every package whose upper
  bound is strictly above the largest lower bound. Each variant builds its own
  bound tables from pointwise products and sums of metric tables.
- **Strong-articulation-point selector** (`iset_sap`). A loop that collects
  the union of the strong articulation points of each cluster's induced
  subgraph. It falls back to the first of `sorted_clusters()`.
- **Random selectors** (`iset_random`). In direct mode, a sample without
  replacement. In indirect mode, nested loops that pick a random package
  that has dependencies and add one of its dependencies.

Modules and files: `Wrappers` (wrappers.dfy) holds `Option`, `Result` and
the Python exceptions the code can raise. `Graphs` (graphs.dfy) holds the
network as packages in iteration order plus a map from each package to its
direct dependencies, with induced subgraphs and node removal. Then
`DeltaEvaluator`, `Ranking`, `DeltaFrame`, `SapSelector` and
`RandomSelector` each have their own file.

The collaborators the module imports are given only as inputs:
- the vulnerability scorer applied to a rebuilt model: a function `Graph -> real`;
- the metric tables: `map<Package, int>`;
- the answer of `top(k)`: a sequence constrained by `Ranking.IsTop`;
- `strong_articulation_points`: a function `Graph -> set<Package>`;
- the answer of `sorted_clusters()`: a sequence of sets;
- the random number generator: an oracle `draw: nat -> nat`.

The model follows the code:
- Errors are the Python exceptions the code raises:
  - `ZeroDivisionError` for an empty network in the delta evaluator;
  - `IndexError` for `top()[0]` of an empty table, for `sorted_clusters()[0]`
    with no cluster, and for `random.choice` on an empty tuple;
  - `ValueError` from `random.sample`.
  No error kinds beyond Python's built-in exceptions are introduced.
- The indirect random loop has no bound and no error for a degenerate
  network. The model does not invent one (see `RandomSelector.RandomIndirect`).
- The delta frame can be empty (see Findings).

## Model

| member | source | states |
|---|---|---|
| `Graphs.Subgraph` | olivia/immunization.py:160 | the induced subgraph has exactly the network's packages that lie in the cluster, and a valid network gives a valid subgraph |
| `Graphs.Removed` | olivia/immunization.py:42 | removing a set leaves exactly the other packages, and the result is a valid network |
| `Graphs.RemovedNothing` | olivia/immunization.py:42 | removing the empty set gives back the same network |
| `DeltaEvaluator.SizeCorrection` | olivia/immunization.py:41 | the network size N must be positive; with at most N immunized packages the scale lies in [0,1]; it is 1 exactly when nothing is immunized and 0 exactly when all N are; times N it gives N minus the immunized count |
| `DeltaEvaluator.DeltaOf` | olivia/immunization.py:40-47 | it fails with ZeroDivisionError exactly on an empty network; otherwise the first component is `f1`, the second times the network size N equals (N minus the immunized count) times `f2raw`, and the third is the first minus the second |
| `DeltaEvaluator.WholeNetworkImmunized` | olivia/immunization.py:41-47 | immunizing all packages gives `(f1, 0, f1)` |
| `DeltaEvaluator.NothingImmunized` | olivia/immunization.py:41-47 | immunizing nothing leaves the raw second score unscaled: `(f1, f2raw, f1 - f2raw)` |
| `DeltaEvaluator.AfterWithinRawScore` | olivia/immunization.py:41-46 | for a non-negative raw score the scaled score lies between 0 and the raw score |
| `DeltaEvaluator.OliviaNetwork.ImmunizationDelta` | olivia/immunization.py:15-47 | the network is the same on exit as on entry; the result is the delta arithmetic applied to the score of the network and the score of the network with `n` removed |
| `DeltaEvaluator.EmptySetImprovesNothing` | olivia/immunization.py:40-47 | with a deterministic rebuild, immunizing the empty set gives an improvement of exactly 0 |
| `DeltaEvaluator.WholeSetImprovementIsInitialScore` | olivia/immunization.py:40-47 | immunizing the whole node set gives a second score of 0 and an improvement equal to the initial score |
| `Ranking.RankingSelectsTopPackages` | olivia/immunization.py:69 | for a valid top-k answer: the selection is a subset of the table's packages, has exactly `k` members, and every selected package's value is at least that of every package not selected |
| `Ranking.RankingUniqueWithoutTies` | olivia/immunization.py:69 | when no two packages share a value, any two valid top-k answers select the same set |
| `Ranking.TopFirstIsMaximum` | olivia/immunization.py:95 | the first pair of a non-empty valid top answer carries the largest value of the table |
| `DeltaFrame.MaxOver` | olivia/immunization.py:95 | the result is attained by some package and is at least every package's value |
| `DeltaFrame.MaxOverIsTopValue` | olivia/immunization.py:95 | `top()[0][1]` of the lower-bound table, for any valid top answer, equals this maximum |
| `DeltaFrame.Select` | olivia/immunization.py:95-96 | it fails with IndexError exactly when there is no package; otherwise a package is selected exactly when it is a package of the model whose upper bound is strictly greater than every package's lower bound |
| `DeltaFrame.SelectIsSound` | olivia/immunization.py:76-78 | if every true reduction lies between its bounds, no excluded package beats a package with the largest lower bound; any optimal package that is excluded ties with it |
| `DeltaFrame.DeltaFrameReach` | olivia/immunization.py:93-96 | it fails with IndexError exactly on an empty model; otherwise it selects exactly the packages whose `Reach * Surface` exceeds every package's `Reach + Surface - 1` |
| `DeltaFrame.ReachBoundsOrdered` | olivia/immunization.py:93-94 | when Reach and Surface are at least 1, each lower bound is at most the upper bound |
| `DeltaFrame.DeltaFrameImpact` | olivia/immunization.py:120-123 | it fails with IndexError exactly on an empty model; otherwise it selects exactly the packages whose `Impact * Surface` exceeds every package's `DependentsCount * Surface` |
| `DeltaFrame.ImpactBoundsOrdered` | olivia/immunization.py:120-121 | with Surface non-negative and DependentsCount at most Impact, each lower bound is at most the upper bound |
| `DeltaFrame.ReachFrameCanMissOptimum` | olivia/immunization.py:93-96 | one package with Reach 1 and Surface 1: the Reach frame is empty |
| `DeltaFrame.ImpactFrameCanMissOptimum` | olivia/immunization.py:120-123 | one package with all three metrics 1: the Impact frame is empty |
| `DeltaFrame.SelectInclusive` | olivia/immunization.py:96 | the selection with `>=`: a package is selected exactly when its upper bound is at least every package's lower bound |
| `DeltaFrame.SelectInclusiveContainsEveryOptimum` | olivia/immunization.py:76-78 | with true reductions between the bounds, every optimal package is in the inclusive frame, and the frame of a non-empty model is non-empty |
| `SapSelector.SapUnionMembers` | olivia/immunization.py:158-161 | a package is in the accumulated set exactly when the primitive reports it for some cluster's subgraph |
| `SapSelector.SapUnionWithinClusters` | olivia/immunization.py:159-161 | if the primitive reports only nodes of its subgraph, every selected package is a package of the network inside some supplied cluster |
| `SapSelector.SapUnionOfConcatenation` | olivia/immunization.py:158-161 | processing two lists of clusters gives the union of their two results, so cluster order and repetition do not matter |
| `SapSelector.IsetSap` | olivia/immunization.py:156-162 | with clusters supplied, the result is the union over all of them; without, it uses only `sorted_clusters()[0]`, and raises IndexError if there is no cluster |
| `RandomSelector.Sample` | olivia/immunization.py:203 | the sample has exactly `k` elements, all from the pool, and no repeats when the pool has none |
| `RandomSelector.RandomDirect` | olivia/immunization.py:190-203 | it raises ValueError exactly when the size is negative or larger than the number of packages; otherwise it returns a set of exactly `set_size` packages of the network |
| `RandomSelector.RandomIndirect` | olivia/immunization.py:194-201 | a returned set has exactly `set_size` members, each a direct dependency of some package; it raises IndexError exactly when the network is empty and the size is not 0; size 0 returns the empty set; a negative size, or one above the number of distinct dependencies, never returns |
| `RandomSelector.IsetRandom` | olivia/immunization.py:165-203 | direct mode is the direct sample; a returned set always has `set_size` packages of the network; in indirect mode each is a direct dependency, IndexError is raised exactly on an empty network with a non-zero size, size 0 returns the empty set, and a negative or oversized request never returns |

## Left out

- The vulnerability scorer and model building (`failure_vulnerability`, `OliviaNetwork().build_model`) are external float computations. They are one function parameter, `Graph -> real`. Its use assumes the object's own model was built from its graph and that rebuilding is deterministic.
- Floating point: the size correction and the scaled score are exact reals, so Python float rounding is not modelled.
- `len(n)` counts the immunized container. The model takes `n` as a set, so a list with repeated packages is not modelled.
- The metrics Reach, Surface, Impact and DependentsCount are external. They are integer tables over the model's packages. The arithmetic between tables is written out pointwise, and mismatched tables are excluded by requiring every table to cover exactly the model's packages.
- `top()` belongs to the metric provider. Its tie-break, its default size and its behaviour when asked for more entries than the table has are unmodelled. `Ranking.IsTop` fixes only what a valid answer must satisfy.
- The graph primitives `strong_articulation_points` and `sorted_clusters` are inputs. They have no internal behaviour here: not their SCC semantics and not the sort order of the clusters.
- On the `removed` context manager: the model keeps the remove-then-restore on the network object, but not restoration when the scorer raises. The scorer cannot fail here.
- The global random generator, `random.seed`, the `if seed:` test (under which seed 0 counts as no seed), and the sampling algorithms inside `random.choice` and `random.sample` are all left out. The generator is the `draw` oracle, and `Sample` is one sampling procedure driven by it.
- RandomSelector.RandomIndirect: the position drawn inside `tuple(dependencies)` is not modelled. That tuple's order is Python's set iteration order, so the method picks an arbitrary dependency, and its contract holds for every possible pick.
- RandomSelector.RandomIndirect: the source loop can run forever. For a non-empty network and a non-zero `set_size`, this happens when no package has a dependency, when fewer than `set_size` distinct dependencies exist, or when `set_size` is negative. The model bounds package draws by `fuel` and reports `StillRunning` when it runs out. Termination for a given fuel is therefore not a property of the source.
- Non-emptiness of the delta frame and inclusion of the optimum are not claimed for the code as written (see Findings). Only the "no excluded package beats the best lower bound" form is proved of it.

## Findings

| source | as written | input that shows it | evidently intended | confidence | as-written member | corrected member |
|---|---|---|---|---|---|---|
| olivia/immunization.py:96 | `delta_upper[p] > max_lower` keeps only packages whose upper bound strictly exceeds the best lower bound | one package `a` with Reach 1 and Surface 1: both bounds are 1, the frame is empty, yet `a` is the optimum (lines 76-78 promise to contain it) | `delta_upper[p] >= max_lower`, under which every optimal package is kept | medium, not executed | `DeltaFrame.ReachFrameCanMissOptimum` | `DeltaFrame.SelectInclusiveContainsEveryOptimum` |
| olivia/immunization.py:123 | the same strict comparison in the Impact variant | one package with Impact, DependentsCount and Surface all 1: the frame is empty | `delta_upper[p] >= max_lower` | medium, not executed | `DeltaFrame.ImpactFrameCanMissOptimum` | `DeltaFrame.SelectInclusiveContainsEveryOptimum` |
