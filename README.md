# basicrta Gibbs sampler: a Dafny model of its bookkeeping

basicrta fits a mixture of exponential distributions to a set of residence
times. Its `Gibbs` class (basicrta/gibbs.py) does this in four steps:

- the constructor derives the time step `ts` from the durations;
- `_prepare` allocates the chain arrays and sets the priors;
- `run` walks a Markov chain for `niter` iterations. Each iteration draws one
  component label per observation. It then counts observations (`Ns`) and
  sums durations (`Ts`) per component, and draws new mixture weights
  (Dirichlet) and rates (Gamma) from the posterior. Every `g`-th state is
  checkpointed into three arrays: weights, rates and the `uint8` labels;
- `_process_gibbs` drops the burn-in rows and keeps the entries whose weight
  exceeds a cutoff. It takes the most frequent number of survivors per row as
  the reduced component count and clusters the surviving (weight, rate)
  pairs. It then turns, for each observation, the clusters its checkpointed
  labels fall into into membership fractions.

This project models all of that bookkeeping. The random draws and the
clustering are replaced by oracle functions that the caller supplies. Their
shapes are stated as preconditions: `Sampler.ValidDraws` and
`Processing.ValidClustering`. Numbers are Dafny `real`s.

The modules follow the source's steps:

| module | file | what it holds |
|---|---|---|
| `Types` | types.dfy | `Option`, `Result`, the three error cases, the `uint8` cell type `byte` |
| `Arith` | arith.dfy | division facts shared by the schedule and the reduction |
| `Sums` | sums.dfy | sums of real and natural sequences |
| `TimeStep` | timestep.dfy | `ts` (lines 34-38) |
| `Initial` | initial.dfy | the initial guesses and the priors (lines 61-62, 67-69) |
| `Posterior` | posterior.dfy | `Ns`, `Ts` and the posterior parameters (lines 84-92) |
| `Schedule` | schedule.dfy | array sizes and checkpoint rows (lines 54-58, 72, 95-98) |
| `Sampler` | sampler.dfy | the chain as a function of the draws (lines 65-92) |
| `Reduction` | reduction.dfy | burn-in skip, cutoff filter, `lens`, mode, `iteration` (lines 110-118) |
| `Membership` | membership.dfy | the membership counts and their normalisation (lines 122-133) |
| `Processing` | processing.dfy | `_process_gibbs` end to end on the array contents |
| `GibbsSampler` | gibbs.dfy | class `Gibbs`, whose `Run` writes the three chain arrays in place |

How the source is read:

- Lines 55, 57-58, 77 and 95-96 use bare names `g` and `x`. The class defines
  neither name, so as written these lines raise `NameError`. The model reads
  them as `self.g` and `self.times`, which is what the surrounding code
  means.
- `scipy.stats.mode` returns the smallest of the equally frequent values.
  `Reduction.Mode` makes that choice, so ties are broken deterministically.
- Line 130 is taken as written (see Findings). The aligned variant is
  modelled beside it.

Some definitions are plain transcriptions of source lines and carry no row
of their own. The members that state what they mean do:

- `TimeStep.TimeStep` and `TimeStep.InitialTimeStep` (lines 34-38): `TimeStep.TimeStepCharacterised`.
- `Initial.InitialWeights` and `Initial.InitialRates` (lines 67-69): `Initial.InitialWeightsDistribution`, `Initial.InitialWeightsDecreasing`, `Initial.InitialRatesDecreasing`.
- `Initial.DirichletPrior` and `Initial.GammaPrior` (lines 61-62): `Initial.DirichletPriorTotal`, `Initial.PriorsPositive`.
- `Posterior.Occurrences`, `Posterior.Counts` and `Posterior.Totals` (lines 84-88): `Posterior.OccurrencesCounts`, `Posterior.CountsPartition`, `Posterior.TotalsPartition`, `Posterior.LabelledTotal`.
- `Posterior.PosteriorOf` (lines 84-92): `Posterior.PosteriorPositive`, `Sampler.LabelStatistics`.
- `Schedule.NumRows` (lines 55-58) and `Schedule.CheckpointRow` (lines 95-96): `Schedule.CheckpointRowIff`, `Schedule.CheckpointRowInBounds`, `Schedule.UnwrittenRows`.
- `Types.ToByte`, the `uint8` store (line 98), which keeps a label modulo 256: `GibbsSampler.Gibbs.StoredLabelsExact`.
- `Processing.Contents`, a two-dimensional array read row by row: `GibbsSampler.Gibbs.Run`, `GibbsSampler.Gibbs.ProcessGibbs`.
- `Reduction.Skip`, NumPy's `m[b:]`, which gives no rows past the end (lines 110-111): `Reduction.SurvivorsSpec`, `Processing.ReduceFails`.
- `Reduction.RowSurvivors`, `Reduction.CountAbove`, `Reduction.Survivors` and `Reduction.Lens` (lines 112, 114): `Reduction.RowSurvivorsSpec`, `Reduction.SurvivorsSpec`.
- `Reduction.CheckpointIndex` (line 113): `Reduction.CheckpointIndexEq`, `Reduction.CheckpointIndexSpec`.
- `Processing.Gather` and `Processing.Stack` (lines 117-120): `Processing.GatheredPositive`, `Processing.ReduceSelection`.
- `Membership.MatchCount`, `Membership.Tally` and `Membership.CountMatrix` (lines 127-131): `Membership.Accumulate`, `Membership.RowTotal`, `Membership.MatchesAtMostGroups`.
- `Membership.NormaliseRow`, `Membership.Normalise` and `Membership.FractionAt`, each fraction being count over row total (line 133): `Membership.NormaliseRowSpec`, `Membership.FractionsSumToOne`, `Membership.FractionBounded`.
- `Processing.Reduce` (lines 110-133): `Processing.ReduceFails`, `Processing.ReduceSelection`, `Processing.ReduceMembership`, `Processing.ProcessChain`.

With more than 256 components the stored labels wrap around, and line 130
then matches a label `256 + c` as component `c`; the model keeps that
wrap-around.

## Model

| member | source | states |
|---|---|---|
| TimeStep.Sort | basicrta/gibbs.py:35 | `np.sort` returns an ascending permutation of the durations: sorted, same multiset |
| TimeStep.Min | basicrta/gibbs.py:35 | the head of the sorted durations is an element of them and no larger than any of them |
| TimeStep.FirstGapSorted | basicrta/gibbs.py:35-36 | on sorted durations a non-zero adjacent gap exists iff some value differs from the first; the first such gap is positive and leads from the smallest value to the next distinct value, with nothing in between |
| TimeStep.TimeStepCharacterised | basicrta/gibbs.py:34-36 | `ts` exists iff the durations hold two distinct values (otherwise line 36 raises); it is then positive, `min + ts` is a duration, and no duration lies strictly between `min` and `min + ts` |
| GibbsSampler.Gibbs.constructor | basicrta/gibbs.py:29-38 | stores the durations, K and `niter` (defaults 15 and 50000); `g` is 100 and `burnin` 10000; `ts` is `None` without durations and otherwise the characterised time step or its failure |
| Initial.InitialWeightsDistribution | basicrta/gibbs.py:68-69 | for K >= 1 the initial weights are K positive numbers summing to one |
| Initial.InitialWeightsDecreasing | basicrta/gibbs.py:68-69 | each initial weight is a tenth of the one before, so they strictly decrease with the index |
| Initial.InitialRatesDecreasing | basicrta/gibbs.py:67-69 | the reversed initial rates are `0.5 * 10^(1-i)`: they start at 5, are positive and strictly decrease |
| Initial.DirichletPriorTotal | basicrta/gibbs.py:61 | the uniform concentration `1/K` sums to one over the K components |
| Initial.PriorsPositive | basicrta/gibbs.py:61-62 | the default priors have K entries, all concentrations positive, and Gamma prior (1, 3) per component |
| Posterior.LabelledTotal | basicrta/gibbs.py:88 | a component's total duration is non-negative when the durations are |
| Posterior.OccurrencesCounts | basicrta/gibbs.py:84-87 | `Ns[k]` is the size of the set of observation indices labelled k |
| Posterior.CountsPartition | basicrta/gibbs.py:84-87 | with every label in [0, K) the counts add up to the number of observations |
| Posterior.TotalsPartition | basicrta/gibbs.py:84-88 | with every label in [0, K) the per-component totals add up to the total duration |
| Posterior.PosteriorPositive | basicrta/gibbs.py:91-92 | with positive priors and non-negative durations every Dirichlet concentration, Gamma shape and Gamma scale is positive; concentration and shape exceed their priors by exactly `Ns[k]`; the scale is at most the prior's reciprocal rate |
| Sampler.DrawLabels | basicrta/gibbs.py:77-81 | an iteration draws one label per observation, each in [0, K) |
| Sampler.Resample | basicrta/gibbs.py:91-92 | an iteration's new state has K weights and K rates |
| Sampler.MixtureAt | basicrta/gibbs.py:65-92 | the state after any positive number of iterations has K weights and K rates |
| Sampler.LabelsAt | basicrta/gibbs.py:72-81 | the labels of iteration j are N labels in [0, K) |
| Sampler.InitialMixtureShape | basicrta/gibbs.py:67-69 | the initial state has K weights and K rates for every K, including K = 0 |
| Sampler.DrawsExist | basicrta/gibbs.py:77-92 | draws of the shapes the chain needs exist whenever K >= 1 or there are no observations, so `Run`'s precondition can be met |
| Sampler.LabelStatistics | basicrta/gibbs.py:84-92 | for any labelling into K components: the default priors are valid, `sum(Ns) == N`, `sum(Ts) == sum(times)`, and the parameters handed to both draws are positive |
| Sampler.IterationStatistics | basicrta/gibbs.py:72-92 | the same holds for the labels the chain draws in every iteration |
| Schedule.CheckpointRowIff | basicrta/gibbs.py:95-96 | iteration j writes row r iff j is the (r+1)-th multiple of g |
| Schedule.CheckpointRowInBounds | basicrta/gibbs.py:95-97 | every row that iterations 1..niter write lies inside the `(niter+1)//g` rows allocated at lines 55-58, for any niter and g |
| Schedule.CheckpointsDistinct | basicrta/gibbs.py:95-98 | two different iterations never write the same row |
| Schedule.RecordedStep | basicrta/gibbs.py:72-98 | running iteration j adds exactly its own checkpoint row to the rows written so far |
| Schedule.RecordedAtEnd | basicrta/gibbs.py:72-98 | after all iterations, row r has been written iff r < niter // g |
| Schedule.WrittenRowsExactly | basicrta/gibbs.py:72-98 | the set of rows the loop writes is exactly {0, ..., niter//g - 1}, so it has niter // g elements |
| Schedule.UnwrittenRows | basicrta/gibbs.py:54-58 | at most one allocated row is never written: the last one, exactly when g divides niter + 1 |
| GibbsSampler.Gibbs.StoredLabelsExact | basicrta/gibbs.py:98 | with at most 256 components every stored `uint8` label equals the label iteration (r+1)*g drew, so line 130's comparison with a component index compares the drawn label |
| GibbsSampler.Gibbs.CheckpointRatesPositive | basicrta/gibbs.py:92-97 | every checkpointed rate is a Gamma draw and so positive |
| GibbsSampler.Gibbs.CheckpointWeightsDistribution | basicrta/gibbs.py:91-97 | every checkpointed weight vector is a Dirichlet draw: its entries are non-negative and sum to one (to zero when K = 0) |
| GibbsSampler.Gibbs.Prepare | basicrta/gibbs.py:46-62 | allocates three fresh zero-filled arrays of `(niter+1)//g` rows (K, K and N columns) and sets the uniform Dirichlet prior and the Gamma prior (1, 3) |
| GibbsSampler.Gibbs.Step | basicrta/gibbs.py:76-92 | from the state after j-1 iterations, one iteration yields the labels of iteration j and the state after j iterations |
| GibbsSampler.WriteRow | basicrta/gibbs.py:97-98 | a row assignment overwrites exactly row r with v and leaves every other cell unchanged |
| GibbsSampler.Record | basicrta/gibbs.py:95-98 | one checkpoint step keeps the invariant that rows already reached hold their checkpoint and all others their previous contents |
| GibbsSampler.Gibbs.Store | basicrta/gibbs.py:95-98 | iteration j moves all three arrays from "checkpoints up to j-1 stored" to "checkpoints up to j stored" |
| GibbsSampler.Gibbs.Run | basicrta/gibbs.py:65-98 | after `niter` iterations, row r < niter//g of the weight, rate and label arrays holds the weights, rates and `uint8` labels of iteration (r+1)*g; the rows no iteration reaches keep their previous contents |
| Reduction.RowSurvivorsSpec | basicrta/gibbs.py:112 | one row's survivors are exactly its entries above the cutoff, by increasing component, `len(row[row > cutoff])` of them |
| Reduction.SurvivorsSpec | basicrta/gibbs.py:112-114 | the pairs `np.where` lists are exactly the entries above the cutoff, in strictly increasing row-major order; row r holds `lens[r]` of them and there are `sum(lens)` in all |
| Reduction.SurvivorsMembers | basicrta/gibbs.py:112 | a pair is listed iff its entry exists and exceeds the cutoff |
| Reduction.SurvivorsOrder | basicrta/gibbs.py:112 | the pairs come in strictly increasing row-major order |
| Reduction.SurvivorsPerRow | basicrta/gibbs.py:112-114 | row r contributes exactly `lens[r]` pairs |
| Reduction.SurvivorsTotal | basicrta/gibbs.py:112-114 | the number of pairs is `sum(lens)` |
| Reduction.Mode | basicrta/gibbs.py:115 | `stats.mode(lens)` is a value of lens that occurs at least as often as any other, and the smallest such value |
| Reduction.ModeAmong | basicrta/gibbs.py:115 | the best candidate is a candidate, at least as frequent as every other, and the smallest among equally frequent ones |
| Reduction.ModeAtMostSurvivors | basicrta/gibbs.py:114-121 | the reduced component count never exceeds the number of surviving pairs, so KMeans always gets at least `ncomp` samples |
| Reduction.CheckpointIndexEq | basicrta/gibbs.py:113 | `arange(burnin, niter+1, g)[r] // g` is the absolute chain row `burnin//g + r` |
| Reduction.CheckpointIndexSpec | basicrta/gibbs.py:113 | for every post-burn-in row r the `arange` has an entry to index, so line 113 never reads past its end, and that entry names row `burnin//g + r` |
| Membership.Accumulate | basicrta/gibbs.py:122-131 | the nested loops fill a fresh N×ncomp matrix whose cell (t, c) counts the surviving pairs that observation t matches and that the clustering put in cluster c |
| Membership.NormaliseRowSpec | basicrta/gibbs.py:133 | a normalised row is undefined (NaN) iff its counts are all zero; otherwise its entries lie in [0, 1], are proportional to the counts and sum to one |
| Membership.FractionsSumToOne | basicrta/gibbs.py:133 | a row with a non-zero count normalises to fractions summing to one |
| Membership.FractionBounded | basicrta/gibbs.py:133 | each fraction lies in [0, 1] |
| Membership.RowTotal | basicrta/gibbs.py:127-131 | an observation's counts, summed over the clusters, equal the number of pairs it matches |
| Membership.GroupsAreDistinctRows | basicrta/gibbs.py:127 | on row-major pairs the row changes count the distinct rows `np.unique(inds[0])` visits |
| Membership.MatchesAtMostGroups | basicrta/gibbs.py:127-131 | an observation gains at most one count per distinct surviving row, since one row's pairs have distinct components and the observation has one label there |
| Membership.MembershipOf | basicrta/gibbs.py:122-133 | the membership matrix has N rows; row t is undefined iff observation t matched no pair, and otherwise holds ncomp fractions summing to one; the matches never outnumber the distinct surviving rows |
| Membership.AlignedIgnoresBurnIn | basicrta/gibbs.py:130 | with the label row aligned to the weight row, the counts depend only on the labels stored after the burn-in |
| Membership.AsWrittenReadsBurnIn | basicrta/gibbs.py:130 | as written the counts read burn-in labels: a concrete chain whose one survivor is labelled 0 after the burn-in gives a 0/0 row, where the aligned reading gives `[1.0]` |
| Processing.ProcessChain | basicrta/gibbs.py:109-133 | the imperative reduction (in-place accumulation, then normalisation) computes exactly the reduction function |
| Processing.GatheredPositive | basicrta/gibbs.py:117-121 | the gathered weights and rates are all positive, so `np.log` of them is finite, iff every post-burn-in weight above the cutoff and the rate beside it are positive |
| Processing.ReduceFails | basicrta/gibbs.py:112-121 | the reduction fails exactly when no row follows the burn-in, the modal survivor count is zero, or a survivor's weight or rate is not positive; it fails with `NonFiniteLog` exactly in the last case once the first two pass |
| GibbsSampler.Gibbs.RunLeavesWeightRows | basicrta/gibbs.py:54-58 | on the arrays a fresh `_prepare` and `run` leave, every weight is non-negative; the rows `run` writes sum to one, and the one row it leaves unwritten, which exists exactly when g divides niter + 1, keeps its zeros and sums to zero |
| GibbsSampler.Gibbs.RunLeavesLogDefined | basicrta/gibbs.py:117-121 | on the arrays a fresh `_prepare` and `run` leave, every weight above a non-negative cutoff, and its rate, is positive, whatever the burn-in; so there the log failure cannot occur |
| Processing.OneClusterValid | basicrta/gibbs.py:121 | the clustering that puts every sample in cluster 0 meets the clustering precondition |
| Processing.ReduceCanSucceed | basicrta/gibbs.py:109-133 | a concrete two-row chain with a one-row burn-in reduces successfully to one survivor from chain row 1, one component and a full membership for its observation |
| Processing.ReduceReadsBurnIn | basicrta/gibbs.py:109-133 | on the whole reduction of a concrete chain whose observation is labelled 1 in the burn-in row and 0 in the surviving row, line 130 as written gives an undefined (0/0) membership row, and the aligned reading gives `[1.0]` |
| Processing.ReduceSelection | basicrta/gibbs.py:110-121 | on success `ncomp` is the smallest most frequent survivor count, between 1 and the number of survivors; weights, rates, labels and iteration have one entry per survivor; every kept weight exceeds the cutoff; every weight and rate handed to KMeans is positive; every cluster label is below ncomp; `iteration` names absolute chain rows |
| Processing.ReduceMembership | basicrta/gibbs.py:122-133 | on success the membership has N rows, every label row read exists, row t is undefined iff observation t matched no survivor and otherwise holds ncomp fractions summing to one, and the matches never outnumber the distinct surviving rows |
| GibbsSampler.Gibbs.ProcessGibbs | basicrta/gibbs.py:109-140 | `_process_gibbs` as written (default cutoff `1e-4`) returns the reduction of the chain arrays' contents with post-burn-in row j reading label row j |
| GibbsSampler.Gibbs.ProcessGibbsAligned | basicrta/gibbs.py:109-140 | the corrected `_process_gibbs` returns the reduction with post-burn-in row j reading label row `burnin//g + j`, the row its weights came from |

## Left out

- The random draws: the responsibilities and `np.exp` (lines 77-78), the multinomial draw (line 81), and `rng.dirichlet` and `rng.gamma` (lines 91-92). They are oracle functions in `Sampler.Draws`, indexed by the iteration, with the shapes the source relies on. No distributional property of the sampler is modelled.
- `KMeans(...).fit(np.log(data))` (lines 120-121). It is an oracle `cluster` that returns one label in [0, n_clusters) per sample. The logarithm is not computed; the model keeps only its failure, `NonFiniteLog`, which KMeans raises when a survivor's weight or rate is not positive. `KMeans(n_clusters=ncomp)` is built without a fixed `random_state`, so `km.labels_` may differ from one call to the next; the oracle is one fixed function, so the model does not capture that run-to-run variation.
- `get_s` (lines 47-48). It lives in basicrta/util.py, which is not part of this model, and its results `t` and `s` are never read by the modelled code.
- The file system: the residue directory (lines 50-51) and the memory map files (lines 54-56, 123-125). In the model the label chain is an in-memory `array2<byte>` that `_process_gibbs` reads directly. Also left out are `_save_results`, `load_results` and the `results` record (lines 100-106, 135-139, 143-168).
- `residue`, `loc`, the tqdm progress bar (lines 72-74), `__str__` and `__call__`. They do not affect any value.
- `hist_results` and `plot_results` (lines 169-230), and the command-line driver scripts/gibbs.py. This is plotting and argument parsing.
- Floating point. All arithmetic is on mathematical reals, so `tmpw / tmpw.sum()` sums to exactly one, where with floats it sums to one within rounding.
- GibbsSampler.Gibbs.constructor: `if times:` on a NumPy array of more than one element raises `ValueError`. The model treats any non-empty sequence as true; only the empty case gives `None`.
- Processing.Reduce: `stats.mode` of an empty list and `KMeans` with zero clusters both raise or misbehave in the libraries. The model returns `Failure(EmptyReduction)` for both, checked before the log failure, since KMeans checks its cluster count before its data; the libraries' exact exceptions are outside this model.
- Sampler.ValidDraws: with observations but no component (K = 0), line 81 draws from an empty category list and raises. The precondition cannot be met there, so `Run` does not model that failure (`Sampler.DrawsExist` shows it can be met in every other case).
- Membership.NormaliseRow: NumPy's NaN row from 0/0 is the `Undefined` case of `MembershipRow`, not a row of NaN floats.

## Findings

| source | as written | input that shows it | evidently intended | confidence | as-written member | corrected member |
|---|---|---|---|---|---|---|
| basicrta/gibbs.py:130 | `indicator[j]` reads label row j, where j is a row of `mcweights[burnin_ind:]`, so every j reads chain row j instead of burnin//g + j; the rows with j < burnin//g are burn-in rows (a quarter of the rows read under the defaults niter = 50000, g = 100, burnin = 10000, and all of them when at most burnin//g rows follow the burn-in), and the others read a checkpoint burnin//g rows too early | one-row burn-in, surviving pair (0, 0), cluster labels [0], label rows [[1], [0]]: as written the observation's membership row is 0/0, aligned it is [1.0]; `Processing.ReduceReadsBurnIn` shows the same on the whole reduction | `indicator[burnin_ind + j]`, the label row stored with the weights being counted | high (not executed) | Membership.AsWrittenReadsBurnIn | Membership.AlignedIgnoresBurnIn |
