# Bandit evaluation engine of `chem_analyze.py`, modelled in Dafny

`data_analysis/chem_analyze.py` compares multi-armed-bandit algorithms. It
reads trial logs: one row per simulation `num_sims` and round `horizon`,
holding the `chosen_arm` and its `reward`. This project models the engine
that turns such logs into numbers:

- the shape of a log (number of simulations, time horizon);
- the running best arm of every simulation at every round, either by
  selection count (`np.unique` plus a random pick among the tied maxima) or
  by mean observed reward (group-by mean plus a random pick);
- the accuracy curves: the fraction of simulations whose running best arm,
  or whose raw choice, is in a set of target arms (or equals one arm);
- the plotted window of a curve (`probs[ignore_first_rounds:max_horizon_plot]`);
- the arm-count report of `plot_arm_counts`: selection counts per arm and
  simulation, mean counts ranked in descending order, the top `n` arms with
  their `'/'`-joined labels, the box-plot values and the even-split baseline;
- the ground-truth averages of `calculate_true_and_etc_average`: rescaling,
  column resolution, the tuple keys, filtering, group means and the lookup
  through the inverted arm catalog;
- `highest_every_n_element`, the chunk-maximum helper.

The modules follow the program's data flow:

| file | module | what it holds |
|---|---|---|
| `results.dfy` | `Results` | the `Result` type and the error conditions the Python code raises on |
| `seqs.dfy` | `Seqs` | counting, `np.unique`, maxima, sums, Python slicing |
| `triallog.dfy` | `TrialLog` | log rows, the log shape, per-simulation rows, truncation to a prefix of rounds |
| `catalog.dfy` | `Catalog` | the arm catalog (`arms.pkl`), its inversion, labels |
| `runningbest.dfy` | `BestArm` | running best arm by count and by mean reward, with the tie-break injected |
| `accuracy.dfy` | `Accuracy` | hit counts, probabilities, zero-filled and broadcast matrices |
| `curves.dfy` | `Curves` | the accuracy curves of the five evaluation functions and the plotted window |
| `armcounts.dfy` | `ArmCounts` | the arm-count report of `plot_arm_counts` |
| `groundtruth.dfy` | `GroundTruth` | the true averages of `calculate_true_and_etc_average` |
| `chunks.dfy` | `Chunks` | `highest_every_n_element` |

Randomness is a parameter. `np.random.choice` becomes a `Chooser`: a
function of the simulation, the round and the number of tied arms that
returns a draw. The draw picks a tied arm by position, taken modulo the tie
count. `AnyTiedArmCanBeChosen` shows that every tied arm can be the result.
The `scaler` passed to the ground-truth code is also a parameter. Its body
(`utils.scaler`) is not part of this model.

Every Python exception on the modelled paths becomes a `Failure` with its
own error value:

- `np.max` on an empty log;
- a simulation with more rows than the horizon, for the zero-filled
  `best_arms` matrix;
- a numpy broadcast mismatch in the raw-choice matrix;
- a `KeyError` in the arm catalog, in the group means and in the
  inverted-catalog lookup;
- the `assert len(l) == 1` of the column resolution;
- assigning an empty key list to a non-empty table (an empty example arm);
- an empty catalog in the baseline division;
- a positional index out of range;
- `//` by a chunk width of zero.

## Model

| member | source | states |
|---|---|---|
| TrialLog.LogShape | data_analysis/chem_analyze.py:602-603 | fails exactly on an empty log; otherwise every row's simulation and round lie below the shape and some row attains each bound |
| TrialLog.SimRows | data_analysis/chem_analyze.py:608 | `df.loc[df['num_sims'] == n]`: every row returned carries simulation `n`; `TrialLog.SimRowsMembers` states that they are exactly those rows, in log order |
| TrialLog.SimRowsMembers | data_analysis/chem_analyze.py:608 | the rows `df.loc[df['num_sims'] == n]` are exactly the log's rows carrying simulation `n` |
| TrialLog.TruncateMembers | data_analysis/chem_analyze.py:512 | the truncated log holds exactly the rows before round `m` |
| TrialLog.WellOrderedRounds | data_analysis/chem_analyze.py:607-609 | in a log whose simulations list rounds 0, 1, 2, ... the `t`-th row of a simulation is its round `t` |
| TrialLog.TruncateSimRows | data_analysis/chem_analyze.py:512 | dropping the rounds from `m` on keeps exactly the first `m` rows of every simulation |
| TrialLog.SimRowsWithinHorizon | data_analysis/chem_analyze.py:603-605 | in a well-ordered log no simulation has more rows than `time_horizon`, so the `best_arms` rows fit |
| TrialLog.ShapeFromBounds | data_analysis/chem_analyze.py:602-603 | the shape is determined by bounds on every row plus a row reaching each bound |
| TrialLog.TruncatedShape | data_analysis/chem_analyze.py:602-603 | truncating a well-ordered log before round `m` keeps the simulation count and makes the horizon `m` |
| TrialLog.FirstRowOfRound | data_analysis/chem_analyze.py:607-609 | in a well-ordered log, a simulation that reached round `r` has a row for every earlier round |
| Seqs.Unique | data_analysis/chem_analyze.py:610 | `np.unique` returns the distinct values, strictly increasing, and nothing else |
| Seqs.UniqueCountsSum | data_analysis/chem_analyze.py:610 | the `return_counts` of `np.unique` add up to the length of the prefix |
| Seqs.Window | data_analysis/chem_analyze.py:512 | Python's slice `s[lo:hi]` for non-negative bounds, clamped to the length: its length, and each entry is the source entry at the shifted index |
| BestArm.Pick | data_analysis/chem_analyze.py:611 | the random draw lands on one of the tied arms |
| BestArm.RunningBest | data_analysis/chem_analyze.py:607-611 | the `best_arms[n, :]` loop (and its mean-reward twin at lines 646-652) gives one entry per row of the simulation; `BestArm.RunningBestIsTopScore` states that entry `t` is an arm chosen in `data[:t+1]` with no chosen arm scoring higher |
| BestArm.TiesOf | data_analysis/chem_analyze.py:611 | keeps exactly the arms of `u` scoring `m`, in increasing order when `u` is |
| BestArm.Ties | data_analysis/chem_analyze.py:610-611 | the tie list is non-empty, strictly increasing (the order `np.unique` and the group-by give) and holds only arms chosen in the prefix; `BestArm.TiesAreTopScores` states that it holds exactly the top-scoring arms |
| BestArm.TiesAreTopScores | data_analysis/chem_analyze.py:611 | an arm is in the tie list exactly when it was chosen and no chosen arm scores higher (`counts == max(counts)`, `mean == max`) |
| BestArm.OnlyArmSoFar | data_analysis/chem_analyze.py:609-611 | after one row the only candidate is the arm of that row |
| BestArm.RunningBestPrefix | data_analysis/chem_analyze.py:609-611 | the best arm at round `t` depends only on `data[:t+1]`: the running best of a prefix is the prefix of the running best |
| BestArm.RunningBestIsTopScore | data_analysis/chem_analyze.py:607-611 | the arm recorded at round `t` was chosen in the first `t + 1` rounds and scores at least as well as every arm chosen so far; at round 0 it is the first arm |
| BestArm.RunningBestByCountIsMostChosen | data_analysis/chem_analyze.py:609-611 | by count: the recorded arm occurs in `data[:t+1]` and no value occurs more often |
| BestArm.RunningBestByMeanIsHighest | data_analysis/chem_analyze.py:648-652 | by mean reward: the recorded arm was chosen and every chosen arm's mean reward is at most its mean |
| BestArm.AnyTiedArmCanBeChosen | data_analysis/chem_analyze.py:611 | every arm tied for the top score is recorded under some outcome of the random draw |
| Accuracy.Hits | data_analysis/chem_analyze.py:613-615 | `boo.sum(axis=0)` at round `t` counts at most the number of simulations; `Accuracy.HitsIsSetSize` states that it is the size of the set of simulations whose arm at `t` is a target |
| Accuracy.HitsIsSetSize | data_analysis/chem_analyze.py:613-616 | the count `boo.sum(axis=0)` at round `t` is the number of simulations whose arm at `t` is a target |
| Accuracy.Fraction | data_analysis/chem_analyze.py:616 | `counts / n_simulations` is the real number that times the simulation count gives the hit count, between 0 and 1 |
| Accuracy.Probabilities | data_analysis/chem_analyze.py:613-616 | one probability per round in [0, 1]; times the number of simulations it is the size of the set of simulations whose arm at that round is a target arm |
| Accuracy.ArmHitsIsSingletonHits | data_analysis/chem_analyze.py:780-783 | testing `x == arm` counts the same simulations as testing membership in `[arm]` |
| Accuracy.ArmProbabilitiesAreSingletonProbabilities | data_analysis/chem_analyze.py:779-783 | the per-arm curve of the scope-expansion plot is the accuracy curve of the singleton target |
| Accuracy.ZeroPadded | data_analysis/chem_analyze.py:605-611 | a `best_arms` row holds the simulation's entries and zeros after its last row |
| Accuracy.ZeroFilledMatrix | data_analysis/chem_analyze.py:605-611 | succeeds exactly when every row fits the horizon; the matrix then has each row zero-padded |
| Accuracy.ZeroFilledMatrixFailsAtFirst | data_analysis/chem_analyze.py:607-611 | the failure names the first simulation with more rows than `time_horizon` |
| Accuracy.BroadcastRow | data_analysis/chem_analyze.py:384 | numpy row assignment succeeds for a full-length list or a single value, copies or broadcasts it, and raises otherwise |
| Accuracy.BroadcastMatrix | data_analysis/chem_analyze.py:381-384 | succeeds exactly when every simulation's list has length horizon or one; each row is then that list broadcast |
| Curves.BestRows | data_analysis/chem_analyze.py:607-611 | one running-best row per simulation, as long as that simulation's rows |
| Curves.BestArmCurve | data_analysis/chem_analyze.py:605-616 | succeeds exactly when every simulation fits the horizon; the result is the accuracy curve: entry `t` is the fraction of simulations whose running best at `t` is a target |
| Curves.MatrixIsBestAtRound | data_analysis/chem_analyze.py:605-611 | the zero-filled matrix holds at `[n][t]` the running best arm of simulation `n` at round `t` |
| Curves.RoundHits | data_analysis/chem_analyze.py:613-615 | the hit count at round `t` is the number of simulations whose running best at `t` is a target |
| Curves.CurveCountsMatches | data_analysis/chem_analyze.py:613-616 | the probabilities of the best-arm matrix form the accuracy curve of the log |
| Curves.LogCurve | data_analysis/chem_analyze.py:602-616 | an empty log fails; otherwise the curve exists exactly when every simulation fits the horizon, and it is the accuracy curve |
| Curves.AccuracyBanditAlgos | data_analysis/chem_analyze.py:581-618 | `get_accuracy_bandit_algos`: the accuracy curve under the selection-count criterion, with its failure cases |
| Curves.AccuracyRandomExploration | data_analysis/chem_analyze.py:636-657 | `get_accuracy_random_exploration`: the accuracy curve under the mean-reward criterion, with its failure cases |
| Curves.WellOrderedLogHasCurve | data_analysis/chem_analyze.py:602-616 | a non-empty well-ordered log always has an accuracy curve |
| Curves.TruncatedBestAtRound | data_analysis/chem_analyze.py:609-611 | dropping rounds from `m` on changes no running best before `m` |
| Curves.TruncatedMatchingSims | data_analysis/chem_analyze.py:613-615 | dropping rounds from `m` on changes no set of matching simulations before `m` |
| Curves.TruncatedFits | data_analysis/chem_analyze.py:602-605 | the truncated well-ordered log is non-empty, has horizon `m` and fits it |
| Curves.TruncatedCurve | data_analysis/chem_analyze.py:602-616 | the curve of the log truncated at round `m` is the first `m` entries of the full curve |
| Curves.PlottedWindow | data_analysis/chem_analyze.py:509-513 | `probs[ignore:]` when `max_horizon_plot` is 0, else `probs[ignore:max_horizon_plot]`: its length and its entries |
| Curves.PlotDependsOnlyOnPlottedRounds | data_analysis/chem_analyze.py:509-513 | the plotted window of the full curve equals the window of the curve computed from the plotted rounds only |
| Curves.ChoiceRows | data_analysis/chem_analyze.py:383-384 | one list per simulation id below the count; list `n` is as long as id `n` occurs in the log, and an arm is in it exactly when some log row of simulation `n` chose it |
| TrialLog.SimRowsCounts | data_analysis/chem_analyze.py:383-384 | the rows of simulation `n` are as many as the occurrences of `n` in the `num_sims` column |
| TrialLog.SimArmsMembers | data_analysis/chem_analyze.py:383-384 | an arm is among simulation `n`'s chosen arms exactly when a log row of simulation `n` chose it |
| Curves.RawMatrixIsRawAtRound | data_analysis/chem_analyze.py:381-384 | the broadcast matrix holds at `[n][t]` the arm simulation `n` chose at round `t` (or its single choice) |
| Curves.RawRoundHits | data_analysis/chem_analyze.py:386-387 | `np.count_nonzero(np.isin(...))` at round `t` is the number of simulations whose raw choice at `t` is a target |
| Curves.RawCurveCountsMatches | data_analysis/chem_analyze.py:386-388 | the probabilities of the raw-choice matrix form the raw-choice curve |
| Curves.ProbsChoosingBestArm | data_analysis/chem_analyze.py:376-388 | an empty log fails; otherwise the curve exists exactly when every simulation's choices broadcast, and it is the raw-choice curve |
| Curves.ScopeExpansionAccuracy | data_analysis/chem_analyze.py:759-783 | one curve per arm of interest, each equal to the count-criterion accuracy curve of that single arm |
| Curves.ArmCurvesAreSingletonCurves | data_analysis/chem_analyze.py:779-783 | the `==` curves of the scope-expansion plot are the `x in [arm]` curves of `get_accuracy_bandit_algos` |
| Catalog.Resolve | data_analysis/chem_analyze.py:240 | `arms_dict[ii]` succeeds exactly for a known index and raises `KeyError` otherwise |
| Catalog.ResolveAll | data_analysis/chem_analyze.py:240 | the list of arms succeeds exactly when every index is known; otherwise it fails at the first unknown index |
| Catalog.InverseIndex | data_analysis/chem_analyze.py:241 | the inverted catalog maps a tuple to the last index listing it |
| Catalog.InverseRoundTrip | data_analysis/chem_analyze.py:241 | inverting and resolving gives every index back exactly when no tuple is listed twice |
| Catalog.Label | data_analysis/chem_analyze.py:78 | the label exists exactly for a known index |
| Catalog.Labels | data_analysis/chem_analyze.py:78 | `arm_names` succeeds exactly when every ranked arm is known, and entry `k` is the label of arm `k` |
| Catalog.SplitJoin | data_analysis/chem_analyze.py:78 | splitting a `'/'`-join gives the parts back when no part contains `'/'` |
| Catalog.LabelRoundTrip | data_analysis/chem_analyze.py:78 | an arm's label determines the arm when no condition label contains `'/'` |
| ArmCounts.ArmRowsCount | data_analysis/chem_analyze.py:70 | an arm's group holds as many rows as the arm was chosen |
| ArmCounts.CellIsPairCount | data_analysis/chem_analyze.py:70 | the `count()` cell of `(chosen_arm, num_sims)` is the number of rows with that pair |
| ArmCounts.SimCountIsPairCount | data_analysis/chem_analyze.py:70 | counting an arm in one simulation's choices gives the same number as the group-by cell |
| ArmCounts.SimCountsSumToRows | data_analysis/chem_analyze.py:70 | a simulation's per-arm counts add up to its number of rows |
| ArmCounts.SelectionCounts | data_analysis/chem_analyze.py:81 | one count per simulation that chose the arm; `ArmCounts.ArmSimsMembers` says which simulations those are and `ArmCounts.SelectionCountsSumToPulls` that the counts add up to the arm's selections |
| ArmCounts.ArmSimsMembers | data_analysis/chem_analyze.py:70 | the group-by lists a simulation under an arm exactly when the arm was chosen in it |
| ArmCounts.SelectionCountsSumToPulls | data_analysis/chem_analyze.py:70-73 | an arm's per-simulation counts add up to its total number of selections |
| ArmCounts.ChosenArmHasSims | data_analysis/chem_analyze.py:70-73 | every chosen arm has at least one simulation in the group-by, so its mean is defined |
| ArmCounts.MeanSelections | data_analysis/chem_analyze.py:72-73 | the `('reward', 'mean')` cell of a chosen arm is its number of selections divided by the number of simulations that chose it, a positive number no larger than the selections, and is at least 1 |
| ArmCounts.Ratio | data_analysis/chem_analyze.py:73 | the true quotient: it times the divisor gives the dividend |
| ArmCounts.MeanIgnoresAbsentSims | data_analysis/chem_analyze.py:70-73 | an arm's mean count divides its selections by the number of simulations that chose it, not by all simulations |
| ArmCounts.MeanAtLeastOne | data_analysis/chem_analyze.py:73 | every mean count is at least 1 |
| ArmCounts.ArmMeans | data_analysis/chem_analyze.py:73 | one entry per chosen arm, in arm order |
| ArmCounts.ArmMeansEntries | data_analysis/chem_analyze.py:73 | the entries are exactly the chosen arms paired with their mean counts |
| ArmCounts.InsertRanked | data_analysis/chem_analyze.py:73-74 | insertion adds exactly the new entry |
| ArmCounts.InsertKeepsRanked | data_analysis/chem_analyze.py:73-74 | insertion keeps the descending order |
| ArmCounts.SortRanked | data_analysis/chem_analyze.py:73-74 | `sort_values(ascending=False)` gives a permutation in descending mean order |
| ArmCounts.SliceStop | data_analysis/chem_analyze.py:75-77 | the stop of `[:top_n]` never passes the length |
| ArmCounts.RankedArmMeans | data_analysis/chem_analyze.py:73-74 | the ranked table is a descending permutation of the arm means |
| ArmCounts.TopArms | data_analysis/chem_analyze.py:75-77 | `[:top_n]` of the ranked table: its length and its order |
| ArmCounts.TopArmsEntries | data_analysis/chem_analyze.py:75-77 | the kept entries are distinct chosen arms with their mean counts |
| ArmCounts.TopArmsAreTop | data_analysis/chem_analyze.py:73-77 | an arm left out has a mean no higher than any kept arm; with `top_n` at least the arm count, every chosen arm is kept |
| ArmCounts.CountBaseline | data_analysis/chem_analyze.py:87 | `max_horizon / len(arms_dict)`: fails on an empty catalog, else the true quotient |
| ArmCounts.BaselineIsEvenSplit | data_analysis/chem_analyze.py:87 | the baseline is a full simulation's rows split evenly over the catalog |
| ArmCounts.TopArmIndexes | data_analysis/chem_analyze.py:77 | `arms_indexes`: `top_n` of the chosen arms (clamped as a slice), each chosen at least once, none twice, in non-increasing order of mean selection count |
| ArmCounts.AtPositions | data_analysis/chem_analyze.py:82 | positional indexing succeeds exactly when every position is in range, and returns the entries at those positions, negative ones counted from the end |
| ArmCounts.Position | data_analysis/chem_analyze.py:82 | the offset a Python position names: itself when non-negative, counted from the end otherwise, always inside the sequence |
| ArmCounts.BoxPlotArmsAsWritten | data_analysis/chem_analyze.py:82 | line 82 as written: it raises exactly when some ranked arm index is not a valid position in the list of chosen arms, and otherwise gives, for each ranked arm, the chosen arm found at the position its index names |
| ArmCounts.BoxPlotArmsAgreeWhenDense | data_analysis/chem_analyze.py:81-82 | when the chosen arms are exactly 0, 1, ..., the positional lookup returns the ranked arms |
| ArmCounts.AtOwnPositions | data_analysis/chem_analyze.py:82 | on an index that is 0, 1, ..., positions are labels |
| ArmCounts.BoxPlotArmsAsWrittenFails | data_analysis/chem_analyze.py:81-82 | a one-row log choosing arm 1 makes the positional lookup fail |
| ArmCounts.BoxPlotValues | data_analysis/chem_analyze.py:81-84 | one box per ranked arm |
| ArmCounts.BoxesMatchBars | data_analysis/chem_analyze.py:70-84 | each box is non-empty, adds up to the arm's selections and averages to the bar's mean count |
| ArmCounts.ArmCountsPlot | data_analysis/chem_analyze.py:66-87 | fails on an empty log, an unknown ranked arm or an empty catalog, and otherwise reports the ranked arms, their labels, the baseline, and one non-empty box per ranked arm whose counts average to that arm's bar |
| GroundTruth.Rescale | data_analysis/chem_analyze.py:237-238 | when some yield exceeds 2 every yield goes through the scaler; otherwise the table is unchanged |
| GroundTruth.MatchingColumns | data_analysis/chem_analyze.py:247 | exactly the columns holding the label, in increasing order |
| GroundTruth.ResolveColumns | data_analysis/chem_analyze.py:244-249 | succeeds exactly when every label of the example is in exactly one column, which it returns |
| GroundTruth.ResolveColumnsFailsAtFirst | data_analysis/chem_analyze.py:246-248 | the failed `assert` is the one of the first label not in exactly one column |
| GroundTruth.Keys | data_analysis/chem_analyze.py:250 | row `r`'s key is the tuple of its values in the resolved columns |
| GroundTruth.QueryKeys | data_analysis/chem_analyze.py:250 | assigning the keys fails exactly when there is no key column and the table has rows (the empty `zip` has the wrong length); otherwise it gives the keys |
| GroundTruth.Filter | data_analysis/chem_analyze.py:252-253 | the kept keys and yields stay aligned, are no more than the rows, and every kept key is an arm of interest from the table; `GroundTruth.FilterKeepsArmYields` states that each such arm keeps all its yields |
| GroundTruth.FilterKeepsArmYields | data_analysis/chem_analyze.py:252-253 | filtering to the arms of interest keeps every such arm's yields unchanged |
| GroundTruth.GroupMean | data_analysis/chem_analyze.py:256-259 | `means[arm]` exists exactly when the arm has rows, and is their mean |
| GroundTruth.CollectMeans | data_analysis/chem_analyze.py:256-259 | succeeds exactly when every arm has rows, with each arm's group mean |
| GroundTruth.CollectMeansFailsAtFirst | data_analysis/chem_analyze.py:258-259 | the `KeyError` is raised for the first arm without rows |
| GroundTruth.PickAverages | data_analysis/chem_analyze.py:257-260 | the final lookup succeeds exactly when each index is the one the inverted catalog gives its tuple, and fails at an index shadowed by a later duplicate |
| GroundTruth.TrueAverages | data_analysis/chem_analyze.py:237-260 | the failure order: unknown index, no arm of interest, unresolvable columns, an empty example arm over a non-empty table; on success one average per index |
| GroundTruth.TrueAveragesAreTrueMeans | data_analysis/chem_analyze.py:250-260 | each average is the mean of all rescaled yields keyed by that arm in the whole table |
| GroundTruth.TrueAveragesSucceed | data_analysis/chem_analyze.py:241-260 | when every arm's reference mean exists (which needs a non-empty example arm), success holds exactly when no index is shadowed, so always for a bijective catalog |
| GroundTruth.MeansReachLookup | data_analysis/chem_analyze.py:250-260 | when every arm's reference mean exists, the result is the final lookup applied to one mean per index |
| GroundTruth.FilteredArmHasRows | data_analysis/chem_analyze.py:252-253 | an arm of interest with a reference mean still has rows after the filter |
| GroundTruth.TrueAveragesMissingArm | data_analysis/chem_analyze.py:250-259 | an arm without a reference mean makes the whole computation fail: with `ArmNotInGroundTruth`, or with the key-length error when the example arm is empty and the table has rows |
| Chunks.FloorDiv | data_analysis/chem_analyze.py:1589-1590 | `len(arr) // n` and `len(arr) % n`: quotient times `n` plus remainder is the length, and the remainder is below `n` |
| Chunks.FloorDivUnique | data_analysis/chem_analyze.py:1589-1590 | these two numbers are the only quotient and remainder |
| Chunks.Chunk | data_analysis/chem_analyze.py:1593 | `arr[ii*n:(ii+1)*n]`: its length and its entries |
| Chunks.WholeChunkMaxima | data_analysis/chem_analyze.py:1592-1593 | the loop gives one maximum per whole chunk |
| Chunks.HighestEveryN | data_analysis/chem_analyze.py:1587-1596 | fails for width 0; otherwise one entry per chunk, the last possibly short, each the maximum of its chunk |
| Chunks.ResidualEntry | data_analysis/chem_analyze.py:1594-1595 | with a remainder, there is one extra entry, the maximum of `arr[-n_residual:]` |
| Chunks.PeelIsChunkMaxima | data_analysis/chem_analyze.py:1587-1596 | peeling `n` elements at a time meets the same chunk-maximum description |
| Chunks.ChunkMaximaUnique | data_analysis/chem_analyze.py:1587-1596 | the chunk-maximum description determines the result |
| Chunks.HighestEveryNIsPeel | data_analysis/chem_analyze.py:1587-1596 | the loop-and-residual result equals the peeling definition |
| Chunks.WidthOneIsIdentity | data_analysis/chem_analyze.py:1587-1596 | with width 1 the result is the array itself |
| Chunks.WideChunkIsGlobalMax | data_analysis/chem_analyze.py:1594-1595 | an array no longer than the width gives its maximum alone |
| Chunks.GlobalMaxKept | data_analysis/chem_analyze.py:1587-1596 | the result keeps the array's maximum |

## Left out

- Plotting, figure files, `plt`, the legend and colour asserts (lines 357, 462, 739, 774), the heat maps and the GIF are rendering, not computation.
- File I/O is left out. `pd.read_csv`, `pickle.load` and `np.load` become parameters holding the log, the catalog and the ground-truth table. The frozen explore-then-commit curve is not read.
- The standard deviations of the bar plot (line 73, `'std'`) are left out. They are plot error bars and need floating-point square roots.
- Explore-then-commit sampling (lines 262-270) and `calculate_etc_accuracy` (lines 275-306) are left out. They draw samples from a random generator whose distribution the model does not capture.
- `plot_cumulative_reward` (lines 861-917) is left out. It is outside the core modelled here.
- `utils.scaler` is not part of this model. It is a parameter of `GroundTruth.Rescale`.
- Floats are modelled as exact reals. Rounding in `counts / n_simulations` and in the means is not modelled.
- `highest_every_n_element` with a negative `n` is not modelled: the width is a `nat`. Width 0 is modelled as an error.
- Arms with equal mean counts are ranked by arm index. The default pandas sort (quicksort) is not stable, so the source fixes no order among such arms.
- The ground-truth table is modelled with text-valued condition columns and one real-valued yield column. Mutating the caller's DataFrame in place is not modelled.
- A simulation id missing from the log is not an error. Its `best_arms` row stays all zeros, as with the source's `np.zeros`.
- GroundTruth.CollectMeans: its contract states only the kind of failure (`ArmNotInGroundTruth`). The first arm without rows is stated by `GroundTruth.CollectMeansFailsAtFirst`.
- Accuracy.ZeroFilledMatrix: its contract states only when it fails. Which simulation it names is stated by `Accuracy.ZeroFilledMatrixFailsAtFirst`.
- Accuracy.BroadcastMatrix: its contract states when it fails but not which simulation the error names.
- ArmCounts.AtPositions: its contract states when it fails but not which position the error names.
- ArmCounts.ArmCountsPlot: the boxes are looked up by arm label, not by position as line 82 does. The source's `IndexError` there and its boxes given to the wrong arm are not reproduced; they are modelled apart by `ArmCounts.BoxPlotArmsAsWritten` (see Findings).
- Catalog.InverseIndex and `ArmCatalog`: the catalog is a sequence, so its keys are assumed to be exactly 0 to N-1, inserted in increasing order. The "last index" of a tuple is then the last key in the dict's iteration order. Sparse or negative keys, or keys inserted in another order, are not modelled.
- Seqs.Window and Curves.PlottedWindow: slice bounds are non-negative (`nat`). Negative `ignore_first_rounds` or `max_horizon_plot`, which Python counts from the end, are not modelled.
- Curves.TruncatedCurve and Curves.PlotDependsOnlyOnPlottedRounds hold for each outcome of the tie-break draws, keyed by simulation and round and shared by both runs. They say nothing about one seed of a sequential `np.random` stream, which the two runs would consume differently.

## Findings

| source | as written | input that shows it | evidently intended | confidence | as-written member | corrected member |
|---|---|---|---|---|---|---|
| data_analysis/chem_analyze.py:81-82 | `x.index[[int(a) for a in arms_indexes]]` uses arm indices as positions in the index of chosen arms | a log with one row (simulation 0, round 0, arm 1): the only chosen arm is 1, the ranked arm is 1, and position 1 is out of range for an index of length 1 | look the boxes up by arm label (`x.loc[arms_indexes]`), so every ranked arm gets its own box | not executed | ArmCounts.BoxPlotArmsAsWritten, ArmCounts.BoxPlotArmsAsWrittenFails | ArmCounts.BoxesMatchBars |

The positional lookup agrees with the lookup by label only when the chosen
arms are exactly 0, 1, 2, ... (`ArmCounts.BoxPlotArmsAgreeWhenDense`). When
some arm is never chosen, it either raises or gives a ranked arm the box of
another arm. `ArmCounts.ArmCountsPlot` uses the lookup by label
(`ArmCounts.BoxPlotValues`).
