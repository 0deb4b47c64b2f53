# Discrete core of the CS478 machine-learning toolkit

Java coursework learners built on a `Matrix` class. This project models the parts of
them that are counting, bookkeeping and parsing rather than floating-point training.

- **Decision tree** (`decision_tree.dfy`). The `EntrySet` snapshot holds nominal feature
  codes and a target class per row.
  - It counts values per column and (value × class) pairs.
  - It splits the snapshot into one snapshot per value of a column. The column is deleted,
    later columns move left, and each target stays with its row.
  - It yields the per-column contingency tables that the information gains are computed from.
- **k-means** (`kmeans.dfy`). The `CentroidMap` class holds:
  - the row-to-centroid assignments and the members of each centroid;
  - the distance lists recorded per row;
  - the nearest-centroid rule, which takes the first minimum and uses a strict `<`;
  - the centroid update: a nominal feature becomes the most common known value, ties going
    to the smaller value; a numeric feature becomes the mean of the known values, or the
    `Double.MAX_VALUE` marker when there are none.
- **k-nearest neighbours** (`instance_based_learner.dfy`).
  - The `Directory` is a map of row to distance holding at most `size` entries. On overflow
    it evicts an entry with the largest distance.
  - The learner keeps a set of ignored rows. It only ever grows, by `train`, and is filtered out in
    `predict`.
- **Drivers** (`ml_system_manager.dfy`, `clustering_manager.dfy`).
  - Both drivers parse the command line.
  - The supervised driver looks up the learner by name.
  - It computes the cross-validation fold boundaries `i*n/folds`.
  - It checks the arguments of the random hold-out and cross-validation modes.

**How the model is written.**
- The source updates counters, maps and fields in loops. Those loops are methods with
  loop invariants. Each is specified against a function of its inputs, such as `Matching`,
  `Closest`, `AssignedAfter`, `Added` or `Scan`.
- Lemmas state what those functions mean.
- Each parser constructor runs the argv loop. Its result is the pure function `Parse`.
- The round-trip lemmas use a reference grammar (`Opt`, `Render`, `Apply`).
- The drivers' `System.exit` after a usage message and the `Exception` messages they throw
  become error values: `UsageError`, or a `Result` failure carrying the message the source
  throws. The index, number-format and arithmetic exceptions the learners can raise get no
  error value: preconditions exclude them, as listed under "## Left out".

**Inputs taken as given.** I/O, `Random`, the distance functions and `Matrix` are not part
of this model. Parameters stand in for them:
- the distances from each row to each centroid;
- the distances from the query to each stored row;
- the distance score of each training row;
- the rows of the data set, already shuffled;
- the indices of the randomly chosen first centroids;
- the floating-point means of the numeric centroid features;
- the double product `trainPercent * data.rows()` of the random hold-out.

## Model

| member | source | states |
|---|---|---|
| DecisionTree.FeatureCounts | src/DecisionTree.java:108-117 | one slot per value of the column; slot `v` is the number of rows whose column holds `v`; the slots add up to the number of rows |
| DecisionTree.CountsSumToRows | src/DecisionTree.java:108-117 | when every code is below `n`, the per-value row counts add up to the number of rows |
| DecisionTree.FeatureClassCounts | src/DecisionTree.java:119-131 | one slot per target class; slot `c` counts the rows with value `v` and class `c`; the slots add up to the number of rows with value `v` |
| DecisionTree.CountClass | src/DecisionTree.java:124-127 | a matching row raises the slot of its own class by one, keeping every slot equal to its class's count and the total equal to the rows seen |
| DecisionTree.MatchingExact | src/DecisionTree.java:144-146 | a row is selected for value `v` exactly when its column holds `v` |
| DecisionTree.MatchingAscending | src/DecisionTree.java:143-161 | the selected rows are listed in their source order, each once |
| DecisionTree.DeleteAt | src/DecisionTree.java:149-158 | the row loses one cell; columns before `col` keep their place and later columns move left by one |
| DecisionTree.DeleteColumn | src/DecisionTree.java:149-158 | the cell-by-cell copy produces exactly the row with column `col` deleted |
| DecisionTree.Partition | src/DecisionTree.java:139-163 | the snapshot for value `v` is rectangular with one column fewer, and has as many rows as there are rows with value `v` |
| DecisionTree.SelectPartition | src/DecisionTree.java:139-163 | the copy loop with the `newRow` cursor builds exactly the partition: the matching rows in order, column deleted, each with its own target |
| DecisionTree.CopyRow | src/DecisionTree.java:146-160 | copying a matching row into slot `newRow` extends the partition built so far by that row and its target |
| DecisionTree.SplitOnFeature | src/DecisionTree.java:133-167 | exactly `valueCount(col)` partitions; partition `v` is `Partition(e, col, v)`; partition sizes add up to the number of rows |
| DecisionTree.FeatureInfoGainTables | src/DecisionTree.java:78-106 | exactly one entry per column, each the (value × class) contingency table of that column |
| KMeans.Closest | src/KMeans.java:194-205 | the nearest-centroid scan yields -1 or an index of the distances |
| KMeans.ClosestIsFirstMin | src/KMeans.java:194-205 | the scan gives -1 exactly when no distance is below `Double.MAX_VALUE`; otherwise it gives the lowest index attaining the minimum |
| KMeans.FirstMinUnique | src/KMeans.java:200-204 | at most one index of a distance list is its first minimum, so "the first nearest centroid" names a single centroid |
| KMeans.ClosestCentroid | src/KMeans.java:194-205 | the inner loop computes the scan `Closest` |
| KMeans.AssignedAfterSpec | src/KMeans.java:191-207 | after the row loop each row has its nearest centroid; keys already assigned beyond the rows keep their value |
| KMeans.MembersAfterSpec | src/KMeans.java:191-207 | after the row loop centroid `c` holds its previous members plus exactly the rows nearest to it |
| KMeans.DistancesAfterSpec | src/KMeans.java:196-199 | after the row loop each row's list has that row's distances appended; other lists are unchanged |
| KMeans.ChangedSpec | src/KMeans.java:190-207 | the loop reports a change exactly when some row was unassigned or gets a different centroid |
| KMeans.CentroidMap.constructor | src/KMeans.java:136-166 | iteration 1, no assignments, `k` empty clusters, one empty distance list per row, centroid `i` a copy of the chosen row |
| KMeans.CentroidMap.Assign | src/KMeans.java:348-359 | reports a change exactly when the row had no centroid or another one; records the new centroid; adds the row to its members without removing it from other clusters; nothing else changes |
| KMeans.CentroidMap.Clear | src/KMeans.java:395-399 | every cluster loses its members and every row its distances; assignments and centroids stay |
| KMeans.CentroidMap.MakeAssignments | src/KMeans.java:184-211 | clears only when the iteration is above 1; then assignments, members, distances and the change flag are those of assigning every row to its nearest centroid |
| KMeans.CentroidMap.AssignRows | src/KMeans.java:190-208 | the row loop's effect on assignments, members, distances and the change flag |
| KMeans.CentroidMap.AssignRow | src/KMeans.java:193-207 | one row's distances are recorded and the row is assigned to `Closest` of them |
| KMeans.OccurrencesAdd | src/KMeans.java:223-236 | counting one more member adds one occurrence of its value and none of other values |
| KMeans.TallyStep | src/KMeans.java:225-236 | one step of the counting loop keeps the map equal to the exact count of each known value |
| KMeans.CentroidMap.CountValues | src/KMeans.java:222-237 | the map holds exactly the known values among the members, each with its number of occurrences |
| KMeans.MostCommon | src/KMeans.java:238-247 | for any order of the entries: -1.0 for no entries, otherwise the key with the greatest count, the smaller key on equal counts |
| KMeans.CentroidMap.NominalMode | src/KMeans.java:220-248 | the most frequent known value among the members, ties to the smaller value, -1.0 when no member has a known value |
| KMeans.NominalModeUnique | src/KMeans.java:222-248 | the nominal centroid value is determined by the members alone, whatever the map's iteration order |
| KMeans.KnownAdd | src/KMeans.java:254-266 | counting one more member adds one known value exactly when the member's feature is not the marker |
| KMeans.KnownZero | src/KMeans.java:268-275 | no known value exactly when every member holds the marker in that feature |
| KMeans.CentroidMap.CountKnown | src/KMeans.java:252-266 | the counting loop of the numeric branch yields the number of members whose feature is known |
| KMeans.CentroidMap.NewFeature | src/KMeans.java:220-277 | a nominal feature gets the members' nominal mode; a numeric one gets the given mean, or `Double.MAX_VALUE` when no member has a known value |
| KMeans.CentroidMap.CalcNewCentroids | src/KMeans.java:213-280 | the iteration goes up by exactly one; every feature of every centroid is recomputed: nominal ones become the members' nominal mode, numeric ones the given mean or `Double.MAX_VALUE` when no member has a known value; assignments, members and distances are unchanged |
| InstanceBasedLearner.AddedWithinCapacity | src/InstanceBasedLearner.java:228-249 | a directory holding at most `size` entries still does after `add` |
| InstanceBasedLearner.AddedSize | src/InstanceBasedLearner.java:230-231 | re-adding a present key within capacity overwrites it and evicts nothing; the count grows only for a new key, and by at most one |
| InstanceBasedLearner.AddedKeepsValues | src/InstanceBasedLearner.java:231-248 | every other entry keeps its value; an entry that disappears was at least as far as every entry left |
| InstanceBasedLearner.AddedMayEvictNewKey | src/InstanceBasedLearner.java:230-248 | the key just added may itself be the one evicted |
| InstanceBasedLearner.Directory.constructor | src/InstanceBasedLearner.java:222-226 | an empty directory of the given size |
| InstanceBasedLearner.Directory.Add | src/InstanceBasedLearner.java:228-250 | puts the pair; on overflow exactly one entry of greatest value is removed, possibly the new one; nothing else changes |
| InstanceBasedLearner.Directory.Nn | src/InstanceBasedLearner.java:252-261 | the result lists every key of the directory exactly once and nothing else |
| InstanceBasedLearner.CandidatesSpec | src/InstanceBasedLearner.java:52-57 | the rows offered to the directory are exactly the rows that are not ignored |
| InstanceBasedLearner.KeepsNearestStep | src/InstanceBasedLearner.java:228-249 | after each `add` of a fresh row, no kept row is farther than an evicted one, and once something is evicted the directory is full |
| InstanceBasedLearner.KeepsNearestEvict | src/InstanceBasedLearner.java:231-248 | evicting a farthest row from a full directory keeps "no kept row farther than a dropped one" |
| InstanceBasedLearner.InstanceBasedLearner.constructor | src/InstanceBasedLearner.java:15-21 | one neighbour, nothing ignored |
| InstanceBasedLearner.InstanceBasedLearner.SetKNeighbors | src/InstanceBasedLearner.java:71-74 | sets the neighbour count; the ignore set is kept |
| InstanceBasedLearner.InstanceBasedLearner.Train | src/InstanceBasedLearner.java:37-44 | the ignore set grows by exactly the rows scoring above 1.0; rows ignored before stay ignored |
| InstanceBasedLearner.InstanceBasedLearner.Predict | src/InstanceBasedLearner.java:49-61 | the neighbours are distinct, never ignored, no farther than any candidate left out, and number min(candidates, capacity) |
| InstanceBasedLearner.InstanceBasedLearner.OfferCandidates | src/InstanceBasedLearner.java:51-60 | after the row loop the kept and evicted rows together are exactly the rows not ignored, and the kept ones are the nearest |
| InstanceBasedLearner.InstanceBasedLearner.OfferRow | src/InstanceBasedLearner.java:54-59 | an ignored row is skipped; any other row is added, keeping the nearest-rows invariant |
| InstanceBasedLearner.NearestSelection | src/InstanceBasedLearner.java:51-61 | a directory offered every candidate yields keys that are not ignored, no farther than any candidate left out, and as many as the capacity allows |
| MLSystemManager.ArgParser.constructor | src/MLSystemManager.java:258-341 | the argv loop, with `++i` for option values, ends in the same settings or usage error as `Parse` |
| MLSystemManager.ScanRender | src/MLSystemManager.java:261-309 | well-formed options followed by any tokens are read option by option, each taking exactly its value tokens |
| MLSystemManager.ParseRender | src/MLSystemManager.java:258-341 | round trip: a well-formed option list, spelled out, parses to its own effect, or to the usage error when `-A`, `-L` or `-E` is absent |
| MLSystemManager.FlagsConsumeNothing | src/MLSystemManager.java:263-270 | `-V` and `-N` set their flag and consume no value |
| MLSystemManager.LastValueWins | src/MLSystemManager.java:271-278 | the last `-A` (or `-L`) value wins over earlier ones |
| MLSystemManager.TrainingKeepsExtra | src/MLSystemManager.java:279-298 | `-E training` sets only the method, so an `evalExtra` set earlier survives |
| MLSystemManager.RejectsUnknownMethod | src/MLSystemManager.java:298-302 | `-E` with a method other than training, static, random or cross is rejected |
| MLSystemManager.RejectsUnknownToken | src/MLSystemManager.java:304-308 | a token that is no option, in option position, is rejected |
| MLSystemManager.RejectsMissingValue | src/MLSystemManager.java:271-324 | `-A`, `-L` or `-E` as the last token ends in the usage error |
| MLSystemManager.RejectsMissingExtra | src/MLSystemManager.java:282-324 | static, random or cross as the last token ends in the usage error |
| MLSystemManager.ScanKeepsGiven | src/MLSystemManager.java:261-309 | no option unsets a field: a value or flag once given stays given |
| MLSystemManager.ParseSuccess | src/MLSystemManager.java:326-340 | a parse succeeds exactly when the scan succeeds with `arff`, `learner` and `evaluation` all set |
| MLSystemManager.GetLearner | src/MLSystemManager.java:17-25 | a found learner is the one with that name; an unknown name gives "Unrecognized model: " + name |
| MLSystemManager.GetLearnerNames | src/MLSystemManager.java:17-25 | each of the five names selects its learner; the lookup succeeds exactly on those names; any other name gives "Unrecognized model: " + name |
| MLSystemManager.FoldBegin | src/MLSystemManager.java:212 | fold `i` begins at the floor of `i * n / folds`: the largest `b` with `b * folds <= i * n` |
| MLSystemManager.FoldEnd | src/MLSystemManager.java:213 | fold `i` ends at the floor of `(i + 1) * n / folds` |
| MLSystemManager.FoldBeginMonotone | src/MLSystemManager.java:212-213 | fold boundaries never decrease |
| MLSystemManager.FoldsTile | src/MLSystemManager.java:211-213 | the first fold begins at 0, each ends where the next begins, the last ends at `n`, and all lie in `[0, n]` |
| MLSystemManager.FoldOfRow | src/MLSystemManager.java:211-217 | every row is a test row of exactly one fold |
| MLSystemManager.FoldSize | src/MLSystemManager.java:212-213 | every fold holds `n / folds` or `n / folds + 1` test rows |
| MLSystemManager.FoldSplit | src/MLSystemManager.java:212-219 | training and test rows of a fold together have `n` rows and are, as a multiset, the data |
| MLSystemManager.TestsPrefix | src/MLSystemManager.java:211-217 | the test parts of the first `i` folds, laid end to end, are exactly the rows before fold `i` |
| MLSystemManager.TestsCover | src/MLSystemManager.java:211-217 | the test parts of all folds, laid end to end, are the data |
| MLSystemManager.CrossValidationSplits | src/MLSystemManager.java:197-219 | folds ≤ 0 gives the error "Number of folds must be greater than 0"; otherwise one split per fold, fold `i` testing rows `[i*n/folds, (i+1)*n/folds)` and training on the rest |
| MLSystemManager.TrainSize | src/MLSystemManager.java:154 | the cast of the double product, which lies in `[0, rows]`, gives the largest count not above that product, never more than `rows` |
| MLSystemManager.HoldOut | src/MLSystemManager.java:148-158 | refused exactly when the fraction is outside `[0, 1]`, with the source's message; otherwise the first `TrainSize` of the double product rows train and the rest test |
| ClusteringManager.ArgParser.constructor | src/ClusteringManager.java:88-146 | the argv loop ends in the same settings or usage error as `Parse` |
| ClusteringManager.ScanRender | src/ClusteringManager.java:93-113 | `-V`, `-N` and `-A value` options followed by any tokens are read option by option |
| ClusteringManager.ParseRender | src/ClusteringManager.java:88-146 | round trip: those options, spelled out, parse to their own effect, or to the usage error when `-A` is absent |
| ClusteringManager.RejectsOtherTokens | src/ClusteringManager.java:96-112 | any token other than `-V`, `-N` and `-A` in option position, `-L` and `-E` included, is rejected |
| ClusteringManager.RejectsTrailingArff | src/ClusteringManager.java:104-129 | `-A` as the last token ends in the usage error |
| ClusteringManager.ScanLeavesOthers | src/ClusteringManager.java:93-113 | the scan never sets `learner`, `evaluation` or `evalExtra` and never unsets `arff` |
| ClusteringManager.ParseOutcome | src/ClusteringManager.java:131-167 | after a successful parse `arff` is set and the learner, evaluation and extra getters return null; a line without `-A` is the usage error |
| ClusteringManager.AgreesWithSupervisedScan | src/ClusteringManager.java:93-113 | every command line this parser accepts is read identically by the supervised driver's scanner |

## Left out

- Entropy and information gain (`getInfo`, the logarithms in `getFeatureInfoGains`). They are floating point, so only the counts and the per-column tables they are computed from are modelled. `getInfo` also evaluates 0·log 0 for an absent class.
- Tree induction, pruning and prediction: `train` and `predict` in `DecisionTree.java` do no such thing, and `Node` is a stub.
- DecisionTree.Partition: a child snapshot's column arities are taken to be the parent's with the split column removed, and its target arity is the parent's. `Matrix.setSize` and `valueCount` are not part of this model.
- DecisionTree.FeatureCounts: every code must be an in-range integer. The missing-value marker cast to an int would index out of bounds in the source.
- DecisionTree.FeatureClassCounts: every row with the value must have a target class below `targets.valueCount(0)`. A missing or out-of-range class makes `counts[(int) targets.row(i)[0]]++` throw in the source; that exception is not modelled.
- DecisionTree.SplitOnFeature: requires the split column's codes in range, because the source reaches the same out-of-bounds exception through `featureCounts`; that exception is not modelled.
- DecisionTree.FeatureInfoGainTables: requires every column's codes in range and, when there is a column, every target class in range, for the two exceptions above; those exceptions are not modelled.
- KMeans.CentroidMap.CalcNewCentroids: the floating-point mean `sum / count` of a numeric feature is an input (`means`), not computed; the model decides only whether the mean or the `Double.MAX_VALUE` marker is stored.
- SSE/MSE, silhouette, `distance` and the termination loop of `run`: these are floating point.
- KMeans.CentroidMap.MakeAssignments: requires that every row has some distance below `Double.MAX_VALUE`. Otherwise the source calls `assign(i, -1)` and fails, a case not modelled.
- The random choice of the first centroids (`rand.nextInt`): the chosen row indices are a constructor parameter, each below the number of rows. With `k > 0` and no rows, `rand.nextInt() % data.rows()` throws `ArithmeticException` in the source; the constructor's precondition excludes that case.
- k-NN `distance`, the weighted `vote`, `getDistanceScore` and `averageDistance`: distances and scores are inputs.
- `HashMap` and `HashSet` iteration order: `Directory.add`, `nn` and the mode selection scan their maps in an unspecified order. Their contracts hold for every order.
- Perceptron and NeuralNet: real-valued training with random initial weights.
- `Integer.parseInt` and `Double.parseDouble`: the fold count is given as an integer and the training fraction as an exact real. A NaN fraction, which passes the Java range check, has no counterpart.
- MLSystemManager.TrainSize, used by MLSystemManager.HoldOut: the product `trainPercent * data.rows()` is rounded to a double before the cast, and that rounding is not modelled; the product is an input, only known to lie in `[0, rows]`. Its floor can be one below the floor of the exact product: 0.29 with 100 rows gives 28.999999999999996 and so 28 training rows, not 29.
- MLSystemManager.FoldBegin and MLSystemManager.FoldEnd: `i * data.rows()` and `(i + 1) * data.rows()` are computed in 32-bit `int` in the source. The model uses unbounded integers and does not capture wrap-around for very large inputs.
- MLSystemManager.CrossValidationSplits: the training, accuracy measurement, timing and result-file writing done for each fold are not modelled; only the (train, test) split of each fold is.
- Data loading, normalisation, shuffling (`data.shuffle(rand)`), console output and `results.csv`: I/O and randomness. The evaluation modes receive the rows already shuffled.
- The calls `new DecisionTree(rand)`, `setPrune`, `nodeCount` and `depth` in `MLSystemManager.java`, and the cast to `InstanceBasedLearner` in the static mode, do not match the learner classes shown. They are not modelled.
- The parsers' getters: they return the fields, which the model exposes as `Settings` and the `ArgParser` fields.
