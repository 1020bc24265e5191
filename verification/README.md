# Entity-resolution scoring and repository gates, verified

This project models the evaluation and gate scripts of the goldenmatch repository in Dafny and
proves what they promise. Two families of code are covered.

**Scoring.** A clustering is a partition of rows; a pair set is a graph on rows; the scripts turn
one into the other, count agreeing pairs and rank scored pairs.

- `EvalBenchmark.dfy`: the union-find with path halving, the canonical cluster numbering, the
  all-pairs-per-group generator, and the round trip between them.
- `BenchIdentityControlPlane.dfy`: the partition built by a stable sort, with a spanning chain or
  all pairs as evidence; collapsing either gives the labels back.
- `FsSingleMkProbe.dfy`: the contingency-table count of agreeing pairs against the O(n^2) count.
- `FsQualityMetrics.dfy`, `FsQualityTheorems.dfy`: average precision and best F1, per pair and per
  tie group; the exactness of grouping, sharp bounds, and invariance under rescaling.
- `BenchNativeKernels.dfy`: the block-offset pair loop against brute force over block keys, and what its
  triples say of the weighted similarities.
- `BlockingHeadroom.dfy`: candidate pairs of a blocking key and of a refined key.
- `DiffFrameBackends.dfy`: the canonical form by which two results are compared.

**Gates.** Scripts that must answer exactly when something is wrong.

- `CheckDeadCode.dfy`: reachability of modules and the deferral gate.
- `CheckLlmsCounts.dfy`, `CountStatements.dfy`: a rewriter of stated counts and the checker it has to
  satisfy; what a stated count looks like in the text.
- `CheckTsParityFreshness.dfy`: the tolerant difference of JSON trees.
- `CheckMainHealth.dfy`: the selected run and the life of the tracking issue over any run of scans.
- `CoveragePaths.dfy`, `CheckClaudeRefs.dfy`, `CheckApiParity.dfy`: a path normaliser, a basename
  index, and an exact-partition gate with its bootstrap.

Shared vocabulary lives in `Connectivity.dfy` (walks in a pair set), `Partitions.dfy` (agreeing
pairs, C(n, 2), counters, buckets), `Clusterings.dfy`, `ScoreTables.dfy` (the declarative meaning of
the ranking metrics), `Rates.dfy`, `Bags.dfy`, `Sorting.dfy`, `Orders.dfy`, `Strings.dfy`,
`TextCells.dfy`, `Decimals.dfy` and `Options.dfy`. `dafny verify dfyconfig.toml` checks everything.

## How the code is modelled

Loops of the source are methods with loops, proved against functions or predicates; the parent map
of the union-find, the tracker's issue list and a checked file are fields of classes. Counts are
natural numbers (Python's integers are unbounded), scores and rates are reals, characters are
Unicode scalar values. What a script reads from the outside (clusterings, imports found, JSON
documents, GitHub runs and issues, descriptors) is a parameter.

Places where the code and what is said about it differ, each settled by a lemma:

- The module docstring of `scripts/_fs_quality_metrics.py` (line 23) says average precision is at
  least the positive rate. `FsQualityTheorems.BelowBaseRate` gives a ranking where it is 5/12 with
  rate 1/2, and `BaseRateBoundExactly` shows the claim holds for all rankings of t true and f false
  pairs exactly when t = 1 or f = 0. The bound that always holds is `AveragePrecisionFloor`, and
  `FloorIsAttained` shows it cannot be raised.
- `ranking_metrics_grouped` divides by zero exactly when there is a true pair and the top-scored
  group holds no pair (`FsQualityMetrics.RankingMetricsGrouped`; `EmptyTopDividesByZero` is such an
  input).
- The probe scores a result that has at least one cluster, and the comment at lines 163-165 promises
  that the clusters cover every row, singletons included. A row outside every cluster breaks this: all
  such rows share the label `None` and count as one cluster more. The predicted pairs are then those
  inside clusters and in addition all pairs of left-over rows
  (`FsSingleMkProbe.PredictedPairsCountStrays`), and the true pairs found are those inside clusters and
  in addition the pairs of left-over rows of one entity (`FoundPairsCountStrays`). So the denominator of
  precision is that of the clusters exactly when at most one row is left over, and tp, the numerator of
  precision and of recall, exactly when no two left-over rows are the same entity. In
  `TwoStraysAreAPair` a single cluster of one row earns a true positive.
- `latest_main_run` looks at one page of 20 runs; `CheckMainHealth.PageMissesAutomaticRun` says
  exactly when that hides an automatic run, and `ManualRunsCanFillThePage` shows it. The tracker
  search has the same page size: `TrackerFollowsExactlyWithinPage` says that a scan does what it
  should exactly when the tracker is on the page. Beyond it a red scan opens a second tracker and a
  clean scan leaves the first one open (`LabelledIssuesCanHideTheTracker`).
- The compound blocking key drops rows with an empty title key, which the base key keeps;
  `BlockingHeadroom.YearIsFreeExactlyWhenTruthAgrees` has the exact condition for equal recall, and
  `YearCanLoseATruePair` an input that loses it.
- Golden records are keyed by comma-joined row keys. No record is lost exactly when the joined keys
  of the rows written differ (`DiffFrameBackends.GoldenKeepsEveryRow`), which for comma-free row keys
  means one golden row per cluster (`CommaFreeKeysLoseNothing`). With commas a record can be lost
  (`CommasCollide`, a clustering of four rows). The row keys the script itself makes, such as `r000`
  and `F0000` (lines 93 and 228), hold no comma.
- A surface that a parity manifest leaves out is not checked at all: `CheckApiParity.NewNameIsCaught`
  is exact, and `EmptyManifestIsClean` is the extreme case.
- A path that begins with '.' or '/' inside the package normalises to a different name when the
  report gives it alone (`CoveragePaths.SpellingsCollapse`, exact, and `DottedPathHasTwoNames`).

The declared exceptions of `check_llms_counts.py` are lines named by a marker. Its one marker holds no
digit, and that is what makes the rewrite lose no count (`CheckLlmsCounts.DigitFreeMarkersHideNothing`);
`DigitMarkersCanHideCounts` shows why a marker added later should hold none either.

## Model

| member | source | states |
|---|---|---|
| EvalBenchmark.Forest.constructor | scripts/eval_benchmark.py:168 | every record starts as its own representative, in an acyclic forest over exactly the ids |
| EvalBenchmark.HalvingKeepsForest | scripts/eval_benchmark.py:172 | pointing a node at its grandparent keeps the forest acyclic and leaves every record's representative and level as they were |
| EvalBenchmark.LinkKeepsForest | scripts/eval_benchmark.py:179 | linking two different roots keeps the forest acyclic and merges exactly their two classes |
| EvalBenchmark.Forest.Find | scripts/eval_benchmark.py:170-174 | terminates and returns the representative, a root; halving changes no class |
| EvalBenchmark.Forest.Union | scripts/eval_benchmark.py:176-179 | afterwards exactly the two classes are one and every other record keeps its representative |
| EvalBenchmark.RepresentsUnion | scripts/eval_benchmark.py:176-183 | merging the classes of a pair keeps "same representative" equal to "connected by the live pairs" |
| EvalBenchmark.UnionAll | scripts/eval_benchmark.py:181-183 | after all pairs, representatives agree exactly for records connected by pairs with both ends among the ids |
| EvalBenchmark.NumberClasses | scripts/eval_benchmark.py:185-194 | one number per class, numbered by first appearance in the id order |
| EvalBenchmark.NumbersAreContiguous | scripts/eval_benchmark.py:187-193 | numbers given by first appearance are exactly 1..k |
| EvalBenchmark.NumberingIsUnique | scripts/eval_benchmark.py:185-194 | two first-appearance numberings of the same partition are the same numbering |
| EvalBenchmark.GtPairsToSeries | scripts/eval_benchmark.py:158-198 | ids are equal exactly for connected records and are numbered 1..k by first appearance |
| EvalBenchmark.SeriesIsCanonical | scripts/eval_benchmark.py:158-198 | the whole series is the same for any order and orientation of the pairs |
| EvalBenchmark.WriteMembers | scripts/eval_benchmark.py:144-146 | a record is written exactly if some cluster lists it, with the id of the last such cluster |
| EvalBenchmark.ClustersToSeries | scripts/eval_benchmark.py:140-155 | covered records get the id of the last cluster that lists them, the others different ids above every id in use |
| EvalBenchmark.AssignmentDecidesClusters | scripts/eval_benchmark.py:141-152 | for disjoint clusters two records share an id exactly when they share a cluster; no singleton collides |
| EvalBenchmark.NcvrPairs | scripts/eval_benchmark.py:366-375 | the pairs generated are exactly the index pairs i < j with equal labels |
| EvalBenchmark.ChainConnects | scripts/eval_benchmark.py:369-375 | pairs that stay inside labels and include each label's chain connect all rows of a label |
| EvalBenchmark.SpanningPairsRecoverLabels | scripts/eval_benchmark.py:366-387 | in such a pair set two rows are connected exactly when their labels are equal |
| EvalBenchmark.SeriesRecoversLabels | scripts/eval_benchmark.py:158-198 | the union-find over any such pair set returns the label partition, numbered by first appearance |
| EvalBenchmark.NcvrReference | scripts/eval_benchmark.py:366-387 | labels to all pairs to union-find gives the label partition back |
| Clusterings.PredictedAgreement | scripts/bench_fs_single_mk_probe.py:177-181 | for disjoint clusters two rows have equal predicted labels exactly if they share a cluster or neither is covered |
| Clusterings.PredictedIsLast | scripts/bench_fs_single_mk_probe.py:177-181 | a row gets the label of the last cluster that lists it, whatever the clusters |
| FsSingleMkProbe.AssignPredictions | scripts/bench_fs_single_mk_probe.py:177-181 | the array filled by index holds each row's predicted label; members outside the table are ignored |
| FsSingleMkProbe.Tabulate | scripts/bench_fs_single_mk_probe.py:182-190 | the three counters tally the cells, the truth and the predictions |
| Partitions.TallyCountsPairs | scripts/bench_fs_single_mk_probe.py:192-197 | the sum of C(count, 2) over a counter is the number of index pairs with equal labels |
| FsSingleMkProbe.ZipAgreement | scripts/bench_fs_single_mk_probe.py:188-195 | pairs agreeing on the joint label are those agreeing on both labels |
| FsSingleMkProbe.PairwiseQuality | scripts/bench_fs_single_mk_probe.py:177-200 | tp, predicted and true pairs are the brute-force pair counts, and precision, recall and F1 their ratios |
| FsSingleMkProbe.QualityBounds | scripts/bench_fs_single_mk_probe.py:195-200 | tp is at most either total, all three rates lie in [0, 1], and F1 is 1 exactly if both labelings agree on the same, non-empty set of pairs |
| FsSingleMkProbe.PredictedPairsCountStrays | scripts/bench_fs_single_mk_probe.py:177-196 | for disjoint clusters the predicted pairs number those inside clusters plus C(k, 2) for the k left-over rows, so they number the clusters' pairs exactly if at most one row is left over |
| FsSingleMkProbe.FoundPairsCountStrays | scripts/bench_fs_single_mk_probe.py:177-197 | for disjoint clusters tp is the number of true pairs inside clusters plus the number of true pairs of left-over rows, so it counts the clusters' true pairs exactly if no two left-over rows are the same entity |
| FsSingleMkProbe.TwoStraysAreAPair | scripts/bench_fs_single_mk_probe.py:163-181 | three rows and one cluster holding the first alone: one predicted pair, and one true pair found if the other two are the same entity, with no pair inside a cluster |
| BenchIdentityControlPlane.Argsort | scripts/bench_identity_control_plane.py:192 | every row once, by label and within a label in row order |
| BenchIdentityControlPlane.SortIsStable | scripts/bench_identity_control_plane.py:192 | sorting the first n row numbers by label alone leaves the rows of a label in their order |
| BenchIdentityControlPlane.SplitRunsAreRuns | scripts/bench_identity_control_plane.py:193-195 | cutting the sorted order where the label changes gives one maximal run per label, labels increasing |
| BenchIdentityControlPlane.GroupsAreRows | scripts/bench_identity_control_plane.py:192-195 | the groups are, label by label, the rows of that label in increasing order |
| BenchIdentityControlPlane.FullScores | scripts/bench_identity_control_plane.py:206-210 | the keys are exactly all pairs a < b of members |
| BenchIdentityControlPlane.SpanningScores | scripts/bench_identity_control_plane.py:211-214 | the keys are exactly the links between neighbouring members |
| BenchIdentityControlPlane.BuildClusters | scripts/bench_identity_control_plane.py:178-217 | one cluster per label with its rows and, for two rows or more, the evidence keys of the requested density |
| BenchIdentityControlPlane.EveryRowOnce | scripts/bench_identity_control_plane.py:198-216 | every row lies in exactly one cluster |
| Partitions.ChainOfSize | scripts/bench_identity_control_plane.py:187-188 | a chain through k rows has k - 1 links |
| Partitions.PairsOfSize | scripts/bench_identity_control_plane.py:184-186 | k rows have k(k-1)/2 pairs |
| BenchIdentityControlPlane.DensityCost | scripts/bench_identity_control_plane.py:184-188 | a cluster of k rows stores k - 1 keys in spanning density and k(k-1)/2 in full density |
| BenchIdentityControlPlane.EvidenceRoundTrip | scripts/bench_identity_control_plane.py:190-217 | the union-find over the evidence of either density recovers the labels, so sparse and dense evidence yield one series |
| ScoreTables.MetricsAreUnique | scripts/_fs_quality_metrics.py:81-88 | the declarative meaning fixes every reported metric, the threshold included |
| ScoreTables.F1IsHarmonicMean | scripts/_fs_quality_metrics.py:72-76 | the F1 of a cut is the harmonic mean of its precision and recall |
| ScoreTables.BestAmongScores | scripts/_fs_quality_metrics.py:77-78 | the best cut among the scores present is the best of all cuts, and its score the largest that attains it |
| FsQualityMetrics.AddGroupKeepsSums | scripts/_fs_quality_metrics.py:70-75 | admitting a whole tie group keeps the running average precision equal to the per-pair sum of precisions so far |
| FsQualityMetrics.OfferKeepsBest | scripts/_fs_quality_metrics.py:76-78 | the running best is the highest F1 over the cuts so far, at the first score that reaches it |
| FsQualityMetrics.TakeTies | scripts/_fs_quality_metrics.py:62-69 | the inner loop takes exactly one tie group and counts all true and false pairs up to its end |
| FsQualityMetrics.WalkPairs | scripts/_fs_quality_metrics.py:54-79 | the walk ends with the sums and the best cut of the whole table |
| FsQualityMetrics.RankingMetrics | scripts/_fs_quality_metrics.py:30-88 | average precision is the mean over true pairs of the precision at their score; best F1 is the maximum over all real cuts; both degenerate answers included |
| FsQualityMetrics.WalkRows | scripts/_fs_quality_metrics.py:147-165 | the grouped walk reaches the same sums, and fails exactly on an empty top group |
| FsQualityMetrics.RankingMetricsGrouped | scripts/_fs_quality_metrics.py:91-174 | same metrics of the grouped table; division by zero exactly if there is a true pair and the top group is empty |
| FsQualityMetrics.EmptyTopDividesByZero | scripts/_fs_quality_metrics.py:156-159 | an admissible input that meets the condition of the division by zero |
| FsQualityTheorems.CollapseIsEquivalent | scripts/_fs_quality_metrics.py:103-122 | collapsing pairs to one row per score changes no cut count and no precision sum |
| FsQualityTheorems.GroupingIsExact | scripts/_fs_quality_metrics.py:103-122 | on the collapse of any scored list, rows in any order, the grouped form succeeds and returns the per-pair metrics exactly |
| FsQualityTheorems.OrderIsIrrelevant | scripts/_fs_quality_metrics.py:33-37 | the metrics depend on the multiset of scored pairs only |
| FsQualityTheorems.AveragePrecisionFloor | scripts/_fs_quality_metrics.py:21-25 | with T true and F false pairs average precision is at least the mean of i/(F+i), i = 1..T, ties included |
| FsQualityTheorems.FloorIsAttained | scripts/_fs_quality_metrics.py:21-25 | ranking all false pairs first attains the floor, for every T and F |
| FsQualityTheorems.BaseRateBoundExactly | scripts/_fs_quality_metrics.py:23 | "at least the positive rate" holds for all rankings of t true and f false pairs exactly when t = 1 or f = 0 |
| FsQualityTheorems.BelowBaseRate | scripts/_fs_quality_metrics.py:23 | two false then two true pairs give 5/12, below the positive rate 1/2 |
| FsQualityTheorems.ConstantScoreGivesBaseRate | scripts/_fs_quality_metrics.py:23-25 | a constant score has the positive rate as its average precision |
| FsQualityTheorems.AveragePrecisionCeiling | scripts/_fs_quality_metrics.py:70-75 | average precision is at most 1, and 1 exactly if every true pair scores strictly above every false pair |
| FsQualityTheorems.BestF1Floor | scripts/_fs_quality_metrics.py:76-78 | best F1 is at least 2b/(1+b) for positive rate b |
| FsQualityTheorems.RescaleBest | scripts/_fs_quality_metrics.py:13-19 | a strictly increasing map of the scores maps the best threshold along and leaves the best F1 |
| FsQualityTheorems.OnlyTheRankingCounts | scripts/_fs_quality_metrics.py:13-19 | under a strictly increasing rescaling every metric but the threshold is unchanged, and the threshold is rescaled |
| BenchNativeKernels.ComparePair | scripts/bench_native_kernels.py:83-94 | one triple with the lower row id first exactly if the weights of the fields present on both rows sum to more than zero and the weighted score reaches the threshold; a division by a zero total weight is reported exactly when it happens |
| BenchNativeKernels.LoopAddsUp | scripts/bench_native_kernels.py:85-91 | the field loop adds up the weighted similarities and the weights of the fields present on both rows, whatever their order |
| BenchNativeKernels.ComparisonPasses | scripts/bench_native_kernels.py:85-94 | comparing two rows emits something exactly if they share positive weight and the weighted similarity reaches the threshold times the total weight, from the other side if that is negative |
| BenchNativeKernels.EmitMeaning | scripts/bench_native_kernels.py:82-94 | the triple emitted is the one with the two ids, lower one first, and the weighted similarity over the total weight |
| BenchNativeKernels.BlockStretch | scripts/bench_native_kernels.py:75-95 | the k-th block occupies one stretch of offsets, holding exactly its rows |
| BenchNativeKernels.ScoreBlock | scripts/bench_native_kernels.py:77-94 | a block emits what its rows emit against all later rows with the same block id, and fails exactly if one of its comparisons does |
| BenchNativeKernels.PyLoop | scripts/bench_native_kernels.py:70-96 | the offset loop emits brute force over the block ids, in order, comparing the reported number of pairs; it fails exactly if two rows of a block share weight while the total weight is zero; otherwise its triples are those of the passing pairs: the two ids, lower one first, and a score at the threshold or above that times the total weight is the weighted similarity |
| BenchNativeKernels.GroupSizesDescribe | scripts/bench_native_kernels.py:63-67 | on rows sorted by key, blocks of the group sizes laid end to end put every row in the block of its key |
| BenchNativeKernels.BlocksEqualBruteForce | scripts/bench_native_kernels.py:63-96 | with those sizes the loop emits what comparing every two rows with equal keys emits, and fails exactly when one of those comparisons does |
| BenchNativeKernels.OneTriplePerHit | scripts/bench_native_kernels.py:79-94 | exactly one triple for each pair i < j that shares a key and passes, and no other triple |
| BenchNativeKernels.LoopOutcome | scripts/bench_native_kernels.py:70-96 | brute force over the blocks has one triple for each passing pair, said of the sums alone |
| BenchNativeKernels.PairCountIsExact | scripts/bench_native_kernels.py:112 | the sum of s(s-1)/2 is the number of row pairs that share a block |
| BenchNativeKernels.SingletonsCompareNothing | scripts/bench_native_kernels.py:111-112 | no pair is compared exactly if every block has at most one row |
| BlockingHeadroom.BuildBuckets | scripts/blocking_headroom.py:147-151 | each bucket holds the rows of its key in order; rows without a key are in none |
| BlockingHeadroom.PairsFromBuckets | scripts/blocking_headroom.py:110-117 | the candidates are exactly the row pairs with equal keys, and there are as many as C(bucket, 2) adds up to |
| BlockingHeadroom.MeasureKeys | scripts/blocking_headroom.py:130-153 | the score of the candidates of the shipped key and, if the table has a year column and any rows, of the compound key |
| BlockingHeadroom.ScoreMeasures | scripts/blocking_headroom.py:120-127 | the number of candidates; recall times the true pairs and ceiling times the candidates are the true candidates; a part of nothing is 0 |
| BlockingHeadroom.CompoundRefines | scripts/blocking_headroom.py:137-143 | the compound key's candidates are those of the base key with a non-empty title key and equal years |
| BlockingHeadroom.YearIsFreeExactlyWhenTruthAgrees | scripts/blocking_headroom.py:120-153 | recall never rises; it stays exactly if every found true pair has a non-empty title key and equal years, and then the ceiling does not fall |
| BlockingHeadroom.YearCanLoseATruePair | scripts/blocking_headroom.py:137-143 | a true pair with two years: recall falls from 1 to 0 |
| DiffFrameBackends.CanonicalClusters | scripts/diff_frame_backends.py:369-377 | the sorted list of the key lists of all clusters with two members or more, and the key list of each such cluster by its id |
| DiffFrameBackends.ListOfId | scripts/diff_frame_backends.py:371-376 | each cluster of several members has its own sorted key list under its id |
| DiffFrameBackends.IdHasCluster | scripts/diff_frame_backends.py:371-376 | an id has a key list only if a cluster of several members has that id |
| DiffFrameBackends.ClusteringLists | scripts/diff_frame_backends.py:369-376 | for a clustering the key lists by id have two keys or more, differ from one another, and are comma-free if the row keys are |
| DiffFrameBackends.CanonicalDecidesPartition | scripts/diff_frame_backends.py:369-377 | for distinct row keys the canonical clusters of two results are equal exactly if they put the same rows together |
| DiffFrameBackends.CanonicalPairs | scripts/diff_frame_backends.py:407-413 | one entry for each pair: its two row keys with the smaller one first and its rounded score, for any rounding, sorted by its keys |
| DiffFrameBackends.PairsForgetOrderAndDirection | scripts/diff_frame_backends.py:407-413 | reordering the pairs and swapping ends changes nothing when each unordered pair occurs once |
| DiffFrameBackends.EntriesOfPairs | scripts/diff_frame_backends.py:407-413 | the canonical list holds the entries of the pairs and nothing else, ends in order |
| DiffFrameBackends.CanonicalDecidesPairs | scripts/diff_frame_backends.py:407-413 | for distinct row keys and lists in which each unordered pair occurs once, the canonical pairs are equal exactly if both lists score the same unordered pairs alike after rounding |
| Orders.StringLeMeaning | scripts/diff_frame_backends.py:411-414 | strings compare at the first place where they differ, a prefix before what extends it |
| DiffFrameBackends.CanonicalGolden | scripts/diff_frame_backends.py:394-405 | the dictionary has a joined key for every row of a known cluster and no other, and the last row written under a key gives its values |
| DiffFrameBackends.GoldenKeepsEveryRow | scripts/diff_frame_backends.py:394-405 | there are as many entries as rows of known clusters exactly if the joined keys of those rows differ, and then every row is found under its own key |
| DiffFrameBackends.CommaFreeKeysLoseNothing | scripts/diff_frame_backends.py:369-405 | for a clustering with comma-free row keys no entry is lost exactly if no cluster has two golden rows |
| DiffFrameBackends.CommasCollide | scripts/diff_frame_backends.py:402 | a clustering of rows with commas in their keys whose two golden rows leave one entry |
| CheckDeadCode.AncestorsAreDottedPrefixes | scripts/check_dead_code.py:141-144 | the ancestors of a module name are exactly its proper dotted prefixes |
| CheckDeadCode.Worklist | scripts/check_dead_code.py:222-230 | the loop computes the least set that holds the roots and is closed under imports and known ancestors |
| CheckDeadCode.SweepAddsNothing | scripts/check_dead_code.py:231-233 | that set is closed under package ancestors, so the final sweep adds nothing |
| CheckDeadCode.CollectRoots | scripts/check_dead_code.py:211-220 | the roots are the entry hubs and test imports of the tree and their known ancestors |
| CheckDeadCode.RootsAddNothing | scripts/check_dead_code.py:219-220 | adding the roots' ancestors does not change what is reachable |
| CheckDeadCode.Analyze | scripts/check_dead_code.py:198-253 | orphans are the modules outside the least closed set, which are those no chain of imports leads to from an entry point or a test; uncovered, stale, phantom and test-only roots follow |
| CheckDeadCode.ReachableByRoutes | scripts/check_dead_code.py:211-233 | a module is reachable exactly if a chain leads to it from a known entry hub or a known module the tests import, each step to a module imported or to a known package above |
| CheckDeadCode.GateIsExact | scripts/check_dead_code.py:531-538 | the check passes exactly if the deferred names are the orphans |
| CheckDeadCode.MoreEdgesFewerOrphans | scripts/check_dead_code.py:203-236 | adding roots or imports never adds an orphan |
| CheckLlmsCounts.FindIterByCells | scripts/check_llms_counts.py:56-59 | scanning a text finds exactly its digit runs that are followed by white space and the words, with no character right after them that the pattern excludes |
| CountStatements.FollowsMeaning | scripts/check_llms_counts.py:56-59 | the text after the digits completes a match exactly if it is a plus where one is allowed, white space, the words, and a rest that is empty or begins with no excluded character |
| CountStatements.ReadingFollows | scripts/check_llms_counts.py:56-59 | such a match takes everything but the rest |
| CountStatements.MatchesAreCounts | scripts/check_llms_counts.py:200-204 | scanning a text finds exactly its maximal digit runs whose following text reads so, anywhere in the text |
| CountStatements.SpacesAreListed | scripts/check_llms_counts.py:56-59 | the white space of the patterns is what ends a line and nineteen blanks, listed |
| CountStatements.ExemptMeaning | scripts/check_llms_counts.py:247-258 | a position is exempt exactly if its line, ended as `splitlines` ends lines, has a marker somewhere in it |
| CountStatements.StatedMeaning | scripts/check_llms_counts.py:198-204 | the values read are those of the digit runs that state a count on a line without a marker |
| CountStatements.CountsPerStatement | scripts/check_llms_counts.py:204-222 | there are as many values as places where a count is stated |
| CountStatements.CountInText | scripts/check_llms_counts.py:204 | a count in the middle of a text is read, whatever stands before and after it |
| CountStatements.HoldsMeaning | scripts/check_llms_counts.py:204-209 | nothing is wrong exactly if every count the text states is the expected one |
| CountStatements.WrongMeaning | scripts/check_llms_counts.py:207-221 | the wrong values reported are those other than the expected one that some count states |
| CountStatements.DecodeMeaning | scripts/check_llms_counts.py:198 | reading turns every line end, "\r\n", "\r" or "\n", into one line feed and nothing else |
| Decimals.StrVal | scripts/check_llms_counts.py:204-214 | reading a numeral without leading zeros and writing it gives it back |
| Strings.ContainsMeaning | scripts/check_llms_counts.py:255 | `m in s` exactly if `s` is something, then `m`, then something |
| CheckLlmsCounts.SubGroup1 | scripts/check_llms_counts.py:161-180 | the digits of every kept match are replaced and everything between is copied; the number of replacements is returned |
| CheckLlmsCounts.AllowedSpans | scripts/check_llms_counts.py:247-258 | the spans listed are those of the lines that carry a marker |
| CheckLlmsCounts.SpansAreExempt | scripts/check_llms_counts.py:201-202 | a position is in a listed span exactly when its line carries a marker |
| CheckLlmsCounts.Surface.Exact | scripts/check_llms_counts.py:183-222 | the number of gated counts of the text as read is returned; without write the wrong values are reported and the file kept, with write the file is rewritten, with line feeds, if any is wrong |
| CheckLlmsCounts.Surface.Run | scripts/check_llms_counts.py:290-303 | the calls for one file in turn; without write the file is kept and the run passes exactly if every claim holds of it; a writing run reports nothing |
| CheckLlmsCounts.ExemptStaysExempt | scripts/check_llms_counts.py:189-191 | a rewrite that leaves the exempt lines alone leaves them exempt |
| CheckLlmsCounts.WriteThenCheck | scripts/check_llms_counts.py:183-222 | for all texts and markers: rescanning the written text finds only right counts, never more than before, and a second write changes nothing |
| CheckLlmsCounts.DigitFreeMarkersHideNothing | scripts/check_llms_counts.py:239-244 | with digit-free markers the rescan finds as many counts as before |
| CheckLlmsCounts.OnlyWrongCountsChange | scripts/check_llms_counts.py:165-166 | in the text as read, separators and all other digit runs are unchanged, in particular every exempt line; a run changes exactly if it was a gated wrong count |
| CheckLlmsCounts.OtherClaims | scripts/check_llms_counts.py:290-303 | writing for one pattern keeps right counts of another right, and with digit-free markers leaves all its counts as they were |
| CheckLlmsCounts.AllClaimsHold | scripts/check_llms_counts.py:290-303 | after writing for several mutually exclusive patterns in turn every total is right, whatever the markers |
| CheckLlmsCounts.WrittenIsClean | scripts/check_llms_counts.py:198-217 | writing brings no carriage return in, so the written file reads back as written |
| CheckLlmsCounts.RunThenCheck | scripts/check_llms_counts.py:290-303 | for patterns that exclude each other every claim holds of the file a writing run leaves, and with digit-free markers each total is stated as often as before |
| CountStatements.WrittenFileStatesTotals | scripts/check_llms_counts.py:290-303 | in the file a writing run leaves, every digit run that a pattern's words follow on an unmarked line is that pattern's total |
| CheckLlmsCounts.PackagePatternsAreSeparate | scripts/check_llms_counts.py:290-303 | the three patterns applied to a package's files exclude each other, whichever the word characters are |
| CheckLlmsCounts.DigitMarkersCanHideCounts | scripts/check_llms_counts.py:239-256 | why markers have to be digit-free: for every pattern there is a text and a one-digit marker that hides the rewritten count |
| CheckLlmsCounts.DeclaredPatternsAndMarkers | scripts/check_llms_counts.py:56-59 | the patterns and the marker in use meet the conditions of the theorems |
| CheckTsParityFreshness.DiffDecidesClose | scripts/check_ts_parity_freshness.py:94-130 | nothing is reported exactly for trees that are close: field by field and item by item within tolerance, stamps ignored, a boolean close to the number Python equates it with |
| CheckTsParityFreshness.NumCloseIsWithin | scripts/check_ts_parity_freshness.py:90-91 | two numbers are close exactly if ten thousand times their difference, either way, is at most 1 more than one of them or of their negatives |
| CheckTsParityFreshness.LeavesDiffer | scripts/check_ts_parity_freshness.py:94-105 | two numbers are reported exactly if not within that tolerance, a boolean and its counterpart exactly if they are not the same number |
| CheckTsParityFreshness.DiffIsExact | scripts/check_ts_parity_freshness.py:94-130 | the reports are exactly the differences, each with its path and its kind: fields of one tree only, and differing values met through common fields and arrays of equal length |
| CheckTsParityFreshness.NoDriftOnEqual | scripts/check_ts_parity_freshness.py:95 | equal trees are fresh |
| CheckTsParityFreshness.DiffIsMirrored | scripts/check_ts_parity_freshness.py:94-130 | both directions report the same paths in the same order, added and dropped keys exchanged |
| CheckTsParityFreshness.DiffPathsExist | scripts/check_ts_parity_freshness.py:112-127 | every reported path leads, through no ignored key, to a node of both trees, for an added key of the current tree alone and for a dropped key of the committed tree alone |
| CheckTsParityFreshness.StampsNeverCount | scripts/check_ts_parity_freshness.py:113-114 | removing the ignored keys at every depth changes no verdict |
| CheckMainHealth.ManualRunsAreInvisible | scripts/check_main_health.py:68-76 | inserting manual runs anywhere never changes the selected run |
| CheckMainHealth.SelectedIsFirstAutomatic | scripts/check_main_health.py:69-76 | the selected run is the newest automatic one |
| CheckMainHealth.NothingSelected | scripts/check_main_health.py:72-76 | nothing is selected exactly if every run is manual |
| CheckMainHealth.PageMissesAutomaticRun | scripts/check_main_health.py:123-135 | one page gives the answer of the whole history except exactly when all 20 runs are manual and an older one is automatic |
| CheckMainHealth.ManualRunsCanFillThePage | scripts/check_main_health.py:130-135 | twenty manual runs hide a failed scheduled one |
| CheckMainHealth.NoRedsWhenClean | scripts/check_main_health.py:79-82 | the red list is empty exactly if no record is red |
| CheckMainHealth.RedsAreBroken | scripts/check_main_health.py:57-82 | the red list holds the records whose conclusion is present and none of the harmless ones |
| CheckMainHealth.RedsAreSorted | scripts/check_main_health.py:82 | the red list is sorted by lower-case name |
| CheckMainHealth.RedExactlyWhenALaneIsBroken | scripts/check_main_health.py:68-156 | something is red exactly if some workflow's newest automatic run among its newest twenty has such a conclusion |
| CheckMainHealth.Repository.UpsertTracker | scripts/check_main_health.py:219-244 | create, edit or close: the whole new issue list, and which of them happened; with at most one tracker, on the page, a clean scan closes it and changes nothing else, a red one rewrites its title and body and nothing else or opens one |
| CheckMainHealth.StepKeepsOneTracker | scripts/check_main_health.py:219-244 | from at most one tracker one scan leads to one tracker if something is red and none otherwise, a new issue exactly if a red scan finds no tracker, and every issue that is not the tracker keeps its value and place |
| CheckMainHealth.OneTrackerForever | scripts/check_main_health.py:219-244 | over any sequence of scans at most one tracker is open, it is open exactly if the last scan was red, and one issue is created per clean-to-red change |
| CheckMainHealth.OthersUntouchedForever | scripts/check_main_health.py:219-244 | over any sequence of scans every issue that is not a tracker keeps its value and place |
| CheckMainHealth.ScansReconcile | scripts/check_main_health.py:219-244 | every scan of a history does to the issues left by the scans before what is said of one call |
| CheckMainHealth.TrackerSaysTheLastScan | scripts/check_main_health.py:219-235 | after any history that ends in a red scan one tracker is open, with the title and body of that scan |
| CheckMainHealth.TrackerMeaning | scripts/check_main_health.py:162-169 | a tracker is an open labelled issue, no pull request, with the marker somewhere in its body |
| CheckMainHealth.FoundWithinPage | scripts/check_main_health.py:161-170 | the tracker is found exactly if fewer than a page of labelled open issues come before it |
| CheckMainHealth.TrackerFollowsExactlyWithinPage | scripts/check_main_health.py:161-244 | with one open tracker a scan leaves one if red and none if clean exactly if fewer than a page of labelled issues come before it; beyond the page a red scan leaves two and a clean scan one |
| CheckMainHealth.LabelledIssuesCanHideTheTracker | scripts/check_main_health.py:161-170 | twenty newer labelled issues hide the tracker from a red and from a clean scan |
| CoveragePaths.NormalForm | scripts/coverage_paths.py:26-30 | every result is the package prefix and a rest without that prefix or a backslash |
| CoveragePaths.NormalizeIsIdempotent | scripts/coverage_paths.py:19-30 | normalising twice is normalising once, for every input |
| CoveragePaths.SpellingsCollapse | scripts/coverage_paths.py:20-30 | every spelling that names the package, with slashes or backslashes and whatever stands before, gives one name; a spelling of the path alone agrees exactly if the path begins with neither '.' nor '/' |
| CoveragePaths.NamesStayApart | scripts/coverage_paths.py:20-29 | spelled with the package, two names agree exactly if the paths inside the package do |
| CoveragePaths.DottedPathHasTwoNames | scripts/coverage_paths.py:30 | a path that begins with a dot gets two names |
| CheckClaudeRefs.BuildIndex | scripts/check_claude_refs.py:156-158 | the index lists every tracked path under its basename and nothing else |
| CheckClaudeRefs.SuffixSharesBasename | scripts/check_claude_refs.py:163-164 | a path that ends in "/" and a token has the token's basename |
| CheckClaudeRefs.EndsMeaning | scripts/check_claude_refs.py:164 | the suffix test holds exactly if the path is something followed by the suffix |
| CheckClaudeRefs.ResolvesIsFullScan | scripts/check_claude_refs.py:155-166 | a token resolves exactly if it is tracked or some tracked path ends in "/" and the token |
| CheckClaudeRefs.DeeperTreesResolveMore | scripts/check_claude_refs.py:160-164 | moving all tracked paths under one directory breaks no reference |
| CheckApiParity.CheckPartition | scripts/check_api_parity.py:30-58 | each reported kind says exactly what is wrong with the name, and nothing is reported exactly if every name is placed right |
| CheckApiParity.BlamedIsMisplaced | scripts/check_api_parity.py:42-57 | a name is reported under some kind exactly if it is misplaced |
| CheckApiParity.PlacedIsPartition | scripts/check_api_parity.py:31 | every name is placed right exactly if the lists are the intersection and the two differences |
| CheckApiParity.CheckStructure | scripts/check_api_parity.py:61-97 | passes exactly if all surfaces are known and their lists sorted, without repeats and disjoint; every fault is reported with its kind |
| CheckApiParity.Repeats | scripts/check_api_parity.py:91-96 | the names reported are those that occur twice |
| CheckApiParity.CheckCoverage | scripts/check_api_parity.py:144-174 | passes exactly if the deferred names are the uncovered ones, each with a reason that is not blank |
| CheckApiParity.ExplainedIsNotBlank | scripts/check_api_parity.py:158-160 | a reason passes exactly if it is a string with something other than white space in it |
| CheckApiParity.CheckScorerCoverage | scripts/check_api_parity.py:100-174 | passes exactly if a surface is absent or the deferrals are the scorers without a kernel |
| CheckApiParity.CheckBlockingCoverage | scripts/check_api_parity.py:177-232 | passes exactly if the surface is absent or the deferrals are the strategies not shared |
| CheckApiParity.RunChecks | scripts/check_api_parity.py:302-313 | the gate is clean exactly if structure, partitions and both coverages hold; a malformed manifest reports its structure alone |
| CheckApiParity.InitManifest | scripts/check_api_parity.py:292-299 | the bootstrap lists exactly the surfaces with names, each sound and partitioned |
| CheckApiParity.BootstrapPassesExactly | scripts/check_api_parity.py:292-313 | the bootstrap is well formed, and passes the whole gate exactly if nothing would need a deferral |
| CheckApiParity.CleanIsUnique | scripts/check_api_parity.py:30-97 | two clean manifests agree on every surface both declare |
| CheckApiParity.NewNameIsCaught | scripts/check_api_parity.py:306-309 | a name added to either language or to both fails the gate exactly if its surface is in the manifest |
| CheckApiParity.EmptyManifestIsClean | scripts/check_api_parity.py:306-309 | a manifest that declares nothing passes for every package |

## Left out

- Floating point: scores, weights and rates are reals, and the final `round` calls of the metrics, the probe and the blocking scores are not modelled; the rounding of the compared pairs is an arbitrary function.
- The benchmarks around the functions above: data generation, timing, subprocesses, memory sampling, printing and the er-evaluation calls; goldenmatch itself, the Rust kernels, Spark and DuckDB.
- Reading files, git, YAML and AST parsing, and argument handling; their results are parameters.
- The similarity functions of the block scorer (Jaro-Winkler, token sort ratio) are a parameter; both field functions and any number of fields are covered.
- numpy's stable argsort and Python's `sorted` are modelled by one stable insertion sort; pandas and polars group-by by groups in order of first appearance.
- Negative row numbers as Python list indices in `canonicalize_result`: members and pair ends are row numbers of the table.
- Golden rows: the filter that drops internal columns is not modelled, the row's user columns are the input.
- CheckLlmsCounts.FindIterByCells: covers patterns of the shape "digits, optional plus, white space, words, optional word boundary", with any set of word characters that holds the digits; digits are the ten ASCII ones, other scripts' digits are not modelled; the optional tilde before an export count is outside the replaced digits and on their line, and is not part of the pattern.
- CheckLlmsCounts.Surface.Exact: the file is its decoded characters with their line ends; the UTF-8 encoding is not modelled.
- Which surfaces `check_llms_counts.py` reads, how the totals are introspected, and the text of its messages.
- `_diff` paths are sequences of keys and indices instead of formatted strings, and messages are reduced to their kind; NaN and infinities are not values.
- Symbol-level dead code, dynamic imports and the scan of the tests in `check_dead_code.py`; the import graph and the set of test imports are parameters, and sorted report lists are sets.
- GitHub: the issue list is newest first, labels and comments other than what the search reads are not modelled, and nobody else edits issues between scans; `ensure_label` and the closing comment are omitted.
- The rendering of the tracker's title and table is a parameter; the body always begins with the marker.
- `CheckApiParity` reports are sets of (surface, name, kind), so the order of the report and its messages are not modelled; advisory SQL surfaces and frame kernels, which never gate, are left out, and a surface body that is not a mapping is not a value.
- Extraction of path-like tokens from Markdown in `check_claude_refs.py`; only their resolution is modelled.
