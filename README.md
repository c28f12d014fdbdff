# Process drift detector, modelled in Dafny

The process drift detector is a ProM plugin that looks for concept drift in an
event log. It slides a reference window and a detection window of traces along
the log. For each window pair it mines a heuristics net, flattens the net's
graph metrics and compares their distributions with a G-test. A low arc
p-value triggers a refinement. The refinement scans the detection window in
steps of ten traces with halved windows, looking for the exact change point.
For each change point found, it reports which metrics changed (the "reasons").
An evaluation class compares detected change points with a ground truth
derived from the trace names.

The model covers that core:

| module | models |
|---|---|
| `WindowSearch` | the search loop of `ProcessDriftDetectionPlugin.main` |
| `Comparator` | the zero-pair trimming and G-test fallback of `calculatePValue(List, List)` |
| `Reasons` | `calculateReasons` |
| `Metrics` | the `GraphMetrics` class and its flattening |
| `MetricsUtils` | `MetricsUtils.getGraphMetrics` |
| `XLogUtils` | the trace and log helpers of `XLogUtils` |
| `ListUtils` | the list-to-array copies of `ListUtils` |
| `Evaluation` | `EvaluationCalculator`: ground truth, nearest-neighbour matching, precision, recall and average distance |
| `JavaStrings` | the few `String` operations the detector relies on |
| `Wrappers` | `Option` and `Result` |

How the Java code is modelled:

- Java's in-place loops are Dafny methods with loop invariants. Each method
  is proved equal to a functional definition. The properties the code
  promises are lemmas about that definition.
- Objects that are updated are classes: `GraphMetrics` and
  `EvaluationCalculator`.
- The main loop, refinement, reason calculation and chunking are modelled
  branch for branch, with their constants: thresholds `0.0001` and `0.9`,
  windows of 100 and 200, a candidate step of 10, and an early stop at a
  rise of more than 0.5.
- Exceptions are modelled as `Result`/`Option` error values.
- Three things are parameters of the model, because they are computations
  it does not contain:
  - `pv`: the p-value of a window pair;
  - `reasons`: the reasons for a change point;
  - `gtest`: the G-test.

## Model

| member | source | states |
|---|---|---|
| `WindowSearch.Detect` | src/de/tudarmstadt/tk/pm/ProcessDriftDetectionPlugin.java:73-167 | The search loop starts at index 0 with window 100. The change points it collects, and its final index and window, are exactly those of the step-by-step scan `ScanFrom` from that state, within the given fuel. |
| `WindowSearch.Pass` | src/de/tudarmstadt/tk/pm/ProcessDriftDetectionPlugin.java:78-166 | One iteration of the while loop produces the next index and window size, and at most one change point, exactly as in the reference step `StepAt`. |
| `WindowSearch.Refine` | src/de/tudarmstadt/tk/pm/ProcessDriftDetectionPlugin.java:92-152 | The refinement loop returns `found`, the last evaluated window end and, when found, the change index, all as in the reference refinement `RefineAt`. |
| `WindowSearch.RefineCandidates` | src/de/tudarmstadt/tk/pm/ProcessDriftDetectionPlugin.java:104-126 | The evaluated candidates are `i + 10k`. Each lies below the detection-window end, and its two half windows fit in the log. `lastIndex` is the last candidate's window end, or the initial value when no candidate was evaluated. No earlier candidate stopped early or confirmed the drift. |
| `WindowSearch.RefineOutcome` | src/de/tudarmstadt/tk/pm/ProcessDriftDetectionPlugin.java:104-152 | A change point is found exactly when the last candidate did not stop early and has arc p < 0.0001 and node p < 0.9. The change index is then `i - 10 + 2*newWindowSize`. When nothing is found without an early stop, the next candidate is past the window or past the log. |
| `WindowSearch.RefineFound` | src/de/tudarmstadt/tk/pm/ProcessDriftDetectionPlugin.java:129-139 | A found change index lies in the scanned range, on the 10-trace grid, and at least 10 traces before the end of the log. |
| `WindowSearch.StepWindowBelowMax` | src/de/tudarmstadt/tk/pm/ProcessDriftDetectionPlugin.java:163-166 | After every iteration the window size is below the maximum of 200. |
| `WindowSearch.StepWithoutDrift` | src/de/tudarmstadt/tk/pm/ProcessDriftDetectionPlugin.java:159-166 | Without an arc drift, no change point is reported. The window grows by a factor of 1.2, truncated. When it reaches 200, the index jumps by 200 and the window resets to 100. |
| `WindowSearch.StepChangePoint` | src/de/tudarmstadt/tk/pm/ProcessDriftDetectionPlugin.java:129-166 | A change point is reported only after an arc drift. Its index is on the candidate grid of the detection window and at most `logSize - 10`. Its reasons are those computed for the half window at that index. With w the window scaled by `changeIndex / (index + 2*windowSize)`, the next state is (change index, w) when w is below 200, and otherwise (change index + 200, 100). |
| `WindowSearch.StepWithoutChangePoint` | src/de/tudarmstadt/tk/pm/ProcessDriftDetectionPlugin.java:154-166 | After a drift with no confirmed candidate, nothing is reported. The window is scaled by `lastIndex / (index + 2*windowSize)` and the index advances by the new window, with the cap applied. |
| `WindowSearch.ZeroWindowStalls` | src/de/tudarmstadt/tk/pm/ProcessDriftDetectionPlugin.java:77-166 | A window size of 0 is a fixed point of the loop body. |
| `WindowSearch.Scale` | src/de/tudarmstadt/tk/pm/ProcessDriftDetectionPlugin.java:143-155 | `windowSize *= (double) a / (double) b` with the `(int)` cast: the result is within the int range and 0 when the window or a is 0. For a non-negative window and 0 < b, it lies in [0, windowSize] when a <= b and is at least windowSize when a >= b. A zero b gives 0 (NaN) or an end of the int range (an infinity). |
| `WindowSearch.Grow` | src/de/tudarmstadt/tk/pm/ProcessDriftDetectionPlugin.java:160 | `windowSize *= 1.2`, truncated: a non-negative window never shrinks and stays within the int range. Windows of 1 to 4 traces stay as they are, and every window from 5 on grows strictly. |
| `WindowSearch.ZeroWindowScan` | src/de/tudarmstadt/tk/pm/ProcessDriftDetectionPlugin.java:77-167 | Once the window is 0 and the index is inside the log, the loop never moves and never ends: it consumes all fuel and reports nothing. |
| `WindowSearch.ScanBounds` | src/de/tudarmstadt/tk/pm/ProcessDriftDetectionPlugin.java:77-167 | The scan reports at most one change point per iteration. A scan that stops before its fuel runs out stops because the loop condition `index < size - windowSize` fails. |
| `WindowSearch.ScanUnfold` | src/de/tudarmstadt/tk/pm/ProcessDriftDetectionPlugin.java:77-167 | While the loop condition holds, the scan is one loop step followed by the scan from the step's next state. |
| `Comparator.RemoveZeroPairs` | src/de/tudarmstadt/tk/pm/ProcessDriftDetectionPlugin.java:267-279 | The `remove(j); j--` loop on lists of any lengths yields exactly `TrimLists`: the trimmed pair of lists, or `IndexOutOfBounds` when it reads a detection value past the end. |
| `Comparator.TrimIsFilter` | src/de/tudarmstadt/tk/pm/ProcessDriftDetectionPlugin.java:272-279 | Trimming drops exactly the (0, 0) pairs and keeps every other pair in order. No (0, 0) pair is left, and the length drops by the number of such pairs. |
| `Comparator.TrimNoZeroPair` | src/de/tudarmstadt/tk/pm/ProcessDriftDetectionPlugin.java:272-279 | Vectors without a (0, 0) pair are left unchanged. |
| `Comparator.TrimIdempotent` | src/de/tudarmstadt/tk/pm/ProcessDriftDetectionPlugin.java:272-279 | Trimming twice is trimming once. |
| `Comparator.TrimRemove` | src/de/tudarmstadt/tk/pm/ProcessDriftDetectionPlugin.java:273-278 | Removing one (0, 0) pair from both lists does not change the trimmed result. |
| `Comparator.TrimListsEqual` | src/de/tudarmstadt/tk/pm/ProcessDriftDetectionPlugin.java:272-279 | On lists of equal length the loop never fails and its result is `Trim`. |
| `Comparator.TrimListsUneven` | src/de/tudarmstadt/tk/pm/ProcessDriftDetectionPlugin.java:272-279 | On lists of any lengths the loop fails exactly when the reference list holds a 0 at a position the detection list does not have. Otherwise the longer list keeps its unmatched tail unchanged, and the other list is trimmed over the common length. |
| `Comparator.TrimListsRemove` | src/de/tudarmstadt/tk/pm/ProcessDriftDetectionPlugin.java:273-278 | Removing one (0, 0) pair inside the common length does not change the loop's result. This is the invariant of the removal loop. |
| `Comparator.TrimListsClean` | src/de/tudarmstadt/tk/pm/ProcessDriftDetectionPlugin.java:272-279 | Lists with no (0, 0) pair and no reference 0 past the detection list are returned unchanged. |
| `Comparator.ComparisonPValue` | src/de/tudarmstadt/tk/pm/ProcessDriftDetectionPlugin.java:267-289 | The out-of-bounds failure of the trimming loop propagates. Otherwise the result is the G-test's p-value on the trimmed vectors, exactly 1 when the G-test throws ZeroException, and any other G-test failure propagates. Vectors of different lengths reach the G-test. |
| `Reasons.CalculateReasons` | src/de/tudarmstadt/tk/pm/ProcessDriftDetectionPlugin.java:184-236 | The reason map is `ReasonsFrom` of the differences between the two windows' flat metrics. |
| `Reasons.ChangedMetrics` | src/de/tudarmstadt/tk/pm/ProcessDriftDetectionPlugin.java:199-204 | The difference loop keeps exactly the metrics whose values differ, with value `detection - reference`. The index map points each changed metric at its position. |
| `Reasons.DegreeLists` | src/de/tudarmstadt/tk/pm/ProcessDriftDetectionPlugin.java:209-215 | The in-degree list holds the changed `INDEGREE_` metrics with the prefix removed. The out-degree list holds the changed `OUTDEGREE_` metrics that do not contain `INDEGREE_`, with the prefix removed. |
| `Reasons.PutArcReason` | src/de/tudarmstadt/tk/pm/ProcessDriftDetectionPlugin.java:218-229 | An arc metric is reported exactly when it contains `"->" + in` for a changed in-degree node, or `out + "->"` for a changed out-degree node. |
| `Reasons.PutReason` | src/de/tudarmstadt/tk/pm/ProcessDriftDetectionPlugin.java:217-232 | One iteration of the reporting loop for metric k extends the reasons of the metrics already visited to `ReasonsFor(done + {k})`. A non-arc metric gets its difference; an arc gets its difference and detection value only when adjacent to a changed degree node. |
| `Reasons.DifferencesAligned` | src/de/tudarmstadt/tk/pm/ProcessDriftDetectionPlugin.java:190-204 | When both windows list their metrics in the same key order, the positional comparison equals the key-wise difference of the two metric maps. |
| `Reasons.ReportedOnlyIfChanged` | src/de/tudarmstadt/tk/pm/ProcessDriftDetectionPlugin.java:199-233 | Every reported metric is present in both windows with different values. |
| `Reasons.SameWindowsNoReasons` | src/de/tudarmstadt/tk/pm/ProcessDriftDetectionPlugin.java:184-236 | Two identical windows give no reasons. |
| `Reasons.NonArcReason` | src/de/tudarmstadt/tk/pm/ProcessDriftDetectionPlugin.java:230-232 | A metric without `->` is reported if and only if it changed, and its reason is the formatted difference. |
| `Reasons.ArcReasonByTarget` | src/de/tudarmstadt/tk/pm/ProcessDriftDetectionPlugin.java:219-224 | An arc `a->b` that changed, where the in-degree of `b` also changed, is reported as the difference followed by the detection value in parentheses. |
| `Reasons.ArcReasonBySource` | src/de/tudarmstadt/tk/pm/ProcessDriftDetectionPlugin.java:225-229 | An arc `a->b` that changed, where the out-degree of `a` also changed, is reported in the same form. |
| `Reasons.ArcReportedOnlyIfAdjacent` | src/de/tudarmstadt/tk/pm/ProcessDriftDetectionPlugin.java:217-233 | Every reported arc changed and carries the arc text. Some changed degree metric names a node that appears after its `->` (in-degree) or before it (out-degree). |
| `Reasons.AdjacentIndexed` | src/de/tudarmstadt/tk/pm/ProcessDriftDetectionPlugin.java:219-229 | The set-based adjacency test agrees with scanning the two degree lists. |
| `Metrics.GraphMetrics.constructor` | src/de/tudarmstadt/tk/pm/GraphMetrics.java:41-53 | A new metrics object has zero counts and empty maps. |
| `Metrics.GraphMetrics.SetArcCount` | src/de/tudarmstadt/tk/pm/GraphMetrics.java:59-61 | Replaces the arc-count map and nothing else. |
| `Metrics.GraphMetrics.SetNodeCount` | src/de/tudarmstadt/tk/pm/GraphMetrics.java:67-69 | Replaces the node-count map and nothing else. |
| `Metrics.GraphMetrics.SetNetworkDegree` | src/de/tudarmstadt/tk/pm/GraphMetrics.java:124-126 | Sets the network degree and nothing else. |
| `Metrics.GraphMetrics.PutOutgoingEdges` | src/de/tudarmstadt/tk/pm/GraphMetrics.java:136-138 | Updates one activity's out-degree and leaves the other entries and fields unchanged. |
| `Metrics.GraphMetrics.PutIncomingEdges` | src/de/tudarmstadt/tk/pm/GraphMetrics.java:140-142 | Updates one activity's in-degree and leaves the other entries and fields unchanged. |
| `Metrics.GraphMetrics.PutNodeDegree` | src/de/tudarmstadt/tk/pm/GraphMetrics.java:144-146 | Updates one activity's degree and leaves the other entries and fields unchanged. |
| `Metrics.GraphMetrics.SetNumberOfNodes` | src/de/tudarmstadt/tk/pm/GraphMetrics.java:156-158 | Sets the node count and nothing else. |
| `Metrics.GraphMetrics.SetNumberOfEdges` | src/de/tudarmstadt/tk/pm/GraphMetrics.java:164-166 | Sets the edge count and nothing else. |
| `Metrics.GraphMetrics.FlatArcMetrics` | src/de/tudarmstadt/tk/pm/GraphMetrics.java:73-81 | Lists every arc count exactly once, in the map's key order. |
| `Metrics.GraphMetrics.FlatNodeMetrics` | src/de/tudarmstadt/tk/pm/GraphMetrics.java:83-91 | Lists every node count exactly once, in the map's key order. |
| `Metrics.GraphMetrics.FlatMetrics` | src/de/tudarmstadt/tk/pm/GraphMetrics.java:93-118 | The flat map holds the three scalars, `INDEGREE_`+node, `OUTDEGREE_`+node and the arc counts, with later puts winning. |
| `Metrics.PutAllPrefixed` | src/de/tudarmstadt/tk/pm/GraphMetrics.java:99-105 | Putting every entry under a prefix adds exactly the prefixed map. |
| `Metrics.KeyCount` | src/de/tudarmstadt/tk/pm/GraphMetrics.java:73-91 | A key order that lists every key once is as long as the map. |
| `Metrics.FlatMetricsArc` | src/de/tudarmstadt/tk/pm/GraphMetrics.java:111-113 | An arc's flat value is its arc count: the arc puts come last. |
| `Metrics.FlatMetricsInDegree` | src/de/tudarmstadt/tk/pm/GraphMetrics.java:99-101 | `INDEGREE_`+n carries n's in-degree unless an arc key overwrites it. |
| `Metrics.FlatMetricsOutDegree` | src/de/tudarmstadt/tk/pm/GraphMetrics.java:103-105 | `OUTDEGREE_`+n carries n's out-degree unless an arc key overwrites it. |
| `Metrics.FlatMetricsNumberOfNodes` | src/de/tudarmstadt/tk/pm/GraphMetrics.java:95 | `NUMBER_OF_NODES` carries the node count unless an arc key overwrites it. |
| `Metrics.FlatMetricsNumberOfEdges` | src/de/tudarmstadt/tk/pm/GraphMetrics.java:96 | `NUMBER_OF_EDGES` carries the edge count unless an arc key overwrites it. |
| `Metrics.FlatMetricsNetworkDegree` | src/de/tudarmstadt/tk/pm/GraphMetrics.java:97 | `NETWORK_DEGREE` carries the network degree unless an arc key overwrites it. |
| `Metrics.DegreeKeysAvoidScalars` | src/de/tudarmstadt/tk/pm/GraphMetrics.java:26-34 | No degree key collides with a scalar key. |
| `Metrics.ScalarKeysDistinct` | src/de/tudarmstadt/tk/pm/GraphMetrics.java:26-30 | The three scalar keys are distinct. |
| `MetricsUtils.GetGraphMetrics` | src/de/tudarmstadt/tk/pm/utils/MetricsUtils.java:47-99 | The new metrics object holds the graph's node and edge counts. The node and arc maps are zero-filled over the event names and then overwritten by the mined firings and arc usages. The degree maps are zero-filled and then set per activity. The network degree is the maximal activity degree. |
| `MetricsUtils.ClearMetrics` | src/de/tudarmstadt/tk/pm/utils/MetricsUtils.java:59-68 | Every event name, and every ordered pair as `a->b`, starts at 0 in every map. |
| `MetricsUtils.MinedDistributions` | src/de/tudarmstadt/tk/pm/utils/MetricsUtils.java:71-77 | The mined firing counts and arc usages are put over the zeroed maps in mapping order. |
| `MetricsUtils.UpdateActivities` | src/de/tudarmstadt/tk/pm/utils/MetricsUtils.java:83-96 | Each activity's out-degree, in-degree and their sum are put in graph order. The network degree becomes the running maximum. |
| `MetricsUtils.NetworkDegreeIsMax` | src/de/tudarmstadt/tk/pm/utils/MetricsUtils.java:91-93 | The network degree is at least every activity's degree and equals one of them, or 0 when there are no activities. |
| `MetricsUtils.ZeroPadded` | src/de/tudarmstadt/tk/pm/utils/MetricsUtils.java:59-68 | Every event name and event-name pair has an entry in every resulting map. |
| `MetricsUtils.AbsentActivity` | src/de/tudarmstadt/tk/pm/utils/MetricsUtils.java:59-96 | An event name that is not an activity of the graph keeps its zero degrees. |
| `MetricsUtils.ActivityValues` | src/de/tudarmstadt/tk/pm/utils/MetricsUtils.java:83-90 | An activity's entries are its out-degree, its in-degree and their sum. |
| `MetricsUtils.DegreeIsInPlusOut` | src/de/tudarmstadt/tk/pm/utils/MetricsUtils.java:59-90 | Every node degree is the sum of that node's in-degree and out-degree. |
| `MetricsUtils.MinedValues` | src/de/tudarmstadt/tk/pm/utils/MetricsUtils.java:71-77 | For distinct, dash-free class ids, each class's node count is its actual firing and each pair's arc count is its arc usage. |
| `MetricsUtils.ArcInjective` | src/de/tudarmstadt/tk/pm/utils/MetricsUtils.java:66 | Arc keys `a->b` with dash-free sources name their endpoints uniquely. |
| `XLogUtils.TraceType` | src/de/tudarmstadt/tk/pm/utils/XLogUtils.java:36-43 | A name without `_` has type `other`. Otherwise the type is the part before the first `_`. |
| `XLogUtils.TraceName` | src/de/tudarmstadt/tk/pm/utils/XLogUtils.java:45-48 | The trace's concept:name attribute, `None` (null) when the trace has none. |
| `XLogUtils.ChangeString` | src/de/tudarmstadt/tk/pm/utils/XLogUtils.java:105-108 | Defined exactly when both chunk indices are valid and both chunks are non-empty. It is then the name of chunk i1's last trace, `" - "`, and the name of chunk i2's first trace. |
| `XLogUtils.ChunksByCount` | src/de/tudarmstadt/tk/pm/utils/XLogUtils.java:117-143 | `IllegalArgumentException` when n exceeds the log size. A single null chunk for an empty log. Division by zero for n = 0. Otherwise the chunks concatenate to the log, and all but the last hold exactly \|n\| traces while the last holds 1..\|n\|. |
| `XLogUtils.ChunksByNumber` | src/de/tudarmstadt/tk/pm/utils/XLogUtils.java:152-176 | `IllegalArgumentException` when k exceeds the log size. Division by zero for k = 0. No chunks for k < 0. Otherwise k chunks of `size / k` traces that concatenate to the log prefix, with fewer than k traces left over. |
| `XLogUtils.ChunksByTimeSpan` | src/de/tudarmstadt/tk/pm/utils/XLogUtils.java:186-225 | The chunks concatenate to the log's non-empty traces. Each chunk is non-empty and within `duration` of its first trace's start time. Each chunk starts more than `duration` after the previous chunk's start. |
| `XLogUtils.SpanAdvance` | src/de/tudarmstadt/tk/pm/utils/XLogUtils.java:199-217 | One iteration of the time-span loop over a non-empty trace, as the reference step `SpanNext`. |
| `XLogUtils.SpanFinish` | src/de/tudarmstadt/tk/pm/utils/XLogUtils.java:220-224 | Closing the open chunk completes the chunking invariant. |
| `XLogUtils.Subset` | src/de/tudarmstadt/tk/pm/utils/XLogUtils.java:234-244 | The traces from `max(0, start)` up to `min(size, end)`, or none when that range is empty. |
| `XLogUtils.Filter` | src/de/tudarmstadt/tk/pm/utils/XLogUtils.java:253-273 | One new trace per trace, holding the same events. Its `TraceName` is null, as a trace made by the factory has no name attribute. |
| `ListUtils.ToIntArray` | src/de/tudarmstadt/tk/pm/utils/ListUtils.java:24-29 | A fresh array with the list's elements in order. |
| `ListUtils.ToDoubleArray` | src/de/tudarmstadt/tk/pm/utils/ListUtils.java:31-36 | A fresh array with the list's elements in order. |
| `ListUtils.ToLongArray` | src/de/tudarmstadt/tk/pm/utils/ListUtils.java:38-43 | A fresh array with the list's elements in order. |
| `Evaluation.EvaluationCalculator.constructor` | src/de/tudarmstadt/tk/pm/evaluation/EvaluationCalculator.java:36-61 | Stores the log, and the ground-truth change points of its trace types. |
| `Evaluation.EvaluationCalculator.OriginalChangePoints` | src/de/tudarmstadt/tk/pm/evaluation/EvaluationCalculator.java:41-59 | The type-tracking loop yields exactly `GroundTruth` of the log's trace types. |
| `Evaluation.EvaluationCalculator.Observe` | src/de/tudarmstadt/tk/pm/evaluation/EvaluationCalculator.java:47-58 | One iteration of the loop extends the ground truth by one trace. |
| `Evaluation.GroundTruthMembers` | src/de/tudarmstadt/tk/pm/evaluation/EvaluationCalculator.java:41-59 | c is a ground-truth change point exactly when either holds: c = -1 and the first two types differ; or trace c starts a new type and trace c+1 repeats it (1 <= c < size-1). |
| `Evaluation.GroundTruthUpToMembers` | src/de/tudarmstadt/tk/pm/evaluation/EvaluationCalculator.java:44-59 | The same characterisation for the points recorded after the first n traces. |
| `Evaluation.GroundTruthSorted` | src/de/tudarmstadt/tk/pm/evaluation/EvaluationCalculator.java:44-59 | Ground-truth points are strictly increasing. |
| `Evaluation.GroundTruthUpToSorted` | src/de/tudarmstadt/tk/pm/evaluation/EvaluationCalculator.java:44-59 | After n traces, the points are strictly increasing and at most n-2. |
| `Evaluation.GroundTruthDistinct` | src/de/tudarmstadt/tk/pm/evaluation/EvaluationCalculator.java:44-59 | Ground-truth points are distinct. |
| `Evaluation.EvaluationCalculator.Evaluate` | src/de/tudarmstadt/tk/pm/evaluation/EvaluationCalculator.java:63-114 | The result is `EvaluationOf`: nearest-neighbour matching over the detected points in order, then the precision, recall and average distance. An out-of-range detected index gives `IndexOutOfBounds`. |
| `Evaluation.EvaluationCalculator.Closest` | src/de/tudarmstadt/tk/pm/evaluation/EvaluationCalculator.java:70-86 | The inner loop's minimal index and distance are `Nearest` from `(-1, Integer.MAX_VALUE)`. |
| `Evaluation.NearestFrom` | src/de/tudarmstadt/tk/pm/evaluation/EvaluationCalculator.java:73-86 | The chosen distance is at most the starting minimum and at most every eligible point's distance. The minimum is kept unless some eligible point is strictly closer, in which case that point is chosen. |
| `Evaluation.ChosenIsNearest` | src/de/tudarmstadt/tk/pm/evaluation/EvaluationCalculator.java:70-86 | The chosen point is eligible and nearest: it is not yet matched, or it is matched at a larger distance. When nothing is eligible below `Integer.MAX_VALUE`, the choice is `-1`. |
| `Evaluation.MatchStepConsistent` | src/de/tudarmstadt/tk/pm/evaluation/EvaluationCalculator.java:70-92 | Each matching step keeps the matching consistent and adds at most one key. It keeps every key, and changes a key's match only for a strictly nearer detected point. Consistent means every key is a ground-truth point other than -1, and holds a detected index inside the log, that trace's name, and its distance to the key. |
| `Evaluation.MatchFromConsistent` | src/de/tudarmstadt/tk/pm/evaluation/EvaluationCalculator.java:68-93 | Matching keeps that invariant and adds at most one key per detected point. Every matched ground-truth point stays matched, never at a larger distance. |
| `Evaluation.MatchFromSucceeds` | src/de/tudarmstadt/tk/pm/evaluation/EvaluationCalculator.java:88-91 | When every detected index lies inside the log, matching does not fail. |
| `Evaluation.MatchedCounts` | src/de/tudarmstadt/tk/pm/evaluation/EvaluationCalculator.java:99-106 | The true-positive count is the number of ground-truth points that were matched. |
| `Evaluation.MatchedBounds` | src/de/tudarmstadt/tk/pm/evaluation/EvaluationCalculator.java:99-108 | The true positives are the matched keys, at most the ground-truth size, and strictly fewer when `-1` is in the ground truth. The distance sum is non-negative, and 0 when nothing matched. |
| `Evaluation.EvaluationBounds` | src/de/tudarmstadt/tk/pm/evaluation/EvaluationCalculator.java:99-111 | Precision is undefined (0/0) exactly when no points were detected. Recall is undefined exactly when the ground truth is empty. Both lie in [0, 1] and the average distance is non-negative. A ground truth containing `-1` never reaches full recall. |
| `Evaluation.RatioBounds` | src/de/tudarmstadt/tk/pm/evaluation/EvaluationCalculator.java:111 | `a / b` with 0 <= a <= b and b > 0 lies in [0, 1], and is below 1 when a < b. |
| `JavaStrings.IndexOf` | src/de/tudarmstadt/tk/pm/utils/XLogUtils.java:38-42 | `indexOf(c)` is the first position of c, or -1 exactly when c does not occur. |
| `JavaStrings.StripPrefix` | src/de/tudarmstadt/tk/pm/ProcessDriftDetectionPlugin.java:209-215 | Replacing the prefix in `prefix + x`, where x does not contain the prefix, gives back x. |
| `JavaStrings.ContainsOccurrence` | src/de/tudarmstadt/tk/pm/ProcessDriftDetectionPlugin.java:209-229 | `String.contains(t)` holds exactly when t is the slice of the string at some position. |
| `JavaStrings.ReplaceAll` | src/de/tudarmstadt/tk/pm/ProcessDriftDetectionPlugin.java:209-215 | `String.replace(t, rep)` leaves a string without t unchanged, and any string when rep is t. It never lengthens the string when rep is no longer than t. |

## Left out

- The G-test (`GTest.gTestDataSetsComparison`) is a call into a statistics library. It is the `gtest` parameter of `Comparator.ComparisonPValue`. What it returns for vectors of different lengths, where the library throws, is up to that parameter.
- `calculatePValue(context, log, windowSize, index)` mines nets and runs G-tests on them. It is the p-value oracle `pv` of `WindowSearch`.
- `calculateReasons` as called from `main` is the oracle `reasons`. The mining around it is not modelled: filter, subset, and `calculateMetrics` with `generateHeuristicsNet`.
- The Heuristics Miner, `generateHeuristicsNet` and `convertToGraph` are not modelled. `MetricsUtils.GetGraphMetrics` takes the mined net and its graph as values.
- Also not modelled:
  - `MathUtils`;
  - `sortLog` and `cloneButEmptyLog`;
  - `toDoubleArray(long[])`;
  - the f1 score and result formatting (`toString`);
  - `GraphMetrics.DENSITY`, a floating-point ratio, as the last entry of `flatMetrics`;
  - the UI and plugin plumbing, the `DEBUG` printing and the `StopWatch` timing in `main`.
- Dafny integers are unbounded, so the model does not capture Java's 32-bit `int` overflow. This affects index and window arithmetic, `Math.abs` and distances.
- Double rounding is not modelled:
  - `windowSize *= (double) a / (double) b` is computed exactly on rationals and truncated toward zero;
  - `windowSize *= 1.2` is computed as `windowSize * 6 / 5`, truncated;
  - precision, recall and average distance (`Evaluation.Ratio`) are exact quotients on reals, where Java rounds each to a double.
- Metric values are integers: the `Double` values in `flatMetrics` are counts. `Double.toString` of a metric value or difference is the parameter `fmt`.
- `HashMap` iteration order is unspecified in Java. In the model:
  - `FlatArcMetrics` and `FlatNodeMetrics` take the key order as an explicit sequence;
  - `calculateReasons` takes the key list `metrics`;
  - `Reasons.CalculateReasons` requires only that each listed key is present in both windows (`Covers`). Its result is stated as the key-wise comparison of the listed keys.
  - `Reasons.DifferencesAligned` shows that this is the full map difference when both windows list the same keys in the same order.
- `Reasons.PutReason` requires metric k to be in the detection window and in `indexMap`, as `calculateReasons` guarantees for every changed metric. Java reads `indexMap` only for adjacent arcs.
- `WindowSearch.Detect`: the Java loop has no bound and need not terminate (see `WindowSearch.ZeroWindowScan`). The method runs at most `fuel` iterations, and its result is the scan with that fuel.
- `WindowSearch.Refine`: `changeIndex` is specified only when a change point is found. In Java it is not a variable of its own.
- `Evaluation.EvaluationCalculator.constructor` requires a log of at least two traces, each with a name. Java throws on `log.get(1)` for shorter logs and on a missing name in `getTraceType`. Those exceptions are not modelled.
- The constructor's `log.indexOf(trace)` is taken to be the trace's position. Java finds the first equal trace, which is the same position for distinct trace objects.
- The constructor's trace types are computed once, up front, from the trace names.
- `Evaluation.ChosenIsNearest` does not state the tie-break: the earliest ground-truth point wins among equally near ones. `Evaluation.Nearest` and `Evaluation.EvaluationCalculator.Closest` do implement it.
- The `0.0 / 0.0` divisions of `evaluate`, which give NaN in Java, are `None` in `EvaluationResult`.
- `evtNames.remove` in `getGraphMetrics` updates a local list that is never read again, so it has no effect and is not modelled.
- `setNodeCount` and `setArcCount` store the caller's map object, and Java maps alias. The model stores map values, so later mutation through an alias is not modelled.
- `createChunksByTimeSpan` reads timestamps as integers (milliseconds). `XTimeExtension` and `Date` are not modelled.
- `filter` and `subset` build new logs through `XFactory`. Only the resulting traces, their events and their names are modelled, not log attributes.
