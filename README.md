# Multi-layer PII detector: candidate fusion core

This project models, in Dafny, how `MultiLayerPIIDetector` fuses span
candidates. A candidate (`PIIResult`) is a piece of text with a type, a
confidence, start and end offsets, and the name of the layer that found it.
Candidates come from two detectors:

- the named-entity layer keeps the recogniser's PER, LOC and ORG entities;
- the rule layer stamps every pattern match with confidence 1.0.

The pipeline then:

1. pools both lists and sorts them stably by `(start, -confidence)`;
2. sweeps the sorted pool, keeping a list in which an overlapping candidate
   can only replace the last kept one, and only when its confidence is
   strictly greater;
3. re-scores every merged candidate with `0.6 * confidence + 0.3 * context +
   0.1 * (1.0 if entropy > 2.5 else 0.5)`. The context score is
   `min(1, 0.3 * k)`, where k is the number of distinct indicator words within
   50 characters of the span;
4. keeps the candidates whose fused score reaches 0.85, overwriting their
   confidence with that score;
5. reports the survivors with their count and their mean confidence (0 when
   there are none).

Modules, one per file:

- `Results`: the candidate record and the order predicates on lists of them.
- `Seqs`: order-preserving subsequences.
- `Sorting`: the stable sort by key.
- `Merger`: the overlap sweep and `merge_results`.
- `Context`: the context window and indicator count.
- `Scoring`: the two thresholds, the entropy interface and the fusion formula.
- `Validation`: the gate.
- `Layers`: the two detector adapters.
- `Pipeline`: `detect` and its report.

Three operations are imperative, as in the source:

- `Merger.MergeResults` builds its list in a loop and overwrites its last
  element in place.
- `Validation.ValidateStatisticalLayer` overwrites the confidence of kept
  records in an array that stands for the shared record objects. It leaves
  rejected records untouched.
- The two layer adapters append in loops.

Each method is proved equal to a specification function. The properties are
proved as lemmas about those functions.

Behaviour of the code worth knowing, all of it proved:

- Three indicator words give a context score of 0.9; only four or more give
  1.0 (`Context.AnalyzeContextExtremes`).
- The merge depends on input order on exact key ties: two candidates with
  equal start and equal confidence keep their pooled order, because the sort
  is stable, and the first of them wins
  (`Merger.MergeEqualKeysKeepPooledOrder`).
- Neither the combiner nor `detect` clamps, checks or clips anything, and
  neither does the model:
  - offsets are unbounded `int`s;
  - the context window uses the slice rules for out-of-range and negative
    indices;
  - `start < end` is assumed only by the lemmas that need it.

## Model

| member | source | states |
|---|---|---|
| Sorting.KeyLe | multi_layer_detector.py:158 | the sort key order: smaller start first, and at equal start higher confidence first |
| Sorting.Insert | multi_layer_detector.py:158 | puts a candidate in front of the first entry whose key is not smaller than its own, so ahead of entries with an equal key |
| Sorting.SortByKey | multi_layer_detector.py:158 | the pool sorted stably by (start, -confidence): the first candidate inserted into the sorted rest of the pool |
| Sorting.SortByKeySpec | multi_layer_detector.py:158 | the sorted pool is ordered by (start, -confidence), is a permutation of the pool, and keeps the pool order of candidates with equal keys (stability) |
| Sorting.KeySortedIsStartSorted | multi_layer_detector.py:158 | a list sorted by the key is sorted by start |
| Sorting.SortKeepsPairwiseDisjoint | multi_layer_detector.py:158 | sorting a pool in which no two spans overlap gives a list in which no two overlap |
| Merger.Step | multi_layer_detector.py:163-166 | one sweep step: append when the list is empty or the candidate starts at or after the last kept end; otherwise replace the last kept candidate when strictly more confident; otherwise keep the list |
| Merger.Merge | multi_layer_detector.py:153-168 | the sweep over the pooled list ml + rules sorted by key |
| Merger.Sweep | multi_layer_detector.py:161-166 | the sweep's list is never longer than what it visited and is non-empty once one candidate was visited |
| Merger.SweepSubseq | multi_layer_detector.py:161-166 | the sweep keeps candidates of its input only, in input order, each occurrence at most once |
| Merger.StepSubseq | multi_layer_detector.py:162-166 | one sweep step, append or replacement, keeps the kept list an order-preserving subsequence of the candidates visited |
| Merger.AppendKeepsNonOverlapping | multi_layer_detector.py:162-164 | appending a candidate that starts no earlier than the last kept one and at or after its end keeps the list ordered and non-overlapping |
| Merger.ReplaceLastKeepsNonOverlapping | multi_layer_detector.py:165-166 | replacing the last kept candidate by one that starts no earlier keeps the list ordered and non-overlapping |
| Merger.SweepNonOverlapping | multi_layer_detector.py:162-166 | over a start-sorted input, every earlier kept span ends at or before every later one starts, after appends and replacements alike |
| Merger.SweepKeepsNonOverlapping | multi_layer_detector.py:162-164 | an input already ordered and non-overlapping passes through the sweep unchanged |
| Merger.SweepOnlyLastReplaced | multi_layer_detector.py:163-166 | later candidates never shorten the list and never touch any kept candidate except the last |
| Merger.MergeSound | multi_layer_detector.py:153-168 | the merge output is sorted by start and non-overlapping, is a sub-multiset of ml + rules, is no longer than both inputs together, and is empty exactly when both inputs are |
| Merger.MergeStartsIncrease | multi_layer_detector.py:158-166 | with start < end on every candidate, the merged starts increase strictly |
| Merger.MergeKeepsDisjointInputs | multi_layer_detector.py:158-164 | when no two pooled candidates overlap, all of them are kept, in sorted order |
| Merger.MergeTwo | multi_layer_detector.py:158-166 | merging one candidate from each layer sorts the two by key and sweeps the second against the first |
| Merger.MergeSameStartHigherWins | multi_layer_detector.py:158-166 | of two candidates with the same start, the more confident one survives, whichever layer it comes from |
| Merger.MergeEqualKeysKeepPooledOrder | multi_layer_detector.py:158-166 | of two candidates with equal start and equal confidence, the one pooled first survives (strict comparison, stable sort) |
| Merger.MergeLaterOverlapping | multi_layer_detector.py:163-166 | a candidate starting inside an earlier one replaces it only when strictly more confident, and the outcome does not depend on which layer delivers which |
| Merger.MergeResults | multi_layer_detector.py:153-168 | the loop's list equals the specified merge and is sorted, non-overlapping and a sub-multiset of the pooled input |
| Context.LowerChar | multi_layer_detector.py:144 | maps A to Z onto a to z and keeps every other character |
| Context.Lower | multi_layer_detector.py:144 | `str.lower()`: every character lower-cased, in place |
| Context.Contains | multi_layer_detector.py:150 | the substring test `ind in context`: the needle is a prefix of the haystack or of one of its suffixes |
| Context.ContextOf | multi_layer_detector.py:141-144 | the window `full_text[max(0, start - 50):min(len, end + 50)].lower()` |
| Context.ScoreOfCount | multi_layer_detector.py:151 | `min(1.0, count * 0.3)` |
| Context.SliceIndex | multi_layer_detector.py:144 | a slice index lands in [0, len], and an index already inside the string is kept |
| Context.Slice | multi_layer_detector.py:144 | the slice is no longer than the string and is the plain substring when the bounds are in range |
| Context.LowerSlice | multi_layer_detector.py:144 | lower-casing a piece of the text gives the same piece of the lower-cased text |
| Context.ContainsIff | multi_layer_detector.py:150 | the substring test `ind in context` holds exactly when the indicator occurs at some offset of the window |
| Context.IndicatorCount | multi_layer_detector.py:150 | the count is at most the number of indicators |
| Context.IndicatorCountNoneIff | multi_layer_detector.py:150 | the count is 0 exactly when none of the indicators occurs in the window |
| Context.AnalyzeContext | multi_layer_detector.py:138-151 | the context score lies in [0, 1] |
| Context.AnalyzeContextExtremes | multi_layer_detector.py:147-151 | the score is 0 exactly when no indicator occurs in the window, and 1 exactly when four or more do |
| Context.IndicatorsDistinct | multi_layer_detector.py:147-148 | the twelve indicator words are pairwise different |
| Context.IndicatorCountIsPresentSize | multi_layer_detector.py:150 | over indicators without repeats, the count is the number of distinct indicators present, however often each occurs |
| Context.AnalyzeContextCountsDistinct | multi_layer_detector.py:141-151 | the score is min(1, 0.3 * number of distinct indicators in the window) |
| Context.ContextWindow | multi_layer_detector.py:141-144 | for a span inside the text, the window is the lower-cased text from 50 characters before the span to 50 after it, clamped to the text |
| Context.WindowCoversSpan | multi_layer_detector.py:141-144 | for a span inside the text, the span's own lower-cased characters sit in the window at the span's offset from the window start |
| Scoring.EntropyBonus | multi_layer_detector.py:121 | 1.0 for a high-entropy text and 0.5 otherwise |
| Scoring.CalculateEntropy | multi_layer_detector.py:129-136 | the empty text has entropy 0; any other text has its Shannon entropy |
| Scoring.FinalConfidence | multi_layer_detector.py:119-121 | the fused score lies in [0.05, 1] when confidence and context are in [0, 1], and is never below its entropy share |
| Scoring.FinalConfidenceMonotone | multi_layer_detector.py:119-121 | the fused score grows with confidence, context and the entropy signal |
| Scoring.RuleMatchPassesIff | multi_layer_detector.py:67-69 | under the constructor's thresholds, a confidence-1.0 match passes exactly when three or more indicators are present, or two or more and its entropy is high |
| Scoring.LowConfidenceAlwaysRejected | multi_layer_detector.py:67-69 | under the constructor's thresholds, a candidate with confidence below 0.75 never passes |
| Scoring.FusionScenario | multi_layer_detector.py:119-123 | confidence 1.0, context 0.6 and high entropy give 0.88, which passes 0.85 |
| Scoring.RejectionScenario | multi_layer_detector.py:119-123 | confidence 0.5, no context and low entropy give 0.35, which fails 0.85 |
| Scoring.EmptyTextLowEntropy | multi_layer_detector.py:131-132 | the empty text never counts as high-entropy under a non-negative threshold |
| Validation.Fused | multi_layer_detector.py:112-121 | a candidate's combined score from its confidence, its context score on the full text and whether its entropy exceeds the threshold |
| Validation.Gate | multi_layer_detector.py:109-127 | the list of candidates whose score reaches the minimum, in input order, each carrying its score as confidence |
| Validation.AfterGate | multi_layer_detector.py:123-124 | every candidate as the gate leaves it: passing ones with their score as confidence, failing ones unchanged |
| Validation.Validated | multi_layer_detector.py:107-127 | the list `validate_statistical_layer` returns: the gate over the candidates' fused scores |
| Validation.AfterValidation | multi_layer_detector.py:107-127 | the candidate records after `validate_statistical_layer`: the gate's rescoring over the fused scores |
| Validation.FusedScores | multi_layer_detector.py:111-121 | there is one fused score per candidate |
| Validation.Rescored | multi_layer_detector.py:123-124 | a rescored record differs from the candidate in its confidence at most; a passing one carries its fused score; a failing one is unchanged |
| Validation.GateStep | multi_layer_detector.py:111-125 | one more candidate extends the gate's output by its rescored record when it passes, by nothing otherwise |
| Validation.GateAboveThreshold | multi_layer_detector.py:123-125 | every kept record's confidence reaches the minimum |
| Validation.GateSubsequence | multi_layer_detector.py:109-127 | the gate's output is an order-preserving subsequence of the records as the gate leaves them, and no longer than its input |
| Validation.GateOrigin | multi_layer_detector.py:119-125 | every kept record is some passing candidate carrying its fused score |
| Validation.GateHas | multi_layer_detector.py:119-125 | every passing candidate is kept, carrying its fused score |
| Validation.GateMembership | multi_layer_detector.py:119-125 | a record is in the output exactly when it is a passing candidate with its fused score as confidence |
| Validation.GateKeepsOrder | multi_layer_detector.py:109-127 | a start-sorted or non-overlapping input gives a start-sorted or non-overlapping output |
| Validation.ValidatedSound | multi_layer_detector.py:107-127 | the validated list is an order-preserving subsequence of the updated records, every kept confidence reaches the minimum, and the merge's order is kept |
| Validation.ValidatedMembership | multi_layer_detector.py:119-125 | a record is kept exactly when its fused score reaches the minimum, and it is kept with that score as confidence |
| Validation.AfterValidationAt | multi_layer_detector.py:123-124 | after the gate, every record keeps its text, type, span and layer; a passing one carries its fused score and a failing one is unchanged |
| Validation.VisitedStep | multi_layer_detector.py:109-125 | after i visited candidates the array holds the gate's records for the first i and the untouched rest; handling candidate i overwrites slot i only, with its rescored record |
| Validation.ValidateStatisticalLayer | multi_layer_detector.py:107-127 | the loop returns the specified validated list and leaves the array holding exactly the records as the gate rescores them, rejected ones untouched |
| Layers.FromEntity | multi_layer_detector.py:78-85 | the result built from an entity: its word, group, score, start and end, tagged ML/NLP |
| Layers.MlLayer | multi_layer_detector.py:71-87 | the results for the PER, LOC and ORG entities, in the recogniser's order |
| Layers.MlLayerMembership | multi_layer_detector.py:76-85 | a result comes out of the learned layer exactly when it is built from a PER, LOC or ORG entity |
| Layers.MlLayerLabels | multi_layer_detector.py:76-85 | every learned result has a kept label and the ML/NLP tag, and there are no more results than entities |
| Layers.DetectMlLayer | multi_layer_detector.py:71-87 | the loop returns the specified learned layer, every result labelled PER, LOC or ORG and tagged ML/NLP |
| Layers.FromMatch | multi_layer_detector.py:96-103 | the result built from a match: its text, the pattern's name, confidence 1.0, its start and end, tagged Rules |
| Layers.RulesLayer | multi_layer_detector.py:89-105 | every pattern's stamped matches, pattern after pattern in table order |
| Layers.TotalMatches | multi_layer_detector.py:93-95 | the number of matches over all patterns |
| Layers.Stamp | multi_layer_detector.py:95-103 | one result per match of the pattern |
| Layers.StampAt | multi_layer_detector.py:95-103 | the k-th result of a pattern is its k-th match with confidence 1.0, the pattern's name and the Rules tag |
| Layers.RulesLayerStamped | multi_layer_detector.py:93-103 | the rule layer gives exactly one result per match, each with confidence 1.0 and the Rules tag |
| Layers.RulesLayerOrigin | multi_layer_detector.py:93-103 | every rule result is the stamped k-th match of some pattern |
| Layers.RulesLayerHas | multi_layer_detector.py:93-103 | the stamped k-th match of every pattern is a rule result |
| Layers.RulesLayerMembership | multi_layer_detector.py:93-103 | a result comes out of the rule layer exactly when it is a stamped match of some pattern |
| Layers.DetectRulesLayer | multi_layer_detector.py:89-105 | the nested loops return the specified rule layer, one result per match, each with confidence 1.0 and the Rules tag |
| Pipeline.SumConfidence | multi_layer_detector.py:189 | the sum of the confidences of a list of results |
| Pipeline.Entry | multi_layer_detector.py:194-200 | the report entry for one result: text, type, confidence, [start, end] and layer |
| Pipeline.DetectSpec | multi_layer_detector.py:170-209 | the report for the given entities and matches: both layers, the merge, the gate, then the report |
| Pipeline.AverageConfidence | multi_layer_detector.py:189-190 | the average is 0 for no results and otherwise times the count gives the sum of confidences |
| Pipeline.BuildReport | multi_layer_detector.py:188-205 | the report has one entry per validated result, in order, each carrying its text, type, confidence, [start, end] and layer; the total is the count |
| Pipeline.SumWithinBounds | multi_layer_detector.py:189 | a sum of confidences each in [lo, hi] lies between count * lo and count * hi |
| Pipeline.AverageWithinBounds | multi_layer_detector.py:189-190 | the mean of confidences in [lo, hi] lies in [lo, hi] |
| Pipeline.DetectSound | multi_layer_detector.py:170-205 | the report's total is its number of entries; entries are in start order and do not overlap; each entry and, when there are entries, the average reach the minimum confidence |
| Pipeline.LayerScoresInUnitRange | multi_layer_detector.py:76-103 | with entity scores in [0, 1], every candidate either layer produces has confidence in [0, 1] |
| Pipeline.DetectConfidenceInUnitRange | multi_layer_detector.py:170-205 | with entity scores in [0, 1], every reported confidence lies in [0.05, 1] and the average in [0, 1] |
| Pipeline.DetectEmpty | multi_layer_detector.py:188-205 | no entities and no matches give an empty report with total 0 and average 0 |
| Pipeline.Detect | multi_layer_detector.py:170-209 | the composition of the two layers, the merge and the gate yields the specified report, whose total is its number of entries and whose every entry reaches the minimum confidence |

## Left out

- Loading and calling the transformer recogniser (multi_layer_detector.py:37-41, 74). Its output is an input sequence of `Layers.Entity` records.
- Regular-expression matching with `re.finditer` and the pattern table (multi_layer_detector.py:44-65, 94). Each pattern's display name and matches are an input, in table order.
- The numeric Shannon entropy (multi_layer_detector.py:134-135), computed with `np.log2` in floating point. It is the parameter `shannon`; only the empty text's entropy of 0 is modelled.
- Floating point. Confidences and scores are exact reals, so floating-point drift and `round(..., 3)` in the report (multi_layer_detector.py:197, 205) are not modelled.
- Sorting.SortByKey: Python's list sort is modelled by a stable insertion sort that gives the same list. Only its result is modelled, not its algorithm or its in-place update of `all_results`.
- Context.Lower: lower-cases A to Z only. Characters outside ASCII are not case-folded.
- The two constant accuracy strings of the summary (multi_layer_detector.py:206-207). They are display constants.
- `main`, its prints and the constructor's print (multi_layer_detector.py:34, 211-246). These are demo I/O.
- simple_demo.py and the notebook scripts. They hold demo output and a regex loop, no fusion logic.
- Aliasing between the merged list and the layers' lists. The gate's array starts as a copy of the merged list, so the model does not show that the source's overwrite of `candidate.confidence` is also visible through the layers' lists.
