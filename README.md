# TrainNewsGroups, modelled in Dafny

`TrainNewsGroups` trains a logistic-regression classifier on the 20
Newsgroups corpus using stochastic gradient descent. It shuffles the training files, and
turns each file into a bag of words. Depending on `leakType`, that bag may
include a date that deliberately leaks the target group. The learner is trained
on one example at a time. The program keeps running averages of the best model's
log-likelihood and accuracy, and prints a progress line on an increasingly
sparse schedule.

This project models that core and proves properties of it:

- `permute`, the incremental shuffle (`permute.dfy`, module `Permutation`);
- the progress-report schedule driven by `k`, `step` and
  `bumps` (`schedule.dfy`, module `ReportSchedule`);
- the running averages with their window `min(k + 1, 200)` and their
  undefined (NaN) state (`averages.dfy`, module `RunningAverage`);
- the loop of `main` that ties these together (`training.dfy`, module
  `TrainingLoop`);
- the leak date and the index `leakType % 3` (`leak.dfy`, module `LeakDate`);
- the header/body selection of `encodeFeatureVector` and the word counting
  of `countWords` (`encoder.dfy`, module `FeatureWords`).

Two small support modules model the Java semantics the program depends on.
`java_arith.dfy` covers the truncating `%`, the 32-bit wrap-around of `int`
multiplication and the saturating `(int)` cast. `wrappers.dfy` holds
`Option` and `Result`.

Inputs the program draws from the outside world become parameters:

- the random draws of `permute` become a sequence `choices`;
- the random part of the leak date becomes `jitter`;
- the Lucene analyzer becomes a function `tokenize`;
- `SimpleDateFormat` becomes a function `render`;
- the learner's answer for each example becomes an `Observation`.

A file is the sequence of lines `readLine` returns.

Where a plain description of the program and its code disagree, the model
follows the code:

- Reports fire at k = 1, 2, 3, 4, 6, 8, 10, 12, 15, 20, 25, 30, 40, 50, …,
  not at 1, 2, 5, 10, 20, …. This is because `step` advances by 0.25 per report and
  each `bump * scale` value therefore serves four reports. The increments
  of 0.25 are exact in binary floating point, so `step` is always `q / 4`
  for the number `q` of reports so far, and the model counts `q`.
- Both averages start at 0, not NaN (lines 104-105). The zero start is
  never visible: the first example is seen at `k = 0`, whose window is 1,
  so `0 + (ll - 0) / 1` is `ll` exactly. Only after an example without a
  model do the averages become NaN, and the next example with a model
  overwrites them.
- A negative `leakType` that is not a multiple of three makes `leakType % 3`
  negative and `df[leakType % 3]` throws. This is modelled as the error
  `FormatIndexOutOfBounds`.
- A file that ends inside its header block makes the do-while dereference a
  null line. This is modelled as the error `HeaderRunsToEndOfFile`.

## Model

Source paths are relative to the repository root.

| member | source | states |
|---|---|---|
| Permutation.Permute | src/main/java/org/apache/mahout/classifier/sgd/TrainNewsGroups.java:262-274 | the loop returns the list of the draws' shuffle: same length and the same items with the same multiplicities |
| Permutation.PlaceEffect | src/main/java/org/apache/mahout/classifier/sgd/TrainNewsGroups.java:265-270 | one step grows the list by one, puts the new item at the drawn position, moves the displaced item to the end, leaves every other position alone and adds the item to the multiset |
| Permutation.Place | src/main/java/org/apache/mahout/classifier/sgd/TrainNewsGroups.java:265-270 | defines one step of the loop body: append when the draw is the current size, else move the drawn item to the end and put the file in its place; `PlaceEffect` states its effect |
| Permutation.Shuffled | src/main/java/org/apache/mahout/classifier/sgd/TrainNewsGroups.java:262-274 | the shuffle has the input's length |
| Permutation.ShuffledStep | src/main/java/org/apache/mahout/classifier/sgd/TrainNewsGroups.java:264-271 | the result after one more file is the previous result with that file placed |
| Permutation.ShuffledIsPermutation | src/main/java/org/apache/mahout/classifier/sgd/TrainNewsGroups.java:262-274 | the result is a permutation of the input (equal multisets) |
| Permutation.ShuffledIdentity | src/main/java/org/apache/mahout/classifier/sgd/TrainNewsGroups.java:265-267 | when every draw equals the current size, the input order is kept |
| Permutation.Unplace | src/main/java/org/apache/mahout/classifier/sgd/TrainNewsGroups.java:266-270 | undoing a step: placing the removed item again gives back the list |
| Permutation.PlaceInjective | src/main/java/org/apache/mahout/classifier/sgd/TrainNewsGroups.java:265-270 | a step with a new item determines both the draw and the list before it |
| Permutation.ShuffledInjective | src/main/java/org/apache/mahout/classifier/sgd/TrainNewsGroups.java:262-274 | for distinct files, different draws give different orders |
| Permutation.ChoicesFor | src/main/java/org/apache/mahout/classifier/sgd/TrainNewsGroups.java:265 | the draws reconstructed from an order are draws `rand.nextInt(j + 1)` can return |
| Permutation.ShuffledReachesEveryOrder | src/main/java/org/apache/mahout/classifier/sgd/TrainNewsGroups.java:262-274 | every order of distinct files is produced by the reconstructed draws |
| Permutation.ShuffledIsBijective | src/main/java/org/apache/mahout/classifier/sgd/TrainNewsGroups.java:262-274 | draws and orders correspond one to one, so uniform draws give uniform orders |
| JavaArith.Rem | src/main/java/org/apache/mahout/classifier/sgd/TrainNewsGroups.java:182 | Java's `%`: smaller than the divisor in magnitude, with the sign of the dividend |
| JavaArith.QuotRem | src/main/java/org/apache/mahout/classifier/sgd/TrainNewsGroups.java:182 | truncating quotient and remainder recompose the dividend |
| JavaArith.RemOfNatural | src/main/java/org/apache/mahout/classifier/sgd/TrainNewsGroups.java:182 | on a non-negative dividend Java's remainder is the Euclidean one |
| JavaArith.Wrap32 | src/main/java/org/apache/mahout/classifier/sgd/TrainNewsGroups.java:182 | the `int` product lies in the 32-bit range, agrees with the exact value modulo 2^32, and equals it when it fits |
| JavaArith.SaturatedInt | src/main/java/org/apache/mahout/classifier/sgd/TrainNewsGroups.java:155 | the `(int)` cast of a double saturates at the `int` bounds and is exact inside them |
| JavaArith.Pow10 | src/main/java/org/apache/mahout/classifier/sgd/TrainNewsGroups.java:155 | a power of ten is at least one |
| ReportSchedule.Bump | src/main/java/org/apache/mahout/classifier/sgd/TrainNewsGroups.java:154 | `bump` is 1, 2 or 5 |
| ReportSchedule.Scale | src/main/java/org/apache/mahout/classifier/sgd/TrainNewsGroups.java:155 | `scale` is between 1 and `Integer.MAX_VALUE`, and either at most 10^9 or saturated |
| ReportSchedule.PowerOfTenBelowIntMax | src/main/java/org/apache/mahout/classifier/sgd/TrainNewsGroups.java:155 | no power of ten lies between 10^9 and `Integer.MAX_VALUE` |
| ReportSchedule.Interval | src/main/java/org/apache/mahout/classifier/sgd/TrainNewsGroups.java:182 | `bump * scale` is never zero, so `k % (bump * scale)` never throws |
| ReportSchedule.Fires | src/main/java/org/apache/mahout/classifier/sgd/TrainNewsGroups.java:182 | defines the test `k % (bump * scale) == 0` with Java's `%`; `FiresIffMultiple` states its meaning |
| ReportSchedule.Tick | src/main/java/org/apache/mahout/classifier/sgd/TrainNewsGroups.java:152-183 | defines `k++` followed by the test and `step += 0.25`; `TickIsTickFor` and `TickOnSchedule` state its effect |
| ReportSchedule.FiresIffMultiple | src/main/java/org/apache/mahout/classifier/sgd/TrainNewsGroups.java:182 | a report fires iff `k` is a multiple of the interval |
| ReportSchedule.IntervalExact | src/main/java/org/apache/mahout/classifier/sgd/TrainNewsGroups.java:154-155 | for fewer than 116 reports the `int` product is exact and at least 1 |
| ReportSchedule.IntervalWrapsAt116 | src/main/java/org/apache/mahout/classifier/sgd/TrainNewsGroups.java:154-155 | after 116 reports the intended interval 5 * 10^9 wraps to 705032704 |
| ReportSchedule.IntervalPerBlock | src/main/java/org/apache/mahout/classifier/sgd/TrainNewsGroups.java:154-155 | the interval depends on `floor(step)` only: each value serves four consecutive reports |
| ReportSchedule.IdealIntervalGrowsPerBlock | src/main/java/org/apache/mahout/classifier/sgd/TrainNewsGroups.java:154-155 | from one value of `floor(step)` to the next, the intended interval grows strictly |
| ReportSchedule.IdealIntervalMonotone | src/main/java/org/apache/mahout/classifier/sgd/TrainNewsGroups.java:154-155 | the intended interval never shrinks as reports fire |
| ReportSchedule.SpacingMonotone | src/main/java/org/apache/mahout/classifier/sgd/TrainNewsGroups.java:154-155 | the actual interval equals the intended one and never shrinks, below 116 reports |
| ReportSchedule.Remainder | src/main/java/org/apache/mahout/classifier/sgd/TrainNewsGroups.java:182 | repeated subtraction leaves a remainder below the divisor |
| ReportSchedule.RemainderIsMod | src/main/java/org/apache/mahout/classifier/sgd/TrainNewsGroups.java:182 | repeated subtraction is the Euclidean remainder |
| ReportSchedule.TickIsTickFor | src/main/java/org/apache/mahout/classifier/sgd/TrainNewsGroups.java:152-183 | the loop's `k++` and test are the schedule's tick for the spacing `|bump * scale|` |
| ReportSchedule.NextMultipleAfter | src/main/java/org/apache/mahout/classifier/sgd/TrainNewsGroups.java:182 | the next report time lies after the previous one |
| ReportSchedule.NextMultiple | src/main/java/org/apache/mahout/classifier/sgd/TrainNewsGroups.java:182 | after a report, the first later multiple of the spacing is the next report time |
| ReportSchedule.TickOnSchedule | src/main/java/org/apache/mahout/classifier/sgd/TrainNewsGroups.java:152-183 | a tick counts one example, advances `step` by a quarter exactly when it reaches the next report time, and stays on schedule |
| ReportSchedule.RunForStep | src/main/java/org/apache/mahout/classifier/sgd/TrainNewsGroups.java:152-183 | unfolds one step of `RunFor`: one more example ticks the clock and records `k` if a report fired |
| ReportSchedule.RunFollowsReportAt | src/main/java/org/apache/mahout/classifier/sgd/TrainNewsGroups.java:107-183 | after `n` examples `k == n`, `4 * step` equals the number of reports, the reports fired at the successive report times, and the next is ahead |
| ReportSchedule.ReportAtIncreasing | src/main/java/org/apache/mahout/classifier/sgd/TrainNewsGroups.java:182-183 | reports fire at strictly increasing `k` |
| ReportSchedule.PreviousIsReport | src/main/java/org/apache/mahout/classifier/sgd/TrainNewsGroups.java:182-183 | unfolds `Previous`: each report time follows the one before |
| ReportSchedule.ReportsFiredBy | src/main/java/org/apache/mahout/classifier/sgd/TrainNewsGroups.java:182-183 | exactly `t` reports have fired after `n` examples iff `n` lies between report times `t - 1` and `t` |
| ReportSchedule.FirstSpacings | src/main/java/org/apache/mahout/classifier/sgd/TrainNewsGroups.java:154-155 | the first fourteen intervals are 1, 1, 1, 1, 2, 2, 2, 2, 5, 5, 5, 5, 10, 10 |
| ReportSchedule.FirstTimesFollowSpacings | src/main/java/org/apache/mahout/classifier/sgd/TrainNewsGroups.java:182 | 1, 2, 3, 4, 6, 8, 10, 12, 15, 20, 25, 30, 40, 50 are each the next multiple of their interval |
| ReportSchedule.FirstReportTimesFor | src/main/java/org/apache/mahout/classifier/sgd/TrainNewsGroups.java:152-183 | a schedule with those intervals has those first report times |
| ReportSchedule.FirstReportsFor | src/main/java/org/apache/mahout/classifier/sgd/TrainNewsGroups.java:152-183 | between consecutive first report times, the reports fired so far are exactly the earlier times |
| ReportSchedule.FirstReports | src/main/java/org/apache/mahout/classifier/sgd/TrainNewsGroups.java:107-183 | from `k = 0, step = 0`, 40 to 49 examples fire exactly thirteen reports, at k = 1, 2, 3, 4, 6, 8, 10, 12, 15, 20, 25, 30, 40 |
| RunningAverage.Window | src/main/java/org/apache/mahout/classifier/sgd/TrainNewsGroups.java:127 | `mu = min(k + 1, 200)` lies in [1, 200], is at most `k + 1`, and is `k + 1` or 200 |
| RunningAverage.Blend | src/main/java/org/apache/mahout/classifier/sgd/TrainNewsGroups.java:128-142 | defines one update: NaN becomes the value, a defined average moves `1 / mu` of the way to it; `BlendDefined`, `BlendBetween`, `BlendWithin` and `BlendExtendsMean` state its properties |
| RunningAverage.BlendDefined | src/main/java/org/apache/mahout/classifier/sgd/TrainNewsGroups.java:128-142 | an update always leaves the average defined; from NaN it takes the raw value |
| RunningAverage.BlendFixedPoint | src/main/java/org/apache/mahout/classifier/sgd/TrainNewsGroups.java:131 | feeding an average its own value leaves it unchanged |
| RunningAverage.BlendWindowOne | src/main/java/org/apache/mahout/classifier/sgd/TrainNewsGroups.java:127-131 | with `mu == 1` the new value replaces the average |
| RunningAverage.BlendBetween | src/main/java/org/apache/mahout/classifier/sgd/TrainNewsGroups.java:131 | the new average lies between the old average and the new value, and its distance to the value shrinks by `1 - 1/mu` |
| RunningAverage.BlendWithin | src/main/java/org/apache/mahout/classifier/sgd/TrainNewsGroups.java:131-139 | an average of values in [lo, hi] stays in [lo, hi] |
| RunningAverage.BlendExtendsMean | src/main/java/org/apache/mahout/classifier/sgd/TrainNewsGroups.java:127-131 | with window `n + 1`, an update turns the mean of `n` values into the mean of `n + 1` values |
| TrainingLoop.Observe | src/main/java/org/apache/mahout/classifier/sgd/TrainNewsGroups.java:122-150 | `ll`, `estimated` and both averages after one example are those of the loop's step function |
| TrainingLoop.NextAverageLL | src/main/java/org/apache/mahout/classifier/sgd/TrainNewsGroups.java:124-150 | defines `averageLL` after an example: blended with `ll` in window `min(k + 1, 200)`, or NaN without a model |
| TrainingLoop.NextAverageCorrect | src/main/java/org/apache/mahout/classifier/sgd/TrainNewsGroups.java:137-150 | defines `averageCorrect` after an example: blended with `correct`, or NaN without a model |
| TrainingLoop.Step | src/main/java/org/apache/mahout/classifier/sgd/TrainNewsGroups.java:110-189 | defines one iteration: both averages, the tick of `k` and `step`, and the progress line when the report fires |
| TrainingLoop.Pass | src/main/java/org/apache/mahout/classifier/sgd/TrainNewsGroups.java:104-190 | defines the loop as the fold of `Step` from `k = 0`, `step = 0` and both averages at 0 |
| TrainingLoop.Train | src/main/java/org/apache/mahout/classifier/sgd/TrainNewsGroups.java:104-189 | the loop's final `k`, `step`, averages and printed lines are those of the fold of `Step` from the initial state |
| TrainingLoop.PassStep | src/main/java/org/apache/mahout/classifier/sgd/TrainNewsGroups.java:110 | unfolds one step of `Pass`: one more example applies one more loop step |
| TrainingLoop.PassFollowsRun | src/main/java/org/apache/mahout/classifier/sgd/TrainNewsGroups.java:152-189 | the loop's clock and the `k` of every line follow the schedule alone |
| TrainingLoop.PassFollowsSchedule | src/main/java/org/apache/mahout/classifier/sgd/TrainNewsGroups.java:152-189 | whatever the learner answers, the clock and the `k` of the lines are those of the report schedule |
| TrainingLoop.ReportsOnSchedule | src/main/java/org/apache/mahout/classifier/sgd/TrainNewsGroups.java:152-189 | `k` counts the examples, each line adds a quarter to `step`, line `i` is printed at report time `i`, and the next report is ahead |
| TrainingLoop.FirstProgressLines | src/main/java/org/apache/mahout/classifier/sgd/TrainNewsGroups.java:182-189 | 40 to 49 examples print thirteen lines, at k = 1, 2, 3, 4, 6, 8, 10, 12, 15, 20, 25, 30, 40 |
| TrainingLoop.TickCounts | src/main/java/org/apache/mahout/classifier/sgd/TrainNewsGroups.java:152 | unfolds `Tick`: the loop's tick counts one example |
| TrainingLoop.PassCounts | src/main/java/org/apache/mahout/classifier/sgd/TrainNewsGroups.java:107-152 | `k` is the number of examples seen |
| TrainingLoop.ColdStart | src/main/java/org/apache/mahout/classifier/sgd/TrainNewsGroups.java:128-150 | without a model `ll`, both averages become NaN and `estimated` 0; the next example with a model sets both averages to its raw values |
| TrainingLoop.ConstantLogLikelihood | src/main/java/org/apache/mahout/classifier/sgd/TrainNewsGroups.java:104-132 | with a model from the first example on, a constant `ll` keeps `averageLL` at that constant |
| TrainingLoop.ConstantLogLikelihoodAfter | src/main/java/org/apache/mahout/classifier/sgd/TrainNewsGroups.java:128-150 | from the start, or from the first modelled example after one without a model, a constant `ll` keeps `averageLL` at that constant |
| TrainingLoop.ColdOrFresh | src/main/java/org/apache/mahout/classifier/sgd/TrainNewsGroups.java:104-150 | at the start the clock is at zero and both averages are 0; right after an example without a model both are NaN |
| TrainingLoop.BlendKeeps | src/main/java/org/apache/mahout/classifier/sgd/TrainNewsGroups.java:127-131 | an update with `v` yields `v` from NaN, from `v`, or from the zero start with window 1 |
| TrainingLoop.AlwaysCorrect | src/main/java/org/apache/mahout/classifier/sgd/TrainNewsGroups.java:105-142 | when the estimate is always right from the first example on, `averageCorrect` is 1 |
| TrainingLoop.NeverCorrect | src/main/java/org/apache/mahout/classifier/sgd/TrainNewsGroups.java:137-142 | when the estimate is never right from the first example on, `averageCorrect` is 0 |
| TrainingLoop.ConstantCorrectnessAfter | src/main/java/org/apache/mahout/classifier/sgd/TrainNewsGroups.java:137-150 | from the start, or from the first modelled example after one without a model, a constant `correct` (always 1 or always 0) keeps `averageCorrect` at that constant |
| TrainingLoop.AccuracyIsFraction | src/main/java/org/apache/mahout/classifier/sgd/TrainNewsGroups.java:105-149 | `averageCorrect`, when defined, lies in [0, 1] |
| TrainingLoop.LogLikelihoodBounded | src/main/java/org/apache/mahout/classifier/sgd/TrainNewsGroups.java:125-147 | once an example has been seen, `averageLL` stays within any bounds every `ll` respects |
| TrainingLoop.LogLikelihoods | src/main/java/org/apache/mahout/classifier/sgd/TrainNewsGroups.java:125 | the sequence of `ll` values has one entry per example, in order |
| TrainingLoop.AverageIsMean | src/main/java/org/apache/mahout/classifier/sgd/TrainNewsGroups.java:104-132 | for the first 200 examples, all with a model, `averageLL` is exactly the mean `ll` |
| LeakDate.LeakMillis | src/main/java/org/apache/mahout/classifier/sgd/TrainNewsGroups.java:221 | the leak date lies in a one-week window starting at the group's month |
| LeakDate.GroupOfLeakMillis | src/main/java/org/apache/mahout/classifier/sgd/TrainNewsGroups.java:221 | the group can be read back from its leak date |
| LeakDate.LeakMillisOrdered | src/main/java/org/apache/mahout/classifier/sgd/TrainNewsGroups.java:64-66 | leak dates of distinct groups fall in disjoint, increasing windows, because a week is shorter than a month |
| LeakDate.LeakMillisFitsInLong | src/main/java/org/apache/mahout/classifier/sgd/TrainNewsGroups.java:221 | for every `int` group the date fits in a `long`, so the cast does not saturate |
| LeakDate.FormatIndex | src/main/java/org/apache/mahout/classifier/sgd/TrainNewsGroups.java:226 | `leakType % 3` as an array index is below 3 whenever it is not negative |
| LeakDate.FormatIndexDefined | src/main/java/org/apache/mahout/classifier/sgd/TrainNewsGroups.java:226 | the index is valid iff `leakType` is non-negative or a multiple of three, and is then the Euclidean remainder |
| LeakDate.LeakLabel | src/main/java/org/apache/mahout/classifier/sgd/TrainNewsGroups.java:188 | the label exists exactly when the index is valid, and is one of the three labels |
| FeatureWords.GroupStart | src/main/java/org/apache/mahout/classifier/sgd/TrainNewsGroups.java:228-238 | a header line's group starts at an opening line, followed only by continuation lines |
| FeatureWords.IsFieldHeader | src/main/java/org/apache/mahout/classifier/sgd/TrainNewsGroups.java:229-231 | defines a line that starts with From:, Subject:, Keywords: or Summary: |
| FeatureWords.IsContinuation | src/main/java/org/apache/mahout/classifier/sgd/TrainNewsGroups.java:238 | defines a line that starts with a space |
| FeatureWords.Selected | src/main/java/org/apache/mahout/classifier/sgd/TrainNewsGroups.java:229-238 | defines a header line that is counted: `leakType < 6` and its group's first line is a field header |
| FeatureWords.HeaderLines | src/main/java/org/apache/mahout/classifier/sgd/TrainNewsGroups.java:228-238 | defines the header lines that are counted, in file order; `HeaderLinesSelection` states which they are |
| FeatureWords.GroupStartUnique | src/main/java/org/apache/mahout/classifier/sgd/TrainNewsGroups.java:232-238 | an opening line followed only by continuations is the start of each line's group |
| FeatureWords.HeaderLinesSelection | src/main/java/org/apache/mahout/classifier/sgd/TrainNewsGroups.java:228-238 | the counted header lines are exactly the selected lines, in file order, each once; a line is selected iff `leakType < 6` and its group opens with From:, Subject:, Keywords: or Summary: |
| FeatureWords.HeaderLinesAtIndices | src/main/java/org/apache/mahout/classifier/sgd/TrainNewsGroups.java:228-238 | the counted header lines are the lines at the selected positions |
| FeatureWords.SelectedIndicesIncrease | src/main/java/org/apache/mahout/classifier/sgd/TrainNewsGroups.java:228-238 | the selected positions are strictly increasing |
| FeatureWords.SelectedIndicesMembers | src/main/java/org/apache/mahout/classifier/sgd/TrainNewsGroups.java:229-236 | a position is selected iff its line is |
| FeatureWords.NoHeaderLines | src/main/java/org/apache/mahout/classifier/sgd/TrainNewsGroups.java:229-231 | for `leakType >= 6` no header line is counted |
| FeatureWords.FirstBlank | src/main/java/org/apache/mahout/classifier/sgd/TrainNewsGroups.java:228 | the header block ends at the first empty line, if there is one |
| FeatureWords.FirstBlankIs | src/main/java/org/apache/mahout/classifier/sgd/TrainNewsGroups.java:228 | an empty line with no empty line before it is where the header block ends |
| FeatureWords.Join | src/main/java/org/apache/mahout/classifier/sgd/TrainNewsGroups.java:240-241 | defines the text of the rest of the file that the reader passes on: each line followed by a line end |
| FeatureWords.Segments | src/main/java/org/apache/mahout/classifier/sgd/TrainNewsGroups.java:220-242 | defines the texts counted, in order: the date, the selected header lines and, iff `leakType < 3`, the rest; or the error the code raises; `SegmentsOfEndedHeader`, `SegmentsLayout`, `UnendedHeaderFails` and `NegativeIndexFails` state each case |
| FeatureWords.AddedCounts | src/main/java/org/apache/mahout/classifier/sgd/TrainNewsGroups.java:258 | `words.add(s)` raises the count of `s` by one and changes no other count |
| FeatureWords.Added | src/main/java/org/apache/mahout/classifier/sgd/TrainNewsGroups.java:258 | defines `words.add(s)` on a map from words to counts; `AddedCounts` states its effect |
| FeatureWords.AddAll | src/main/java/org/apache/mahout/classifier/sgd/TrainNewsGroups.java:256-258 | defines adding a token stream one word at a time; `AddAllCounts` states its effect |
| FeatureWords.WordBag.constructor | src/main/java/org/apache/mahout/classifier/sgd/TrainNewsGroups.java:222 | the multiset starts empty |
| FeatureWords.WordBag.Add | src/main/java/org/apache/mahout/classifier/sgd/TrainNewsGroups.java:258 | `words.add(s)` |
| FeatureWords.CountWords | src/main/java/org/apache/mahout/classifier/sgd/TrainNewsGroups.java:253-260 | the loop adds every token of the stream, in order |
| FeatureWords.AddAllCounts | src/main/java/org/apache/mahout/classifier/sgd/TrainNewsGroups.java:253-259 | counting tokens raises each word's count by its number of occurrences, and the words present are the old ones and the tokens |
| FeatureWords.BagCounts | src/main/java/org/apache/mahout/classifier/sgd/TrainNewsGroups.java:247-249 | a counted word occurs among the tokens, its count is its number of occurrences, and so at least one |
| FeatureWords.BagIgnoresOrder | src/main/java/org/apache/mahout/classifier/sgd/TrainNewsGroups.java:222 | the multiset does not depend on the order of the tokens |
| FeatureWords.AddAllConcat | src/main/java/org/apache/mahout/classifier/sgd/TrainNewsGroups.java:253-259 | counting two token streams one after the other is counting their concatenation |
| FeatureWords.CountSegment | src/main/java/org/apache/mahout/classifier/sgd/TrainNewsGroups.java:253-260 | counting one more text adds that text's tokens |
| FeatureWords.CountedHeadersAreHeaderLines | src/main/java/org/apache/mahout/classifier/sgd/TrainNewsGroups.java:228-238 | counting the header lines one by one is counting the tokens of the selected header lines |
| FeatureWords.WalkGroup | src/main/java/org/apache/mahout/classifier/sgd/TrainNewsGroups.java:232-238 | the do-while counts a header line and its continuations when the header is selected and stops at the next opening line or at the end of the file |
| FeatureWords.EncodeWords | src/main/java/org/apache/mahout/classifier/sgd/TrainNewsGroups.java:220-243 | the words collected are the tokens of the selected texts, or the error the code raises |
| FeatureWords.SegmentsOfEndedHeader | src/main/java/org/apache/mahout/classifier/sgd/TrainNewsGroups.java:225-242 | for a valid index and a header block ended by an empty line, the texts are the date, the selected header lines and, iff `leakType < 3`, the rest of the file |
| FeatureWords.SegmentsOfBlankLine | src/main/java/org/apache/mahout/classifier/sgd/TrainNewsGroups.java:225-242 | for a valid index and an empty line `e` with none before, the texts are the date, the selected header lines before `e` and, iff `leakType < 3`, the lines after `e` |
| FeatureWords.SegmentsOfEmptyFile | src/main/java/org/apache/mahout/classifier/sgd/TrainNewsGroups.java:225-242 | for a valid index and an empty file, the texts are the date and, iff `leakType < 3`, an empty body |
| FeatureWords.DateComesFirst | src/main/java/org/apache/mahout/classifier/sgd/TrainNewsGroups.java:226-227 | the leak date, in the format of `leakType % 3`, is always counted first |
| FeatureWords.SegmentsLayout | src/main/java/org/apache/mahout/classifier/sgd/TrainNewsGroups.java:228-242 | after the date come the selected header lines; the body follows iff `leakType < 3` |
| FeatureWords.OnlyDateWords | src/main/java/org/apache/mahout/classifier/sgd/TrainNewsGroups.java:226-242 | for `leakType >= 6` and a file that is empty or whose header block ends, only the date's tokens reach the multiset, whatever the file says |
| FeatureWords.UnendedHeaderFails | src/main/java/org/apache/mahout/classifier/sgd/TrainNewsGroups.java:237-238 | with a valid format index, a non-empty file without an empty line fails |
| FeatureWords.NegativeIndexFails | src/main/java/org/apache/mahout/classifier/sgd/TrainNewsGroups.java:226 | a negative `leakType` not divisible by three fails on the format index |
| FeatureWords.WordCountsAreOccurrences | src/main/java/org/apache/mahout/classifier/sgd/TrainNewsGroups.java:247-259 | every word of the encoded multiset occurs among the selected tokens, with its number of occurrences as count, hence at least one |

## Left out

- Directory listing, file reading and every `printf`: the corpus is given as sequences of lines, and the
  progress output as `Report` values.
- The Lucene `StandardAnalyzer`: it is a foreign library, and appears as the parameter `tokenize`.
- `SimpleDateFormat`: the date rendering is a foreign library, and appears as the parameter `render`.
- `StaticWordValueEncoder`, `ConstantValueEncoder` and the hashing into a 10000-wide vector (lines 245-250):
  their classes are not part of this model. The model stops at the word multiset that feeds them.
  The `Math.log(1 + count)` weight is floating point.
- `AdaptiveLogisticRegression`, `CrossFoldLearner`, `Dictionary` and the whole of `dissect`: their code is not part of
  this model. Whatever the learner answers arrives as an `Observation`.
- The beta aggregates `maxBeta`, `nonZeros`, `positive` and `norm` (lines 157-181): they are floating-point reductions
  done by Mahout's math library.
- `com/manning/chapter15/BadTokens.java`: a demonstration of the tokenizer, made of I/O only.
- Double rounding: the averages are real numbers and NaN is `None`.
- `java.util.Random`: the draws of `permute` are the parameter `choices`. The random part of the
  leak date is the integer parameter `jitter`, anywhere from 0 to `1000 * WEEK` milliseconds: the `double` sum of
  line 221 may round, and can reach the upper bound itself, before the `long` cast truncates it.
- Line terminators: `readLine` accepts `\r`, `\n` and `\r\n`. The rest of the file that reaches the tokenizer is
  written with `\n` after each line.
- TrainingLoop.Train: `k` is unbounded. Java's `int k` would wrap after 2^31 - 1 examples.
- TrainingLoop.Train: every example arrives as an `Observation`, so the loop cannot fail. In the program an
  exception from `encodeFeatureVector` (line 114) ends `main`: the bad format index of line 226 stops it at the
  first file, and a header that runs to the end of the file stops it at that file. The model covers the loop up
  to the first file whose encoding fails (`EncodeWords` returns `Err` for it); the state reached there is
  `Pass(Tick, obs[..j])` for the `j` files before it, and nothing after is printed.
- ReportSchedule.SpacingMonotone: stated only below 116 reports. At report 116 the 32-bit product wraps,
  which `IntervalWrapsAt116` exhibits. Reaching that report needs more than 2^31 examples, so `k` would
  already have overflowed.
