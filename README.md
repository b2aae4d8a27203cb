# SASA night analysis, modelled in Dafny

SASA (Sleep Apnea Saturation Analysis) reads pulse-oximeter recordings and
summarises, for every subject, the desaturation events of one night. This
project models the per-night pipeline of `main.py`:

- the sample conditioning: the sentinel reading 500 marks an invalid SpO2
  value, the interval between samples, the back-filled SpO2 and pulse, and the
  first difference of the filled SpO2;
- the night window (`night_time_check`), which wraps past midnight;
- the desat / sub desat / spike desat classification;
- the debounce filter: a time-based rolling minimum followed by a rolling
  maximum over the same trailing window, for desat and sub desat, each with
  the minimum and the sustained duration;
- the bout edges (`astype(int).diff()`), bout pairing (`bout_assembler`) and
  the sub desat start annotation (`flag_subdesat_starts`);
- the integer parts of the summary (`prepare_output_dict`) and the bout means;
- the night duration bins: the bin table, the night length in whole hours and
  `identify_bin`.

Timestamps are integer seconds, a time of day is seconds since midnight
(0 to 86399), and every column of a frame is a sequence indexed by sample.
A missing cell (pandas' NaN) is `None`. `Timedelta.seconds` is the span
modulo one day (`Series.DaySeconds`), which is what pandas computes for
negative spans too.

The files follow the pipeline: `series.dfy` (columns, boolean selection,
sums that skip missing cells), `night_window.dfy`, `conditioning.dfy`,
`debounce.dfy`, `edges.dfy`, `bouts.dfy`, `duration_bins.dfy`,
`summary.dfy`, `analysis.dfy` (one night end to end) and `cohort.dfy` (the bin
table as a class, and the per-subject step of the main loop).

Some behaviour of the code is modelled as written because it is what the
program does:

- The first sample of the night sees a window holding only itself, so a short
  run at the very start of the night is not trimmed
  (`Debounce.FirstSampleIsNotTrimmed`, `Debounce.LeadingRunIsNotTrimmed`).
- Both rolling windows trail the sample, so the maximum pass moves a
  surviving run forward in time rather than restoring its start
  (`Debounce.PersistentRunShiftsForward`).
- The "from subdesat" counts compare a whole bout record with 1, which is
  never true, so they are always 0 (`Summary.FromSubdesatCountIsZero`). The
  sustained list's comprehension also names a misspelt key, which is never
  read for the same reason.
- The "median" fields of the sub desat and sustained sub desat lists are
  computed as means (`Summary.PrepareOutputDict`).
- The whole frame is back-filled, the `interval` column included, so the
  first row takes the second row's interval (`Conditioning.FilledIntervals`).
- The code has no severe-desaturation flag and does not force flags off at
  recording gaps; the model has neither.

## Model

| member | source | states |
|---|---|---|
| Series.CountTrue | main.py:166 | the count of flagged rows is at most the row count, and is 0 exactly when no row is flagged |
| Series.Where | main.py:350 | boolean selection keeps as many rows as there are true flags, and only rows of the column |
| Series.WhereKeepsFlagged | main.py:350 | every flagged row is kept, at the position given by the number of flagged rows before it |
| Series.FlaggedPositionsGrow | main.py:350 | an earlier flagged row has fewer flagged rows before it than a later one, so with `WhereKeepsFlagged` and the count the selection is exactly the flagged rows in their order |
| Series.CountEqual | main.py:130-132 | the count of rows equal to a value is at most the row count (see `Series.CountEqualIsZeroIffAbsent`) |
| Series.CountEqualIsZeroIffAbsent | main.py:130-132 | the count of rows equal to a value is 0 exactly when no present cell equals it |
| Series.Diff | main.py:341 | the difference column has one cell per row; its partner `Series.DiffSumsToSpan` relates it back to the column |
| Series.DiffSumsToSpan | main.py:341 | the differences of a column with no missing cell add up to its last value less its first |
| Series.WhereKeepsOrder | main.py:350 | selecting rows of a strictly increasing timestamp column leaves it strictly increasing |
| Series.MaxPresent | main.py:125 | the maximum skips missing cells: it is missing exactly when every cell is, otherwise it is a cell of the column and no present cell exceeds it |
| Series.DaySeconds | main.py:78 | `Timedelta.seconds` lies in [0, 86400) and equals the span when the span is within one day |
| Series.DaySecondsDropsWholeDays | main.py:78 | `Timedelta.seconds` differs from the span by whole days, so a span one day longer gives the same value |
| NightWindow.NightTimeCheck | main.py:41-57 | a missing bound takes its default, and a time exactly at the start or at the stop is night (the full characterisation is `NightWindow.NightIsClockArc`) |
| NightWindow.NightIsClockArc | main.py:41-57 | with distinct bounds a timestamp is night exactly when its clock time lies on the arc running forward from the start to the stop, both ends included, whether or not it wraps past midnight |
| NightWindow.EqualBoundsCoverTheWholeDay | main.py:54-57 | equal bounds take the wrapping branch, which accepts every time of day |
| NightWindow.DefaultWindowExamples | main.py:46-50 | with no bounds configured (21:00 to 07:00), 23:30 and 03:00 are night and 12:00 is not, on any day |
| Conditioning.NaFilter | main.py:329 | one flag per reading (its partner is `Conditioning.SentinelRowsAreMissing`) |
| Conditioning.MaskSentinel | main.py:333-337 | one cell per reading (its partner is `Conditioning.SentinelRowsAreMissing`) |
| Conditioning.SentinelRowsAreMissing | main.py:329-337 | a reading is missing after the sentinel is replaced exactly on the rows the sentinel filter flags, and every other reading is kept unchanged |
| Conditioning.Intervals | main.py:330 | one interval per sample (its partner is `Conditioning.IntervalsSumToSpan`) |
| Conditioning.IntervalsSumToSpan | main.py:330 | with strictly increasing timestamps every interval after the first row is positive, and the intervals add up to the span from the first sample to the last |
| Conditioning.BackFill | main.py:338 | after the in-place back-fill, every cell holds the first present cell at or after it in the old column |
| Conditioning.NextPresentIsFirstPresent | main.py:338 | a back-filled cell is missing exactly when every cell from it on is missing; otherwise it is the first present cell at or after it |
| Conditioning.FixedReadingIsNextValid | main.py:329-338 | a valid reading is kept; a sentinel reading takes the first valid reading after it; a trailing run of sentinels stays missing |
| Conditioning.FilledIntervals | main.py:330-338 | after the back-fill each row's interval is the time since the previous sample, the first row takes the second row's interval, and a single-sample recording keeps it missing |
| Conditioning.Classify | main.py:369-373 | desat and sub desat are never both set; a missing SpO2 or difference sets no flag; desat or sub desat holds exactly when SpO2 is below either threshold; a sub-threshold not above the desat threshold never flags sub desat |
| Debounce.RollingMin | main.py:377-379 | the rolling minimum at a sample is true exactly when the condition held at every sample of the window (t - W, t] |
| Debounce.RollingMax | main.py:380-382 | the rolling maximum at a sample is true exactly when the flag held at some sample of the window (t - W, t] |
| Debounce.DebounceMask | main.py:376-388 | the two passes yield the trimmed mask and the persistent mask as defined by the window predicates |
| Debounce.TrimmedImpliesCondition | main.py:376-379 | a trimmed sample satisfies the condition itself |
| Debounce.PersistentCoversTrimmed | main.py:376-382 | the persistent mask is at least the trimmed mask, pointwise |
| Debounce.NoTrimmedNoPersistent | main.py:380-382 | without a trimmed sample the persistent mask is false everywhere |
| Debounce.PersistentFollowsCondition | main.py:376-382 | a persistent sample lies less than W after a sample that satisfied the condition |
| Debounce.ShortRunIsTrimmed | main.py:376-379 | a run preceded by a sample without the condition and ending less than W after it is trimmed away entirely |
| Debounce.FirstSampleIsNotTrimmed | main.py:376-379 | at the first sample of the night the trimmed mask equals the condition |
| Debounce.LeadingRunIsNotTrimmed | main.py:376-379 | a run of the condition that starts the night is kept whole in the trimmed mask, however short it is |
| Debounce.SustainedRunPersists | main.py:376-382 | a run lasting at least W is trimmed at its last sample, and the persistent mask stays true for every sample less than W after it |
| Debounce.PersistentRunShiftsForward | main.py:376-388 | on samples one second apart with W = 2, the run at rows 1 and 2 becomes the persistent run at rows 2 and 3 |
| Edges.EdgeColumn | main.py:389-394 | one cell per row of the mask; `Edges.EdgeColumnMarksSteps` characterises its values |
| Edges.EdgeColumnMarksSteps | main.py:389-394 | +1 in the edge column is exactly a false-to-true step, -1 exactly a true-to-false step, and the first row is never an edge |
| Edges.BoutEdges | main.py:389-404 | the start and stop lists hold exactly the timestamps of the steps, strictly increasing; the start count is the count of +1 cells; starts and stops alternate, a start first when the night begins outside a bout and a stop first otherwise, with lengths fixed by how the night begins and ends; every edge lies after the first sample and no later than the last |
| Bouts.BoutAssembler | main.py:67-90 | empty edge lists give no bouts; the bout count is `min(starts, stops - 1)` when the first stop precedes the first start and `min(starts, stops)` otherwise; bout i pairs start i with stop i or i + 1, its duration is the within-day span; alternating edges give bouts that start before they stop and are disjoint and in increasing order |
| Bouts.PairedCountLosesOnlyOpenBout | main.py:67-90 | for alternating edges of one mask the bout count is the start count, less one when the night ends inside a bout |
| Bouts.LastBefore | main.py:97-99 | the row found is the last one whose timestamp is before the bout start; none is found only when every timestamp is at or after it |
| Bouts.StartAnnotation | main.py:95-103 | the annotation is "unk" exactly when no row of the night lies before the bout start |
| Bouts.FlagSubdesatStarts | main.py:93-105 | every bout gains the annotation read from the sustained sub desat mask at the last earlier sample, or "unk"; starts, stops and durations are unchanged |
| Bouts.StartAnnotationAtRow | main.py:93-105 | a bout starting at a row other than the first reads the mask at the row before it, never "unk" |
| Bouts.TotalDurationFitsSpan | main.py:171 | ordered, disjoint bouts within a span shorter than a day last in total no longer than that span |
| Bouts.OrderedStarts | main.py:67-90 | in a well-ordered bout list later bouts start later |
| DurationBins.PyRange | main.py:269-273 | the list `range` produces; `DurationBins.PyRangeMembership` characterises its elements |
| DurationBins.PyRangeMembership | main.py:269-274 | a value is produced by `range(start, stop, step)` exactly when it lies between start and stop on the step's side and is a whole number of steps from start |
| DurationBins.SortDescending | main.py:61 | the sort leaves the list in non-increasing order with the same elements |
| DurationBins.IdentifyBin | main.py:60-64 | the list is sorted in place, largest first, as a permutation; the result is the greatest element not above the value, and None exactly when every element is above it |
| DurationBins.DurationHours | main.py:356-363 | the hour count of a night; `DurationBins.DurationHoursBounds` and `DurationBins.DurationHoursRepeatsDaily` characterise it |
| DurationBins.DurationHoursBounds | main.py:355-363 | the hour count is the padded within-day span in hours truncated toward zero: the largest whole count not above a non-negative length, the smallest not below a negative one |
| DurationBins.DurationHoursRepeatsDaily | main.py:355-363 | a span one day longer gives the same hour count |
| Summary.DurationRecording | main.py:123 | hours, minutes and seconds recompose the within-day span, with minutes and seconds below 60 and hours below 24 |
| Summary.Mean | main.py:172 | the mean of an empty list is missing; otherwise mean times count is the sum |
| Summary.Stats | main.py:167-172 | the bout count is the list length, and an empty list has total duration 0 and no mean |
| Summary.PrepareOutputDict | main.py:108-208 | the summary's duration text recomposes the span, the maximum gap bounds every interval and is missing only when every interval is, the spike count is 0 exactly when no sample spikes, the bounded counts are the list lengths, and the two sub desat "median" fields equal the means |
| Summary.FromSubdesatCount | main.py:168-170 | the count is at most the number of bouts; `Summary.FromSubdesatCountIsZero` shows it is always 0 |
| Summary.FromSubdesatCountIsZero | main.py:168-170 | the "from subdesat" count is 0 for every bout list |
| Summary.SummaryFromSubdesatIsZero | main.py:168-187 | both "from subdesat" fields of every summary are 0 |
| Summary.FlaggedTime | main.py:124-165 | the interval time under a flag; `Summary.FlaggedTimePartitions` and `Summary.FlaggedTimeAtMostTotal` characterise it |
| Summary.FlaggedTimePartitions | main.py:124-127 | the interval time under a flag and the time outside it add up to the total interval time |
| Summary.FlaggedTimeAtMostTotal | main.py:124-127 | with non-negative intervals, the time under any flag lies between 0 and the total interval time |
| Summary.MeanWithin | main.py:172 | the mean of values within [lo, hi] lies within [lo, hi] |
| Summary.BoutMeanIsWithinADay | main.py:172-206 | every bout list's mean duration lies in [0, 86400) seconds |
| Analysis.FillColumn | main.py:338 | a back-filled copy of a column is its `bfill` |
| Analysis.ConditionRecording | main.py:329-341 | the sentinel filter, the filled interval, SpO2 and pulse columns and the SpO2 difference are those the column definitions give |
| Analysis.MaskBouts | main.py:376-452 | the persistent mask of a condition, and bouts that are ordered, disjoint, start at a start and stop at a stop of that mask, last their within-day span, and number the start count less one when the night ends inside a bout |
| Analysis.PairedEdgesAreBoutsOfMask | main.py:67-90 | the bouts `bout_assembler` pairs from the start and stop lists of one mask are ordered, disjoint, sit on that mask's edges, last their within-day span and number the start count less one when the night ends inside a bout |
| Analysis.AnnotateStarts | main.py:446-452 | the desat bouts gain the sustained sub desat annotation, never "unk", and remain bouts of their mask |
| Analysis.SelectNight | main.py:343-373 | the night rows are the selected rows of the conditioned recording, non-empty and in increasing time order, with their flags |
| Analysis.NightMasks | main.py:376-452 | the night frame holds the four persistent masks, and the four bout lists belong to them with the desat lists annotated |
| Analysis.AnalyseNight | main.py:329-465 | the night frame is the one the column definitions give, its bout lists belong to its masks, the summary is `PrepareOutputDict` of the frame and bouts, and the hour count is that of the night's span |
| Analysis.AnalysedNightSummarisesRecording | main.py:329-465 | the summary and hour count `AnalyseNight` returns are the recording's summary and hour count (`SummaryOfRecording`) |
| Analysis.RecordingFixesHours | main.py:351-363 | the hour count of a recording is the one its night frame's span gives, whichever bout lists witness its summary |
| Cohort.NightDurationBins.constructor | main.py:268-288 | the table's thresholds are exactly `range(min, complete, step)` with the complete-night threshold and 0, each with no subjects |
| Cohort.NightDurationBins.Identify | main.py:364-366 | the bin is the greatest threshold not above the hour count, and every hour count of 0 or more has one |
| Cohort.NightDurationBins.File | main.py:364-366 | the summary is filed under the greatest threshold not above the hour count and nothing else changes; with no such threshold the table is unchanged and the hour count is negative |
| Cohort.NightDurationBins.AddSubject | main.py:329-466 | the summary and hour count are those of the subject's recording (its night frame, bout lists of its masks, and its span), and the summary is filed under the greatest threshold not above the hour count with nothing else changed; when there is none the table is unchanged |

## Left out

- Reading the CSV and Excel files, listing the input directory, grouping files by subject id, writing the outputs and logging: these are input and output, not analysis.
- `build_timestamp` and the manual end-of-file timestamp fix: timestamps enter the model as integer seconds.
- Concatenating several files of one subject: the model takes one recording whose timestamps strictly increase; the "recording files" field is a parameter.
- The "avg" and "perc time" fields and the `np.median` of the desat and sustained desat lists: floating-point ratios and medians. The means are modelled over the reals, not IEEE doubles.
- Analysis.AnalyseNight: requires a night with at least one sample and strictly increasing timestamps; the program fails on an empty night and does not sort concatenated files.
- Cohort.NightDurationBins.File: when no bin is found the program raises an error at the table lookup; the model leaves the table unchanged and returns no bin.
- Cohort.NightDurationBins.AddSubject: when no bin is found the program raises an error at the table lookup; the model leaves the table unchanged and returns no bin.
- Debounce.DebounceMask: window widths are whole seconds; a zero width, which makes the program fail when it converts the mask to integers, is allowed by the model but meaningless.
- Thresholds and settings are integers; the program reads them from a spreadsheet and may receive floats.
- The Qt user interface and its logger (`sasa.py`) are not part of this model.
