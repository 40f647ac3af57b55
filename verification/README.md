# Enrolment time series — a Dafny model

This project models the core of `plot_enrolments.py`, a script that turns the
enrolment history exported from a learning management system into a graph of
the number of enrolled students per day, relative to an "epoch" date such as
the start of semester.

The export is a CSV file whose rows are
`DATE,LAST_NAME,GIVEN_NAMES,STUDENT_NUMBER,USERNAME,ACTION`, most recent event
first. The modelled pipeline is:

1. **Row selection** (`Ingest.ReadRecords`, described by `Ingest.ReadRecordsFails` and `Ingest.ReadRecordsKeeps`): a row is kept only when it has
   exactly six fields and its last field is exactly `Added` or `Removed`; its
   date is then parsed and it becomes a `Record(time, action)`. Rows are kept in
   input order. A kept row whose date does not parse aborts the read, reported
   as `BadDate(text)`; dropped rows are never parsed.
2. **Reversal** (`Pipeline.Run`): when at least one record was read, the list is
   reversed into chronological order and processed; an empty read plots
   nothing, and the epoch is then never parsed.
3. **Epoch and day offsets** (`Epoch`, `DayOffset`): the epoch is the stripped
   date text followed by ` 23:59`; the day offset of an event is
   `int((event - epoch) / 86400)`, a division truncated toward zero, modelled
   by `DayOffset.TruncDiv` (Dafny's own `/` floors negative quotients).
   `DayOffset.CalendarDayOffset` pins down the consequence: every minute of a
   calendar day on or before the epoch day gets that day's calendar distance;
   a day after the epoch day gets one less, except at 23:59 itself.
4. **Running tally and histogram** (`TallyEngine.Histogram`): a count starts at
   0, goes up for `Added`, down for `Removed` and is unchanged by any other
   action; after each record its day is overwritten with the count, so the last
   record of a day wins.
5. **Sort and window filter** (`SeriesBuilder.BuildSeries`): the histogram keys
   are sorted, those with `-low <= day <= high` are kept, and the result is two
   aligned lists. The optional annotation (`Plot.Annotation`) reports the
   maximum and the last count, and only when the list is non-empty.

Instants are integer seconds. The date parser is a parameter
`parse: string -> Option<int>` (`None` standing for the parse error), so the
model holds for any parser. The lemmas about calendar days
(`DayOffset.CalendarDayOffset`, `DayOffset.EpochDayIsDayZero`, the worked
examples in `Scenarios`) assume
days of exactly 86400 seconds.

With the epoch 28-Jul-2014, an addition at 27-Jul-2014 10:00 and a removal
at 29-Jul-2014 09:00, the removal is only 9 h 01 min after the 23:59 epoch,
less than a whole day, so it gets offset 0 rather than 1.
`Scenarios.WorkedExample` proves the series `days = [-1, 0]`,
`counts = [1, 0]`.

## Model

| member | source | states |
|---|---|---|
| `Records.ActionOf` | plot_enrolments.py:151-154 | A label denotes `Added`, `Removed`, or an `Other` action that never carries one of the two known labels. |
| `Records.LabelRoundTrip` | plot_enrolments.py:173-176 | Reading an action label and writing it back gives the same text. |
| `Records.ActionRoundTrip` | plot_enrolments.py:173-176 | Writing a well-formed action and reading it back gives the same action; the known labels are exactly the non-`Other` actions. |
| `DayOffset.TruncDiv` | plot_enrolments.py:140 | The quotient truncated toward zero: `0 <= q*b <= a < q*b + b` for non-negative `a`, and `q*b - b < a <= q*b <= 0` for negative `a`. |
| `DayOffset.TruncDivUnique` | plot_enrolments.py:140 | The truncated quotient is the only integer meeting those bounds. |
| `DayOffset.DaysDifference` | plot_enrolments.py:138-140 | The offset is 0 whenever the two instants are less than a day apart, its sign never disagrees with the sign of the difference, and `abs(d)` whole days fit in the gap but `abs(d)+1` do not. |
| `DayOffset.DaysDifferenceAntisymmetric` | plot_enrolments.py:138-140 | Swapping the two instants only negates the offset. |
| `DayOffset.TruncationVersusFloor` | plot_enrolments.py:140 | Truncation equals floor division for non-negative differences and for exact negative multiples of a day, and is one more than floor for all other negative differences. |
| `DayOffset.DaysDifferenceMonotone` | plot_enrolments.py:138-140 | A later event never gets a smaller day offset. |
| `DayOffset.CalendarDayOffset` | plot_enrolments.py:138-150 | With the epoch at 23:59 of its day, minute `m` of the day `k` days later gets offset `k` when `k <= 0` or `m` is 23:59, and `k - 1` otherwise. |
| `DayOffset.EpochDayIsDayZero` | plot_enrolments.py:145-150 | Every minute of the epoch's calendar day, 00:00 to 23:59, gets offset 0. |
| `Epoch.TrimLeft` | plot_enrolments.py:147 | The result is a suffix of the text, everything cut off is whitespace, and it does not start with whitespace. |
| `Epoch.TrimRight` | plot_enrolments.py:147 | The result is a prefix of the text, everything cut off is whitespace, and it does not end with whitespace. |
| `Epoch.StripSlice` | plot_enrolments.py:147 | A left trim followed by a right trim leaves the slice of the text that starts after the leading whitespace, with only whitespace after it. |
| `Epoch.EpochText` | plot_enrolments.py:147 | The text handed to the parser is the stripped date followed by ` 23:59`: it starts with `Strip(date)`, is six characters longer, and ends with ` 23:59`. |
| `Epoch.Strip` | plot_enrolments.py:147 | The stripped date is a slice of the argument with only whitespace cut from either end, and it neither starts nor ends with whitespace. |
| `Epoch.StripIdempotent` | plot_enrolments.py:147 | Stripping twice is the same as stripping once. |
| `Epoch.EpochTextIgnoresPadding` | plot_enrolments.py:147 | Whitespace added before or after the epoch argument does not change the text handed to the date parser. |
| `Ingest.KeptIndices` | plot_enrolments.py:171-177 | The positions of kept rows: strictly increasing, each a kept row, and every kept row among them. |
| `Ingest.ReadNext` | plot_enrolments.py:172-177 | One loop step: an earlier failure or a dropped row leaves the result unchanged, and a success extends the previous records by at most one. |
| `Ingest.ReadRecords` | plot_enrolments.py:166-180 | The reader loop yields at most one record per row; its full meaning is carried by `Ingest.ReadRecordsFails` and `Ingest.ReadRecordsKeeps`. |
| `Ingest.ReadRecordsFails` | plot_enrolments.py:166-180 | The read fails exactly when some kept row's date does not parse, and then reports the text of the first such row; a dropped row is never parsed. |
| `Ingest.ReadRecordsKeeps` | plot_enrolments.py:166-180 | A successful read yields one record per kept row, in input order, with the parsed time of field 0 and the action of the last field, never an `Other` action. |
| `Ingest.ReadNextFails` | plot_enrolments.py:171-177 | One more row keeps the failure description: an earlier failure stands, and a kept row with a bad date fails with its text. |
| `Ingest.ReadNextRecords` | plot_enrolments.py:171-177 | One more row keeps the record description: a kept row appends its record, any other row appends nothing. |
| `Ingest.ReadRecordsAppend` | plot_enrolments.py:171-177 | Reading two consecutive parts of a file is reading the first and then the second: the first failure wins, otherwise the records concatenate. |
| `Ingest.DroppedRowIsInvisible` | plot_enrolments.py:172-179 | A row with the wrong field count or an unrecognised action changes nothing about the read: removing it gives the same result. |
| `TallyEngine.Delta` | plot_enrolments.py:151-154 | `Added` raises the count, `Removed` lowers it, each by one, and every other action leaves it unchanged. |
| `TallyEngine.Tally` | plot_enrolments.py:149-154 | The running count over the records in order from 0; its value is stated by `TallyEngine.TallyIsNetCount`. |
| `TallyEngine.TallyIsNetCount` | plot_enrolments.py:149-154 | The running count is the number of `Added` records minus the number of `Removed` records; other actions contribute nothing. |
| `TallyEngine.Histogram` | plot_enrolments.py:149-155 | The keys are exactly the day offsets of the records (a day without events has no key), and the entry of a day is the running count after the last record of that day. |
| `TallyEngine.HistogramStep` | plot_enrolments.py:149-155 | Overwriting the new record's day with the new count keeps the key set and last-record characterisation. |
| `TallyEngine.OffsetsSnoc` | plot_enrolments.py:150-155 | One more record adds exactly its own day to the set of days. |
| `TallyEngine.LastIndexOn` | plot_enrolments.py:149-155 | For a day with events, the index of the last record on that day. |
| `TallyEngine.HistogramValue` | plot_enrolments.py:149-155 | For a record that is last on its day, the entry of that day equals #Added − #Removed over the records up to and including it. |
| `SeriesBuilder.Least` | plot_enrolments.py:159 | The least day of a non-empty set of days. |
| `SeriesBuilder.SortedKeys` | plot_enrolments.py:159 | The sorted keys are strictly ascending and hold exactly the elements of the key set. |
| `SeriesBuilder.WindowFilter` | plot_enrolments.py:158-163 | The two lists have equal length, each count is the histogram entry of its day, the days are exactly the input days inside `[-low, high]`, and ascending input gives ascending output. |
| `SeriesBuilder.BuildSeries` | plot_enrolments.py:158-163 | The series is aligned, strictly ascending in day, each count is the histogram entry of its day, every day is inside the window, and every histogram key inside the window appears. |
| `SeriesBuilder.AscendingUnique` | plot_enrolments.py:159 | Two strictly ascending lists with the same elements are equal. |
| `SeriesBuilder.SeriesUnique` | plot_enrolments.py:158-163 | Those conditions determine the series completely: any two series meeting them are equal. |
| `SeriesBuilder.EpochOnlyWindow` | plot_enrolments.py:159-163 | With `low = high = 0` the series is day 0 alone when day 0 has an entry, and empty otherwise. |
| `Plot.MaxOf` | plot_enrolments.py:122 | The maximum is one of the counts and no count exceeds it. |
| `Plot.Annotation` | plot_enrolments.py:121-123 | The annotation exists exactly when asked for and the counts are non-empty; it then holds a maximum that is one of the counts and bounds all of them, and the last count as the current one. |
| `Pipeline.Reverse` | plot_enrolments.py:188 | The reversed list has the same length and element `i` is element `n-1-i` of the input. |
| `Pipeline.ReverseInvolution` | plot_enrolments.py:188 | Reversing twice restores the original list. |
| `Pipeline.ReversedExportIsChronological` | plot_enrolments.py:186-188 | Reversing a most-recent-first export gives chronological order, in which day offsets never decrease. |
| `Pipeline.ProcessRecords` | plot_enrolments.py:142-164 | An epoch that does not parse fails with the epoch text; otherwise the series is the windowed series of the records' histogram, and the annotation is the one computed from the plotted counts (present exactly when asked for and the series is non-empty, with their maximum and last value). |
| `Pipeline.Run` | plot_enrolments.py:182-189 | A failed read fails with its error; nothing is plotted exactly when the read yields no records; an epoch failure happens only when there are records and the epoch does not parse; records and a parsing epoch always give a figure, whose series is the windowed histogram of the reversed records and whose annotation is computed from that series' counts. |
| `Scenarios.ExampleRecords` | plot_enrolments.py:171-177 | Reading the example export keeps only the removal and the addition, in that order, whatever the name fields hold. |
| `Scenarios.ExampleHistogram` | plot_enrolments.py:149-155 | The example's chronological records give day -1 the count 1 and day 0 the count 0. |
| `Scenarios.ExampleSeries` | plot_enrolments.py:158-163 | The example histogram in the window [-28, 100] gives days `[-1, 0]` and counts `[1, 0]`. |
| `Scenarios.WorkedExample` | plot_enrolments.py:182-189 | The example export end to end gives days `[-1, 0]`, counts `[1, 0]`, maximum 1 and current 0; the unrecognised and short rows change nothing. |
| `Scenarios.ReversalMatters` | plot_enrolments.py:185-188 | Tallying the example without the reversal would give day 0 the count -1 and day -1 the count 0. |
| `Scenarios.SameDayLastWriteWins` | plot_enrolments.py:149-155 | Two additions on one day give a single entry for that day, holding 2. |

## Left out

- `parse_date_time` (`time.strptime` and `time.mktime`) is a parameter `parse`: its result depends on the local timezone and daylight saving. A date that does not match the format is modelled as `None`, raised as `BadDate(text)`.
- `DayOffset.CalendarDayOffset`: assumes every day is 86400 seconds long. A daylight-saving change makes `mktime` days 23 or 25 hours long, which this model does not represent.
- `DayOffset.DaysDifference`: truncates the exact quotient. The source divides floating-point values. The two agree for integer second differences far below 2^53 seconds, so differences that large are not modelled.
- `Epoch.Strip`: removes ASCII whitespace only: space, tab, newline, vertical tab, form feed, carriage return, and the separators U+001C to U+001F. Python 3's `str.strip` also removes the non-ASCII Unicode whitespace characters (U+0085, U+00A0 and others).
- `DayOffset.EpochDayIsDayZero`: places minute `m` of the epoch day at `dayStart + 60*m`, so it assumes a day of exactly 86400 seconds. On an epoch day where daylight saving ends, `mktime` makes the day 25 hours long, and the program gives offset -1 to events between 00:00 and 00:59, whose gap to 23:59 is over 24 hours.
- `parse_args` and its defaults (`--low 50`, `--high 100`, title, output, label position) are command-line plumbing. `low`, `high` and the label flag are parameters, and any integer is accepted, as argparse does.
- Opening the file and `csv.reader` tokenising are left out. The model starts from the tokenised rows.
- The warning printed for an unrecognised action is an output side effect. The row is dropped, as modelled.
- Plotting, axis labels, title, annotation placement and `savefig` in `plot_data` are left out. Only the non-empty guard and the maximum/current computation are modelled.
