# Construction planner: task extraction and schedule inference

The planner reads free-text project notes and turns them into a schedule.

1. `extract_tasks_from_text` (parser.py) cuts the text at every period.
   - It strips each piece and skips the empty ones.
   - For every remaining sentence it builds one record with four fields:
     - the task name: the capitalised phrase before "will", or else the sentence's first 30 characters;
     - the first "Month D" text;
     - the first "N day(s)" or "N week(s)" text;
     - the dependency "Previous task" when "after" or "once" occurs.
2. app.py turns each record into dates.
   - `parse_date` reads the date with `strptime(..., "%B %d")`, so every date falls in 1900.
   - `parse_duration` keeps every digit of the text and reads them as a number of days.
3. The inference loop gives each row a start date:
   - its own date if it has one;
   - otherwise, if it depends on the previous task, the day after that task ends.
   Each row's end is its start plus its duration.
4. Consecutive rows are then checked for conflicts: a row that starts before the previous row ends.
5. Rows with both a start and an end go to the Gantt chart.
6. The dates are also shown as text columns.

The model is made of five modules.

- `Options` (options.dfy): the option type.
- `PyStr` (pystr.dfy): the Python `str` operations the code relies on: `strip`, `split`/`join`, `lower`, `in`, and digit filtering with `int`.
- `Calendar` (calendar.dfy): days of 1900 as ordinals, with `parse_date` and `parse_duration`.
- `Parser` (parser.dfy): `extract_tasks_from_text`. It has a per-sentence method, a loop method, and a specification of each regular expression.
- `Schedule` (schedule.dfy): the inference loop as a method, proved against the function `Resolve`. It also holds the conflict loop, the Gantt filter and the date columns.

How dates and the schedule are represented:

- **Dates.** A date is a count of days since 1 January 1900.
  - Adding days carries the date into later years, as `datetime` does.
  - The largest date is 31 December 9999. A start plus a duration beyond it is the outcome `DateOverflow(i)` at row `i`. In Python this is an `OverflowError` that nothing catches.
- **Rows.** The schedule works on `Row`, the three things a record gives the loop: its own parsed date, its duration in days, and whether it depends on the previous task.
  - `Schedule.RowOf` computes a `Row` from a record.
  - The example lemmas go from records to rows to the schedule.

## Model

| member | source | states |
|---|---|---|
| `PyStr.Strip` | parser.py:8-9 | The stripped text is empty exactly when the piece is all whitespace. Otherwise it starts and ends with a non-whitespace character. |
| `PyStr.StripIsInfix` | parser.py:8 | The stripped sentence is a contiguous part of the piece, with only whitespace around it. |
| `PyStr.StripKeepsOut` | parser.py:8 | Stripping adds no character: a character absent from the piece is absent from the sentence. |
| `PyStr.StripIdempotent` | parser.py:8 | Stripping a stripped sentence changes nothing. |
| `PyStr.Split` | parser.py:4 | `split('.')` gives at least one piece, and no piece contains a period. |
| `PyStr.JoinSplit` | parser.py:4 | Joining the pieces with '.' gives back the text. |
| `PyStr.SplitJoin` | parser.py:4 | Splitting a join of period-free pieces (at least one) gives back the pieces. |
| `PyStr.SplitLength` | parser.py:4 | There is one more piece than there are periods in the text. |
| `PyStr.Lower` | parser.py:33 | `lower()` keeps the length and lower-cases each character in place. |
| `PyStr.Contains` | parser.py:33 | `needle in hay` holds exactly when the needle occurs at some position of the hay. |
| `PyStr.Digits` | app.py:39 | The filtered text is all digits and no longer than the input. It is empty exactly when the input has no digit, and each of its characters comes from the input. |
| `PyStr.DecimalRoundTrip` | app.py:39 | `int(str(n)) == n`: reading a number's decimal text gives the number. |
| `Calendar.Ordinal` | app.py:33 | A valid (month, day) of 1900 maps to a day inside that month's range of ordinals. |
| `Calendar.OrdinalRoundTrip` | app.py:33 | Every day of 1900 has a (month, day) name that maps back to it, and no other valid (month, day) maps to that day. |
| `Calendar.OrdinalOrder` | app.py:33 | Dates are ordered by month, then by day. |
| `Calendar.MonthPrefix` | app.py:33 | `%B` reads a month from m on whose name begins the text in any case. None means that no month from m on begins it. |
| `Calendar.NameAtUnique` | app.py:33 | At most one month name begins a text, case aside, so the order of the `%B` alternation does not matter. |
| `Calendar.MonthPrefixIsTheName` | app.py:33 | `%B` reads month m exactly when m's name begins the text in any case. |
| `Calendar.DayAt` | app.py:33 | `%d` reads a day from 1 to 31. Its text is one or two characters long, starts at the given position and ends inside the string. |
| `Calendar.ParseDate` | app.py:31-35 | A parsed date is a day of 1900 whose month name, in any case, begins the text. Every failure gives None. |
| `Calendar.ParseDateOfDateText` | app.py:31-35 | On a month name, one whitespace character and one or two digits, `parse_date` gives that day of 1900. It gives None when 1900 has no such day, e.g. February 29. |
| `Calendar.DayAtDigits` | app.py:33 | `%d` reads one or two trailing digits to the end exactly when their value is 1 to 31, and then reads that value. |
| `Calendar.MonthPrefixOfName` | app.py:33 | `%B` reads a text that begins with a month's exact name as that month. |
| `Calendar.ParseDuration` | app.py:37-42 | The result is at most 999999999 days, and a text with no digit gives 0. |
| `Calendar.ParseDurationOfNumber` | app.py:37-42 | Digits followed by digit-free text parse to that number of days, or to 0 past `timedelta`'s limit. |
| `Calendar.WeeksAreNotScaled` | app.py:37-42 | "N weeks" lasts exactly as long as "N days". |
| `Parser.Prefix` | parser.py:37 | `sent[:30]` is the first `min(30, len)` characters of the sentence. |
| `Parser.WillFollows` | parser.py:18 | It holds exactly when `\s+will` matches at the position. |
| `Parser.FindNameEnd` | parser.py:18 | The lazy `+?` finds the smallest end of a name match beyond k, or shows there is none. |
| `Parser.MatchName` | parser.py:18-20 | There is no match exactly when no name end exists. Otherwise group 1 is the shortest capitalised phrase followed by `\s+will`. |
| `Parser.Search` | parser.py:23-30 | `re.search` returns the leftmost position where the matcher succeeds. Nothing matches before it, and None means nothing matches anywhere. |
| `Parser.FirstMonthAt` | parser.py:23 | It finds the first month whose exact name begins at the position, or shows that none does. |
| `Parser.DateEndAt` | parser.py:23 | A date match at a position is non-empty and ends inside the sentence. `DateEndAtSpec` says which text it is. |
| `Parser.SameMonth` | parser.py:23 | No two month names begin at the same place. |
| `Parser.DateEndAtSpec` | parser.py:23 | The date matcher at a position finds exactly the longest "Month D" text that starts there. |
| `Parser.DateEndAtSound` | parser.py:23 | What the date matcher finds is a month name, one whitespace character and one or two digits. |
| `Parser.DateEndAtComplete` | parser.py:23 | Every "Month D" text that starts at a position is found by the matcher, and none is longer than what it finds. |
| `Parser.StartDateIsLeftmostLongest` | parser.py:23-25 | `start_date` is "" when the sentence holds no "Month D" text. Otherwise it is the longest such text at the leftmost place where one starts. |
| `Parser.DurationEndAtSpec` | parser.py:28 | The duration matcher at a position finds exactly the longest "digits, whitespace, day(s)/week(s)" text that starts there. |
| `Parser.DurationEndAt` | parser.py:28 | A duration match at a position is non-empty and ends inside the sentence. `DurationEndAtSpec` says which text it is. |
| `Parser.DurationEndAtSound` | parser.py:28 | What the duration matcher finds is digits, whitespace, then "day", "days", "week" or "weeks". |
| `Parser.DurationEndAtComplete` | parser.py:28 | Every duration text that starts at a position is found by the matcher, and none is longer than what it finds. |
| `Parser.DurationIsLeftmostLongest` | parser.py:28-30 | `duration` is "" when there is no duration text. Otherwise it is the longest one at the leftmost place where one starts. |
| `Parser.HasDependencyCue` | parser.py:33 | The cue holds exactly when "after" or "once" occurs at some position of the lower-cased sentence. |
| `Parser.SearchIsLeftmostLongest` | parser.py:23-30 | A search with a matcher that always finds the longest match at a position returns the leftmost, longest text of the pattern. |
| `Parser.SentenceRecord` | parser.py:12-41 | A plain definition with no contract of its own. `RecordName`, `RecordDependency`, `StartDateIsLeftmostLongest`, `DurationIsLeftmostLongest` and `Schedule.RowOfSentence` state what each field holds. |
| `Parser.RecordName` | parser.py:36-37 | The task name is never empty. It is the stripped group 1 when the name pattern matches, and otherwise the sentence's first 30 characters. |
| `Parser.RecordDependency` | parser.py:33-34 | `depends_on` is "Previous task" exactly when "after" or "once" occurs in the lower-cased sentence, and "" otherwise. |
| `Parser.Kept` | parser.py:7-10 | There are never more sentences than pieces. `KeptStep` and `KeptAppend` say which pieces are kept. |
| `Parser.KeptAppend` | parser.py:7-10 | Keeping the non-empty stripped pieces distributes over concatenation. |
| `Parser.KeptStep` | parser.py:7-10 | One more piece adds its stripped text, unless that text is empty. |
| `Parser.Sentences` | parser.py:4-10 | A text with p periods yields at most p + 1 sentences. |
| `Parser.NoSentencesIffBlank` | parser.py:4-10 | A text yields no task exactly when it holds nothing but periods and whitespace. |
| `Parser.Records` | parser.py:36-41 | There is one record per sentence, in order, each built from its own sentence. |
| `Parser.RecordsAppend` | parser.py:36 | Appending a sentence appends its record. |
| `Parser.SentenceTask` | parser.py:12-41 | The loop body builds the record that `SentenceRecord` specifies for the sentence. |
| `Parser.ExtractTasks` | parser.py:3-43 | There is one record per stripped, non-empty sentence, in order, and record i is the record of sentence i. |
| `Schedule.GivenStart` | app.py:49 | A row's own start exists only when its date text is non-empty, and it lies in 1900. |
| `Schedule.Duration` | app.py:50 | The duration is within `timedelta`'s limit, and 0 when the duration text is empty. |
| `Schedule.RowOf` | app.py:49-52 | A row's own date lies in 1900, and its duration is within `timedelta`'s limit. `RowOfSentence` says what the row of a sentence is. |
| `Schedule.DayOfDateText` | app.py:31-35 | `parse_date` reads any text the date pattern captures as the day its month and number name. It gives None when 1900 has no such day. |
| `Schedule.DaysOfDurationText` | app.py:37-42 | `parse_duration` reads any text the duration pattern captures as its leading number of days, or 0 past `timedelta`'s limit. The unit word plays no part. |
| `Schedule.RowOfSentence` | parser.py:22-34 | The row of a sentence's record has the start, the duration and the dependency that app.py:49-52 reads from it. The start is the day named by the leftmost, longest date text, and None when there is none. The duration is the count named by the leftmost, longest duration text, and 0 when there is none. The row depends on the previous task exactly when the sentence has the cue. |
| `Schedule.Rows` | app.py:48-50 | There is one row per record, read from that record alone. Every row's own date lies in 1900. |
| `Schedule.StartRule` | app.py:49-55 | A row with its own date starts on it. The first row and a row that does not depend on the previous one start only on their own date. Any other start is the day after the previous row's end. |
| `Schedule.EndRule` | app.py:57 | An end exists exactly when a start does. It then lies the duration after the start. |
| `Schedule.Resolve` | app.py:44-59 | A finished schedule has one start and one end per row. An overflow names a row that exists. |
| `Schedule.InferSchedule` | app.py:44-59 | The loop yields exactly the schedule `Resolve` specifies for the records' rows, or the first row whose dates overflow. |
| `Schedule.ScheduleRule` | app.py:49-57 | In a finished schedule each row's start follows the start rule. Its end is defined exactly when its start is, and then equals the start plus the duration, no later than 31 December 9999. |
| `Schedule.ScheduleIsUnique` | app.py:44-59 | Any pair of columns that follows the rule on every row is the schedule. |
| `Schedule.SchedulePrefixUnique` | app.py:44-59 | The first j entries of columns that follow the rule are the schedule of the first j rows. |
| `Schedule.ScheduleIffRule` | app.py:44-59 | The schedule is exactly the pair of columns that follows the rule on every row, in both directions. |
| `Schedule.ResolvePrefix` | app.py:44-59 | A row's dates never depend on later rows. The schedule of the first j rows is the first j entries of the whole schedule, and an early overflow stops the pass. |
| `Schedule.ResolveLast` | app.py:57-59 | The last row of a finished schedule follows the rule, given the schedule of the rows before it. |
| `Schedule.ResolveStep` | app.py:48-59 | One pass of the loop either appends row i's start and end or stops with an overflow at row i. |
| `Schedule.ResolveExtends` | app.py:57-59 | A step that does not overflow appends the row's start and end. |
| `Schedule.OverflowStops` | app.py:57 | Once a row's start plus its duration passes 31 December 9999, the whole pass ends in an overflow at that row. |
| `Schedule.OverflowRule` | app.py:57 | An overflow at row k means the rows before k are scheduled and row k's start plus its duration passes 31 December 9999. |
| `Schedule.ExplicitDateWins` | app.py:49 | A row with its own date starts on it, even when it depends on the previous task. |
| `Schedule.FirstRowIsNotInferred` | app.py:52 | The first row's start is its own date (or none). |
| `Schedule.InferredStart` | app.py:52-55 | A row without its own date starts the day after the previous row's end exactly when it is dependent and that end exists. Otherwise it has neither start nor end. |
| `Schedule.EndFollowsStart` | app.py:57 | A defined end lies exactly the row's duration after a defined start. |
| `Schedule.DurationSumPrefix` | app.py:50 | The durations of the first j rows add up to no more than all of them. |
| `Schedule.ChainedSchedule` | app.py:52-57 | In a chain, row i starts i days plus the durations before it after the first date, and ends its own duration later. A chain is a dated first row followed by dependent rows without dates. |
| `Schedule.ChainExtends` | app.py:52-57 | The chain dates of the rows before the last extend to the whole chain. |
| `Schedule.ChainEarlierRow` | app.py:52-57 | Adding a row leaves the chain dates of the earlier rows unchanged. |
| `Schedule.ChainLastRow` | app.py:52-57 | The last row of a chain gets its chain dates. |
| `Schedule.ShortPlansFit` | app.py:55-57 | While a year, the durations and one day per row add up to no more than 31 December 9999, nothing overflows. Every end stays below that sum for the rows up to it. |
| `Schedule.ShortPlanStep` | app.py:55-57 | The bound of `ShortPlansFit` carries over from the rows before the last to all the rows. |
| `Schedule.TwoRowSchedule` | app.py:48-59 | The schedule of two rows whose first row has its own date. |
| `Schedule.AprilDate` | app.py:31-35 | "April D" parses to day D of April 1900, for D from 1 to 30. |
| `Schedule.DayCount` | app.py:37-42 | "N day" and "N days" last N days. |
| `Schedule.AprilRow` | app.py:49-52 | A record with an April date, a duration of N day(s) within `timedelta`'s limit and no dependency gives a row with that day and N. |
| `Schedule.FoundationRows` | app.py:49-52 | The records for Foundation ("April 1", "3 days") and Framing (no date, "2 days", "Previous task") give the rows (April 1, 3, independent) and (none, 2, dependent). |
| `Schedule.WiringRows` | app.py:49-52 | The records for Wiring ("April 10", "2 days") and Painting ("April 8", "1 day") give the rows (April 10, 2) and (April 8, 1), both independent. |
| `Schedule.FoundationFramingSchedule` | app.py:52-57 | Those Foundation and Framing rows are scheduled April 1–4 and April 5–7, with no conflict. |
| `Schedule.WiringPaintingSchedule` | app.py:57-73 | Those Wiring and Painting rows are scheduled April 10–12 and April 8–9, and Painting conflicts. |
| `Schedule.FoundationThenFraming` | app.py:48-57 | From the two records the extractor yields for "Foundation will start April 1 and take 3 days. Framing will begin once Foundation is done and take 2 days.", the schedule is April 1–4 and April 5–7, with no conflict. |
| `Schedule.WiringThenPainting` | app.py:48-77 | From the records for Wiring ("April 10", "2 days") and Painting ("April 8", "1 day"), Painting keeps April 8 and is reported against Wiring's end, April 12. |
| `Schedule.IsConflict` | app.py:73 | A plain definition with no contract of its own. `ConflictNeedsExplicitDate` and `WarningsMeaning` state when a row conflicts and what the loop reports. |
| `Schedule.ConflictRows` | app.py:69-73 | The rows the loop reports, in increasing order, each one starting before the previous row's end. |
| `Schedule.ConflictRowsComplete` | app.py:69-73 | Every conflicting row is among the reported rows. |
| `Schedule.DetectConflicts` | app.py:67-77 | The loop returns exactly the warnings `Warnings` lists for rows 1 to len(df)-1, with the task names and dates that the message shows. |
| `Schedule.NoConflictsBeforeOne` | app.py:69 | The loop starts at row 1: rows 0 and 1 report nothing before them. |
| `Schedule.WarningsMeaning` | app.py:69-77 | The k-th warning is the one for the k-th conflicting row. Every conflicting row is reported once, in row order, and nothing else is reported. Each warning names the row, its start, the previous row and that row's end. |
| `Schedule.ConflictNeedsExplicitDate` | app.py:73 | In a finished schedule a row conflicts exactly when it has its own date that falls before the previous row's end. |
| `Schedule.ChainsHaveNoConflicts` | app.py:69-77 | A chain raises no warning. |
| `Schedule.ChartedUpTo` | app.py:89-92 | The rows that get a bar, in increasing order, each with both a start and an end. |
| `Schedule.ChartedUpToComplete` | app.py:89-92 | Every row with both dates is among the charted rows. |
| `Schedule.GanttRows` | app.py:88-97 | One bar per charted row, in row order, carrying that row's task, start and finish. |
| `Schedule.ChartedRows` | app.py:92 | In a finished schedule a row is charted exactly when it has a start, and its bar is as long as its duration. |
| `Schedule.DateColumn` | app.py:61-62 | A column has one cell per row, and a cell is empty exactly when that row's date is undefined. |
| `Schedule.TwoDigits` | app.py:111 | `%d` writes a day as two digits that read back as that day. |
| `Schedule.LongDateText` | app.py:111-112 | The exported text of a day of 1900 is its month's full name, one space and one or two digits, the shape the date pattern captures. |
| `Schedule.LongDateParsesBack` | app.py:111-112 | An exported "%B %d" date of 1900 reads back through `parse_date` as the same day. |

## Left out

- The Streamlit interface is not modelled: file upload, text area, the displayed table, `st.error`/`st.success`, the button, and the Excel export's file I/O. These are I/O.
- pandas and plotly are not modelled. `DataFrame` is modelled as a sequence of records, and `px.timeline` as the list of bars it receives.
- The exact wording of the warning messages and the `"%b %d"` text of the table columns are not modelled. The model keeps the facts a warning or a cell carries: the task names and the dates.
- Schedule.DateColumn: a cell holds the whole date it shows, year included, not its `"%b %d"` text. That text has no year, so dates a year apart show the same cell (1 January 1900 and 1 January 1901 both show "Jan 01"). The model does not capture this loss.
- Schedule.LongDateParsesBack: `"%B %d"` text is modelled only for days of 1900. A date that the inference pushes past 1900 prints without a year and would read back as a day of 1900. This case is not modelled.
- `\d`, `str.isdigit` and `str.lower` are modelled for ASCII only.
  - Python also accepts other Unicode decimal digits.
  - Python also lower-cases non-ASCII letters.
  - `\s` and `str.isspace` are modelled on their full set of whitespace characters.
  - `%B` matches month names with `re.IGNORECASE`, which in Python folds some non-ASCII letters onto ASCII ones ("ſ" matches "s", "ı" matches "i"). The ASCII lower-casing of `Calendar.NameAt` does not accept those spellings.
- Schedule.InferSchedule: an `OverflowError` raised at line 55 is not modelled separately. It happens when the previous end is 31 December 9999 itself, and the model reports it as the overflow of the same row at line 57. The row index is the same, and so is the outcome: the pass stops.
- Parser.DurationEndAtSpec: the duration pattern has no word boundary in the code, so "3 daysxyz" still yields "3 days". The model follows the code.
- Schedule.FoundationThenFraming, Schedule.WiringThenPainting: the examples start from the records the extractor yields for their sentences. The step from record to row to schedule is proved (`FoundationRows`, `WiringRows`, `TwoRows`). The step from those two particular sentences to their records is not proved: evaluating the regular-expression model on literal sentences is too costly for the verifier. That step is characterised for every sentence by `Schedule.RowOfSentence`, `Parser.StartDateIsLeftmostLongest`, `Parser.DurationIsLeftmostLongest`, `Parser.RecordName` and `Parser.RecordDependency`.
