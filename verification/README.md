# Blood-pressure analyzer, modelled in Dafny

A model of the data-preparation and classification pipeline of
`BloodPressureAnalyzer`. The analyzer takes a table of timestamped
blood-pressure readings and does the following:

- drops every row whose systolic (收縮壓) or diastolic (舒張壓) value is blank;
- derives each row's date and hour;
- labels each row with a blood-pressure category: 正常 Normal, 偏高 Elevated,
  高血壓 Hypertensive, or 未分類 Unclassified as a fallback;
- labels each row with a period of the day: 早上 Morning, 下午 Afternoon,
  晚上 Evening or 夜間 Night;
- flags each row whose timestamp is the earliest of its date (每日首次);
- answers three queries:
  - the category percentages per date;
  - the category percentages per period;
  - the category counts of the first-of-day readings.

Modules, leaf first:

- `Readings` (readings.dfy): timestamps, raw rows with optional pressures, cleaning.
- `Classify` (classify.dfy): `ClassifyBp`, and `PeriodOf` with its hour table `HoursOf`.
- `FirstOfDay` (first_of_day.dfy): the per-date minimum timestamp and the first-of-day flag.
- `Grouping` (grouping.dfy): generic group-by-and-count over `(key, category)` rows:
  - counts;
  - zero-filled percentage tables;
  - the per-category tally.
- `Analyzer` (analyzer.dfy): the enriched `Record`, `Prepare` (clean, then enrich) and
  the three queries. `AnalyzerScenario` in the same file works through one concrete
  day.

Modelling choices:

- A timestamp is a day number plus the nanoseconds since midnight, which is a
  pandas timestamp's resolution. The date is the day number. The hour is the
  nanoseconds divided by the length of an hour.
- Pressures are integers (mmHg). A blank cell is `None`.
- Percentages are exact reals, `count * 100 / size`. So "each row sums to 100"
  is proved exactly, with no rounding tolerance.
- All operations are pure functions over immutable sequences. Repeated queries
  on the same records therefore return the same tables.
- Readings tied at a date's earliest timestamp are all flagged, because the
  code (bp_analyzer.py:36) compares every row with its date's minimum. The
  model does not pick a single winner among tied readings (say, the first in
  input order), since the code does not.
- The fallback category Unclassified is kept in the classifier, as in the code.
  The model proves it is never returned for integer pressures.

## Model

| member | source | states |
|---|---|---|
| Readings.HourOf | bp_analyzer.py:13 | the hour lies in 0..23 and is the hour whose span contains the timestamp's time of day |
| Readings.Clean | bp_analyzer.py:11 | the cleaned data is never longer than the input, and has the input's length exactly when no row has a blank pressure |
| Readings.CleanSelectsCompleteRows | bp_analyzer.py:11 | cleaning's output is the subsequence at strictly increasing positions, each a complete row with its timestamp and pressures unchanged; every complete row's position is among them |
| Readings.CompleteIndicesIncrease | bp_analyzer.py:11 | the kept positions are strictly increasing and lie within the input |
| Readings.CleanPicksIndexedRows | bp_analyzer.py:11 | the j-th kept row is the complete input row at the j-th kept position, fields unchanged |
| Readings.CompleteRowsAreIndexed | bp_analyzer.py:11 | no complete row is dropped |
| Readings.CleanAppend | bp_analyzer.py:11 | each row is kept or dropped on its own: cleaning a concatenation concatenates the cleaned parts |
| Readings.DropLast | bp_analyzer.py:11 | a row with a blank pressure at the end of the input is dropped |
| Readings.IncompleteRowIsDropped | bp_analyzer.py:11 | inserting a row with a blank pressure anywhere leaves the cleaned data unchanged |
| Classify.ClassifyBp | bp_analyzer.py:15-22 | Normal iff systolic < 120 and diastolic < 80; Elevated iff systolic in [120,140] or diastolic in [80,90], even when the other value is hypertensive; Hypertensive iff both values lie outside those bands and one exceeds 140/90; never Unclassified |
| Classify.PeriodOf | bp_analyzer.py:24-32 | an hour of the day lies in its period's hour table; any hour outside 0..23 is Night |
| Classify.PeriodsCoverDay | bp_analyzer.py:24-32 | the four hour tables together hold exactly the hours 0..23 |
| Classify.PeriodsDisjoint | bp_analyzer.py:24-32 | no hour is in two periods' tables |
| Classify.PeriodOfIsUnique | bp_analyzer.py:24-32 | for an hour of the day, the period is the one and only period whose table contains it |
| Classify.ClassifierExamples | bp_analyzer.py:15-32 | 110/70 is Normal, 135/85 and 145/85 are Elevated, 150/95 is Hypertensive; hours 5, 21 and 23 are Morning, Evening and Night |
| FirstOfDay.DailyMinimum | bp_analyzer.py:36 | the map has exactly the dates that occur as keys; each value is a timestamp of that date held by some reading, and no reading of that date is earlier |
| FirstOfDay.IsFirstOfDay | bp_analyzer.py:36 | the flag (timestamp equal to its date's minimum) holds exactly when no reading on the reading's date has an earlier timestamp |
| FirstOfDay.EveryDateHasFirst | bp_analyzer.py:36 | every date with a reading has at least one flagged reading |
| FirstOfDay.TiedReadingsAllFlagged | bp_analyzer.py:36 | a reading with the same timestamp as a flagged one is flagged too |
| FirstOfDay.FlaggedReadingsOfADateTie | bp_analyzer.py:36 | two flagged readings of one date have the same timestamp |
| Grouping.Size | bp_analyzer.py:39 | a group's size is positive exactly when its key occurs |
| Grouping.Count | bp_analyzer.py:39 | a per-category count never exceeds the group size and is positive only for a category that occurs in the data |
| Grouping.CountIsMultiplicity | bp_analyzer.py:39 | a per-group category count is the number of rows carrying exactly that (key, category) pair |
| Grouping.SizeIsMultiplicity | bp_analyzer.py:39-40 | a group's size is the number of rows carrying its key, summed over the four categories |
| Grouping.CountsPartitionGroup | bp_analyzer.py:39 | within a group the four category counts sum to the group size |
| Grouping.Percent | bp_analyzer.py:40 | the percentage lies in [0,100], times the size equals count × 100, is 0 iff the count is 0 and is 100 iff the count is the whole group |
| Grouping.PercentsAddUp | bp_analyzer.py:40 | percentages of counts that make up a group add up to 100 |
| Grouping.Row | bp_analyzer.py:39-40 | a table row has a column for every category in the data (zero-filled), holds each category's percentage of the group, and sums to 100 |
| Grouping.PercentTable | bp_analyzer.py:39-40 | the table has a row exactly for each key that occurs, zero-filled columns for all categories in the data, each cell count × 100 / group size, each row summing to 100 |
| Grouping.OccurrencesAddUp | bp_analyzer.py:47 | the occurrences of the four categories in a list add up to its length |
| Grouping.Tally | bp_analyzer.py:47 | a category is a key iff it occurs; its value is its number of occurrences (positive); the values add up to the list's length |
| Analyzer.EnrichOne | bp_analyzer.py:12-35 | a record keeps its reading and flag and is dated by its timestamp's day; its hour is the one whose span holds the time of day and lies in its period's hour table; its category is ClassifyBp of its pressures, never Unclassified |
| Analyzer.Enrich | bp_analyzer.py:36 | one record per reading, in order, with the derived columns; a record is flagged exactly when no reading on its date is earlier |
| Analyzer.Prepare | bp_analyzer.py:9-36 | one record per complete row, in input order, each carrying that row's timestamp and pressures and its derived columns; a record is flagged exactly when no cleaned reading of its date is earlier |
| Analyzer.DailyDistribution | bp_analyzer.py:38-40 | a date is a row iff some record has it; the columns are the categories present anywhere; each cell is count × 100 / day size; each row sums to 100 |
| Analyzer.PeriodDistribution | bp_analyzer.py:42-44 | a period is a row iff some record has it; the columns are the categories present anywhere; each cell is count × 100 / period size; each row sums to 100 |
| Analyzer.Flagged | bp_analyzer.py:47 | exactly the flagged records are kept, never more than the input |
| Analyzer.FlaggedMultiplicity | bp_analyzer.py:36-47 | a flagged record occurs in the result as many times as in the input (tied first readings are all counted); an unflagged one not at all |
| Analyzer.FlaggedAppend | bp_analyzer.py:47 | the filter keeps input order: filtering a concatenation concatenates the filtered parts |
| Analyzer.FlaggedOne | bp_analyzer.py:47 | a single record is kept exactly when it is flagged |
| Analyzer.FirstReadingDistribution | bp_analyzer.py:46-47 | a category is a key iff some flagged record has it; each value counts the flagged records of that category; the values add up to the number of flagged records |
| Analyzer.DateSetBound | bp_analyzer.py:36 | a list has no more distinct dates than entries |
| Analyzer.EnrichedDatesHaveFirst | bp_analyzer.py:36 | among enriched readings every date with a record has a flagged record |
| Analyzer.FlaggedCoverDates | bp_analyzer.py:36 | if every date has a flagged record, the flagged records cover every date |
| Analyzer.FirstReadingsCoverEveryDate | bp_analyzer.py:47 | the first-reading counts total the number of flagged records, which is at least the number of distinct dates |
| Analyzer.IncompleteRowIgnored | bp_analyzer.py:11 | a row with a blank pressure changes none of the three query results, wherever it is inserted |
| AnalyzerScenario.ScenarioClean | bp_analyzer.py:11 | the worked day loses its blank-pressure row and keeps the other three in order |
| AnalyzerScenario.ScenarioRecords | bp_analyzer.py:34-36 | the worked day's records are Normal, Elevated, Hypertensive on one date, and only the 08:00 one is flagged |
| AnalyzerScenario.OneOfEachDay | bp_analyzer.py:38-40 | one Normal, one Elevated and one Hypertensive record on one date give a single row whose columns are exactly those three categories, each a third |
| AnalyzerScenario.SingleDateKeys | bp_analyzer.py:38-40 | records all dated 0 give a table with the single row 0 |
| AnalyzerScenario.OnlyFirstFlagged | bp_analyzer.py:46-47 | if only the first of three records is flagged, the first-reading counts are that record's category, once |
| AnalyzerScenario.TallyOfOne | bp_analyzer.py:47 | counting a one-element list gives that element once |
| AnalyzerScenario.ScenarioDistributions | bp_analyzer.py:38-47 | the worked day: one row with exactly the columns Normal, Elevated and Hypertensive, a third each, and the first-reading count is {Normal: 1} |

## Left out

- Timestamp parsing (`pd.to_datetime`, bp_analyzer.py:10) is not modelled. A
  malformed timestamp raises in the library and aborts the load. Rows arrive
  already parsed.
- A missing timestamp (NaT) is not modelled. Every row has a timestamp.
- The date and hour are derived from the model's own timestamp form. The
  library's `.dt.date` and `.dt.hour` extraction (bp_analyzer.py:12-13)
  and time zones are not modelled.
- Non-integer pressures are not modelled. The sheet can hold fractional values.
  The pressures here are integers.
- Floating-point division and rounding of the percentages are not modelled.
  Exact reals are used instead.
- Table layout and ordering are not modelled: the sorted index and the column
  order produced by `groupby`/`unstack`. The tables are Dafny maps.
- The in-place DataFrame mutation and the copy in the constructor
  (bp_analyzer.py:5-7) are not modelled. Pure functions make them unnecessary.
- `plot_trends` (bp_analyzer.py:49-65) is not modelled. It only draws a chart.
- main.py is not part of this model. It reads a spreadsheet, prints the three
  tables and draws the chart. It also calls a report method that the class
  does not define.
- The label strings are not modelled. The categories and periods are enum
  values, and each value's doc comment names its label.
