# YouTube trending ETL: the transform core in Dafny

This project models the transform half of `lambda_function.py`, a scheduled
job that downloads YouTube's trending listing, turns it into a table, and
loads the table into MySQL. The model covers these parts of the job:

- `get_video_info` picks the `video` object out of one listing entry and pops
  its `thumbnails` key in place.
- `get_length_minutes` reads a colon-separated duration ("1:05:30") by
  accumulating `t = 60 * t + int(u)`.
- `get_published_time` turns a phrase such as "3 days ago" into a point in
  time before now.
- `get_views_count` glues together every digit run of a text such as
  "1,234,567 views".
- `transform_data` does the following, in order:
  - drops rows with a missing value;
  - drops exact duplicates, keeping the first;
  - shifts the index labels by one and turns them into a leading `rank` column;
  - stamps `extracted_at` on every row;
  - derives `length_minutes`, `published_time` and `views_millions` from the
    three text columns;
  - drops those text columns.

Modules, one per concern:

- `Wrappers`: `Option` and `Result`.
- `Errors`: each exception the helpers raise, as a value.
- `Text`: the Python string built-ins the helpers use. These are `int()` on a
  numeral, `s.split(sep)`, `s.split()`, and
  `''.join(re.findall(r'(\d+)', s))`. `sep.join` (`Text.Join`) is not called
  by any helper; it is there to state round trips (`SplitJoin`, `JoinSplit`,
  `DurationOfJoin`, `PublishedOfPhrase`).
- `Video`: the entry filter, with JSON objects as mutable, shared
  dictionaries (`class JsonObject`).
- `Derive`: the three text parsers. `LengthSeconds` and `ReadParts` are the
  duration loop as a method, proved equal to the specification function
  `DurationSeconds`.
- `Tables`: the DataFrame as a value (columns, rows with index labels and
  cells) and the pandas calls as functions on it.
- `Frames`: `class Frame`, whose methods change the frame in place as
  `dropna(inplace=True)`, `index += 1`, `data[c] = ...` and
  `drop(..., inplace=True)` do. Each method is proved to leave the frame
  equal to the matching `Tables` function of its old contents.
- `Transform`: `Transformed`, the whole of `transform_data` as a function,
  and the `TransformData` method on a `Frame`. The lemmas state what the
  result holds row by row, which columns it has, when it fails, and how the
  ranks relate to the listing.

Times are whole microseconds. The clock read is the parameter `now`.

## Model

| member | source | states |
|---|---|---|
| Video.JsonObject.Pop | lambda_function.py:13 | `pop(key, default)` removes exactly `key` and returns its old value; a missing key is no error and leaves the object unchanged |
| Video.GetVideoInfo | lambda_function.py:9-16 | no result exactly when the entry has no `video` key. Otherwise it returns the very object stored under `video` (shared, not copied), now without `thumbnails` and with every other key unchanged. A `video` value that is not an object fails |
| Text.ParseNat | lambda_function.py:43 | `int(u)` succeeds exactly on a non-empty string of decimal digits |
| Text.ParseShowNat | lambda_function.py:43 | reading back the decimal numeral of `n` gives `n` |
| Text.Split | lambda_function.py:42 | `s.split(sep)` for a one-character separator, never empty. `SplitJoin`, `JoinSplit` and `SplitOfFree` state its meaning |
| Text.SplitJoin | lambda_function.py:42 | splitting pieces joined by the separator gives the pieces back, when no piece contains the separator |
| Text.JoinSplit | lambda_function.py:42 | joining the parts of `s.split(sep)` with `sep` gives `s` back |
| Text.SplitOfFree | lambda_function.py:42 | a text without the separator splits into one part, itself |
| Text.Runs | lambda_function.py:51-67 | the maximal runs of a character class, in order: `s.split()` for non-space characters and `re.findall(r'(\d+)', s)` for digits. `RunsShape`, `RunsSkip`, `RunsSpaced` and `ConcatRuns` state its meaning |
| Text.Words | lambda_function.py:51 | `s.split()`, the runs of non-space characters. `RunsShape` and `RunsSpaced` state its meaning: any amount of whitespace separates two words, and leading or trailing whitespace yields no word |
| Text.RunsShape | lambda_function.py:51 | every word of `s.split()` and every digit run of `re.findall` is non-empty and made only of characters of its class |
| Text.RunsJoin | lambda_function.py:51 | words of visible characters joined by a separator outside the class split back into exactly those words |
| Text.RunsSkip | lambda_function.py:51-67 | characters outside the class appended to a text add no run and change no run |
| Text.RunsSpaced | lambda_function.py:51-67 | words of the class laid out with any non-empty gaps of other characters between them, and any gap before and after, split back into exactly those words |
| Text.ConcatRuns | lambda_function.py:67 | gluing the digit runs together gives exactly the digits of the text, in order |
| Text.Concat | lambda_function.py:67 | `''.join(strings)`. `ConcatRuns` states that gluing the digit runs gives the text's digits |
| Text.FilterEmpty | lambda_function.py:67 | the digits of a text are empty exactly when no character is a digit |
| Text.FilterIdempotent | lambda_function.py:67 | keeping the digits of the digits changes nothing |
| Derive.PartsSeconds | lambda_function.py:41-43 | the accumulation `t = 60 * t + int(u)` over a list of parts, stopping at the first part `int` rejects. `PartsSecondsValue` and `PartsSecondsFirstError` state its meaning |
| Derive.DurationSeconds | lambda_function.py:40-43 | the accumulation over the parts of `s.split(':')`, in whole seconds. `DurationOfJoin`, `DurationExamples` and `DurationEmptyPart` state its values |
| Derive.ReadParts | lambda_function.py:41-43 | the loop `t = 60 * t + int(u)` over the parts returns the base-60 reading of the parts, or the first failing part's error |
| Derive.LengthSeconds | lambda_function.py:40-43 | the duration loop on a text returns `DurationSeconds` of the text |
| Derive.PartsSecondsValue | lambda_function.py:41-43 | the reading succeeds exactly when every part is a numeral, and its value is the parts' numbers read in base 60 |
| Derive.PrefixGrows | lambda_function.py:43 | one more numeral part `p` after a prefix worth `t` gives `60 * t + p` |
| Derive.PartsSecondsFirstError | lambda_function.py:42-43 | the first part that is not a numeral raises, with that part's text, whatever follows it |
| Derive.DurationOfJoin | lambda_function.py:40-43 | numerals joined by `:` read as their base-60 value |
| Derive.DurationAppend | lambda_function.py:42-43 | appending `:p` to a duration worth `t` gives `60 * t + p` |
| Derive.DurationExamples | lambda_function.py:40-43 | "5:23" is 323 seconds and "1:05:30" is 3930 seconds |
| Derive.DurationEmptyPart | lambda_function.py:42-43 | "5:" and "" fail on the empty part, because `int('')` raises |
| Derive.Classify | lambda_function.py:53-62 | the `if`/`elif` chain on the unit word: a listed unit, a singular plus `s`, 30-day months, 365-day years, or unrecognised. `ClassifyUnit`, `ClassifyMonths`, `ClassifyYears` and `ClassifyDecade` state its cases |
| Derive.OffsetMicros | lambda_function.py:53-60 | the `timedelta` each reading builds from the amount, in microseconds. `TimeAgoOfUnit`, `TimeAgoOfMonths` and `TimeAgoOfYears` state it |
| Derive.UnitNamed | lambda_function.py:48-49 | a recognised word is the keyword of the unit returned |
| Derive.Singular | lambda_function.py:55-56 | each singular unit word plus `s` is that unit's keyword |
| Derive.ClassifyUnit | lambda_function.py:53-56 | every unit is recognised under its plural keyword and under its singular word |
| Derive.ClassifyMonths | lambda_function.py:57-58 | "month" and "months" are read as 30-day months |
| Derive.ClassifyYears | lambda_function.py:59-60 | "year" and "years" are read as 365-day years |
| Derive.ClassifyDecade | lambda_function.py:61-62 | "decade" is not recognised |
| Derive.PublishedTime | lambda_function.py:47-64 | a successful result never lies after `now` |
| Derive.TimeAgo | lambda_function.py:53-63 | a successful result never lies after `now` |
| Derive.TimeAgoOfUnit | lambda_function.py:53-63 | for every numeral amount `n` and every listed unit, the plural and the singular word both give `now` minus `n` of that unit |
| Derive.TimeAgoOfMonths | lambda_function.py:57-63 | for every numeral amount `n`, "month" and "months" give `now` minus `n * 30` days |
| Derive.TimeAgoOfYears | lambda_function.py:59-63 | for every numeral amount `n`, "year" and "years" give `now` minus `n * 365` days |
| Derive.PublishedOfPhrase | lambda_function.py:51-52 | the first word of the phrase is the amount, the second the unit, and later words are ignored |
| Derive.PublishedOfSpaced | lambda_function.py:51-52 | with any whitespace before, between or after the words, the first word is read as the amount and the second as the unit |
| Derive.PublishedTooShort | lambda_function.py:51-52 | a phrase with fewer than two words fails at the index |
| Derive.PublishedFallback | lambda_function.py:61-62 | an unrecognised unit returns `now`, without reading the amount |
| Derive.PublishedSingularPlural | lambda_function.py:53-56 | the singular and plural unit words give the same time |
| Derive.TimeAgoSameClass | lambda_function.py:53-63 | two unit words read the same way give the same time for any amount |
| Derive.PublishedPhrase | lambda_function.py:51-63 | "amount unit ago" is `amount unit` before `now` |
| Derive.PublishedDaysExample | lambda_function.py:53-63 | "3 days ago" is three days before `now` |
| Derive.PublishedMonthExample | lambda_function.py:57-63 | "1 month ago" is 30 days before `now` |
| Derive.PublishedYearsExample | lambda_function.py:59-63 | "2 years ago" is 730 days before `now` |
| Derive.PublishedDecadeExample | lambda_function.py:61-62 | "1 decade ago" is `now` itself |
| Derive.ViewsCount | lambda_function.py:66-69 | `''.join(re.findall(r'(\d+)', s))` read as a whole number, failing when it is empty. `ViewsCountDigits` states its meaning |
| Derive.ViewsCountDigits | lambda_function.py:67-69 | the count fails exactly when the text has no digit, and otherwise is the number formed by all its digits in order |
| Derive.ViewsCountIgnoresNonDigits | lambda_function.py:67 | the count depends only on the digits of the text |
| Derive.ViewsCountSeparators | lambda_function.py:67 | digit-free text between digit groups does not change the count |
| Derive.ViewsCountOfShown | lambda_function.py:67-69 | a written number followed by digit-free text counts as that number |
| Derive.ViewsCountExample | lambda_function.py:67-69 | "500 views" counts 500 |
| Derive.GroupedViewsExample | lambda_function.py:67-69 | "1,234,567 views" counts 1234567 |
| Derive.AbbreviatedViewsExample | lambda_function.py:67-69 | "1.2M views" counts 12 |
| Derive.NoViewsExample | lambda_function.py:67-69 | "No views" fails, because `float('')` raises |
| Tables.Shift | lambda_function.py:78 | `index += k` adds `k` to every label and keeps every row's cells |
| Tables.DropMissing | lambda_function.py:74 | `dropna()`: the rows without a missing value, in order. `DropMissingMembers` and `DropMissingOrdered` state its meaning |
| Tables.Dedup | lambda_function.py:76 | `drop_duplicates()` with `keep='first'`: a row is dropped when an earlier row has the same cells. `DedupKeepsFirst`, `DedupDistinct` and `DedupContents` state its meaning |
| Tables.Clean | lambda_function.py:74-76 | `dropna` and then `drop_duplicates`, in the source's order. `CleanKeeps` and `CleanRows` state its meaning |
| Tables.DropMissingMembers | lambda_function.py:74 | `dropna` keeps exactly the rows without a missing value |
| Tables.DropMissingOrdered | lambda_function.py:74 | `dropna` keeps the rows' relative order |
| Tables.DedupContents | lambda_function.py:76 | `drop_duplicates` keeps every distinct content the rows had |
| Tables.DedupDistinct | lambda_function.py:76 | after `drop_duplicates` no two rows are equal |
| Tables.DedupKeepsFirst | lambda_function.py:76 | a row survives `drop_duplicates` exactly when no earlier row has the same cells |
| Tables.DropMissingDedup | lambda_function.py:74-76 | dropping missing values and dropping duplicates commute |
| Tables.CleanKeeps | lambda_function.py:74-76 | a row survives cleaning exactly when it is complete and no earlier row has the same cells |
| Tables.CleanRows | lambda_function.py:74-76 | after cleaning, every row comes from the input and is complete, no two rows are equal, order is kept, and every complete content survives |
| Tables.CleanIdempotent | lambda_function.py:74-76 | cleaning twice is cleaning once |
| Tables.WithIndexColumn | lambda_function.py:79 | `rename_axis(name).reset_index()` fails exactly when `name` is already a column. Otherwise it puts `name` first, fills it with each row's old label, and relabels the rows 0, 1, 2, ... |
| Tables.WithColumn | lambda_function.py:81-85 | `data[name] = values` keeps the labels, sets `name` in each row, and appends the column when it is new |
| Tables.WithConstant | lambda_function.py:81 | `data[name] = value`: the same value in every row, through `WithColumn` |
| Tables.DeriveCell | lambda_function.py:83-85 | the helper on one cell: a cell that is not text raises, and a success comes from a text cell. `ConverterMeaning` states its meaning |
| Tables.Convert | lambda_function.py:83-85 | `get_length_minutes`, `get_published_time` or `get_views_count` on a text, exact: a time for publication, an integer otherwise. `ConverterMeaning` states its meaning |
| Tables.ConverterMeaning | lambda_function.py:83-85 | a cell converts exactly when it is text the helper accepts, and then holds the helper's exact value |
| Tables.ApplyColumn | lambda_function.py:83-85 | `series.apply(f)`: each row's cell converted in turn, the first failure raising. `ApplyColumnOk`, `ApplyColumnValues` and `ApplyColumnFirstError` state its meaning |
| Tables.ApplyColumnOk | lambda_function.py:83-85 | `apply` succeeds exactly when every cell converts |
| Tables.ApplyColumnValues | lambda_function.py:83-85 | the value `apply` gives row `i` is the conversion of row `i`'s cell |
| Tables.ApplyColumnFirstError | lambda_function.py:83-85 | a failing `apply` raises the error of the first cell that fails |
| Tables.WithDerived | lambda_function.py:83-85 | `data[target] = data[source].apply(f)` raises `KeyError` on a missing source column. Otherwise it sets the converted column |
| Tables.WithDerivedRow | lambda_function.py:83-85 | after the step, row `k` holds its own converted cell under the target and is otherwise unchanged |
| Tables.FirstAbsent | lambda_function.py:87 | names a dropped column the table lacks; none exactly when every dropped name is a column |
| Tables.FirstAbsentIndex | lambda_function.py:87 | the name `FirstAbsent` reports is the earliest missing one: every dropped name before it is a column |
| Tables.WithoutMembers | lambda_function.py:87 | the remaining columns are exactly the old ones not dropped |
| Tables.WithoutColumns | lambda_function.py:87 | `drop(columns=names)` fails exactly when a name is not a column. Otherwise it removes those columns from the header and from every row and keeps the labels |
| Tables.WithoutColumnsWellFormed | lambda_function.py:87 | dropping columns keeps column names unique and rows matching the header |
| Frames.ApplyAll | lambda_function.py:83-85 | converting cell by cell and stopping at the first failure gives exactly `ApplyColumn` |
| Frames.ConvertCell | lambda_function.py:83-85 | one cell converted by the job's helper, through the duration loop for lengths |
| Frames.Frame.DropNa | lambda_function.py:74 | the frame in place becomes its rows without missing values, and stays well formed |
| Frames.Frame.DropDuplicates | lambda_function.py:76 | the frame in place becomes its first occurrences; no two rows are equal and no content is lost |
| Frames.Frame.ShiftIndex | lambda_function.py:78 | every label in place grows by `k` |
| Frames.Frame.ResetIndex | lambda_function.py:79 | builds a new frame with the index as a leading column, and fails when the name is taken |
| Frames.Frame.Assign | lambda_function.py:81 | one value is set in place in every row |
| Frames.Frame.Apply | lambda_function.py:83-85 | the converted column is set in place. On failure the frame is unchanged and the error is `WithDerived`'s |
| Frames.Frame.DropColumns | lambda_function.py:87 | the columns are removed in place. On failure the frame is unchanged |
| Transform.Transformed | lambda_function.py:72-88 | `transform_data` as a function of the table and `now`. `TransformedSucceeds`, `TransformedRows`, `TransformedValues`, `TransformedColumns` and the rank lemmas state its meaning |
| Transform.TransformedBy | lambda_function.py:72-88 | the steps of `transform_data` with the three conversions as parameters. `TransformedOk`, `TransformedRows`, `TransformedColumns`, `TransformedErrors` and the rank lemmas state its meaning |
| Transform.TransformedOk | lambda_function.py:72-88 | with any conversions, the job succeeds exactly when there is no `rank` column yet, the three text columns exist, and every kept row's three texts convert |
| Transform.TransformData | lambda_function.py:72-88 | the caller's frame is left cleaned with labels shifted by one. The result is a new frame holding exactly `Transformed`, or its error |
| Transform.TransformedSucceeds | lambda_function.py:72-88 | the job succeeds exactly when there is no `rank` column yet, the three text columns exist, and every kept row's three texts convert |
| Transform.TransformedErrors | lambda_function.py:79-83 | an existing `rank` column fails the ranking. A missing `lengthText` fails the first `apply` with `KeyError` |
| Transform.TransformedRows | lambda_function.py:74-87 | output row `k` comes from kept row `k`. It is relabelled `k`, ranked by its old label plus one and stamped with `now`. It gains the three derived values, loses the three texts, and keeps every other cell |
| Transform.TransformedValues | lambda_function.py:81-85 | row `k`'s derived cells are the three helpers' results on its texts, and `extracted_at` is the clock reading `now` |
| Transform.TransformedColumns | lambda_function.py:79-87 | the result's columns are the input's plus `rank` and the generated ones, minus the three texts |
| Transform.TransformedRankFirst | lambda_function.py:79 | `rank` is the first column of the result |
| Transform.TransformedWellFormed | lambda_function.py:72-88 | a well-formed input gives a well-formed result |
| Transform.TransformedRanks | lambda_function.py:78-79 | on a freshly built frame, output row `k`'s rank is the 1-based listing position of its entry. Ranks increase strictly down the result |
| Transform.TransformedRankSet | lambda_function.py:74-79 | rank `i + 1` appears exactly when listing entry `i` is complete and repeats no earlier entry |
| Transform.FirstEntryDropped | lambda_function.py:74-79 | when the first entry has a missing value, no row is ranked 1 |

## Notes on behaviour

- **Ranks have gaps.** A row's rank is its original index label plus one
  (lines 78-79). Nothing re-numbers the rows after `dropna` and
  `drop_duplicates`, so each dropped entry leaves a gap. For example, if
  the first entry has a missing value, no row is ranked 1; if the second
  entry survives, the first surviving row is ranked 2.
  `Transform.TransformedRankSet` and `Transform.FirstEntryDropped` state
  this.
- **Abbreviated counts.** The digit gluing at line 67 reads "1.2M views" as
  12, not 1.2 million (`Derive.AbbreviatedViewsExample`). Whether the
  listing ever holds abbreviated counts depends on the upstream data, which
  is not part of this model.

## Left out

- `extract_data`, `connect`, `create_video_table`, `load_data` and
  `lambda_handler`: network requests, environment variables and database
  calls. The table `transform_data` receives is a parameter.
- How `pd.DataFrame` builds its columns from the list of entries (line 37):
  library behaviour. A table is given as columns plus rows.
- Derive.LengthSeconds: returns whole seconds. The source's `round(t/60, 2)`
  float division is not modelled.
- Derive.ViewsCount: returns the whole count. The source's
  `round(float(count)/1E6, 2)` is not modelled.
- Derive.TimeAgo: reads the amount as a natural numeral. `float(amount)`
  also accepts decimals, signs, exponents, `inf` and `nan`, and those are
  not modelled. Neither are `OverflowError`s from `timedelta` or `datetime`
  arithmetic on huge amounts.
- Text.ParseNat: reads ASCII decimal digits only. It does not model what
  `int()` also accepts: surrounding whitespace, a sign, underscores and
  non-ASCII digits.
- Text.IsDigit: ASCII digits only. It does not model the non-ASCII decimal
  digits that `\d` also matches.
- `datetime.now()` (lines 50, 63, 81): one clock reading `now` is passed to
  every step. The microseconds between the three reads are not modelled.
- Transform.TransformedValues: `published_time <= extracted_at` holds in the
  model only because one `now` stands for every clock read. In the job,
  line 81 reads the clock before `apply` reaches lines 50 and 63, so a row
  with an unrecognised unit ("1 decade ago") or a zero amount ("0 seconds
  ago") can get a `published_time` later than its `extracted_at`.
- Cell values: cells are text, integers and times. Nested lists and objects
  in a cell are not modelled, and with them neither is the `TypeError`
  `drop_duplicates` raises on unhashable cells.
- Conversions: the job's three helpers are the only conversions
  `apply` runs. Column dtypes are not modelled.
- Tables.WithoutColumns: the `MissingColumn` error carries one missing name,
  the first. pandas' `KeyError` lists every missing label.
- Video.GetVideoInfo: the entry is always a JSON object. `"video" in
  content` on an entry that is a list or a string is not modelled.
