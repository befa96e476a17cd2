# Alcoholics' calendar — a verified model of its calendar state and statistics

The program is a one-page calendar of the year 2020. Each day can be
clicked to mark it as a drinking day ("drunk"); the marks are kept in the
browser's storage. Beside the calendar, a statistics panel summarises the
days that are already past: how many were marked and unmarked, on which
weekday and in which month the most and the fewest marked days fall, and
the longest unbroken streaks of marked and of unmarked days.

This project models the logic behind both parts and proves what it does.

- `Assoc` — JavaScript objects with non-numeric string keys, as
  insertion-ordered lists of entries: reading, assigning (overwrite in place
  or append), ramda's `map` over values, `Object.values(..).flat()`.
- `Seqs` — `Array.prototype.filter`.
- `Buckets` — `bucketize`: grouping items into a dictionary of arrays keyed
  by a discriminator (a method with its loop, proved equal to a left fold).
- `Ranges` — `rangeify`: the generator that cuts a sequence into runs of
  equal discriminator value (a method with its loop, proved equal to a left
  fold), and the complete run decomposition `Runs`.
- `Extremes` — ramda's `reduce` over `maxBy`/`minBy` from a sentinel.
- `Days` — day records, the dictionary of months, and the calendar facts the
  program reads from dates.
- `Statistics` — the aggregation in the `Statistics` component: a method
  proved equal to the function `ReportOf`, and lemmas about the report.
- `App` — the `defaultMonths` loop, `replace`, `filler`, the new months of
  `toggleDrunk`, and the flag lists of `save` and `load`.

Dates are day numbers: 1 January 2020 is day 1, so within 2020 a date's
number is its `dayOfYear()`. Everything the program asks the date library
about a date (weekday name, month name, weekday number `day()`, day of the
month `date()`) is a field of a `Calendar` value of total functions on day
numbers, and the model's lemmas state as preconditions whatever they need of
those functions (for example that each month's days are consecutive, or
that `date()` is 1 on a month's first day and goes up by one within it).
`today` is a parameter: the number of the first day whose noon has not yet
passed, so that `day.date.isBefore(today)` on the noon-time dates becomes
`date < today`.

The `±Infinity` sentinels of the extremum folds are the `NegInfinity` and
`PosInfinity` cases of a `Score` datatype, with counts as `Finite` scores.
The folds break ties as ramda 0.27 and earlier do: `maxBy` and `minBy` keep
their first argument unless the second is strictly better, so the first of
several equal extremes wins. The repository does not pin a ramda version.

A run generator would be expected to emit the run still open at the end;
this one does not: it yields a run only when an item of the other value
arrives, and has no yield after its loop. The model follows the code.
`Ranges.Yielded` is what `rangeify` yields, `Ranges.Runs` is the
decomposition with the final run flushed, and `Ranges.YieldedDropsLastRun`
relates the two. The statistics use what the
code yields, so `Statistics.UniformHistoryShowsNoStreak` holds: a history
whose past days all carry the same mark shows no streak at all.

## Model

| member | source | states |
|---|---|---|
| `Buckets.Insert` | src/Statistics.tsx:24-25 | one iteration: the key's existing bucket is extended in place by the item, or a new one-item bucket is appended |
| `Buckets.BucketsOf` | src/Statistics.tsx:22-26 | the dictionary after the loop: at most one bucket per item, at least one for non-empty input, and no empty bucket |
| `Buckets.Bucketize` | src/Statistics.tsx:19-29 | the loop builds exactly the dictionary `BucketsOf(input, key)` (insert into the key's bucket, creating it on first sight) |
| `Buckets.BucketsAreSelections` | src/Statistics.tsx:22-26 | every bucket holds exactly the items with its key, in input order (`Select`) |
| `Buckets.BucketKeysSeen` | src/Statistics.tsx:23-24 | a key has a bucket if and only if some input item has that key |
| `Buckets.BucketKeysDistinct` | src/Statistics.tsx:24 | no key has two buckets |
| `Buckets.BucketsInFirstSeenOrder` | src/Statistics.tsx:22-25 | buckets appear in the order in which their keys first occur in the input |
| `Buckets.BucketsTotal` | src/Statistics.tsx:19-29 | summing any additive measure over the buckets gives the measure of the whole input |
| `Buckets.BucketSizesSum` | src/Statistics.tsx:19-29 | the bucket sizes add up to the input length: every item lands in exactly one bucket |
| `Buckets.BucketsConcatContiguous` | src/Statistics.tsx:19-29 | when each key's items are contiguous, the buckets concatenated give the input back and the last bucket is the last item's |
| `Seqs.FilterPartition` | src/Statistics.tsx:65-66 | filtering by a predicate and by its negation splits a sequence into two parts whose sizes add up |
| `Ranges.Step` | src/Statistics.tsx:43-58 | one iteration: the open range takes the item's value and ends with the item; the same value pushes it and yields nothing, another value yields the old range and opens a one-item range, and the first item opens one without yielding |
| `Ranges.ScanOf` | src/Statistics.tsx:39-59 | after the loop a range is open if and only if the input is non-empty, and it has the last item's value |
| `Ranges.Yielded` | src/Statistics.tsx:38-60 | nothing for empty input; otherwise the complete runs without the one still open |
| `Ranges.Runs` | src/Statistics.tsx:38-60 | the complete runs are empty exactly for empty input, and the last one has the last item's value |
| `Ranges.Rangeify` | src/Statistics.tsx:38-60 | the generator's loop yields exactly `Yielded(input, disc)` |
| `Ranges.RunsPartitionInput` | src/Statistics.tsx:42-59 | the runs are non-empty and homogeneous, neighbours differ, and their items concatenated are the input |
| `Ranges.YieldedDropsLastRun` | src/Statistics.tsx:42-59 | nothing is yielded for empty input; otherwise exactly the runs but the last are yielded, and they with the last run's items make up the input |
| `Ranges.YieldedRangesMaximal` | src/Statistics.tsx:45-55 | yielded ranges are non-empty, homogeneous and alternating, and the last one differs in value from the final item |
| `Ranges.YieldsNothingIffConstant` | src/Statistics.tsx:38-60 | nothing is yielded if and only if all items have the same value (empty input included) |
| `Extremes.MaxBy` | src/Statistics.tsx:75 | `maxBy`: one of its two arguments, below neither, and the first on a tie |
| `Extremes.MinBy` | src/Statistics.tsx:74 | `minBy`: one of its two arguments, above neither, and the first on a tie |
| `Extremes.ReduceMax` | src/Statistics.tsx:77-78 | the fold returns the start or an element, and is below neither the start nor any element |
| `Extremes.ReduceMin` | src/Statistics.tsx:80-81 | the fold returns the start or an element, and is above neither the start nor any element |
| `Extremes.ReduceMaxIsFirstGreatest` | src/Statistics.tsx:75-78 | the maximum fold returns the accumulator when nothing beats it strictly, else the first element with the greatest score |
| `Extremes.ReduceMinIsFirstLeast` | src/Statistics.tsx:74-81 | the minimum fold returns the accumulator when nothing is strictly below it, else the first element with the least score |
| `Statistics.ReportOf` | src/Statistics.tsx:62-88 | the report: past days of the months only, counts keyed like their buckets, each extreme a sentinel or one of the pairs, each streak the sentinel or a yielded range of its kind |
| `Statistics.Top` | src/Statistics.tsx:77-78 | the top pair is the sentinel or one of the pairs, the sentinel for no pairs, and no pair has a greater count |
| `Statistics.Worst` | src/Statistics.tsx:80-81 | the worst pair is the sentinel or one of the pairs, the sentinel for no pairs, and no pair has a smaller count |
| `Statistics.Longest` | src/Statistics.tsx:85-88 | the longest streak is the sentinel or one of the ranges, the sentinel for no ranges, and no range is longer |
| `Statistics.Statistics` | src/Statistics.tsx:62-88 | the component's computation, with both loops, produces exactly `ReportOf(months, today, cal)` |
| `Statistics.TotalsPartitionPastDays` | src/Statistics.tsx:63-66 | only past days of the months are considered; the drunk totals hold drunk days, the sober totals sober ones, and together they count every past day |
| `Statistics.CountsBoundedByBuckets` | src/Statistics.tsx:71-72 | each count keeps its bucket's key and lies between 0 and the bucket size |
| `Statistics.CountsSumToDrunkTotal` | src/Statistics.tsx:65-72 | the per-weekday counts and the per-month counts each add up to the number of drunk past days |
| `Statistics.TopIsFirstGreatest` | src/Statistics.tsx:77-78 | the top pair is `['Brak', -Infinity]` for no pairs, else the first pair with the greatest count |
| `Statistics.WorstIsFirstLeast` | src/Statistics.tsx:80-81 | the worst pair is `['Brak', Infinity]` for no pairs, else the first pair with the least count |
| `Statistics.ExtremesOfReport` | src/Statistics.tsx:74-81 | the four extremes of the report are the sentinels or the first greatest/least weekday and month pairs |
| `Statistics.NoHistoryGivesSentinels` | src/Statistics.tsx:63-88 | with no past day, the report has no days, no ranges, the four name sentinels and the empty streak sentinels |
| `Statistics.LongestIsFirstLongest` | src/Statistics.tsx:85-88 | the longest-streak fold returns the sentinel for no ranges, else the earliest of the longest, and nothing is longer |
| `Statistics.LongestStreaksOfReport` | src/Statistics.tsx:83-88 | the longest drunk (sober) streak is the earliest longest yielded drunk (sober) range, or the sentinel |
| `Statistics.UniformHistoryShowsNoStreak` | src/Statistics.tsx:83-88 | when every past day has the same mark, no range is yielded and both streaks are the sentinel |
| `Statistics.TieBreakExample` | src/Statistics.tsx:74-81 | of `[A 5, B 5, C 3]` the top is `A` (first of equal maxima) and the worst `C` |
| `App.DefaultMonths` | src/App.tsx:17-25 | the loop builds exactly the buckets by month name of the unmarked days `[start, end)` |
| `App.DefaultMonthsContents` | src/App.tsx:19-25 | one bucket per month name, one record per day, every record unmarked, inside the range and in its own month's bucket, every day present, buckets in date order |
| `App.DefaultMonthsFlatten` | src/App.tsx:19-25 | when each month's days are consecutive, reading the buckets one after the other gives the days in order |
| `App.DefaultMonthsNumberedFromOne` | src/App.tsx:6-25 | with consecutive month days, the default records of 2020 are days 1, 2, 3, ... in bucket order |
| `App.DefaultCellsNumbered` | src/App.tsx:19-25 | when each month's days are consecutive and `date()` counts them from 1, at every stage of the loop the record in cell `j` of a bucket has `date()` equal to `j + 1` |
| `App.DefaultCellOfDay` | src/App.tsx:19-25 | under the same calendar facts, cell `date() - 1` of day `d`'s month in the 2020 defaults holds day `d` |
| `App.Replace` | src/App.tsx:27-29 | within bounds a single-index update, at or past the end an append |
| `App.ReplaceInRange` | src/App.tsx:27-29 | for an index within bounds: same length, the value at the index, every other position unchanged |
| `App.ReplaceBeyondEnd` | src/App.tsx:27-29 | for an index at or past the end the value is appended |
| `App.Filler` | src/App.tsx:31-33 | the number of empty cells is below 7 and puts the first day under the header column of its own weekday |
| `App.FillerMondaySunday` | src/App.tsx:31-33 | a month beginning on Monday gets no empty cell, one beginning on Sunday six (and only those) |
| `App.GridColumnsMatchWeekdays` | src/App.tsx:82-92 | with consecutive weekdays, and assuming the day cells wrap every seven cells under the header (a layout the stylesheet provides, not the component), every day of the month sits under the column `pn`..`nd` of its weekday |
| `App.ToggleDrunk` | src/App.tsx:59-63 | the new months: same length, every entry but the clicked day's month unchanged, that month's key kept and its cell `date() - 1` replaced by the day with its flag negated |
| `App.ToggleChangesOnlyClickedDay` | src/App.tsx:59-63 | keys and other buckets unchanged; in the clicked day's bucket only the cell `date() - 1` changes, to the day with its flag negated |
| `App.ToggleTwiceRestores` | src/App.tsx:59-63 | clicking the same day twice restores the months |
| `App.ToggleKeepsShape` | src/App.tsx:59-63 | toggling a day whose cell holds that date keeps keys, bucket sizes and dates |
| `App.ToggleIsPersisted` | src/App.tsx:59-66 | what `toggleDrunk` saves loads back as the months it sets |
| `App.ClickOnShownDay` | src/App.tsx:59-94 | for any record shown, in months of the defaults' shape: its month is found at its own bucket and `date() - 1` is its own cell, so the click flips exactly that record, a second click restores the months, and what is saved loads back |
| `App.Save` | src/App.tsx:36-39 | the flags written are the records' `drunk` flags, bucket after bucket |
| `App.Load` | src/App.tsx:41-53 | with nothing stored the defaults, otherwise the defaults' keys with buckets of the same sizes |
| `App.Reload` | src/App.tsx:50-53 | each record keeps its date and takes the stored flag at its day number less one |
| `App.LoadKeepsShape` | src/App.tsx:41-53 | with nothing stored, the defaults; otherwise the defaults' keys, buckets and dates with each flag read at the day's number less one |
| `App.SaveLoadRoundTrip` | src/App.tsx:36-53 | for months of the defaults' shape with days numbered from one, loading what was saved gives the months back |
| `App.LoadSaveRoundTrip` | src/App.tsx:36-53 | a stored flag list of the right length is written back unchanged after a load |

## Left out

- Rendering (the JSX of both components and `src/Modal.tsx`) is not modelled; `filler`'s array of `null` cells is modelled by its length, which is all the rendering uses.
- `percent` and `Intl.NumberFormat`: floating-point division and locale formatting. The code has no guard for zero past days, where JavaScript gives `NaN`.
- IEEE `±Infinity` are the `Score` cases `NegInfinity` and `PosInfinity`, and counts are unbounded integers.
- The date library (moment): dates are day numbers, and names, weekdays and days of the month come from a `Calendar` of given functions (see above). The clock read by `moment()` is the `today` parameter.
- `localStorage` and JSON: `load` receives the already parsed stored flags (`None` when nothing is stored; the stored text is never empty because `save` always writes an array), and `save` returns the flags it would write. Malformed stored text is not modelled.
- React state: `setMonths` and the component lifecycle are left out; `App.ToggleIsPersisted` states how the set and the saved months agree.
- `App.Load`: a stored list shorter than a date's number gives `undefined` in the code, and the model reads it as `false`. The two differ only in the streaks. Totals and counts agree, because `filter` treats `undefined` as false. `rangeify` does not: `last !== current` starts a new run between `false` and `undefined`. A first past day whose flag is `undefined` equals the initial `last`, and `range?.items?.push` then drops it. For example, with `[false]` stored and today at day 4, the code yields one sober range of day 1. The model yields nothing, so its sober streak is the sentinel.
- `Assoc`: JavaScript orders integer-like keys numerically before other keys; weekday and month names never look like integers, so insertion order is modelled.
- `App.Replace`: negative indices are modelled with `slice` semantics but no lemma is stated for them, since the program only passes `date() - 1 >= 0`.
- `App.ToggleDrunk`: a day whose month has no bucket makes `slice` throw in the code; the model requires the bucket to exist.
- `App.Filler`: an empty month makes `days[0]` throw in the code; the model requires a non-empty month.
