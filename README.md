# Habit tracker streak and statistics engine, in Dafny

This project models the core of a habit tracker:

- **Streaks** (`src/utils/streakCalculator.ts`). The current streak walks back from today; today may be missing. The longest streak is a sort-and-scan over consecutive dates. There are also membership, range-count and last-completion helpers, and the streak status that combines them.
- **Statistics** (`src/utils/statsCalculator.ts`):
  - windowed completion rate;
  - weekday histogram with its best day;
  - per-day completion series;
  - active days;
  - the variance-based consistency score;
  - cross-habit aggregates: overall statistics and completions by category.
- **Date helpers** (`src/utils/dateUtils.ts`). These work on `YYYY-MM-DD` strings, the `full-date` form of section 5.6 of RFC 3339. Underneath is proleptic Gregorian arithmetic on day numbers, using the leap-year rule of RFC 3339 Appendix C.
- **Mock service** (`src/services/mockHabitService.ts`):
  - habit and log tables with create, update, archive and delete;
  - the `logCompletion` upsert keyed on habit and date, and `removeCompletion`;
  - the service's own statistics routine.

A calendar day is an integer day number, counted from 1970-01-01 in UTC. `DateUtils.FormatDate` and `DateUtils.ParseDate` convert between day numbers and strings. `DateUtils.FormatOrder` proves that comparing formatted dates as strings is comparing their day numbers. This is what justifies the string comparisons the source makes on `completedDate`. "Today" is a parameter wherever the source reads the clock.

Modules, one per source file, plus shared helpers:

- `Wrappers`: `Option` and `Result`.
- `Seqs`: `filter`, `findIndex`, `sort`, `reverse` and `reduce` as sequence functions.
- `CivilCalendar`: day numbers, civil dates and weekdays.
- `DateUtils`.
- `Types`: the records of `src/types/index.ts`.
- `Streaks`.
- `Stats`.
- `HabitService`: the class `HabitStore`, whose two `seq` fields are the stored habit and log arrays.

Where a routine is a loop in the source, it is a method with a loop here. Its contract ties the result to a function, and the lemmas about that function state what the source promises.

## Model

| member | source | states |
|---|---|---|
| CivilCalendar.DaysInMonth | src/utils/dateUtils.ts:167-170 | Each month has 28 to 31 days. A month has 29 days exactly when it is February of a Gregorian leap year. |
| CivilCalendar.ComputeCivil | src/utils/dateUtils.ts:8-10 | Every day number has a valid civil date whose day number is that day. |
| CivilCalendar.CivilFromDaysSpec | src/utils/dateUtils.ts:8-10 | The civil date of a day number is a valid date whose day number is that day. |
| CivilCalendar.CivilOrder | src/utils/dateUtils.ts:54-69 | Among valid dates, (year, month, day) order is day-number order, and equal dates have equal day numbers. |
| CivilCalendar.CivilRoundTrip | src/utils/dateUtils.ts:47-49 | A valid civil date survives the trip through its day number. |
| CivilCalendar.NextDay | src/utils/dateUtils.ts:150 | Adding one to a day number gives the next calendar day, across month and year ends (the `setDate(getDate() + 1)` step). |
| CivilCalendar.DayOfWeek | src/utils/dateUtils.ts:84-86 | The weekday is in 0..6, and 1970-01-01 is a Thursday (4). |
| CivilCalendar.DayOfWeekStep | src/utils/dateUtils.ts:84-86 | The next day's weekday is (w + 1) mod 7. |
| DateUtils.InRangeYears | src/utils/dateUtils.ts:8-10 | The day numbers the model formats are exactly those of the years 0000-9999. |
| DateUtils.FormatFields | src/utils/dateUtils.ts:8-10 | `formatDate` yields a 10-character `YYYY-MM-DD` string whose zero-padded fields are the civil date of the day. |
| DateUtils.ParseDate | src/utils/dateUtils.ts:47-49 | A string that parses names a day of the years 0000-9999. |
| DateUtils.ParseDateSpec | src/utils/dateUtils.ts:47-49 | A string parses only when it is the formatted form of the day it names. |
| DateUtils.ParseFormat | src/utils/dateUtils.ts:8-10 | `parseDate(formatDate(d))` is `d`. |
| DateUtils.FormatInjective | src/utils/dateUtils.ts:8-10 | Different days format differently. |
| DateUtils.FormatOrder | src/utils/streakCalculator.ts:114-116 | One formatted date is lexicographically less than another exactly when its day is earlier. |
| DateUtils.IsToday | src/utils/dateUtils.ts:22-24 | `isToday` holds exactly for the string that parses to today. |
| DateUtils.GetDaysAgo | src/utils/dateUtils.ts:29-33 | The result parses back to the day `days` before today. |
| DateUtils.GetDaysFromNow | src/utils/dateUtils.ts:38-42 | The result parses back to the day `days` after today. |
| DateUtils.DaysAgoDaysFromNow | src/utils/dateUtils.ts:29-42 | `getDaysAgo(-n)` equals `getDaysFromNow(n)`. The two name today - n and today + n. |
| DateUtils.PastFutureExclusive | src/utils/dateUtils.ts:54-69 | `isPast` and `isFuture` never both hold. Both are false exactly for today and for strings that do not parse. |
| DateUtils.DaysDifference | src/utils/dateUtils.ts:74-79 | The difference is a number exactly when both strings parse. |
| DateUtils.DaysDifferenceProperties | src/utils/dateUtils.ts:74-79 | The difference is symmetric. It is 0 exactly when both strings are the same valid date. |
| DateUtils.GetDayOfWeek | src/utils/dateUtils.ts:84-86 | The weekday of a valid date is in 0..6. Otherwise there is none (NaN). |
| DateUtils.GetDayOfWeekName | src/utils/dateUtils.ts:91-94 | The name of a valid date's weekday is always an entry of the seven-name table. |
| DateUtils.FormatRangeAscending | src/utils/dateUtils.ts:142-154 | The range strictly ascends in string order. |
| DateUtils.GetDateRange | src/utils/dateUtils.ts:142-154 | The range holds every day from start to end inclusive, in ascending order. It is empty when end is before start or a date is invalid. |
| DateUtils.FormatDays | src/utils/dateUtils.ts:147-151 | The `while` loop pushes exactly the days from a to b. |
| DateUtils.DateRangeLength | src/utils/dateUtils.ts:142-154 | A non-empty range has `daysDifference(s, e) + 1` entries. |
| DateUtils.GetFirstDayOfMonth | src/utils/dateUtils.ts:159-162 | The result is the first of the date's month. It is absent for an invalid date. |
| DateUtils.GetLastDayOfMonth | src/utils/dateUtils.ts:167-170 | The result is the month's last day (28/29/30/31 by the Gregorian rule). It is absent for an invalid date. |
| DateUtils.MonthBounds | src/utils/dateUtils.ts:159-170 | First and last day keep the date's year and month and enclose its day. |
| DateUtils.TwoDigitYearShift | src/utils/dateUtils.ts:159-170 | For a valid date in years 0000-0099 the month helpers return the first and last day of the same month in year 1900 + year, so the date lies before its own "first day of the month". |
| DateUtils.GetDatesInMonth | src/utils/dateUtils.ts:175-179 | With a 0-based month, the result has exactly as many entries as the month has days. Entry i is day i + 1 of that month. |
| DateUtils.NamesDay | src/utils/dateUtils.ts:8-10 | A string equals the formatted form of a day exactly when it parses to that day. |
| DateUtils.Classify | src/utils/dateUtils.ts:188-190 | The comparisons with today's, `getDaysAgo(-1)`'s and `getDaysAgo(1)`'s strings hold exactly for the strings that parse to today, today + 1 and today - 1. |
| DateUtils.DiffFromToday | src/utils/dateUtils.ts:184-186 | The difference from today is NaN for a string that does not parse, and otherwise the distance in days to the day it names. |
| DateUtils.RelativeTimeByDay | src/utils/dateUtils.ts:184-196 | The label is the one the named day calls for: 'Today', 'Tomorrow', 'Yesterday', "N day(s) ago" for an earlier day, "In N day(s)" for a later day, and "In NaN day" for a string that does not parse. |
| DateUtils.RelativeTimeNamedDays | src/utils/dateUtils.ts:184-190 | The label is 'Today', 'Tomorrow' or 'Yesterday' exactly for today, today + 1 and today - 1. |
| DateUtils.NatToString | src/utils/dateUtils.ts:193-195 | The count in a label is the decimal numeral of the day difference: its digits denote the number, with no leading zero. |
| DateUtils.RelativeTimePast | src/utils/dateUtils.ts:192-193 | An earlier date is labelled "N days ago", with N the day difference. |
| DateUtils.RelativeTimeFuture | src/utils/dateUtils.ts:194-196 | A later date is labelled "In N days". |
| DateUtils.RelativeTimeInvalid | src/utils/dateUtils.ts:184-196 | A string that does not parse is labelled "In NaN day". |
| Streaks.RunBackMeaning | src/utils/streakCalculator.ts:22-34 | The backward run from a day has length k exactly when the k days ending there are logged and the day before them is not. |
| Streaks.RunBackBound | src/utils/streakCalculator.ts:22-34 | The backward run from a day is no longer than the number of distinct logged days up to that day. |
| Streaks.CurrentBound | src/utils/streakCalculator.ts:8-37 | The current streak is at most the number of distinct logged days up to today. |
| Streaks.CurrentStepsBound | src/utils/streakCalculator.ts:22-34 | The run of logged days before today is no longer than the number of distinct logged days up to today. |
| Streaks.CalculateCurrentStreak | src/utils/streakCalculator.ts:8-37 | The loop returns (1 if today is logged) plus the unbroken run of logged days from yesterday back. It returns 0 for no logs. For logs present, it looks at exactly that run plus two days, so the unbounded loop ends after at most (distinct logged days up to today) + 2 steps. |
| Streaks.NewestFirst | src/utils/streakCalculator.ts:12-15 | The newest-first date list holds exactly the logged dates. |
| Streaks.CalculateLongestStreak | src/utils/streakCalculator.ts:42-83 | The loop returns the longest run of the sorted dates. The result is 0 exactly for no logs and at most the number of logs. |
| Streaks.LongestIsLongestStretch | src/utils/streakCalculator.ts:46-82 | No stretch of one-day steps in the sorted list is longer than the longest run, and one stretch attains it. |
| Streaks.RunBoundsLongest | src/utils/streakCalculator.ts:42-83 | Over strictly ascending dates, any k consecutive logged days make the longest run at least k. |
| Streaks.SortedStrictly | src/utils/streakCalculator.ts:46-48 | When no date repeats, the sorted dates rise strictly. |
| Streaks.RepeatRestartsRun | src/utils/streakCalculator.ts:62-73 | A repeated date, a difference of 0, restarts the run at 1. |
| Streaks.CurrentAtMostLongest | src/utils/streakCalculator.ts:8-83 | When no date repeats, the current streak is at most the longest streak. |
| Streaks.RepeatedDayShortensLongest | src/utils/streakCalculator.ts:46-82 | A duplicate log on a day splits the run. With d-2, d-1, d-1 and d, the current streak is 3 but the longest is 2. |
| Streaks.IsCompletedOnDate | src/utils/streakCalculator.ts:88-90 | The result holds exactly when some log has that date. |
| Streaks.IsCompletedToday | src/utils/streakCalculator.ts:95-97 | The result holds exactly when some log is dated today. |
| Streaks.GetCompletionDates | src/utils/streakCalculator.ts:102-104 | The result is sorted ascending and holds the same dates, repeats included. |
| Streaks.GetCompletionCountInRange | src/utils/streakCalculator.ts:109-117 | The count is at most the number of logs, and 0 when end is before start. |
| Streaks.CountInRangeByDay | src/utils/streakCalculator.ts:109-117 | The range count is the sum, over the days from start to end inclusive, of the logs on each day. |
| Streaks.GetLastCompletionDate | src/utils/streakCalculator.ts:122-126 | The result is absent exactly for no logs. Otherwise it is a logged date no earlier than any other. |
| Streaks.GetStreakStatus | src/utils/streakCalculator.ts:138-168 | `isActive` holds exactly when the last completion is today or yesterday. `daysUntilBreak` is 2 when today is logged, 1 when the last completion is yesterday, and 0 otherwise. With no future-dated logs, `daysUntilBreak > 0` exactly when active. |
| Stats.RoundDiv | src/utils/statsCalculator.ts:15 | `Math.round(a / b)` is the nearest integer to a / b, with halves rounded up. |
| Stats.RoundPercent | src/utils/statsCalculator.ts:15 | A rounded share is 0% for none, 100% for all, and at most 100% for at most all. |
| Stats.CalculateCompletionRate | src/utils/statsCalculator.ts:8-16 | The rate is round(100 * n / days), where n counts raw logs in the `days`-day window ending today. |
| Stats.CompletionRateRange | src/utils/statsCalculator.ts:8-16 | The rate is 0 when no window day is logged and 100 when each window day has exactly one log. With no repeated day it is at most 100. |
| Stats.HistogramSum | src/utils/statsCalculator.ts:34-39 | The seven weekday buckets add up to the number of logs. |
| Stats.TallyWeekdays | src/utils/statsCalculator.ts:34-39 | The `dayCounts` array loop yields the weekday histogram. |
| Stats.CalculateBestDayOfWeek | src/utils/statsCalculator.ts:28-49 | `count` is the largest bucket and `dayIndex` the lowest index attaining it, with its name. No logs give Sunday with 0. |
| Stats.CalculateCompletionsByDayOfWeek | src/utils/statsCalculator.ts:54-70 | The result has seven entries, Sunday to Saturday. Entry i is bucket i of the same histogram. |
| Stats.CalculateTotalCompletions | src/utils/statsCalculator.ts:21-23 | The number of logs equals the sum of the weekday buckets. |
| Stats.GetCompletionsByDate | src/utils/statsCalculator.ts:98-126 | There is one entry per calendar day from start to end, or none when end is before start. Each entry carries its day and the day's number of logs. |
| Stats.CountByDate | src/utils/statsCalculator.ts:103-110 | The map holds, for each day from start to end, its number of logs, and nothing else. |
| Stats.SeriesAt | src/utils/statsCalculator.ts:116-123 | Entry i of the series is day start + i with the number of logs on that day. |
| Stats.SeriesAscending | src/utils/statsCalculator.ts:116-123 | Entry i is day start + i, and the formatted dates of the entries ascend in string order. |
| Stats.SeriesSum | src/utils/statsCalculator.ts:98-126 | The series counts add up to `getCompletionCountInRange` over the same days. |
| Stats.CalculateActiveDays | src/utils/statsCalculator.ts:218-229 | For any `days`, the result is the number of distinct logged days in the window. It is at most the window's log count, at most `days` when `days >= 0`, and 0 when `days <= 0`. |
| Stats.ConsistencyScore | src/utils/statsCalculator.ts:243-257 | The score lies in 0..100 and is 0 when the window holds no logs. |
| Stats.CalculateConsistencyScore | src/utils/statsCalculator.ts:235-258 | The score is 0 for no logs. Otherwise it is the score of the window's per-day counts, and always within 0..100. |
| Stats.DailyCounts | src/utils/statsCalculator.ts:239-242 | The per-day counts of the series are the logs on each window day. |
| Stats.EvenWindowScores100 | src/utils/statsCalculator.ts:247-257 | When every window day has the same non-zero count, the variance is 0 and the score is 100. |
| Stats.BestIndex | src/utils/statsCalculator.ts:165-169 | The `reduce` with strict `>` settles on the first entry of maximal rate. |
| Stats.CalculateOverallStats | src/utils/statsCalculator.ts:142-178 | The result has the habit, active-habit and log counts. The average is the active rates' mean rounded to the nearest integer, or 0 with no active habit. `bestHabit` is absent exactly when no habit is active; otherwise it is the first active habit of highest rate. |
| Stats.AverageAtMostBest | src/utils/statsCalculator.ts:157-169 | The rounded average never exceeds the best habit's rate. |
| Stats.Categories | src/utils/statsCalculator.ts:195-199 | The `Map` keys are the distinct categories of all habits, each once. |
| Stats.FirstAppearance | src/utils/statsCalculator.ts:195-199 | The result is the position of the first habit of a category, or the length when there is none. |
| Stats.CategoryCount | src/utils/statsCalculator.ts:195-199 | A category absent from the habits counts 0. |
| Stats.Percentage | src/utils/statsCalculator.ts:208 | The share is round(100 * count / total), or 0 with no logs. |
| Stats.PercentageAtMost100 | src/utils/statsCalculator.ts:208 | A count within the total is at most 100%, and all of it is 100%. |
| Stats.CategoriesByFirstAppearance | src/utils/statsCalculator.ts:195-204 | The map keys ascend in first appearance. |
| Stats.SortRanked | src/utils/statsCalculator.ts:212 | The stable sort puts counts in non-increasing order, with ties in first-appearance order. |
| Stats.CategoryEntries | src/utils/statsCalculator.ts:201-210 | The loop over the map gives one entry per category, in first-appearance order, each with its count and share. |
| Stats.TallyCategories | src/utils/statsCalculator.ts:193-199 | The `forEach` leaves the keys in first-appearance order, each holding its category's log count. |
| Stats.CalculateCompletionsByCategory | src/utils/statsCalculator.ts:189-213 | There is one entry per distinct category, archived habits included, with its count and rounded share. Entries are ordered by count, highest first, with ties in first-appearance order. |
| HabitService.Apply | src/services/mockHabitService.ts:100-103 | A patch never changes id or creation time, and an empty patch changes nothing. |
| HabitService.HabitStore.GetHabits | src/services/mockHabitService.ts:56-61 | The result holds exactly the stored habits without `archivedAt`. |
| HabitService.HabitStore.GetHabit | src/services/mockHabitService.ts:63-67 | The result is absent exactly when no habit has the id. Otherwise it is the first habit with it. |
| HabitService.HabitStore.CreateHabit | src/services/mockHabitService.ts:69-85 | Exactly one habit is appended. Everything stored before is unchanged. |
| HabitService.HabitStore.UpdateHabit | src/services/mockHabitService.ts:87-109 | The update fails with "Habit with id … not found" when no habit has the id. Otherwise only the first match is patched, in place. |
| HabitService.HabitStore.DeleteHabit | src/services/mockHabitService.ts:111-122 | Every habit with the id and every log of it is removed. All else keeps its order, and unique logs stay unique. |
| HabitService.HabitStore.ArchiveHabit | src/services/mockHabitService.ts:124-143 | The archive fails like `updateHabit` when no habit has the id. Otherwise the first match gets `archivedAt` set and is no longer active. |
| HabitService.HabitStore.GetHabitLogs | src/services/mockHabitService.ts:147-151 | The result holds exactly the stored logs of that habit. |
| HabitService.HabitStore.LogCompletion | src/services/mockHabitService.ts:158-196 | An existing log for the habit and date only has its notes replaced. Otherwise one log is appended. The pair never gains a second log, and unique logs stay unique. |
| HabitService.HabitStore.RemoveCompletion | src/services/mockHabitService.ts:198-209 | Every log of the pair is removed and nothing else. Afterwards the pair has no log. |
| HabitService.HabitStore.GetHabitStats | src/services/mockHabitService.ts:213-287 | `currentStreak` is the walk of `calculateCurrentStreak`, and `totalCompletions` is the habit's log count. As written, `longestStreak` is 0 or 1 and the rates count logs from today - days on. |
| HabitService.HabitStore.UniqueLogsBoundStreak | src/services/mockHabitService.ts:158-196 | With the store's logs unique per habit and date, a habit's current streak is at most its longest streak. |
| HabitService.FilterUnique | src/services/mockHabitService.ts:115-120 | Filtering keeps logs unique per habit and date. |
| HabitService.LongestStreakAsWritten | src/services/mockHabitService.ts:240-266 | The loop computes the run scan with the step `prevDate - currentDate`. |
| HabitService.AscendingGivesOne | src/services/mockHabitService.ts:245-266 | Over the ascending list that step is never 1, so the as-written longest streak is 0 for no dates and 1 otherwise. |
| HabitService.TwoDayRunCountsOne | src/services/mockHabitService.ts:252-261 | Two consecutive days give 1 as written, against 2 for `calculateLongestStreak`. |
| HabitService.RateAsWritten | src/services/mockHabitService.ts:269-276 | The rate is round(100 * n / days), where n counts the logs dated from today - days on, with no upper bound. |
| HabitService.RateAsWrittenAgrees | src/services/mockHabitService.ts:269-276 | With no log on the extra day today - days and none after today, the as-written rate equals `calculateCompletionRate`. |
| HabitService.EightDaysRate114 | src/services/mockHabitService.ts:269-276 | One log on each day from today - 7 to today gives a 7-day rate of 114 as written. `calculateCompletionRate` stays within 100 on the same logs. |
| Seqs.Filter | src/services/mockHabitService.ts:60 | `filter` keeps exactly the elements that pass, never more than it was given. |
| Seqs.FilterAppend | src/services/mockHabitService.ts:115-120 | Filtering distributes over concatenation, so it keeps relative order. |
| Seqs.FindIndex | src/services/mockHabitService.ts:94 | `findIndex` is -1 exactly when nothing matches. Otherwise it is the first match. |
| Seqs.FilterUpdate | src/services/mockHabitService.ts:174-178 | Replacing an element by one the test judges alike keeps the number selected. |
| Seqs.Sort | src/utils/streakCalculator.ts:46-48 | `sort` yields an ascending permutation. |
| Seqs.SortedUnique | src/utils/streakCalculator.ts:46-48 | Two ascending lists with the same elements are equal, so the sort result is determined. |

## Left out

- Time zones and daylight saving are not modelled; every day is a UTC day number. The source formats with `toISOString` (UTC) but parses `YYYY-MM-DDT00:00:00` as local midnight. It also divides millisecond differences by 86400000, which gives 0 across a 23-hour daylight-saving day. The model agrees with the source only in UTC.
- The clock (`new Date()`, `getToday`) is the parameter `today`. Generated ids and timestamps (`generateId`, `toISOString` of now) are parameters of the service methods.
- Years outside 0000-9999 and `completedDate` strings that are not valid dates are outside the engine modules, which hold dates as day numbers. The string helpers return `None` for an invalid date where the source yields NaN or throws. That includes a day past the end of its month, such as "2024-02-30": ECMAScript makes it an invalid date, but some engines (V8 among them) roll it over into the next month, and that engine-dependent roll-over is not modelled.
- Floating point: the consistency score is computed over exact reals, and `Math.round` of an exact quotient is computed over integers. IEEE-754 rounding of the intermediate values is not modelled.
- `calculateAverageCompletionsPerWeek` (src/utils/statsCalculator.ts:75-88) is not modelled. Its result is a float rounded to one decimal, which only floating point describes faithfully.
- Stats.ConsistencyScore: the closed form variance / mean² = days * Q / S² - 1 (S the sum, Q the sum of squares) is not proved. The model states the bounds, the empty-window case and the even-window case only.
- Presentation strings are not modelled: `formatDisplayDate`, `formatDisplayDateWithDay`, the short day and month names, `getMonthName`, and the colour tables of `src/types/index.ts`.
- Storage and async plumbing are not modelled: `localStorage`, JSON encoding, the `delay` before each call, and `initializeStorage`, `resetToMockData`, `clearAllData`, `exportData`, `importData`. The store is two sequences. `getAllLogs` returns the `logs` field as it is.
- `src/data/mockLogs.ts` draws random seed data and is not part of this model.
- Default arguments (`days = 30`) are not modelled; every call passes `days`. The source never checks `days`. Where it divides by `days`, a `days` of 0 or less gives a NaN, infinite or negative rate; the members that divide (completion rate, consistency score, overall stats) require `days >= 1` and do not model those values.
- HabitService.HabitPatch: a patch field set to `undefined` is modelled only for `archivedAt`. The other fields are typed as required strings in the source.
- The model follows the source as written where a reader might expect otherwise:
  - the completion rate counts raw logs, not distinct days;
  - the longest streak does not de-duplicate dates, so a repeated day splits a run (Streaks.RepeatedDayShortensLongest);
  - a `days` of 0 or less is not rejected: Stats.CalculateActiveDays takes it and counts nothing, since the window then starts after today.

## Findings

| source | as written | input that shows it | evidently intended | confidence | as-written member | corrected member |
|---|---|---|---|---|---|---|
| src/services/mockHabitService.ts:245-256 | After `sortedLogs.reverse()` the dates ascend, so `prevDate - currentDate` is never 1 and every run restarts: `longestStreak` is 0 or 1 | logs on two consecutive days: 1 instead of 2 | the longest run of consecutive days, as `calculateLongestStreak` computes it | not executed | HabitService.TwoDayRunCountsOne | Streaks.CalculateLongestStreak |
| src/services/mockHabitService.ts:269-275 | The cutoff is today - days with no upper bound, a window of days + 1 days that also takes future-dated logs | one log on each day from today - 7 to today: `completionRate7Days` is 114 | the share of the last `days` days logged, at most 100 for one log per day | not executed | HabitService.EightDaysRate114 | Stats.CalculateCompletionRate |
