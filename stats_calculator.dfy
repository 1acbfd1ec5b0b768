/** The statistics of src/utils/statsCalculator.ts over completion logs.
    Windows end at `today`, a parameter; a window of `days` days starts at
    `today - (days - 1)` (`getDaysAgo(days - 1)`). */
module Stats {
  import opened Wrappers
  import opened CivilCalendar
  import opened Seqs
  import opened Types
  import opened Streaks
  import opened DateUtils

  // ---------------------------------------------------------------------
  // Rounding

  /** `r` is `a / b` rounded to the nearest integer, halves up:
      `r <= a / b + 1/2 < r + 1`, multiplied out by `2 * b`. */
  predicate RoundsTo(r: nat, a: nat, b: nat)
  {
    b * (2 * r) <= 2 * a + b < b * (2 * r + 2)
  }

  /** `Math.round(a / b)` for `a >= 0`, `b >= 1`: the nearest integer to
      `a / b`, halves rounded up. */
  function RoundDiv(a: nat, b: nat): (r: nat)
    requires b >= 1
    ensures RoundsTo(r, a, b)
  {
    (2 * a + b) / (2 * b)
  }

  /** Rounded percentages: none of `d` is 0%, all of it is 100%, and at
      most all of it is at most 100%. */
  lemma RoundPercent(n: nat, d: nat)
    requires d >= 1
    ensures n == 0 ==> RoundDiv(100 * n, d) == 0
    ensures n == d ==> RoundDiv(100 * n, d) == 100
    ensures n <= d ==> RoundDiv(100 * n, d) <= 100
  {
    var r := RoundDiv(100 * n, d);
    if n <= d {
      MulLe(d, n, d);
      assert d * (2 * r) <= d * 201;
      CancelLe(d, 2 * r, 201);
    }
    if n == 0 {
      CancelLe(d, 2 * r, 1);
    }
    if n == d {
      assert d * 201 < d * (2 * r + 2);
      CancelLt(d, 201, 2 * r + 2);
    }
  }

  lemma MulLe(c: nat, a: int, b: int)
    requires a <= b
    ensures c * a <= c * b
  {
  }

  lemma CancelLe(d: nat, a: int, b: int)
    requires d >= 1 && d * a <= d * b
    ensures a <= b
  {
  }

  lemma CancelLt(d: nat, a: int, b: int)
    requires d >= 1 && d * a < d * b
    ensures a < b
  {
  }

  // ---------------------------------------------------------------------
  // Completion rate

  /** `calculateCompletionRate`: the logs dated in the `days`-day window
      ending today, repeats included, as a rounded percentage of `days`. */
  function CalculateCompletionRate(logs: seq<HabitLog>, days: int, today: Day): (r: nat)
    requires days >= 1
    ensures RoundsTo(r, 100 * GetCompletionCountInRange(logs, today - (days - 1), today), days)
  {
    RoundDiv(100 * GetCompletionCountInRange(logs, today - (days - 1), today), days)
  }

  /** The window holds exactly `days` days, so the rate is 0 when no window
      day is logged, 100 when each window day is logged exactly once, and at
      most 100 when no day is logged twice. */
  lemma CompletionRateRange(logs: seq<HabitLog>, days: int, today: Day)
    requires days >= 1
    ensures (forall d :: today - days < d <= today ==> d !in Dates(logs)) ==>
      CalculateCompletionRate(logs, days, today) == 0
    ensures (forall d :: today - days < d <= today ==> multiset(Dates(logs))[d] == 1) ==>
      CalculateCompletionRate(logs, days, today) == 100
    ensures (forall d :: multiset(Dates(logs))[d] <= 1) ==>
      CalculateCompletionRate(logs, days, today) <= 100
  {
    var ds := Dates(logs);
    var start := today - (days - 1);
    CountInRangeByDay(logs, start, today);
    var n := GetCompletionCountInRange(logs, start, today);
    if forall d :: today - days < d <= today ==> d !in ds {
      forall d | start <= d <= today
        ensures multiset(ds)[d] == 0
      {
        assert d !in ds;
      }
      DaySumBounds(ds, start, today, 0);
    }
    if forall d :: today - days < d <= today ==> multiset(ds)[d] == 1 {
      DaySumBounds(ds, start, today, 1);
    }
    if forall d :: multiset(ds)[d] <= 1 {
      DaySumAtMost(ds, start, today);
    }
    RoundPercent(n, days);
  }

  /** A day sum over days that each hold exactly `c` logs. */
  lemma {:induction false} DaySumBounds(ds: seq<Day>, start: Day, end: Day, c: nat)
    requires start <= end + 1
    requires forall d :: start <= d <= end ==> multiset(ds)[d] == c
    ensures DaySum(ds, start, end) == c * (end - start + 1)
    decreases end - start
  {
    if start <= end {
      DaySumBounds(ds, start, end - 1, c);
    }
  }

  /** A day sum over days that each hold at most one log. */
  lemma {:induction false} DaySumAtMost(ds: seq<Day>, start: Day, end: Day)
    requires start <= end + 1
    requires forall d :: multiset(ds)[d] <= 1
    ensures DaySum(ds, start, end) <= end - start + 1
    decreases end - start
  {
    if start <= end {
      DaySumAtMost(ds, start, end - 1);
    }
  }

  // ---------------------------------------------------------------------
  // Weekdays

  /** The number of logs dated on weekday `w` (0 = Sunday). */
  function WeekdayCount(logs: seq<HabitLog>, w: int): nat
  {
    if |logs| == 0 then 0
    else
      WeekdayCount(logs[..|logs| - 1], w)
        + (if DayOfWeek(logs[|logs| - 1].completedDate) == w then 1 else 0)
  }

  /** The seven weekday buckets, Sunday first. */
  function Histogram(logs: seq<HabitLog>): (h: seq<nat>)
    ensures |h| == 7
  {
    seq(7, w requires 0 <= w < 7 => WeekdayCount(logs, w))
  }

  /** Every log falls in exactly one bucket, so the buckets add up to the
      number of logs. */
  lemma {:induction false} HistogramSum(logs: seq<HabitLog>)
    ensures Sum(Histogram(logs)) == |logs|
  {
    if |logs| == 0 {
      SumZero(Histogram(logs));
    } else {
      var prefix := logs[..|logs| - 1];
      var w := DayOfWeek(logs[|logs| - 1].completedDate);
      HistogramSum(prefix);
      assert Histogram(logs) == Histogram(prefix)[w := Histogram(prefix)[w] + 1];
      SumIncrement(Histogram(prefix), w);
    }
  }

  /** The `dayCounts` loop shared by `calculateBestDayOfWeek` and
      `calculateCompletionsByDayOfWeek`: a seven-slot array, one increment
      per log. */
  method TallyWeekdays(logs: seq<HabitLog>) returns (counts: seq<nat>)
    ensures counts == Histogram(logs)
  {
    var dayCounts := new nat[7](_ => 0);
    for i := 0 to |logs|
      invariant forall w :: 0 <= w < 7 ==> dayCounts[w] == WeekdayCount(logs[..i], w)
    {
      assert logs[..i + 1][..i] == logs[..i];
      var dayIndex := DayOfWeek(logs[i].completedDate);
      dayCounts[dayIndex] := dayCounts[dayIndex] + 1;
    }
    assert logs[..|logs|] == logs;
    counts := dayCounts[..];
  }

  /** `Math.max(...s)`. */
  function MaxOf(s: seq<nat>): (m: nat)
    requires |s| > 0
    ensures m in s
    ensures forall i :: 0 <= i < |s| ==> s[i] <= m
  {
    if |s| == 1 then s[0]
    else
      var rest := MaxOf(s[..|s| - 1]);
      if rest < s[|s| - 1] then s[|s| - 1] else rest
  }

  /** `s.indexOf(x)` for an `x` that occurs: its first position. */
  function IndexOf(s: seq<nat>, x: nat): (i: nat)
    requires x in s
    ensures i < |s| && s[i] == x
    ensures forall j :: 0 <= j < i ==> s[j] != x
  {
    if s[0] == x then 0 else 1 + IndexOf(s[1..], x)
  }

  datatype BestDay = BestDay(dayIndex: nat, dayName: string, count: nat)

  /** `calculateBestDayOfWeek`: the fullest weekday bucket, the earliest in
      the week on ties; Sunday with count 0 when there are no logs. */
  method CalculateBestDayOfWeek(logs: seq<HabitLog>) returns (best: BestDay)
    ensures best.dayIndex < 7 && best.dayName == DayNames[best.dayIndex]
    ensures best.count == Histogram(logs)[best.dayIndex]
    ensures forall w :: 0 <= w < 7 ==> Histogram(logs)[w] <= best.count
    ensures forall w :: 0 <= w < best.dayIndex ==> Histogram(logs)[w] < best.count
    ensures |logs| == 0 ==> best.dayIndex == 0 && best.count == 0
  {
    var dayCounts := TallyWeekdays(logs);
    var maxCount := MaxOf(dayCounts);
    var bestDayIndex := IndexOf(dayCounts, maxCount);
    best := BestDay(bestDayIndex, DayNames[bestDayIndex], maxCount);
    if |logs| == 0 {
      assert dayCounts[0] == 0;
      HistogramSum(logs);
      assert forall w :: 0 <= w < 7 ==> dayCounts[w] == 0;
    }
  }

  datatype DayCount = DayCount(day: string, count: nat)

  /** `calculateCompletionsByDayOfWeek`: seven entries, Sunday to Saturday,
      each with its bucket of the same histogram. */
  method CalculateCompletionsByDayOfWeek(logs: seq<HabitLog>) returns (r: seq<DayCount>)
    ensures |r| == 7
    ensures forall w :: 0 <= w < 7 ==> r[w] == DayCount(DayNames[w], Histogram(logs)[w])
  {
    var dayCounts := TallyWeekdays(logs);
    r := seq(7, w requires 0 <= w < 7 => DayCount(DayNames[w], dayCounts[w]));
  }

  /** `calculateTotalCompletions`: the number of logs, which is also the sum
      of the weekday buckets. */
  function CalculateTotalCompletions(logs: seq<HabitLog>): (r: nat)
    ensures r == Sum(Histogram(logs))
  {
    HistogramSum(logs);
    |logs|
  }

  // ---------------------------------------------------------------------
  // Completions per day

  /** One entry of `getCompletionsByDate`. As with a log's `completedDate`,
      `date` is the day its `YYYY-MM-DD` string names (FormatDate gives the
      string back). */
  datatype PeriodCount = PeriodCount(date: Day, count: nat)

  /** `completionsMap.get(d) || 0`. */
  function Lookup(m: map<Day, nat>, d: Day): nat
  {
    if d in m then m[d] else 0
  }

  /** The `n` days from `start`, each with its number of logs. */
  function Series(logs: seq<HabitLog>, start: Day, n: nat): (r: seq<PeriodCount>)
    ensures |r| == n
  {
    if n == 0 then []
    else
      Series(logs, start, n - 1)
        + [PeriodCount(start + n - 1, multiset(Dates(logs))[start + n - 1])]
  }

  /** `completionsPerDay`: the counts of a series. */
  function CountsOf(r: seq<PeriodCount>): (cs: seq<nat>)
    ensures |cs| == |r|
  {
    seq(|r|, i requires 0 <= i < |r| => r[i].count)
  }

  /** `getCompletionsByDate`: counts the logs of each day from start to end
      in a map, then emits one entry per calendar day, ascending. */
  method GetCompletionsByDate(logs: seq<HabitLog>, start: Day, end: Day) returns (result: seq<PeriodCount>)
    requires InRange(start) && InRange(end)
    ensures result == Series(logs, start, if end < start then 0 else end - start + 1)
  {
    var completionsMap := CountByDate(logs, start, end);
    result := [];
    var current := start;
    while current <= end
      invariant start <= current && (current <= end + 1 || current == start)
      invariant result == Series(logs, start, current - start)
    {
      result := result + [PeriodCount(current, Lookup(completionsMap, current))];
      current := current + 1;
    }
  }

  /** The `logs.forEach` filling `completionsMap` with the logs dated from
      start to end. */
  method CountByDate(logs: seq<HabitLog>, start: Day, end: Day) returns (completionsMap: map<Day, nat>)
    ensures forall d :: Lookup(completionsMap, d) == if start <= d <= end then multiset(Dates(logs))[d] else 0
  {
    completionsMap := map[];
    for i := 0 to |logs|
      invariant forall d :: Lookup(completionsMap, d) == if start <= d <= end then multiset(Dates(logs[..i]))[d] else 0
    {
      var date := logs[i].completedDate;
      assert Dates(logs[..i + 1]) == Dates(logs[..i]) + [date];
      if start <= date <= end {
        var count := Lookup(completionsMap, date);
        completionsMap := completionsMap[date := count + 1];
      }
    }
    assert logs[..|logs|] == logs;
  }

  /** Entry `i` of the series is day `start + i` with its number of logs. */
  lemma {:induction false} SeriesAt(logs: seq<HabitLog>, start: Day, n: nat, i: nat)
    requires i < n
    ensures Series(logs, start, n)[i] == PeriodCount(start + i, multiset(Dates(logs))[start + i])
  {
    if i < n - 1 {
      SeriesAt(logs, start, n - 1, i);
    }
  }

  /** The dates of the series ascend, and so do their strings. */
  lemma SeriesAscending(logs: seq<HabitLog>, start: Day, n: nat, i: nat, j: nat)
    requires MinDay <= start && start + n - 1 <= MaxDay && i < j < n
    ensures Series(logs, start, n)[i].date == start + i && Series(logs, start, n)[j].date == start + j
    ensures LexLess(FormatDate(Series(logs, start, n)[i].date), FormatDate(Series(logs, start, n)[j].date))
  {
    SeriesAt(logs, start, n, i);
    SeriesAt(logs, start, n, j);
    FormatOrder(Series(logs, start, n)[i].date, Series(logs, start, n)[j].date);
  }

  /** The counts of the series add up to the range count of
      `getCompletionCountInRange` over the same days. */
  lemma {:induction false} SeriesSum(logs: seq<HabitLog>, start: Day, n: nat)
    ensures Sum(CountsOf(Series(logs, start, n))) == GetCompletionCountInRange(logs, start, start + n - 1)
  {
    CountInRangeByDay(logs, start, start + n - 1);
    if n > 0 {
      SeriesSum(logs, start, n - 1);
      CountInRangeByDay(logs, start, start + n - 2);
      var r := Series(logs, start, n);
      assert CountsOf(r)[..n - 1] == CountsOf(Series(logs, start, n - 1));
    } else {
      assert CountsOf(Series(logs, start, n)) == [];
    }
  }

  // ---------------------------------------------------------------------
  // Active days

  /** The window test of the source's `filter`. */
  function InWindow(start: Day, end: Day): Day -> bool
  {
    d => start <= d <= end
  }

  /** The distinct logged days from `start` to `end`. */
  function LoggedDays(logs: seq<HabitLog>, start: Day, end: Day): set<Day>
  {
    set d | d in Dates(logs) && start <= d <= end
  }

  /** `calculateActiveDays`: the size of the set of window dates; at most
      the window length and at most the number of window logs. A `days` of
      0 or less starts the window after today, so nothing is counted. */
  function CalculateActiveDays(logs: seq<HabitLog>, days: int, today: Day): (r: nat)
    ensures r == |LoggedDays(logs, today - (days - 1), today)|
    ensures days >= 0 ==> r <= days
    ensures days <= 0 ==> r == 0
    ensures r <= GetCompletionCountInRange(logs, today - (days - 1), today)
  {
    var start := today - (days - 1);
    var window := Filter(Dates(logs), InWindow(start, today));
    var uniqueDates := set d | d in window;
    ActiveDaysBounds(logs, start, today);
    |uniqueDates|
  }

  /** The distinct window dates are the logged days; there are no more of
      them than days in the window or logs in the window. */
  lemma ActiveDaysBounds(logs: seq<HabitLog>, start: Day, end: Day)
    ensures (set d | d in Filter(Dates(logs), InWindow(start, end))) == LoggedDays(logs, start, end)
    ensures |LoggedDays(logs, start, end)| <= if end < start then 0 else end - start + 1
    ensures |LoggedDays(logs, start, end)| <= GetCompletionCountInRange(logs, start, end)
  {
    var window := Filter(Dates(logs), InWindow(start, end));
    WindowDays(logs, start, end);
    SubsetCard(LoggedDays(logs, start, end), Interval(start, end));
    SeqSetCard(window);
    WindowLength(logs, start, end);
  }

  /** The distinct dates of the window filter are the logged days, all inside the window. */
  lemma WindowDays(logs: seq<HabitLog>, start: Day, end: Day)
    ensures (set d | d in Filter(Dates(logs), InWindow(start, end))) == LoggedDays(logs, start, end)
    ensures LoggedDays(logs, start, end) <= Interval(start, end)
  {
    var w := Filter(Dates(logs), InWindow(start, end));
    forall d | d in w
      ensures d in Dates(logs) && start <= d <= end
    {
      assert InWindow(start, end)(d);
    }
    forall d | d in Dates(logs) && start <= d <= end
      ensures d in w
    {
      assert InWindow(start, end)(d);
    }
  }

  /** Filtering the dates to the window keeps as many as the range count. */
  lemma {:induction false} WindowLength(logs: seq<HabitLog>, start: Day, end: Day)
    ensures |Filter(Dates(logs), InWindow(start, end))| == GetCompletionCountInRange(logs, start, end)
  {
    if |logs| > 0 {
      var n := |logs| - 1;
      WindowLength(logs[..n], start, end);
      assert Dates(logs) == Dates(logs[..n]) + [logs[n].completedDate];
      FilterSnoc(Dates(logs[..n]), logs[n].completedDate, InWindow(start, end));
    }
  }

  // ---------------------------------------------------------------------
  // Consistency score

  /** The logs per day for the `n` days from `start`. */
  function WindowCounts(logs: seq<HabitLog>, start: Day, n: nat): (cs: seq<nat>)
    ensures |cs| == n
  {
    seq(n, k requires 0 <= k < n => multiset(Dates(logs))[start + k])
  }

  /** `completionsPerDay.reduce((sum, count) => sum + Math.pow(count - mean, 2), 0)`. */
  function SquaredDeviations(cs: seq<nat>, mean: real): real
  {
    if |cs| == 0 then 0.0
    else
      var dev := cs[|cs| - 1] as real - mean;
      SquaredDeviations(cs[..|cs| - 1], mean) + dev * dev
  }

  /** The mean number of logs per day of a `days`-day window. */
  function Mean(cs: seq<nat>, days: nat): real
    requires days >= 1
  {
    Sum(cs) as real / days as real
  }

  /** The population variance of the per-day counts. */
  function Variance(cs: seq<nat>, days: nat): real
    requires days >= 1
  {
    SquaredDeviations(cs, Mean(cs, days)) / days as real
  }

  /** `Math.min` on reals. */
  function MinReal(a: real, b: real): real
  {
    if a <= b then a else b
  }

  /** `Math.round` of a non-negative number: the nearest integer, halves up. */
  function RoundReal(x: real): (r: nat)
    requires x >= 0.0
    ensures r as real <= x + 0.5 < r as real + 1.0
  {
    (x + 0.5).Floor
  }

  /** The score of `calculateConsistencyScore` for the per-day counts `cs`
      of a `days`-day window: 0 when the window is empty, otherwise
      100 * (1 - min(variance / mean^2, 1)), rounded, and 100 when the
      variance is 0. */
  function ConsistencyScore(cs: seq<nat>, days: nat): (r: nat)
    requires days >= 1
    ensures r <= 100
    ensures Sum(cs) == 0 ==> r == 0
  {
    var mean := Mean(cs, days);
    if mean == 0.0 then 0
    else
      var variance := Variance(cs, days);
      var maxVariance := mean * mean;
      var consistencyRatio :=
        if variance > 0.0 then 1.0 - MinReal(variance / maxVariance, 1.0) else 1.0;
      assert 0.0 <= consistencyRatio <= 1.0 by {
        if variance > 0.0 {
          assert variance / maxVariance > 0.0;
        }
      }
      RoundReal(consistencyRatio * 100.0)
  }

  /** `calculateConsistencyScore`: 0 without logs; otherwise the score of
      the per-day counts of the `days`-day window ending today. */
  method CalculateConsistencyScore(logs: seq<HabitLog>, days: int, today: Day) returns (score: nat)
    requires days >= 1
    requires InRange(today - (days - 1)) && InRange(today)
    ensures |logs| == 0 ==> score == 0
    ensures |logs| > 0 ==> score == ConsistencyScore(WindowCounts(logs, today - (days - 1), days), days)
    ensures score <= 100
  {
    if |logs| == 0 {
      return 0;
    }
    var completionsPerDay := DailyCounts(logs, today - (days - 1), today);
    score := ConsistencyScore(completionsPerDay, days);
  }

  /** `getCompletionsByDate(...).map(d => d.count)`: the per-day counts of the window. */
  method DailyCounts(logs: seq<HabitLog>, start: Day, end: Day) returns (cs: seq<nat>)
    requires start <= end && InRange(start) && InRange(end)
    ensures cs == WindowCounts(logs, start, end - start + 1)
  {
    var completionsByDate := GetCompletionsByDate(logs, start, end);
    cs := CountsOf(completionsByDate);
    SeriesCounts(logs, start, end - start + 1);
  }

  /** The counts of the series are the window counts. */
  lemma SeriesCounts(logs: seq<HabitLog>, start: Day, n: nat)
    ensures CountsOf(Series(logs, start, n)) == WindowCounts(logs, start, n)
  {
    forall k | 0 <= k < n
      ensures CountsOf(Series(logs, start, n))[k] == WindowCounts(logs, start, n)[k]
    {
      SeriesAt(logs, start, n, k);
    }
  }

  /** Every day of the window holding the same non-zero number of logs
      leaves no variance, which scores 100. */
  lemma {:induction false} EvenWindowScores100(cs: seq<nat>, days: nat, c: nat)
    requires days >= 1 && |cs| == days && c > 0
    requires forall i :: 0 <= i < |cs| ==> cs[i] == c
    ensures ConsistencyScore(cs, days) == 100
  {
    SumConstant(cs, c);
    var mean := Sum(cs) as real / days as real;
    assert Sum(cs) as real == (c as real) * (days as real);
    assert mean == c as real;
    DeviationsVanish(cs, c);
  }

  lemma {:induction false} SumConstant(cs: seq<nat>, c: nat)
    requires forall i :: 0 <= i < |cs| ==> cs[i] == c
    ensures Sum(cs) == c * |cs|
  {
    if |cs| > 0 {
      SumConstant(cs[..|cs| - 1], c);
    }
  }

  lemma {:induction false} DeviationsVanish(cs: seq<nat>, c: nat)
    requires forall i :: 0 <= i < |cs| ==> cs[i] == c
    ensures SquaredDeviations(cs, c as real) == 0.0
  {
    if |cs| > 0 {
      DeviationsVanish(cs[..|cs| - 1], c);
    }
  }

  // ---------------------------------------------------------------------
  // Overall statistics

  datatype HabitRate = HabitRate(name: string, completionRate: nat)

  datatype OverallStats = OverallStats(
    totalHabits: nat,
    activeHabits: nat,
    totalCompletions: nat,
    avgCompletionRate: nat,
    bestHabit: Option<HabitRate>)

  /** `log => log.habitId === id`. */
  function BelongsTo(id: string): HabitLog -> bool
  {
    (log: HabitLog) => log.habitId == id
  }

  /** The logs of the habit with id `id`. */
  function LogsOf(allLogs: seq<HabitLog>, id: string): seq<HabitLog>
  {
    Filter(allLogs, BelongsTo(id))
  }

  /** The completion rate of one habit over its own logs. */
  function RateOf(h: Habit, allLogs: seq<HabitLog>, days: int, today: Day): nat
    requires days >= 1
  {
    CalculateCompletionRate(LogsOf(allLogs, h.id), days, today)
  }

  /** `activeHabits.map(...)`: name and rate of each active habit, in order. */
  function HabitRates(active: seq<Habit>, allLogs: seq<HabitLog>, days: int, today: Day): (rs: seq<HabitRate>)
    requires days >= 1
    ensures |rs| == |active|
    ensures forall i :: 0 <= i < |active| ==> rs[i] == HabitRate(active[i].name, RateOf(active[i], allLogs, days, today))
  {
    seq(|active|, i requires 0 <= i < |active| => HabitRate(active[i].name, RateOf(active[i], allLogs, days, today)))
  }

  /** `habitStats.reduce((sum, stat) => sum + stat.completionRate, 0)`. */
  function RateSum(rs: seq<HabitRate>): nat
  {
    if |rs| == 0 then 0 else RateSum(rs[..|rs| - 1]) + rs[|rs| - 1].completionRate
  }

  /** The position the `reduce` without initial value settles on: it starts
      at the first entry and moves only to a strictly higher rate, so it
      finds the first entry of maximal rate. */
  function BestIndex(rs: seq<HabitRate>): (k: nat)
    requires |rs| > 0
    ensures k < |rs|
    ensures forall i :: 0 <= i < |rs| ==> rs[i].completionRate <= rs[k].completionRate
    ensures forall i :: 0 <= i < k ==> rs[i].completionRate < rs[k].completionRate
  {
    if |rs| == 1 then 0
    else
      var b := BestIndex(rs[..|rs| - 1]);
      if rs[|rs| - 1].completionRate > rs[b].completionRate then |rs| - 1 else b
  }

  /** `calculateOverallStats`: counts of all habits, active habits and all
      logs; the mean of the active habits' rates, rounded to the nearest
      integer; and the first active habit of highest rate, absent exactly
      when no habit is active. */
  function CalculateOverallStats(habits: seq<Habit>, allLogs: seq<HabitLog>, days: int, today: Day): (s: OverallStats)
    requires days >= 1
    ensures s.totalHabits == |habits| && s.totalCompletions == |allLogs|
    ensures s.activeHabits == Count(habits, IsActive)
    ensures var rates := HabitRates(Filter(habits, IsActive), allLogs, days, today);
      s.activeHabits > 0 ==> RoundsTo(s.avgCompletionRate, RateSum(rates), s.activeHabits)
    ensures s.activeHabits == 0 ==> s.avgCompletionRate == 0
    ensures s.bestHabit.None? <==> s.activeHabits == 0
    ensures var active := Filter(habits, IsActive);
      s.bestHabit.Some? ==>
        exists k :: 0 <= k < |active| && s.bestHabit.value == HabitRate(active[k].name, RateOf(active[k], allLogs, days, today))
          && (forall i :: 0 <= i < k ==> RateOf(active[i], allLogs, days, today) < s.bestHabit.value.completionRate)
          && (forall i :: 0 <= i < |active| ==> RateOf(active[i], allLogs, days, today) <= s.bestHabit.value.completionRate)
  {
    var activeHabits := Filter(habits, IsActive);
    var habitStats := HabitRates(activeHabits, allLogs, days, today);
    var totalCompletionRate := RateSum(habitStats);
    var avgCompletionRate := if |activeHabits| > 0 then RoundDiv(totalCompletionRate, |activeHabits|) else 0;
    var bestHabit := if |habitStats| > 0 then Some(habitStats[BestIndex(habitStats)]) else None;
    var s := OverallStats(|habits|, |activeHabits|, |allLogs|, avgCompletionRate, bestHabit);
    if |habitStats| > 0 then
      BestOfRates(activeHabits, allLogs, days, today);
      var k := BestIndex(habitStats);
      assert s.bestHabit.value == habitStats[k];
      s
    else
      s
  }

  /** The entry the `reduce` picks is the first active habit of highest rate. */
  lemma BestOfRates(active: seq<Habit>, allLogs: seq<HabitLog>, days: int, today: Day)
    requires days >= 1 && |active| > 0
    ensures var rs := HabitRates(active, allLogs, days, today);
      var k := BestIndex(rs);
      && rs[k] == HabitRate(active[k].name, RateOf(active[k], allLogs, days, today))
      && (forall i :: 0 <= i < k ==> RateOf(active[i], allLogs, days, today) < rs[k].completionRate)
      && (forall i :: 0 <= i < |active| ==> RateOf(active[i], allLogs, days, today) <= rs[k].completionRate)
  {
    var rs := HabitRates(active, allLogs, days, today);
    var k := BestIndex(rs);
    forall i | 0 <= i < |active|
      ensures RateOf(active[i], allLogs, days, today) <= rs[k].completionRate
      ensures i < k ==> RateOf(active[i], allLogs, days, today) < rs[k].completionRate
    {
      assert rs[i].completionRate == RateOf(active[i], allLogs, days, today);
    }
  }

  /** The rounded mean never exceeds the best rate. */
  lemma AverageAtMostBest(habits: seq<Habit>, allLogs: seq<HabitLog>, days: int, today: Day)
    requires days >= 1
    ensures var s := CalculateOverallStats(habits, allLogs, days, today);
      s.bestHabit.Some? ==> s.avgCompletionRate <= s.bestHabit.value.completionRate
  {
    var s := CalculateOverallStats(habits, allLogs, days, today);
    var active := Filter(habits, IsActive);
    var rates := HabitRates(active, allLogs, days, today);
    if s.bestHabit.Some? {
      var m := s.bestHabit.value.completionRate;
      assert forall i :: 0 <= i < |rates| ==> rates[i].completionRate == RateOf(active[i], allLogs, days, today);
      RateSumAtMost(rates, m);
      MeanAtMostMax(RateSum(rates), s.activeHabits, s.avgCompletionRate, m);
    }
  }

  /** A rounded mean of values at most `m` is at most `m`. */
  lemma MeanAtMostMax(sum: nat, n: nat, avg: nat, m: nat)
    requires n >= 1 && sum <= m * n
    requires RoundsTo(avg, sum, n)
    ensures avg <= m
  {
    assert 2 * sum + n <= n * (2 * m + 1);
    assert n * (2 * m + 1) < n * (2 * m + 2);
    assert n * (2 * avg) < n * (2 * m + 2);
    CancelLt(n, 2 * avg, 2 * m + 2);
  }

  /** A sum of rates each at most `m`. */
  lemma {:induction false} RateSumAtMost(rs: seq<HabitRate>, m: nat)
    requires forall i :: 0 <= i < |rs| ==> rs[i].completionRate <= m
    ensures RateSum(rs) <= m * |rs|
  {
    if |rs| > 0 {
      RateSumAtMost(rs[..|rs| - 1], m);
    }
  }

  // ---------------------------------------------------------------------
  // Completions by category

  datatype CategoryStats = CategoryStats(category: Category, count: nat, percentage: nat)

  /** The distinct categories of `hs` in order of first appearance: the key
      order of `categoryMap`, since setting an existing key of a JavaScript
      `Map` keeps its place. */
  function Categories(hs: seq<Habit>): (cs: seq<Category>)
    ensures forall c :: c in cs <==> exists i :: 0 <= i < |hs| && hs[i].category == c
    ensures forall i, j :: 0 <= i < j < |cs| ==> cs[i] != cs[j]
  {
    if |hs| == 0 then []
    else
      var prefix := Categories(hs[..|hs| - 1]);
      var c := hs[|hs| - 1].category;
      assert forall i :: 0 <= i < |hs| - 1 ==> hs[..|hs| - 1][i] == hs[i];
      if c in prefix then prefix else prefix + [c]
  }

  /** The position of the first habit of category `c`, or `|hs|` when there is none. */
  function FirstAppearance(hs: seq<Habit>, c: Category): (r: nat)
    ensures r <= |hs|
    ensures forall j :: 0 <= j < r ==> hs[j].category != c
    ensures r < |hs| ==> hs[r].category == c
  {
    if |hs| == 0 then 0
    else
      var p := FirstAppearance(hs[..|hs| - 1], c);
      if p < |hs| - 1 then p
      else if hs[|hs| - 1].category == c then |hs| - 1
      else |hs|
  }

  /** The logs counted for category `c`: for each habit of that category,
      the logs carrying its id. */
  function CategoryCount(hs: seq<Habit>, allLogs: seq<HabitLog>, c: Category): (r: nat)
    ensures c !in Categories(hs) ==> r == 0
  {
    if |hs| == 0 then 0
    else
      var h := hs[|hs| - 1];
      CategoryCount(hs[..|hs| - 1], allLogs, c) + (if h.category == c then |LogsOf(allLogs, h.id)| else 0)
  }

  /** `total > 0 ? Math.round((count / total) * 100) : 0`. */
  function Percentage(count: nat, total: nat): (r: nat)
    ensures total == 0 ==> r == 0
    ensures total > 0 ==> RoundsTo(r, 100 * count, total)
  {
    if total > 0 then RoundDiv(100 * count, total) else 0
  }

  /** A category's share of all logs is at most 100% when its logs are among them. */
  lemma PercentageAtMost100(count: nat, total: nat)
    requires count <= total
    ensures Percentage(count, total) <= 100
    ensures count == total > 0 ==> Percentage(count, total) == 100
  {
    if total > 0 {
      RoundPercent(count, total);
    }
  }

  /** The entry of category `c`. */
  function CategoryEntry(hs: seq<Habit>, allLogs: seq<HabitLog>, c: Category): CategoryStats
  {
    var count := CategoryCount(hs, allLogs, c);
    CategoryStats(c, count, Percentage(count, |allLogs|))
  }

  /** `b.count - a.count` as a stable order: higher counts first, equal
      counts in first-appearance order of their categories. */
  predicate Precedes(hs: seq<Habit>, a: CategoryStats, b: CategoryStats)
  {
    a.count > b.count
    || (a.count == b.count && FirstAppearance(hs, a.category) < FirstAppearance(hs, b.category))
  }

  predicate RankedBy(hs: seq<Habit>, r: seq<CategoryStats>)
  {
    forall i, j :: 0 <= i < j < |r| ==> Precedes(hs, r[i], r[j])
  }

  /** Inserting `x` after every entry of a count at least its own. */
  function InsertByCount(x: CategoryStats, s: seq<CategoryStats>): (r: seq<CategoryStats>)
    ensures multiset(r) == multiset(s) + multiset{x}
  {
    if |s| == 0 then [x]
    else if s[0].count >= x.count then
      assert s == [s[0]] + s[1..];
      [s[0]] + InsertByCount(x, s[1..])
    else [x] + s
  }

  /** `result.sort((a, b) => b.count - a.count)` with the stable sort of
      ECMAScript 2019: insertion of each entry in turn. */
  function SortByCount(s: seq<CategoryStats>): (r: seq<CategoryStats>)
    ensures multiset(r) == multiset(s)
  {
    if |s| == 0 then []
    else
      assert s == s[..|s| - 1] + [s[|s| - 1]];
      InsertByCount(s[|s| - 1], SortByCount(s[..|s| - 1]))
  }

  /** Inserting an entry whose category appears after every other keeps the ranking. */
  lemma {:induction false} InsertRanked(hs: seq<Habit>, x: CategoryStats, t: seq<CategoryStats>)
    requires RankedBy(hs, t)
    requires forall y :: y in t ==> FirstAppearance(hs, y.category) < FirstAppearance(hs, x.category)
    ensures RankedBy(hs, InsertByCount(x, t))
  {
    if |t| > 0 && t[0].count >= x.count {
      var rest := t[1..];
      assert forall y :: y in rest ==> y in t;
      InsertRanked(hs, x, rest);
      HeadPrecedes(hs, x, t);
      ConsRanked(hs, t[0], InsertByCount(x, rest));
    } else if |t| > 0 {
      forall y | y in t
        ensures Precedes(hs, x, y)
      {
        var j :| 0 <= j < |t| && t[j] == y;
        if j > 0 {
          assert Precedes(hs, t[0], t[j]);
        }
      }
      ConsRanked(hs, x, t);
    }
  }

  /** The head of a ranking precedes `x` and every later entry. */
  lemma HeadPrecedes(hs: seq<Habit>, x: CategoryStats, t: seq<CategoryStats>)
    requires RankedBy(hs, t) && |t| > 0 && t[0].count >= x.count
    requires forall y :: y in t ==> FirstAppearance(hs, y.category) < FirstAppearance(hs, x.category)
    ensures forall y :: y in InsertByCount(x, t[1..]) ==> Precedes(hs, t[0], y)
  {
    var rest := t[1..];
    forall y | y in InsertByCount(x, rest)
      ensures Precedes(hs, t[0], y)
    {
      assert y in multiset(InsertByCount(x, rest));
      if y != x {
        assert y in multiset(rest);
        var j :| 0 <= j < |rest| && rest[j] == y;
        assert t[j + 1] == y;
      }
    }
  }

  /** An entry that precedes every entry of a ranking heads a ranking. */
  lemma ConsRanked(hs: seq<Habit>, a: CategoryStats, t: seq<CategoryStats>)
    requires RankedBy(hs, t)
    requires forall y :: y in t ==> Precedes(hs, a, y)
    ensures RankedBy(hs, [a] + t)
  {
    var r := [a] + t;
    forall i, j | 0 <= i < j < |r|
      ensures Precedes(hs, r[i], r[j])
    {
      if i == 0 {
        assert r[j] == t[j - 1];
      } else {
        assert r[i] == t[i - 1] && r[j] == t[j - 1];
      }
    }
  }

  /** Sorting entries listed in first-appearance order ranks them. */
  lemma {:induction false} SortRanked(hs: seq<Habit>, s: seq<CategoryStats>)
    requires forall i, j :: 0 <= i < j < |s| ==> FirstAppearance(hs, s[i].category) < FirstAppearance(hs, s[j].category)
    ensures RankedBy(hs, SortByCount(s))
  {
    if |s| > 0 {
      var prefix := s[..|s| - 1];
      var x := s[|s| - 1];
      SortRanked(hs, prefix);
      var t := SortByCount(prefix);
      forall y | y in t
        ensures FirstAppearance(hs, y.category) < FirstAppearance(hs, x.category)
      {
        assert y in multiset(prefix);
        var i :| 0 <= i < |prefix| && prefix[i] == y;
        assert s[i] == y;
      }
      InsertRanked(hs, x, t);
    }
  }

  /** Habits listed later first appear later: the keys of `categoryMap`
      ascend in first appearance. */
  lemma {:induction false} CategoriesByFirstAppearance(hs: seq<Habit>)
    ensures forall i, j :: 0 <= i < j < |Categories(hs)| ==>
      FirstAppearance(hs, Categories(hs)[i]) < FirstAppearance(hs, Categories(hs)[j])
    ensures forall c :: c in Categories(hs) ==> FirstAppearance(hs, c) < |hs|
  {
    if |hs| > 0 {
      var prefix := hs[..|hs| - 1];
      CategoriesByFirstAppearance(prefix);
      var pcs := Categories(prefix);
      forall c | c in pcs
        ensures FirstAppearance(hs, c) == FirstAppearance(prefix, c)
      {
      }
      var c := hs[|hs| - 1].category;
      if c !in pcs {
        assert FirstAppearance(prefix, c) == |prefix|;
        assert FirstAppearance(hs, c) == |prefix|;
        var cs := Categories(hs);
        assert cs == pcs + [c];
        forall i, j | 0 <= i < j < |cs|
          ensures FirstAppearance(hs, cs[i]) < FirstAppearance(hs, cs[j])
        {
          assert cs[i] == pcs[i] && cs[i] in pcs;
          assert FirstAppearance(prefix, pcs[i]) < |prefix|;
          if j < |pcs| {
            assert cs[j] == pcs[j] && cs[j] in pcs;
            assert FirstAppearance(prefix, pcs[i]) < FirstAppearance(prefix, pcs[j]);
          } else {
            assert cs[j] == c;
          }
        }
      }
    }
  }

  /** The per-category tally of `categoryMap` after the `habits.forEach`:
      its keys in insertion order and the count stored under each. */
  method TallyCategories(habits: seq<Habit>, allLogs: seq<HabitLog>)
    returns (keys: seq<Category>, categoryMap: map<Category, nat>)
    ensures keys == Categories(habits)
    ensures forall c :: c in categoryMap <==> c in keys
    ensures forall c :: c in categoryMap ==> categoryMap[c] == CategoryCount(habits, allLogs, c)
  {
    keys := [];
    categoryMap := map[];
    for i := 0 to |habits|
      invariant keys == Categories(habits[..i])
      invariant forall c :: c in categoryMap <==> c in keys
      invariant forall c :: c in categoryMap ==> categoryMap[c] == CategoryCount(habits[..i], allLogs, c)
    {
      var habit := habits[i];
      assert habits[..i + 1][..i] == habits[..i];
      var habitLogs := Filter(allLogs, BelongsTo(habit.id));
      var currentCount := if habit.category in categoryMap then categoryMap[habit.category] else 0;
      if habit.category !in categoryMap {
        keys := keys + [habit.category];
      }
      CategoryCountStep(habits, allLogs, i);
      categoryMap := categoryMap[habit.category := currentCount + |habitLogs|];
    }
    assert habits[..|habits|] == habits;
  }

  /** One more habit adds its logs to its own category only. */
  lemma CategoryCountStep(habits: seq<Habit>, allLogs: seq<HabitLog>, i: nat)
    requires i < |habits|
    ensures forall c :: (CategoryCount(habits[..i + 1], allLogs, c)
      == CategoryCount(habits[..i], allLogs, c)
        + (if habits[i].category == c then |Filter(allLogs, BelongsTo(habits[i].id))| else 0))
  {
    assert habits[..i + 1][..i] == habits[..i];
  }

  /** `calculateCompletionsByCategory`: one entry per distinct category of
      all habits, archived ones included, with its log count and its
      rounded share of all logs, ordered by count, highest first, equal
      counts in the order their categories first appear. */
  method CalculateCompletionsByCategory(habits: seq<Habit>, allLogs: seq<HabitLog>)
    returns (result: seq<CategoryStats>)
    ensures |result| == |Categories(habits)|
    ensures forall c :: c in Categories(habits) <==> exists i :: 0 <= i < |result| && result[i].category == c
    ensures forall i :: 0 <= i < |result| ==> result[i] == CategoryEntry(habits, allLogs, result[i].category)
    ensures RankedBy(habits, result)
  {
    var keys, categoryMap := TallyCategories(habits, allLogs);
    var entries := CategoryEntries(habits, allLogs, keys, categoryMap);
    SortRanked(habits, entries);
    result := SortByCount(entries);
    EntriesSorted(habits, allLogs, entries, result);
  }

  /** `Array.from(categoryMap.entries()).map(...)`: one entry per key, in key
      order, which is first-appearance order. */
  method CategoryEntries(habits: seq<Habit>, allLogs: seq<HabitLog>, keys: seq<Category>, categoryMap: map<Category, nat>)
    returns (entries: seq<CategoryStats>)
    requires keys == Categories(habits)
    requires forall c :: c in categoryMap <==> c in keys
    requires forall c :: c in categoryMap ==> categoryMap[c] == CategoryCount(habits, allLogs, c)
    ensures |entries| == |Categories(habits)|
    ensures forall j :: 0 <= j < |entries| ==> entries[j] == CategoryEntry(habits, allLogs, Categories(habits)[j])
    ensures forall i, j :: 0 <= i < j < |entries| ==>
      FirstAppearance(habits, entries[i].category) < FirstAppearance(habits, entries[j].category)
  {
    var total := |allLogs|;
    entries := [];
    for k := 0 to |keys|
      invariant |entries| == k
      invariant forall j :: 0 <= j < k ==> entries[j] == CategoryEntry(habits, allLogs, keys[j])
    {
      var count := categoryMap[keys[k]];
      entries := entries + [CategoryStats(keys[k], count, if total > 0 then RoundDiv(100 * count, total) else 0)];
    }
    CategoriesByFirstAppearance(habits);
  }

  /** What sorting keeps of the entries: the same entries, so the same categories and counts. */
  lemma EntriesSorted(habits: seq<Habit>, allLogs: seq<HabitLog>, entries: seq<CategoryStats>, result: seq<CategoryStats>)
    requires |entries| == |Categories(habits)|
    requires forall j :: 0 <= j < |entries| ==> entries[j] == CategoryEntry(habits, allLogs, Categories(habits)[j])
    requires multiset(result) == multiset(entries)
    ensures |result| == |Categories(habits)|
    ensures forall c :: c in Categories(habits) <==> exists i :: 0 <= i < |result| && result[i].category == c
    ensures forall i :: 0 <= i < |result| ==> result[i] == CategoryEntry(habits, allLogs, result[i].category)
  {
    var cs := Categories(habits);
    assert |result| == |multiset(result)| == |multiset(entries)| == |entries|;
    forall i | 0 <= i < |result|
      ensures result[i] == CategoryEntry(habits, allLogs, result[i].category)
      ensures result[i].category in cs
    {
      assert result[i] in multiset(entries);
      var j :| 0 <= j < |entries| && entries[j] == result[i];
    }
    forall c | c in cs
      ensures exists i :: 0 <= i < |result| && result[i].category == c
    {
      var j :| 0 <= j < |cs| && cs[j] == c;
      assert entries[j] in multiset(result);
      var i :| 0 <= i < |result| && result[i] == entries[j];
    }
  }
}
