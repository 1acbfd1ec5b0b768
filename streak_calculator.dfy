/** The streak helpers of src/utils/streakCalculator.ts. Completion dates
    are day numbers; DateUtils.FormatOrder shows that the source's string
    comparisons and `sort()` on `YYYY-MM-DD` strings agree with the order
    of these numbers. "Today" is a parameter. */
module Streaks {
  import opened Wrappers
  import opened CivilCalendar
  import opened Seqs
  import opened Types

  /** `logs.map(log => log.completedDate)`. */
  function Dates(logs: seq<HabitLog>): (ds: seq<Day>)
    ensures |ds| == |logs|
    ensures forall i :: 0 <= i < |logs| ==> ds[i] == logs[i].completedDate
  {
    seq(|logs|, i requires 0 <= i < |logs| => logs[i].completedDate)
  }

  lemma DatesPrefix(logs: seq<HabitLog>, n: nat)
    requires n <= |logs|
    ensures Dates(logs[..n]) == Dates(logs)[..n]
  {
  }

  /** `Math.max`. */
  function Max(a: int, b: int): int
  {
    if a < b then b else a
  }

  /** The earliest day of a non-empty list of days. */
  function MinOf(ds: seq<Day>): (m: Day)
    requires |ds| > 0
    ensures m in ds
    ensures forall x :: x in ds ==> m <= x
  {
    if |ds| == 1 then ds[0]
    else
      var rest := MinOf(ds[1..]);
      assert ds == [ds[0]] + ds[1..];
      if ds[0] <= rest then ds[0] else rest
  }

  // ---------------------------------------------------------------------
  // Current streak

  /** How many of the days `d`, `d - 1`, `d - 2`, ... occur in `ds` before
      the first one that does not. */
  function RunBack(ds: seq<Day>, d: Day): nat
    decreases if d in ds then d - MinOf(ds) + 1 else 0
  {
    if d in ds then 1 + RunBack(ds, d - 1) else 0
  }

  /** The current streak: one for today if today is logged, plus the
      unbroken run of logged days that ends yesterday. */
  function CurrentStreakOf(ds: seq<Day>, today: Day): nat
  {
    (if today in ds then 1 else 0) + RunBack(ds, today - 1)
  }

  /** `RunBack(ds, d)` is `k` exactly when the `k` days up to `d` are all
      logged and the day before them is not. */
  lemma {:induction false} RunBackMeaning(ds: seq<Day>, d: Day, k: nat)
    ensures RunBack(ds, d) == k <==>
      (forall y :: d - k < y <= d ==> y in ds) && d - k !in ds
    decreases if d in ds then d - MinOf(ds) + 1 else 0
  {
    if d in ds {
      if k > 0 {
        RunBackMeaning(ds, d - 1, k - 1);
      }
    }
  }

  /** `calculateCurrentStreak`: walks back from today, one day per step;
      today may be missing, and the walk stops at the first missing day
      after it. Duplicate logs make no difference because each day is only
      looked up in the set of dates. `iterations` counts the days looked at:
      the run before today plus two. */
  method CalculateCurrentStreak(logs: seq<HabitLog>, today: Day) returns (streak: nat, ghost iterations: nat)
    ensures streak == CurrentStreakOf(Dates(logs), today)
    ensures |logs| == 0 ==> streak == 0
    ensures |logs| > 0 ==> iterations == RunBack(Dates(logs), today - 1) + 2
    ensures iterations <= |PastDays(Dates(logs), today)| + 2
  {
    iterations := 0;
    if |logs| == 0 {
      return 0, iterations;
    }
    ghost var ds := Dates(logs);
    var completedDates := NewestFirst(logs);
    ghost var low := MinOf(ds);
    ghost var slack := if today - low > 0 then today - low else 0;
    streak := 0;
    var i := 0;
    while true
      invariant i == 0 ==> streak == 0
      invariant i >= 1 ==> streak + RunBack(ds, today - i) == CurrentStreakOf(ds, today)
      invariant i >= 2 ==> today - (i - 1) in ds
      invariant i >= 1 ==> i - 1 + RunBack(ds, today - i) == RunBack(ds, today - 1)
      decreases if i <= 1 then slack + 2 - i else today - i - low + 1
    {
      var checkDate := today - i;
      if checkDate in completedDates {
        streak := streak + 1;
      } else if i > 0 {
        break;
      }
      i := i + 1;
    }
    // The loop looked at days today, today - 1, ..., today - i.
    iterations := i + 1;
    CurrentStepsBound(ds, today);
  }

  /** The distinct logged days up to day `d`. */
  function PastDays(ds: seq<Day>, d: Day): set<Day>
  {
    set x | x in ds && x <= d
  }

  /** Later cut-off days keep at least as many distinct days. */
  lemma PastDaysGrow(ds: seq<Day>, d: Day, e: Day)
    requires d <= e
    ensures |PastDays(ds, d)| <= |PastDays(ds, e)|
  {
    SubsetCard(PastDays(ds, d), PastDays(ds, e));
  }

  /** The backward run from `d` counts distinct logged days no later than `d`. */
  lemma {:induction false} RunBackBound(ds: seq<Day>, d: Day)
    ensures RunBack(ds, d) <= |PastDays(ds, d)|
    decreases if d in ds then d - MinOf(ds) + 1 else 0
  {
    if d in ds {
      RunBackBound(ds, d - 1);
      assert PastDays(ds, d) == PastDays(ds, d - 1) + {d};
    }
  }

  /** The run before today is no longer than the distinct logged days up to
      today; with the exact count in `CalculateCurrentStreak`'s contract, its
      walk looks at no more than that number plus two days. */
  lemma CurrentStepsBound(ds: seq<Day>, today: Day)
    ensures RunBack(ds, today - 1) <= |PastDays(ds, today)|
  {
    RunBackBound(ds, today - 1);
    PastDaysGrow(ds, today - 1, today);
  }

  /** The current streak is at most the number of distinct logged days up to today. */
  lemma CurrentBound(ds: seq<Day>, today: Day)
    ensures CurrentStreakOf(ds, today) <= |PastDays(ds, today)|
  {
    RunBackBound(ds, today - 1);
    if today in ds {
      assert PastDays(ds, today) == PastDays(ds, today - 1) + {today};
    } else {
      assert PastDays(ds, today) == PastDays(ds, today - 1);
    }
  }

  /** `logs.map(log => log.completedDate).sort().reverse()`, which the walk
      only searches. */
  method NewestFirst(logs: seq<HabitLog>) returns (completedDates: seq<Day>)
    ensures forall x :: x in completedDates <==> x in Dates(logs)
  {
    completedDates := Reverse(Sort(Dates(logs)));
    SortMembers(Dates(logs));
    ReverseMembers(Sort(Dates(logs)));
  }

  // ---------------------------------------------------------------------
  // Longest streak

  /** The length of the run of one-day steps in `s` that ends at index `i`;
      a step of any other size, a repeated day included, starts a new run. */
  function RunEnd(s: seq<Day>, i: nat): (r: nat)
    requires i < |s|
    ensures 1 <= r <= i + 1
  {
    if i == 0 || s[i] - s[i - 1] != 1 then 1 else RunEnd(s, i - 1) + 1
  }

  /** The longest run among those ending in the first `n` entries. */
  function LongestUpTo(s: seq<Day>, n: nat): (r: nat)
    requires n <= |s|
    ensures n == 0 ==> r == 0
    ensures n > 0 ==> 1 <= r <= n
  {
    if n == 0 then 0 else Max(LongestUpTo(s, n - 1), RunEnd(s, n - 1))
  }

  /** The longest streak of a sorted date list: 0 for none, otherwise
      between 1 and the number of entries. */
  function LongestRun(s: seq<Day>): (r: nat)
    ensures |s| == 0 ==> r == 0
    ensures |s| > 0 ==> 1 <= r <= |s|
  {
    LongestUpTo(s, |s|)
  }

  /** Entries `i..j` go up by exactly one day at each step. */
  predicate IsRun(s: seq<Day>, i: int, j: int)
  {
    0 <= i <= j < |s| && forall k :: i <= k < j ==> s[k + 1] == s[k] + 1
  }

  lemma {:induction false} RunEndMaximal(s: seq<Day>, i: int, j: int)
    requires IsRun(s, i, j)
    ensures j - i + 1 <= RunEnd(s, j)
    decreases j - i
  {
    if i < j {
      assert IsRun(s, i, j - 1);
      RunEndMaximal(s, i, j - 1);
    }
  }

  lemma {:induction false} RunEndIsRun(s: seq<Day>, j: nat)
    requires j < |s|
    ensures IsRun(s, j - RunEnd(s, j) + 1, j)
  {
    if j > 0 && s[j] - s[j - 1] == 1 {
      RunEndIsRun(s, j - 1);
    }
  }

  lemma {:induction false} LongestUpToMaximal(s: seq<Day>, n: nat, j: nat)
    requires j < n <= |s|
    ensures RunEnd(s, j) <= LongestUpTo(s, n)
  {
    if j < n - 1 {
      LongestUpToMaximal(s, n - 1, j);
    }
  }

  lemma {:induction false} LongestUpToAttained(s: seq<Day>, n: nat)
    requires 0 < n <= |s|
    ensures exists j :: 0 <= j < n && RunEnd(s, j) == LongestUpTo(s, n)
  {
    if n > 1 && LongestUpTo(s, n - 1) > RunEnd(s, n - 1) {
      LongestUpToAttained(s, n - 1);
    } else {
      assert RunEnd(s, n - 1) == LongestUpTo(s, n);
    }
  }

  /** The longest streak is the length of the longest stretch of entries
      that go up by one day at each step: no stretch is longer, and one
      stretch has exactly that length. */
  lemma LongestIsLongestStretch(s: seq<Day>)
    ensures forall i, j :: IsRun(s, i, j) ==> j - i + 1 <= LongestRun(s)
    ensures |s| > 0 ==> exists i, j :: IsRun(s, i, j) && j - i + 1 == LongestRun(s)
  {
    forall i, j | IsRun(s, i, j)
      ensures j - i + 1 <= LongestRun(s)
    {
      RunEndMaximal(s, i, j);
      LongestUpToMaximal(s, |s|, j);
    }
    if |s| > 0 {
      LongestUpToAttained(s, |s|);
      var j :| 0 <= j < |s| && RunEnd(s, j) == LongestRun(s);
      RunEndIsRun(s, j);
    }
  }

  /** A repeated day inside a sorted list ends the run before it. */
  lemma RepeatRestartsRun(s: seq<Day>, i: nat)
    requires i + 1 < |s| && s[i + 1] == s[i]
    ensures RunEnd(s, i + 1) == 1
  {
  }

  /** `calculateLongestStreak`: sorts the dates (without removing repeats)
      and scans them, extending the run on a one-day step and otherwise
      recording it and starting over. */
  method CalculateLongestStreak(logs: seq<HabitLog>) returns (longest: nat)
    ensures longest == LongestRun(Sort(Dates(logs)))
    ensures |logs| == 0 <==> longest == 0
    ensures longest <= |logs|
  {
    if |logs| == 0 {
      return 0;
    }
    var completedDates := Sort(Dates(logs));
    assert |completedDates| == |multiset(completedDates)| == |multiset(Dates(logs))| == |logs|;
    longest := 0;
    var current := 0;
    var previous: Option<Day> := None;
    for k := 0 to |completedDates|
      invariant previous == if k == 0 then None else Some(completedDates[k - 1])
      invariant k == 0 ==> current == 0 && longest == 0
      invariant k > 0 ==> current == RunEnd(completedDates, k - 1)
      invariant Max(longest, current) == LongestUpTo(completedDates, k)
    {
      var currentDate := completedDates[k];
      assert LongestUpTo(completedDates, k + 1) == Max(LongestUpTo(completedDates, k), RunEnd(completedDates, k));
      if previous.None? {
        current := 1;
      } else {
        var dayDiff := currentDate - previous.value;
        if dayDiff == 1 {
          current := current + 1;
        } else {
          longest := Max(longest, current);
          current := 1;
        }
      }
      previous := Some(currentDate);
    }
    longest := Max(longest, current);
  }

  // ---------------------------------------------------------------------
  // Current streak against longest streak

  /** Days `x .. x + k - 1` all present in a strictly ascending list sit at
      consecutive indices, so they form a stretch of one-day steps. */
  lemma {:induction false} ConsecutiveDaysAreRun(s: seq<Day>, x: Day, k: nat) returns (p: nat)
    requires forall i, j :: 0 <= i < j < |s| ==> s[i] < s[j]
    requires 1 <= k
    requires forall y :: x <= y < x + k ==> y in s
    ensures p + k - 1 < |s| && s[p] == x && IsRun(s, p, p + k - 1)
  {
    if k == 1 {
      assert x in s;
      p :| 0 <= p < |s| && s[p] == x;
    } else {
      p := ConsecutiveDaysAreRun(s, x, k - 1);
      RunValue(s, p, p + k - 2);
      assert x + k - 1 in s;
      var q :| 0 <= q < |s| && s[q] == x + k - 1;
      SuccessorIsNext(s, p + k - 2, q);
      ExtendRun(s, p, p + k - 2);
    }
  }

  /** In a strictly ascending list the next day, if present, is the next entry. */
  lemma SuccessorIsNext(s: seq<Day>, j: int, q: int)
    requires forall i, j :: 0 <= i < j < |s| ==> s[i] < s[j]
    requires 0 <= j < |s| && 0 <= q < |s| && s[q] == s[j] + 1
    ensures q == j + 1
  {
    if j + 1 < |s| {
      assert s[j] < s[j + 1];
    }
  }

  lemma ExtendRun(s: seq<Day>, i: int, j: int)
    requires IsRun(s, i, j) && j + 1 < |s| && s[j + 1] == s[j] + 1
    ensures IsRun(s, i, j + 1)
  {
  }

  lemma {:induction false} RunValue(s: seq<Day>, i: int, j: int)
    requires IsRun(s, i, j)
    ensures s[j] == s[i] + (j - i)
    decreases j - i
  {
    if i < j {
      assert IsRun(s, i, j - 1);
      RunValue(s, i, j - 1);
    }
  }

  lemma {:induction false} StrictPair(s: seq<Day>, i: int, j: int)
    requires forall k :: 0 <= k && k + 1 < |s| ==> s[k] < s[k + 1]
    requires 0 <= i < j < |s|
    ensures s[i] < s[j]
    decreases j - i
  {
    if i + 1 < j {
      StrictPair(s, i, j - 1);
    }
  }

  /** When no day is logged twice, the current streak never exceeds the
      longest streak. */
  lemma CurrentAtMostLongest(logs: seq<HabitLog>, today: Day)
    requires forall i, j :: 0 <= i < j < |logs| ==> logs[i].completedDate != logs[j].completedDate
    ensures CurrentStreakOf(Dates(logs), today) <= LongestRun(Sort(Dates(logs)))
  {
    var ds := Dates(logs);
    var s := Sort(ds);
    var k := CurrentStreakOf(ds, today);
    if k > 0 {
      SortedStrictly(ds);
      var end := CurrentRun(ds, today);
      SortMembers(ds);
      RunBoundsLongest(s, end - k + 1, k);
    }
  }

  /** `k` consecutive days present in a strictly ascending list bound its
      longest run from below. */
  lemma RunBoundsLongest(s: seq<Day>, x: Day, k: nat)
    requires forall i, j :: 0 <= i < j < |s| ==> s[i] < s[j]
    requires 1 <= k
    requires forall y :: x <= y < x + k ==> y in s
    ensures k <= LongestRun(s)
  {
    var p := ConsecutiveDaysAreRun(s, x, k);
    RunEndMaximal(s, p, p + k - 1);
    LongestUpToMaximal(s, |s|, p + k - 1);
  }

  /** A current streak of `k` days covers the `k` days up to its last one. */
  lemma CurrentRun(ds: seq<Day>, today: Day) returns (end: Day)
    requires CurrentStreakOf(ds, today) > 0
    ensures forall y :: end - CurrentStreakOf(ds, today) < y <= end ==> y in ds
  {
    var k := CurrentStreakOf(ds, today);
    end := if today in ds then today else today - 1;
    assert RunBack(ds, end) == k;
    RunBackMeaning(ds, end, k);
  }

  /** Sorting dates of which none repeats gives a strictly ascending list. */
  lemma SortedStrictly(ds: seq<Day>)
    requires forall i, j :: 0 <= i < j < |ds| ==> ds[i] != ds[j]
    ensures forall i, j :: 0 <= i < j < |Sort(ds)| ==> Sort(ds)[i] < Sort(ds)[j]
  {
    var s := Sort(ds);
    DistinctMultiset(ds);
    forall i | 0 <= i && i + 1 < |s|
      ensures s[i] < s[i + 1]
    {
      StrictWhenDistinct(s, i);
    }
    forall i, j | 0 <= i < j < |s|
      ensures s[i] < s[j]
    {
      StrictPair(s, i, j);
    }
  }

  /** With a repeated day the inequality fails: days d-2, d-1, d-1, d give
      a current streak of 3 but a longest streak of 2. */
  lemma RepeatedDayShortensLongest(d: Day)
    ensures CurrentStreakOf([d - 2, d - 1, d - 1, d], d) == 3
    ensures LongestRun(Sort([d - 2, d - 1, d - 1, d])) == 2
  {
    RepeatedDayCurrent(d);
    RepeatedDayLongest(d);
  }

  lemma RepeatedDayCurrent(d: Day)
    ensures CurrentStreakOf([d - 2, d - 1, d - 1, d], d) == 3
  {
    var s := [d - 2, d - 1, d - 1, d];
    assert s[3] == d;
    forall y | d - 3 < y <= d - 1
      ensures y in s
    {
      assert y == s[0] || y == s[1];
    }
    assert d - 3 !in s;
    RunBackMeaning(s, d - 1, 2);
  }

  lemma RepeatedDayLongest(d: Day)
    ensures LongestRun(Sort([d - 2, d - 1, d - 1, d])) == 2
  {
    var s := [d - 2, d - 1, d - 1, d];
    assert SortedAsc(s);
    SortedUnique(Sort(s), s);
    RepeatedDayRuns(s, d);
  }

  lemma RepeatedDayRuns(s: seq<Day>, d: Day)
    requires s == [d - 2, d - 1, d - 1, d]
    ensures LongestRun(s) == 2
  {
    assert LongestUpTo(s, 2) == 2;
    assert RunEnd(s, 2) == 1;
    assert LongestUpTo(s, 3) == 2;
    assert RunEnd(s, 3) == 2;
  }

  // ---------------------------------------------------------------------
  // Membership, counting and the last completion

  /** `isCompletedOnDate`: some log carries exactly that date. */
  function IsCompletedOnDate(logs: seq<HabitLog>, date: Day): (r: bool)
    ensures r <==> exists i :: 0 <= i < |logs| && logs[i].completedDate == date
  {
    date in Dates(logs)
  }

  /** `isCompletedToday`. */
  function IsCompletedToday(logs: seq<HabitLog>, today: Day): (r: bool)
    ensures r <==> exists i :: 0 <= i < |logs| && logs[i].completedDate == today
  {
    IsCompletedOnDate(logs, today)
  }

  /** `getCompletionDates`: the dates in ascending order, repeats kept. */
  function GetCompletionDates(logs: seq<HabitLog>): (r: seq<Day>)
    ensures SortedAsc(r)
    ensures multiset(r) == multiset(Dates(logs))
  {
    Sort(Dates(logs))
  }

  /** `getCompletionCountInRange`: the number of logs, repeats included,
      dated from `start` to `end`, both ends included. */
  function GetCompletionCountInRange(logs: seq<HabitLog>, start: Day, end: Day): (r: nat)
    ensures r <= |logs|
    ensures end < start ==> r == 0
  {
    if |logs| == 0 then 0
    else
      GetCompletionCountInRange(logs[..|logs| - 1], start, end)
        + (if start <= logs[|logs| - 1].completedDate <= end then 1 else 0)
  }

  /** The number of logs on each day from `start` to `end`, added up. */
  function DaySum(ds: seq<Day>, start: Day, end: Day): nat
    decreases end - start
  {
    if end < start then 0 else DaySum(ds, start, end - 1) + multiset(ds)[end]
  }

  lemma {:induction false} DaySumSnoc(ds: seq<Day>, x: Day, start: Day, end: Day)
    ensures DaySum(ds + [x], start, end) == DaySum(ds, start, end) + (if start <= x <= end then 1 else 0)
    decreases end - start
  {
    if start <= end {
      DaySumSnoc(ds, x, start, end - 1);
      assert multiset(ds + [x]) == multiset(ds) + multiset{x};
    }
  }

  lemma {:induction false} DaySumEmpty(start: Day, end: Day)
    ensures DaySum([], start, end) == 0
    decreases end - start
  {
    if start <= end {
      DaySumEmpty(start, end - 1);
    }
  }

  /** The range count is the number of logs on each day of the range, summed. */
  lemma {:induction false} CountInRangeByDay(logs: seq<HabitLog>, start: Day, end: Day)
    ensures GetCompletionCountInRange(logs, start, end) == DaySum(Dates(logs), start, end)
  {
    if |logs| > 0 {
      var n := |logs| - 1;
      CountInRangeByDay(logs[..n], start, end);
      DatesPrefix(logs, n);
      assert Dates(logs) == Dates(logs[..n]) + [logs[n].completedDate];
      DaySumSnoc(Dates(logs[..n]), logs[n].completedDate, start, end);
    } else {
      DaySumEmpty(start, end);
    }
  }

  /** `getLastCompletionDate`: the latest date, or none for no logs. */
  function GetLastCompletionDate(logs: seq<HabitLog>): (r: Option<Day>)
    ensures r.None? <==> |logs| == 0
    ensures r.Some? ==> r.value in Dates(logs)
    ensures r.Some? ==> forall x :: x in Dates(logs) ==> x <= r.value
  {
    if |logs| == 0 then None
    else
      var sorted := Reverse(Sort(Dates(logs)));
      SortMembers(Dates(logs));
      SortedLastIsGreatest(Sort(Dates(logs)));
      assert sorted[0] == Sort(Dates(logs))[|logs| - 1];
      Some(sorted[0])
  }

  // ---------------------------------------------------------------------
  // Streak status

  datatype StreakStatus = StreakStatus(current: nat, longest: nat, isActive: bool, daysUntilBreak: nat)

  /** `getStreakStatus`: the two streaks, whether the last completion is
      today or yesterday, and how many days remain before the streak
      breaks (2 after completing today, 1 when yesterday was the last
      completion, 0 otherwise and with no logs). */
  method GetStreakStatus(logs: seq<HabitLog>, today: Day) returns (status: StreakStatus)
    ensures status.current == CurrentStreakOf(Dates(logs), today)
    ensures status.longest == LongestRun(Sort(Dates(logs)))
    ensures status.isActive <==>
      GetLastCompletionDate(logs) == Some(today) || GetLastCompletionDate(logs) == Some(today - 1)
    ensures status.daysUntilBreak == 2 <==> |logs| > 0 && today in Dates(logs)
    ensures status.daysUntilBreak == 1 <==>
      today !in Dates(logs) && GetLastCompletionDate(logs) == Some(today - 1)
    ensures status.daysUntilBreak <= 2
    ensures (forall x :: x in Dates(logs) ==> x <= today) ==>
      (status.daysUntilBreak > 0 <==> status.isActive)
  {
    var current, _ := CalculateCurrentStreak(logs, today);
    var longest := CalculateLongestStreak(logs);
    var completedToday := IsCompletedToday(logs, today);
    var lastCompletion := GetLastCompletionDate(logs);
    var isActive := false;
    var daysUntilBreak := 0;
    if lastCompletion.Some? {
      var yesterday := today - 1;
      isActive := lastCompletion.value == today || lastCompletion.value == yesterday;
      if completedToday {
        daysUntilBreak := 2;
      } else if lastCompletion.value == yesterday {
        daysUntilBreak := 1;
      } else {
        daysUntilBreak := 0;
      }
    }
    status := StreakStatus(current, longest, isActive, daysUntilBreak);
  }
}
