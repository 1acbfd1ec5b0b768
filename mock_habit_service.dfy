/** The in-memory service of src/services/mockHabitService.ts: a habit
    table and a log table, the CRUD operations on them, the `logCompletion`
    upsert and the service's own statistics routine. The stored arrays are
    the two `seq` fields of a `HabitStore`; ids and timestamps that the
    source generates from the clock are parameters. */
module HabitService {
  import opened Wrappers
  import opened CivilCalendar
  import opened Seqs
  import opened Types
  import opened Streaks
  import opened Stats

  /** The fields of `habitData` in `createHabit`: a habit without id and creation time. */
  datatype HabitData = HabitData(
    name: string,
    description: string,
    category: Category,
    color: string,
    archivedAt: Option<string>)

  /** The `updates` of `updateHabit`: `None` leaves a field alone. For
      `archivedAt`, `Some(None)` stands for a key set to `undefined`. */
  datatype HabitPatch = HabitPatch(
    name: Option<string>,
    description: Option<string>,
    category: Option<Category>,
    color: Option<string>,
    archivedAt: Option<Option<string>>)

  /** `{ ...h, ...updates }`: the fields present in the patch win. */
  function Apply(h: Habit, u: HabitPatch): (r: Habit)
    ensures r.id == h.id && r.createdAt == h.createdAt
    ensures u == HabitPatch(None, None, None, None, None) ==> r == h
  {
    h.(name := if u.name.Some? then u.name.value else h.name,
       description := if u.description.Some? then u.description.value else h.description,
       category := if u.category.Some? then u.category.value else h.category,
       color := if u.color.Some? then u.color.value else h.color,
       archivedAt := if u.archivedAt.Some? then u.archivedAt.value else h.archivedAt)
  }

  /** `h => h.id === id`. */
  function HasId(id: string): Habit -> bool
  {
    (h: Habit) => h.id == id
  }

  /** `h => h.id !== id`. */
  function OtherId(id: string): Habit -> bool
  {
    (h: Habit) => h.id != id
  }

  /** `l => l.habitId !== id`. */
  function OtherHabit(id: string): HabitLog -> bool
  {
    (l: HabitLog) => l.habitId != id
  }

  /** `l => l.habitId === habitId && l.completedDate === date`. */
  function IsPair(habitId: string, date: Day): HabitLog -> bool
  {
    (l: HabitLog) => l.habitId == habitId && l.completedDate == date
  }

  /** `l => !(l.habitId === habitId && l.completedDate === date)`. */
  function NotPair(habitId: string, date: Day): HabitLog -> bool
  {
    (l: HabitLog) => !(l.habitId == habitId && l.completedDate == date)
  }

  /** No two logs share a habit and a date: what `logCompletion` keeps. */
  predicate UniqueLogs(logs: seq<HabitLog>)
  {
    forall i, j :: 0 <= i < j < |logs| ==>
      !(logs[i].habitId == logs[j].habitId && logs[i].completedDate == logs[j].completedDate)
  }

  /** Replacing a log by one of the same habit and date keeps the pairs unique. */
  lemma UpdateKeepsUnique(logs: seq<HabitLog>, k: nat, log: HabitLog)
    requires k < |logs|
    requires log.habitId == logs[k].habitId && log.completedDate == logs[k].completedDate
    ensures UniqueLogs(logs) ==> UniqueLogs(logs[k := log])
  {
    var r := logs[k := log];
    if UniqueLogs(logs) {
      forall i, j | 0 <= i < j < |r|
        ensures !(r[i].habitId == r[j].habitId && r[i].completedDate == r[j].completedDate)
      {
        assert r[i].habitId == logs[i].habitId && r[i].completedDate == logs[i].completedDate;
        assert r[j].habitId == logs[j].habitId && r[j].completedDate == logs[j].completedDate;
      }
    }
  }

  /** Appending a log whose pair is absent keeps the pairs unique. */
  lemma AppendKeepsUnique(logs: seq<HabitLog>, log: HabitLog)
    requires forall i :: 0 <= i < |logs| ==>
      !(logs[i].habitId == log.habitId && logs[i].completedDate == log.completedDate)
    ensures UniqueLogs(logs) ==> UniqueLogs(logs + [log])
  {
    var r := logs + [log];
    if UniqueLogs(logs) {
      forall i, j | 0 <= i < j < |r|
        ensures !(r[i].habitId == r[j].habitId && r[i].completedDate == r[j].completedDate)
      {
        assert r[i] == logs[i];
        if j < |logs| {
          assert r[j] == logs[j];
        }
      }
    }
  }

  /** The message of the `Error` thrown by `updateHabit` and `archiveHabit`. */
  function NotFound(id: string): string
  {
    "Habit with id " + id + " not found"
  }

  class HabitStore {
    var habits: seq<Habit>
    var logs: seq<HabitLog>

    /** The store as read back from storage. */
    constructor (habits0: seq<Habit>, logs0: seq<HabitLog>)
      ensures habits == habits0 && logs == logs0
    {
      habits := habits0;
      logs := logs0;
    }

    /** `getHabits`: the stored habits that are not archived, in stored order. */
    function GetHabits(): (r: seq<Habit>)
      reads this
      ensures forall h :: h in r <==> h in habits && IsActive(h)
      ensures (forall i :: 0 <= i < |habits| ==> IsActive(habits[i])) ==> r == habits
    {
      FilterAllActive(habits);
      Filter(habits, IsActive)
    }

    /** `getHabit`: the first habit with the id, or none. */
    function GetHabit(id: string): (r: Option<Habit>)
      reads this
      ensures r.None? <==> forall i :: 0 <= i < |habits| ==> habits[i].id != id
      ensures r.Some? ==> r.value.id == id && r.value in habits
      ensures r.Some? ==> exists k :: 0 <= k < |habits| && habits[k] == r.value
                                  && (forall j :: 0 <= j < k ==> habits[j].id != id)
    {
      var k := FindIndex(habits, HasId(id));
      if k == -1 then None else Some(habits[k])
    }

    /** `createHabit`: the new habit goes at the end; `id` and `createdAt`
        stand for the generated id and the clock's timestamp. */
    method CreateHabit(habitData: HabitData, id: string, createdAt: string) returns (newHabit: Habit)
      modifies this
      ensures newHabit == Habit(id, habitData.name, habitData.description, habitData.category,
        habitData.color, createdAt, habitData.archivedAt)
      ensures habits == old(habits) + [newHabit]
      ensures logs == old(logs)
    {
      newHabit := Habit(id, habitData.name, habitData.description, habitData.category,
        habitData.color, createdAt, habitData.archivedAt);
      habits := habits + [newHabit];
    }

    /** `updateHabit`: fails when no habit has the id; otherwise patches the
        first habit with the id and leaves every other entry as it was. */
    method UpdateHabit(id: string, updates: HabitPatch) returns (r: Result<Habit, string>)
      modifies this
      ensures var k := FindIndex(old(habits), HasId(id));
        if k == -1 then r == Failure(NotFound(id)) && habits == old(habits)
        else r == Success(Apply(old(habits)[k], updates)) && habits == old(habits)[k := r.value]
      ensures r.Success? ==> r.value.id == id && |habits| == |old(habits)|
      ensures logs == old(logs)
    {
      var index := FindIndex(habits, HasId(id));
      if index == -1 {
        return Failure(NotFound(id));
      }
      var updatedHabit := Apply(habits[index], updates);
      habits := habits[index := updatedHabit];
      r := Success(updatedHabit);
    }

    /** `deleteHabit`: drops every habit with the id and every log of it,
        keeping the order of what remains. */
    method DeleteHabit(id: string)
      modifies this
      ensures habits == Filter(old(habits), OtherId(id))
      ensures logs == Filter(old(logs), OtherHabit(id))
      ensures forall h :: h in habits <==> h in old(habits) && h.id != id
      ensures forall l :: l in logs <==> l in old(logs) && l.habitId != id
      ensures UniqueLogs(old(logs)) ==> UniqueLogs(logs)
    {
      habits := Filter(habits, OtherId(id));
      if UniqueLogs(logs) {
        FilterUnique(logs, OtherHabit(id));
      }
      logs := Filter(logs, OtherHabit(id));
    }

    /** `archiveHabit`: like an update of `archivedAt` to the timestamp
        `now`, which archives the habit when `now` is not empty. */
    method ArchiveHabit(id: string, now: string) returns (r: Result<Habit, string>)
      modifies this
      ensures var k := FindIndex(old(habits), HasId(id));
        if k == -1 then r == Failure(NotFound(id)) && habits == old(habits)
        else r == Success(old(habits)[k].(archivedAt := Some(now))) && habits == old(habits)[k := r.value]
      ensures r.Success? && now != "" ==> !IsActive(r.value)
      ensures logs == old(logs)
    {
      var index := FindIndex(habits, HasId(id));
      if index == -1 {
        return Failure(NotFound(id));
      }
      var archivedHabit := habits[index].(archivedAt := Some(now));
      habits := habits[index := archivedHabit];
      r := Success(archivedHabit);
    }

    /** `getHabitLogs`: the logs of one habit, in stored order. */
    function GetHabitLogs(habitId: string): (r: seq<HabitLog>)
      reads this
      ensures forall l :: l in r <==> l in logs && l.habitId == habitId
    {
      LogsOf(logs, habitId)
    }

    /** `logCompletion`: an upsert keyed on habit and date. An existing
        log gets the new notes and stays where it is; otherwise a new log
        (with the generated `id` and `createdAt`) is appended. Either way
        the pair ends up with at least one log and never gains a second. */
    method LogCompletion(habitId: string, date: Day, notes: Option<string>, id: string, createdAt: string)
      returns (log: HabitLog)
      modifies this
      ensures var k := FindIndex(old(logs), IsPair(habitId, date));
        if k == -1 then log == HabitLog(id, habitId, date, notes, createdAt) && logs == old(logs) + [log]
        else log == old(logs)[k].(notes := notes) && logs == old(logs)[k := log]
      ensures log.habitId == habitId && log.completedDate == date && log.notes == notes
      ensures Count(logs, IsPair(habitId, date))
        == if Count(old(logs), IsPair(habitId, date)) == 0 then 1 else Count(old(logs), IsPair(habitId, date))
      ensures UniqueLogs(old(logs)) ==> UniqueLogs(logs)
      ensures habits == old(habits)
    {
      var existingIndex := FindIndex(logs, IsPair(habitId, date));
      if existingIndex != -1 {
        log := logs[existingIndex].(notes := notes);
        FilterUpdate(logs, existingIndex, log, IsPair(habitId, date));
        UpdateKeepsUnique(logs, existingIndex, log);
        logs := logs[existingIndex := log];
        return;
      }
      log := HabitLog(id, habitId, date, notes, createdAt);
      FilterSnoc(logs, log, IsPair(habitId, date));
      FilterNone(logs, IsPair(habitId, date));
      AppendKeepsUnique(logs, log);
      logs := logs + [log];
    }

    /** `removeCompletion`: drops every log of the pair and nothing else. */
    method RemoveCompletion(habitId: string, date: Day)
      modifies this
      ensures logs == Filter(old(logs), NotPair(habitId, date))
      ensures forall l :: l in logs <==> l in old(logs) && !(l.habitId == habitId && l.completedDate == date)
      ensures Count(logs, IsPair(habitId, date)) == 0
      ensures UniqueLogs(old(logs)) ==> UniqueLogs(logs)
      ensures habits == old(habits)
    {
      if UniqueLogs(logs) {
        FilterUnique(logs, NotPair(habitId, date));
      }
      logs := Filter(logs, NotPair(habitId, date));
      forall i | 0 <= i < |logs|
        ensures !IsPair(habitId, date)(logs[i])
      {
        assert logs[i] in logs;
      }
      FilterNone(logs, IsPair(habitId, date));
    }

    /** `getHabitStats` as written: the current streak is the walk of
        `calculateCurrentStreak`; the longest-streak loop and the rate
        window are those of the source (see LongestAsWritten and
        RateAsWritten). */
    method GetHabitStats(habitId: string, today: Day) returns (stats: HabitStats)
      ensures var own := LogsOf(logs, habitId);
        stats.habitId == habitId
        && stats.currentStreak == CurrentStreakOf(Dates(own), today)
        && stats.longestStreak == (if |own| == 0 then 0 else 1)
        && stats.totalCompletions == |own|
        && stats.completionRate7Days == RateAsWritten(own, 7, today)
        && stats.completionRate30Days == RateAsWritten(own, 30, today)
        && stats.completionRate90Days == RateAsWritten(own, 90, today)
    {
      var habitLogs := GetHabitLogs(habitId);
      var currentStreak, _ := CalculateCurrentStreak(habitLogs, today);
      // `sortedLogs.reverse()` turns the newest-first list back to ascending order.
      var ascending := Sort(Dates(habitLogs));
      var longestStreak := LongestStreakAsWritten(ascending);
      AscendingGivesOne(ascending);
      assert |ascending| == |multiset(ascending)| == |multiset(Dates(habitLogs))| == |habitLogs|;
      stats := HabitStats(habitId, currentStreak, longestStreak, |habitLogs|,
        RateAsWritten(habitLogs, 7, today), RateAsWritten(habitLogs, 30, today), RateAsWritten(habitLogs, 90, today));
    }

    /** With unique logs, the current streak of a habit is at most its
        longest streak as `calculateLongestStreak` computes it. */
    lemma UniqueLogsBoundStreak(habitId: string, today: Day)
      requires UniqueLogs(logs)
      ensures var own := LogsOf(logs, habitId);
        CurrentStreakOf(Dates(own), today) <= LongestRun(Sort(Dates(own)))
    {
      var own := LogsOf(logs, habitId);
      FilterUnique(logs, BelongsTo(habitId));
      forall i, j | 0 <= i < j < |own|
        ensures own[i].completedDate != own[j].completedDate
      {
        assert own[i] in own && own[j] in own;
      }
      CurrentAtMostLongest(own, today);
    }
  }

  /** When every habit is active the filter keeps them all. */
  lemma FilterAllActive(hs: seq<Habit>)
    ensures (forall i :: 0 <= i < |hs| ==> IsActive(hs[i])) ==> Filter(hs, IsActive) == hs
  {
    if forall i :: 0 <= i < |hs| ==> IsActive(hs[i]) {
      FilterAll(hs, IsActive);
    }
  }

  /** Filtering keeps logs unique. */
  lemma {:induction false} FilterUnique(logs: seq<HabitLog>, p: HabitLog -> bool)
    requires UniqueLogs(logs)
    ensures UniqueLogs(Filter(logs, p))
  {
    if |logs| > 0 {
      var rest := logs[1..];
      assert UniqueLogs(rest) by {
        forall i, j | 0 <= i < j < |rest|
          ensures !(rest[i].habitId == rest[j].habitId && rest[i].completedDate == rest[j].completedDate)
        {
          assert rest[i] == logs[i + 1] && rest[j] == logs[j + 1];
        }
      }
      FilterUnique(rest, p);
      var tail := Filter(rest, p);
      if p(logs[0]) {
        var r := [logs[0]] + tail;
        forall i, j | 0 <= i < j < |r|
          ensures !(r[i].habitId == r[j].habitId && r[i].completedDate == r[j].completedDate)
        {
          if i == 0 {
            assert r[j] in rest;
            var m :| 0 <= m < |rest| && rest[m] == r[j];
            assert logs[m + 1] == r[j];
          } else {
            assert r[i] == tail[i - 1] && r[j] == tail[j - 1];
          }
        }
      }
    }
  }

  // ---------------------------------------------------------------------
  // The longest-streak loop of getHabitStats

  /** `tempStreak` after entry `i` of the loop at src/services/mockHabitService.ts:245:
      the step is `prevDate - currentDate`, the earlier date minus the later. */
  function TempStreak(s: seq<Day>, i: nat): (r: nat)
    requires i < |s|
    ensures 1 <= r <= i + 1
  {
    if i == 0 || s[i - 1] - s[i] != 1 then 1 else TempStreak(s, i - 1) + 1
  }

  /** The as-written longest streak over the first `n` entries. */
  function LongestAsWrittenUpTo(s: seq<Day>, n: nat): (r: nat)
    requires n <= |s|
    ensures n == 0 ==> r == 0
    ensures n > 0 ==> 1 <= r <= n
  {
    if n == 0 then 0 else Max(LongestAsWrittenUpTo(s, n - 1), TempStreak(s, n - 1))
  }

  function LongestAsWritten(s: seq<Day>): nat
  {
    LongestAsWrittenUpTo(s, |s|)
  }

  /** The loop itself, over the ascending list. */
  method LongestStreakAsWritten(ascending: seq<Day>) returns (longestStreak: nat)
    ensures longestStreak == LongestAsWritten(ascending)
  {
    longestStreak := 0;
    var tempStreak := 0;
    var prevDate: Option<Day> := None;
    for k := 0 to |ascending|
      invariant prevDate == if k == 0 then None else Some(ascending[k - 1])
      invariant k == 0 ==> tempStreak == 0 && longestStreak == 0
      invariant k > 0 ==> tempStreak == TempStreak(ascending, k - 1)
      invariant Max(longestStreak, tempStreak) == LongestAsWrittenUpTo(ascending, k)
    {
      var currentDate := ascending[k];
      if prevDate.None? {
        tempStreak := 1;
      } else {
        var dayDiff := prevDate.value - currentDate;
        if dayDiff == 1 {
          tempStreak := tempStreak + 1;
        } else {
          longestStreak := Max(longestStreak, tempStreak);
          tempStreak := 1;
        }
      }
      prevDate := Some(currentDate);
    }
    longestStreak := Max(longestStreak, tempStreak);
  }

  /** Over an ascending list the step is never 1, so every run restarts:
      the as-written longest streak is 0 for no dates and 1 otherwise. */
  lemma {:induction false} AscendingGivesOne(s: seq<Day>)
    requires SortedAsc(s)
    ensures LongestAsWritten(s) == if |s| == 0 then 0 else 1
  {
    AscendingUpTo(s, |s|);
  }

  lemma {:induction false} AscendingUpTo(s: seq<Day>, n: nat)
    requires SortedAsc(s) && n <= |s|
    ensures LongestAsWrittenUpTo(s, n) == if n == 0 then 0 else 1
  {
    if n > 0 {
      AscendingUpTo(s, n - 1);
      if n - 1 > 0 {
        assert s[n - 2] <= s[n - 1];
      }
    }
  }

  /** Two consecutive days: the as-written loop reports 1 where the
      longest streak of streakCalculator is 2. */
  lemma TwoDayRunCountsOne(d: Day)
    ensures LongestAsWritten([d, d + 1]) == 1
    ensures LongestRun([d, d + 1]) == 2
  {
    var s := [d, d + 1];
    assert TempStreak(s, 1) == 1;
    assert RunEnd(s, 1) == 2;
  }

  // ---------------------------------------------------------------------
  // The rate of getHabitStats

  /** The logs dated on or after `cutoff`, with no upper bound. */
  function CountSince(logs: seq<HabitLog>, cutoff: Day): (r: nat)
    ensures r <= |logs|
  {
    if |logs| == 0 then 0
    else CountSince(logs[..|logs| - 1], cutoff) + (if logs[|logs| - 1].completedDate >= cutoff then 1 else 0)
  }

  /** `calculateRate(days)`: the logs dated from `today - days` on, as a
      rounded percentage of `days`. */
  function RateAsWritten(logs: seq<HabitLog>, days: int, today: Day): (r: nat)
    requires days >= 1
    ensures RoundsTo(r, 100 * CountSince(logs, today - days), days)
  {
    RoundDiv(100 * CountSince(logs, today - days), days)
  }

  /** When no log falls on the extra day `today - days` or after today,
      the as-written rate is the rate of `calculateCompletionRate`. */
  lemma RateAsWrittenAgrees(logs: seq<HabitLog>, days: int, today: Day)
    requires days >= 1
    requires forall i :: 0 <= i < |logs| ==> logs[i].completedDate != today - days && logs[i].completedDate <= today
    ensures RateAsWritten(logs, days, today) == CalculateCompletionRate(logs, days, today)
  {
    SinceIsRange(logs, days, today);
  }

  lemma {:induction false} SinceIsRange(logs: seq<HabitLog>, days: int, today: Day)
    requires forall i :: 0 <= i < |logs| ==> logs[i].completedDate != today - days && logs[i].completedDate <= today
    ensures CountSince(logs, today - days) == GetCompletionCountInRange(logs, today - (days - 1), today)
  {
    if |logs| > 0 {
      SinceIsRange(logs[..|logs| - 1], days, today);
    }
  }

  /** Every log dated from the cutoff on is counted. */
  lemma {:induction false} CountSinceAll(logs: seq<HabitLog>, cutoff: Day)
    requires forall i :: 0 <= i < |logs| ==> logs[i].completedDate >= cutoff
    ensures CountSince(logs, cutoff) == |logs|
  {
    if |logs| > 0 {
      CountSinceAll(logs[..|logs| - 1], cutoff);
    }
  }

  /** One log on each of the eight days from `today - 7` to today: the
      seven-day rate as written is 114, although every day holds a single
      log and calculateCompletionRate stays within 100. */
  lemma EightDaysRate114(logs: seq<HabitLog>, today: Day)
    requires |logs| == 8
    requires forall i :: 0 <= i < 8 ==> logs[i].completedDate == today - 7 + i
    ensures RateAsWritten(logs, 7, today) == 114
    ensures CalculateCompletionRate(logs, 7, today) <= 100
  {
    CountSinceAll(logs, today - 7);
    assert RoundDiv(800, 7) == 114;
    forall d
      ensures multiset(Dates(logs))[d] <= 1
    {
      DistinctMultiset(Dates(logs));
    }
    CompletionRateRange(logs, 7, today);
  }
}
