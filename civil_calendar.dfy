/** The proleptic Gregorian calendar under the date helpers: day numbers
    (days since 1970-01-01) and their year, month and day of month.
    This is the arithmetic the JavaScript `Date` object performs for
    `setDate`, `getDay`, `getFullYear`/`getMonth`/`getDate` and the
    `new Date(year, month, day)` constructor, taken in UTC. */
module CivilCalendar {

  /** A calendar day: the number of days since 1970-01-01. */
  type Day = int

  /** A year, a month (1 = January) and a day of the month. */
  datatype Civil = Civil(year: int, month: int, day: int)

  /** The Gregorian leap-year rule (RFC 3339, Appendix C). */
  predicate IsLeapYear(y: int)
  {
    y % 4 == 0 && (y % 100 != 0 || y % 400 == 0)
  }

  function YearLength(y: int): int
  {
    if IsLeapYear(y) then 366 else 365
  }

  function DaysInMonth(y: int, m: int): (n: int)
    requires 1 <= m <= 12
    ensures 28 <= n <= 31
    ensures n == 29 <==> m == 2 && IsLeapYear(y)
  {
    if m == 2 then (if IsLeapYear(y) then 29 else 28)
    else if m == 4 || m == 6 || m == 9 || m == 11 then 30
    else 31
  }

  predicate ValidCivil(c: Civil)
  {
    1 <= c.month <= 12 && 1 <= c.day <= DaysInMonth(c.year, c.month)
  }

  /** Days from 0000-01-01 to January 1 of year `y`: 365 per year plus one
      per leap year in between (floor division makes it hold for y < 0). */
  function DaysBeforeYear(y: int): int
  {
    365 * y + (y + 3) / 4 - (y + 99) / 100 + (y + 399) / 400
  }

  /** Days from January 1 to the first day of month `m` (13 stands for the next January 1). */
  function DaysBeforeMonth(y: int, m: int): int
    requires 1 <= m <= 13
  {
    [0, 31, 59, 90, 120, 151, 181, 212, 243, 273, 304, 334, 365][m - 1]
      + (if m > 2 && IsLeapYear(y) then 1 else 0)
  }

  /** Days from 0000-01-01 to 1970-01-01. */
  const EpochOffset: int := 719528

  /** Days per 400-year Gregorian cycle. */
  const DaysPerEra: int := 146097

  /** The day number of a civil date. A day of month out of range simply
      counts on from the first of the month, as `MakeDay` does in ECMAScript. */
  function DaysFromCivil(c: Civil): Day
    requires 1 <= c.month <= 12
  {
    DaysBeforeYear(c.year) + DaysBeforeMonth(c.year, c.month) + c.day - 1 - EpochOffset
  }

  lemma YearStep(y: int)
    ensures DaysBeforeYear(y + 1) == DaysBeforeYear(y) + YearLength(y)
  {
    Step4(y);
    Step100(y);
    Step400(y);
    DivisorChain(y);
  }

  // A multiple of 400 is a multiple of 100, and a multiple of 100 one of 4.
  lemma DivisorChain(y: int)
    ensures y % 400 == 0 ==> y % 100 == 0
    ensures y % 100 == 0 ==> y % 4 == 0
  {
    if y % 400 == 0 {
      var q := y / 400;
      assert y == 0 + 100 * (4 * q);
      Shift100(0, 4 * q);
    }
    if y % 100 == 0 {
      var q := y / 100;
      assert y == 0 + 4 * (25 * q);
      Shift4(0, 25 * q);
    }
  }

  // One more year moves each leap-day count on by one exactly when the
  // year is a multiple of the divisor.
  lemma Step4(y: int)
    ensures (y + 4) / 4 == (y + 3) / 4 + (if y % 4 == 0 then 1 else 0)
  {
  }

  lemma Step100(y: int)
    ensures (y + 100) / 100 == (y + 99) / 100 + (if y % 100 == 0 then 1 else 0)
  {
  }

  lemma Step400(y: int)
    ensures (y + 400) / 400 == (y + 399) / 400 + (if y % 400 == 0 then 1 else 0)
  {
  }

  lemma MonthStep(y: int, m: int)
    requires 1 <= m <= 12
    ensures DaysBeforeMonth(y, m + 1) == DaysBeforeMonth(y, m) + DaysInMonth(y, m)
  {
  }

  /** The calendar repeats every 400 years. */
  lemma EraShift(era: int, k: int)
    ensures DaysBeforeYear(400 * era + k) == DaysPerEra * era + DaysBeforeYear(k)
    ensures IsLeapYear(400 * era + k) == IsLeapYear(k)
  {
    Shift4(k + 3, 100 * era);
    Shift100(k + 99, 4 * era);
    Shift400(k + 399, era);
    Shift4(k, 100 * era);
    Shift100(k, 4 * era);
    Shift400(k, era);
  }

  // Adding whole multiples of the divisor shifts the quotient and keeps the remainder.
  lemma Shift4(a: int, q: int)
    ensures (a + 4 * q) / 4 == a / 4 + q && (a + 4 * q) % 4 == a % 4
  {
  }

  lemma Shift100(a: int, q: int)
    ensures (a + 100 * q) / 100 == a / 100 + q && (a + 100 * q) % 100 == a % 100
  {
  }

  lemma Shift400(a: int, q: int)
    ensures (a + 400 * q) / 400 == a / 400 + q && (a + 400 * q) % 400 == a % 400
  {
  }

  /** Later years start later. */
  lemma {:induction false} YearsAscend(a: int, b: int)
    requires a < b
    ensures DaysBeforeYear(a + 1) <= DaysBeforeYear(b)
    decreases b - a
  {
    if a + 1 < b {
      YearsAscend(a + 1, b);
      YearStep(a + 1);
    }
  }

  /** Later months of one year start later. */
  lemma MonthsAscend(y: int, a: int, b: int)
    requires 1 <= a < b <= 13
    ensures DaysBeforeMonth(y, a + 1) <= DaysBeforeMonth(y, b)
  {
  }

  /** The year of era day `doe`, searched from year `k` of the 400-year cycle. */
  function FindYear(doe: int, k: nat): (r: nat)
    requires k < 400 && DaysBeforeYear(k) <= doe < DaysPerEra
    ensures k <= r < 400
    ensures DaysBeforeYear(r) <= doe < DaysBeforeYear(r + 1)
    decreases doe - DaysBeforeYear(k)
  {
    YearStep(k);
    if doe < DaysBeforeYear(k + 1) then k else FindYear(doe, k + 1)
  }

  /** The month holding day-of-year `doy` of year `y`, searched from month `m`. */
  function FindMonth(y: int, doy: int, m: int): (r: int)
    requires 1 <= m <= 12 && DaysBeforeMonth(y, m) <= doy < YearLength(y)
    ensures m <= r <= 12
    ensures DaysBeforeMonth(y, r) <= doy < DaysBeforeMonth(y, r + 1)
    decreases 12 - m
  {
    MonthStep(y, m);
    if doy < DaysBeforeMonth(y, m + 1) then m else FindMonth(y, doy, m + 1)
  }

  /** The civil date of day `n`, computed by splitting off whole 400-year eras. */
  function ComputeCivil(n: Day): (c: Civil)
    ensures ValidCivil(c)
    ensures DaysFromCivil(c) == n
  {
    var z := n + EpochOffset;
    var era := z / DaysPerEra;
    var doe := z % DaysPerEra;
    var yoe := FindYear(doe, 0);
    var y := 400 * era + yoe;
    var doy := doe - DaysBeforeYear(yoe);
    EraShift(era, yoe);
    EraShift(era, yoe + 1);
    YearStep(yoe);
    var m := FindMonth(y, doy, 1);
    MonthStep(y, m);
    Civil(y, m, doy - DaysBeforeMonth(y, m) + 1)
  }

  /** The civil date of day `n`: the one valid date whose day number is `n`
      (ComputeCivil shows there is one, CivilOrder that there is only one). */
  function CivilFromDays(n: Day): Civil
  {
    var w := ComputeCivil(n);
    CivilUnique();
    var c :| ValidCivil(c) && DaysFromCivil(c) == n;
    c
  }

  /** The civil date of a day is valid and has that day number. */
  lemma CivilFromDaysSpec(n: Day)
    ensures ValidCivil(CivilFromDays(n)) && DaysFromCivil(CivilFromDays(n)) == n
  {
    var w := ComputeCivil(n);
  }

  /** Different valid dates have different day numbers. */
  lemma CivilUnique()
    ensures forall a, b :: ValidCivil(a) && ValidCivil(b) && DaysFromCivil(a) == DaysFromCivil(b) ==> a == b
  {
    forall a, b | ValidCivil(a) && ValidCivil(b) && DaysFromCivil(a) == DaysFromCivil(b)
      ensures a == b
    {
      CivilOrder(a, b);
    }
  }

  /** Lexicographic order on (year, month, day). */
  predicate CivilBefore(a: Civil, b: Civil)
  {
    a.year < b.year
    || (a.year == b.year && (a.month < b.month || (a.month == b.month && a.day < b.day)))
  }

  /** Among valid dates, calendar order is day-number order. */
  lemma CivilOrder(a: Civil, b: Civil)
    requires ValidCivil(a) && ValidCivil(b)
    ensures CivilBefore(a, b) <==> DaysFromCivil(a) < DaysFromCivil(b)
    ensures a == b <==> DaysFromCivil(a) == DaysFromCivil(b)
  {
    if CivilBefore(a, b) {
      CivilAscend(a, b);
    } else if CivilBefore(b, a) {
      CivilAscend(b, a);
    }
  }

  lemma CivilAscend(a: Civil, b: Civil)
    requires ValidCivil(a) && ValidCivil(b) && CivilBefore(a, b)
    ensures DaysFromCivil(a) < DaysFromCivil(b)
  {
    if a.year < b.year {
      WithinYear(a);
      YearsAscend(a.year, b.year);
      assert DaysBeforeMonth(b.year, b.month) >= 0;
    } else if a.month < b.month {
      MonthStep(a.year, a.month);
      MonthsAscend(a.year, a.month, b.month);
    }
  }

  /** A valid date falls before the first day of the next year. */
  lemma WithinYear(c: Civil)
    requires ValidCivil(c)
    ensures DaysFromCivil(c) < DaysBeforeYear(c.year + 1) - EpochOffset
  {
    MonthStep(c.year, c.month);
    MonthsAscend(c.year, c.month, 13);
    YearStep(c.year);
    assert DaysBeforeMonth(c.year, 13) == YearLength(c.year);
  }

  /** Formatting after parsing: a valid date survives the trip through its day number. */
  lemma CivilRoundTrip(c: Civil)
    requires ValidCivil(c)
    ensures CivilFromDays(DaysFromCivil(c)) == c
  {
    CivilFromDaysSpec(DaysFromCivil(c));
    CivilOrder(c, CivilFromDays(DaysFromCivil(c)));
  }

  /** The calendar successor of a valid date. */
  function NextCivil(c: Civil): (r: Civil)
    requires ValidCivil(c)
    ensures ValidCivil(r)
  {
    if c.day < DaysInMonth(c.year, c.month) then Civil(c.year, c.month, c.day + 1)
    else if c.month < 12 then Civil(c.year, c.month + 1, 1)
    else Civil(c.year + 1, 1, 1)
  }

  /** Adding one to a day number moves to the next calendar day, across
      month and year ends (the `setDate(getDate() + 1)` step). */
  lemma NextDay(n: Day)
    ensures CivilFromDays(n + 1) == NextCivil(CivilFromDays(n))
  {
    var c := CivilFromDays(n);
    CivilFromDaysSpec(n);
    var next := NextCivil(c);
    NextCivilStep(c);
    assert DaysFromCivil(next) == n + 1;
    CivilRoundTrip(next);
    assert CivilFromDays(DaysFromCivil(next)) == next;
  }

  lemma NextCivilStep(c: Civil)
    requires ValidCivil(c)
    ensures DaysFromCivil(NextCivil(c)) == DaysFromCivil(c) + 1
  {
    MonthStep(c.year, c.month);
    if c.day == DaysInMonth(c.year, c.month) && c.month == 12 {
      YearStep(c.year);
    }
  }

  /** `getDay()`: 0 = Sunday .. 6 = Saturday; 1970-01-01 was a Thursday. */
  function DayOfWeek(n: Day): (w: int)
    ensures 0 <= w < 7
    ensures n == 0 ==> w == 4
  {
    (n + 4) % 7
  }

  /** The weekday advances by one, modulo 7, from each day to the next. */
  lemma DayOfWeekStep(n: Day)
    ensures DayOfWeek(n + 1) == (DayOfWeek(n) + 1) % 7
  {
  }

  /** ECMAScript `MakeDay` as `new Date(year, month, day)` uses it: the month
      is 0-based and may overflow into other years, the day may be 0 or
      beyond the month's end, and a year 0..99 means 1900..1999. */
  function MakeDay(year: int, month0: int, day: int): Day
  {
    var y := FullYear(year) + month0 / 12;
    DaysFromCivil(Civil(y, month0 % 12 + 1, 1)) + day - 1
  }

  /** The Date constructor maps two-digit years into the 1900s. */
  function FullYear(year: int): (y: int)
    ensures 0 <= year <= 99 ==> y == 1900 + year
    ensures !(0 <= year <= 99) ==> y == year
  {
    if 0 <= year <= 99 then 1900 + year else year
  }
}
