/** The date helpers of src/utils/dateUtils.ts over `YYYY-MM-DD` strings
    (the `full-date` form of section 5.6 of RFC 3339), for years 0000-9999.
    The clock is a parameter: `today` is the current day number. */
module DateUtils {
  import opened Wrappers
  import opened CivilCalendar

  /** 0000-01-01 and 9999-12-31, the days a four-digit year can name. */
  const MinDay: Day := -719528
  const MaxDay: Day := 2932896

  predicate InRange(n: Day)
  {
    MinDay <= n <= MaxDay
  }

  /** The day numbers in range are exactly those of the years 0000-9999. */
  lemma InRangeYears(n: Day)
    ensures InRange(n) <==> 0 <= CivilFromDays(n).year <= 9999
  {
    var c := CivilFromDays(n);
    CivilFromDaysSpec(n);
    var first, last := Civil(0, 1, 1), Civil(9999, 12, 31);
    assert DaysFromCivil(first) == MinDay;
    assert DaysFromCivil(last) == MaxDay;
    CivilOrder(c, first);
    CivilOrder(last, c);
  }

  // ---------------------------------------------------------------------
  // Digits

  predicate IsDigit(ch: char)
  {
    '0' <= ch <= '9'
  }

  function DigitValue(ch: char): (k: int)
    requires IsDigit(ch)
    ensures 0 <= k <= 9
  {
    ch as int - 48
  }

  function DigitChar(k: int): (ch: char)
    requires 0 <= k <= 9
    ensures IsDigit(ch) && DigitValue(ch) == k
  {
    (48 + k) as char
  }

  lemma DigitRoundTrip(ch: char)
    requires IsDigit(ch)
    ensures 0 <= DigitValue(ch) <= 9 && DigitChar(DigitValue(ch)) == ch
  {
  }

  /** The number two digit characters spell. */
  function Digits2(hi: char, lo: char): int
    requires IsDigit(hi) && IsDigit(lo)
  {
    10 * DigitValue(hi) + DigitValue(lo)
  }

  /** Two digit characters are the tens and units of the number they spell. */
  lemma Digits2RoundTrip(hi: char, lo: char)
    requires IsDigit(hi) && IsDigit(lo)
    ensures Digits2(hi, lo) / 10 == DigitValue(hi) && Digits2(hi, lo) % 10 == DigitValue(lo)
    ensures DigitChar(DigitValue(hi)) == hi && DigitChar(DigitValue(lo)) == lo
  {
  }

  function Pow10(w: nat): nat
  {
    if w == 0 then 1 else 10 * Pow10(w - 1)
  }

  /** A zero-padded field of `toISOString`'s date part (four-digit year,
      two-digit month and day): the last `width` decimal digits of `x`. */
  function PadDigits(x: nat, width: nat): (s: string)
    ensures |s| == width
  {
    if width == 0 then [] else PadDigits(x / 10, width - 1) + [DigitChar(x % 10)]
  }

  lemma Pad2Chars(x: nat)
    requires x <= 99
    ensures PadDigits(x, 2) == [DigitChar(x / 10), DigitChar(x % 10)]
  {
    var t := x / 10;
    assert t / 10 == 0 && t % 10 == t;
    assert PadDigits(t, 1) == PadDigits(0, 0) + [DigitChar(t)];
    assert PadDigits(x, 2) == PadDigits(t, 1) + [DigitChar(x % 10)];
  }

  lemma Pad4Chars(x: nat)
    requires x <= 9999
    ensures PadDigits(x, 4) == PadDigits(x / 100, 2) + PadDigits(x % 100, 2)
  {
    var q := x / 10;
    assert q / 10 == x / 100 && q % 10 == x % 100 / 10 && x % 10 == x % 100 % 10;
    Pad2Chars(x % 100);
    calc {
      PadDigits(x, 4);
      PadDigits(q, 3) + [DigitChar(x % 10)];
      PadDigits(x / 100, 2) + [DigitChar(q % 10)] + [DigitChar(x % 10)];
    }
  }

  /** Padded numbers of one width compare as strings as they do as numbers. */
  lemma {:induction false} PadDigitsOrder(a: nat, b: nat, width: nat)
    requires a < Pow10(width) && b < Pow10(width)
    ensures LexLess(PadDigits(a, width), PadDigits(b, width)) <==> a < b
    ensures PadDigits(a, width) == PadDigits(b, width) <==> a == b
  {
    if width > 0 {
      var p, q := PadDigits(a / 10, width - 1), PadDigits(b / 10, width - 1);
      var x, y := [DigitChar(a % 10)], [DigitChar(b % 10)];
      PadDigitsOrder(a / 10, b / 10, width - 1);
      LexLessConcat(p, q, x, y);
      assert LexLess(x, y) <==> a % 10 < b % 10 by {
        assert x[1..] == [] && y[1..] == [];
      }
      assert p + x == q + y <==> p == q && x == y by {
        if p + x == q + y {
          assert p == (p + x)[..|p|] && q == (q + y)[..|q|];
          assert x[0] == (p + x)[|p|] && y[0] == (q + y)[|q|];
        }
      }
    }
  }

  /** The number a string of decimal digits denotes. */
  function DigitsValue(s: string): nat
    requires forall i :: 0 <= i < |s| ==> IsDigit(s[i])
  {
    if |s| == 0 then 0 else 10 * DigitsValue(s[..|s| - 1]) + DigitValue(s[|s| - 1])
  }

  /** `n.toString()` for a natural number: decimal digits denoting `n`,
      with no leading zero unless `n` is 0. */
  function NatToString(n: nat): (s: string)
    ensures |s| > 0 && forall i :: 0 <= i < |s| ==> IsDigit(s[i])
    ensures DigitsValue(s) == n
    ensures s[0] == '0' ==> n == 0 && |s| == 1
  {
    if n < 10 then [DigitChar(n)] else NatToString(n / 10) + [DigitChar(n % 10)]
  }

  // ---------------------------------------------------------------------
  // Formatting and parsing

  /** The `YYYY-MM-DD` layout: digits everywhere except two dashes. */
  predicate IsDateShape(s: string)
  {
    && |s| == 10
    && IsDigit(s[0]) && IsDigit(s[1]) && IsDigit(s[2]) && IsDigit(s[3]) && s[4] == '-'
    && IsDigit(s[5]) && IsDigit(s[6]) && s[7] == '-' && IsDigit(s[8]) && IsDigit(s[9])
  }

  /** The four-digit year, month and day written in a date-shaped string. */
  function Fields(s: string): (c: Civil)
    requires IsDateShape(s)
    ensures 0 <= c.year <= 9999 && 0 <= c.month <= 99 && 0 <= c.day <= 99
  {
    Civil(100 * Digits2(s[0], s[1]) + Digits2(s[2], s[3]), Digits2(s[5], s[6]), Digits2(s[8], s[9]))
  }

  /** Year, month and day laid out as `YYYY-MM-DD`. */
  function Layout(c: Civil): (s: string)
    requires 0 <= c.year <= 9999 && 1 <= c.month <= 12 && 1 <= c.day <= 31
  {
    PadDigits(c.year, 4) + ("-" + (PadDigits(c.month, 2) + ("-" + PadDigits(c.day, 2))))
  }

  /** The characters of a layout, one by one. */
  lemma LayoutChars(c: Civil)
    requires 0 <= c.year <= 9999 && 1 <= c.month <= 12 && 1 <= c.day <= 31
    ensures IsDateShape(Layout(c))
    ensures var s, hi, lo := Layout(c), c.year / 100, c.year % 100;
      && s[0] == DigitChar(hi / 10) && s[1] == DigitChar(hi % 10)
      && s[2] == DigitChar(lo / 10) && s[3] == DigitChar(lo % 10)
      && s[5] == DigitChar(c.month / 10) && s[6] == DigitChar(c.month % 10)
      && s[8] == DigitChar(c.day / 10) && s[9] == DigitChar(c.day % 10)
  {
    Pad4Chars(c.year);
    Pad2Chars(c.year / 100);
    Pad2Chars(c.year % 100);
    Pad2Chars(c.month);
    Pad2Chars(c.day);
  }

  /** Reading the fields back from a layout gives the date laid out. */
  lemma LayoutFields(c: Civil)
    requires 0 <= c.year <= 9999 && 1 <= c.month <= 12 && 1 <= c.day <= 31
    ensures IsDateShape(Layout(c)) && Fields(Layout(c)) == c
  {
    LayoutChars(c);
  }

  /** Two digit characters are fixed by the number they spell. */
  lemma Digits2Injective(a: char, b: char, c: char, d: char)
    requires IsDigit(a) && IsDigit(b) && IsDigit(c) && IsDigit(d)
    requires Digits2(a, b) == Digits2(c, d)
    ensures a == c && b == d
  {
    Digits2RoundTrip(a, b);
    Digits2RoundTrip(c, d);
  }

  /** A date-shaped string is fixed by its fields. */
  lemma FieldsInjective(s: string, t: string)
    requires IsDateShape(s) && IsDateShape(t) && Fields(s) == Fields(t)
    ensures s == t
  {
    var hs, ls := Digits2(s[0], s[1]), Digits2(s[2], s[3]);
    var ht, lt := Digits2(t[0], t[1]), Digits2(t[2], t[3]);
    assert 100 * hs + ls == 100 * ht + lt;
    assert hs == ht && ls == lt;
    Digits2Injective(s[0], s[1], t[0], t[1]);
    Digits2Injective(s[2], s[3], t[2], t[3]);
    Digits2Injective(s[5], s[6], t[5], t[6]);
    Digits2Injective(s[8], s[9], t[8], t[9]);
    assert forall k :: 0 <= k < 10 ==> s[k] == t[k];
  }

  /** A date-shaped string whose month and day are in range is the layout of its fields. */
  lemma FieldsLayout(s: string)
    requires IsDateShape(s)
    requires 1 <= Fields(s).month <= 12 && 1 <= Fields(s).day <= 31
    ensures Layout(Fields(s)) == s
  {
    LayoutFields(Fields(s));
    FieldsInjective(Layout(Fields(s)), s);
  }

  /** `formatDate`: the UTC calendar date of day `n` as `YYYY-MM-DD`. */
  function FormatDate(n: Day): string
    requires InRange(n)
  {
    InRangeYears(n);
    CivilFromDaysSpec(n);
    Layout(CivilFromDays(n))
  }

  /** The fields written by FormatDate are the civil date of the day. */
  lemma FormatFields(n: Day)
    requires InRange(n)
    ensures IsDateShape(FormatDate(n)) && Fields(FormatDate(n)) == CivilFromDays(n)
  {
    InRangeYears(n);
    CivilFromDaysSpec(n);
    LayoutFields(CivilFromDays(n));
  }

  /** `parseDate`: the day a `YYYY-MM-DD` string names, or None where
      `new Date(...)` gives an invalid date. Formatting the day gives back
      the very string that was parsed. */
  function ParseDate(s: string): (r: Option<Day>)
    ensures r.Some? ==> InRange(r.value)
  {
    if IsDateShape(s) && ValidCivil(Fields(s)) then
      var c := Fields(s);
      CivilRoundTrip(c);
      InRangeYears(DaysFromCivil(c));
      Some(DaysFromCivil(c))
    else
      None
  }

  /** A string parses only to a day in range whose formatted form is that
      very string. */
  lemma ParseDateSpec(s: string)
    ensures ParseDate(s).Some? ==> InRange(ParseDate(s).value) && FormatDate(ParseDate(s).value) == s
  {
    if ParseDate(s).Some? {
      var c := Fields(s);
      FieldsLayout(s);
      CivilRoundTrip(c);
    }
  }

  /** Parsing after formatting gives back the day. */
  lemma ParseFormat(n: Day)
    requires InRange(n)
    ensures ParseDate(FormatDate(n)) == Some(n)
  {
    FormatFields(n);
  }

  /** Two days in range format to the same string only if they are the same day. */
  lemma FormatInjective(a: Day, b: Day)
    requires InRange(a) && InRange(b)
    ensures FormatDate(a) == FormatDate(b) <==> a == b
  {
    ParseFormat(a);
    ParseFormat(b);
  }

  // ---------------------------------------------------------------------
  // String order

  /** JavaScript's `<` on strings: lexicographic order of code units. */
  predicate LexLess(a: string, b: string)
  {
    if |a| == 0 then |b| > 0
    else if |b| == 0 then false
    else if a[0] != b[0] then a[0] < b[0]
    else LexLess(a[1..], b[1..])
  }

  /** Comparing two strings with equal-length heads compares the heads first. */
  lemma {:induction false} LexLessConcat(p: string, q: string, x: string, y: string)
    requires |p| == |q|
    ensures LexLess(p + x, q + y) == if p == q then LexLess(x, y) else LexLess(p, q)
  {
    if |p| == 0 {
      assert p + x == x && q + y == y;
    } else {
      assert (p + x)[0] == p[0] && (q + y)[0] == q[0];
      assert (p + x)[1..] == p[1..] + x && (q + y)[1..] == q[1..] + y;
      if p[0] == q[0] {
        LexLessConcat(p[1..], q[1..], x, y);
        assert p == q <==> p[1..] == q[1..] by {
          assert p == [p[0]] + p[1..] && q == [q[0]] + q[1..];
        }
      }
    }
  }

  /** String order of laid-out dates is calendar order. */
  lemma LayoutOrder(c: Civil, d: Civil)
    requires 0 <= c.year <= 9999 && 1 <= c.month <= 12 && 1 <= c.day <= 31
    requires 0 <= d.year <= 9999 && 1 <= d.month <= 12 && 1 <= d.day <= 31
    ensures LexLess(Layout(c), Layout(d)) <==> CivilBefore(c, d)
  {
    var yc, yd := PadDigits(c.year, 4), PadDigits(d.year, 4);
    var mc, md := PadDigits(c.month, 2), PadDigits(d.month, 2);
    var dc, dd := PadDigits(c.day, 2), PadDigits(d.day, 2);
    PadDigitsOrder(c.year, d.year, 4);
    PadDigitsOrder(c.month, d.month, 2);
    PadDigitsOrder(c.day, d.day, 2);
    LexLessConcat(yc, yd, "-" + (mc + ("-" + dc)), "-" + (md + ("-" + dd)));
    LexLessConcat("-", "-", mc + ("-" + dc), md + ("-" + dd));
    LexLessConcat(mc, md, "-" + dc, "-" + dd);
    LexLessConcat("-", "-", dc, dd);
    assert "-" + dc == "-" + dd <==> dc == dd by {
      if "-" + dc == "-" + dd {
        assert dc == ("-" + dc)[1..] && dd == ("-" + dd)[1..];
      }
    }
    assert mc + ("-" + dc) == md + ("-" + dd) <==> mc == md && dc == dd by {
      if mc + ("-" + dc) == md + ("-" + dd) {
        assert mc == (mc + ("-" + dc))[..2] && md == (md + ("-" + dd))[..2];
        assert dc == (mc + ("-" + dc))[3..] && dd == (md + ("-" + dd))[3..];
      }
    }
  }

  /** The source compares `YYYY-MM-DD` strings with `<`, `<=`, `>=` and
      `sort()`: for years 0000-9999 that is the order of the days. */
  lemma FormatOrder(a: Day, b: Day)
    requires InRange(a) && InRange(b)
    ensures LexLess(FormatDate(a), FormatDate(b)) <==> a < b
  {
    var c, d := CivilFromDays(a), CivilFromDays(b);
    InRangeYears(a);
    InRangeYears(b);
    LayoutOrder(c, d);
    CivilOrder(c, d);
  }

  // ---------------------------------------------------------------------
  // The exported helpers

  /** `getToday()` for the current day `today`. */
  function GetToday(today: Day): string
    requires InRange(today)
  {
    FormatDate(today)
  }

  /** `isToday(dateStr)`: exactly the strings that parse to today. */
  function IsToday(s: string, today: Day): (r: bool)
    requires InRange(today)
    ensures r <==> ParseDate(s) == Some(today)
  {
    ParseFormat(today);
    ParseDateSpec(s);
    s == GetToday(today)
  }

  /** `getDaysAgo(days)`: the calendar day `days` before today. */
  function GetDaysAgo(today: Day, days: int): (s: string)
    requires InRange(today - days)
    ensures ParseDate(s) == Some(today - days)
  {
    var n := today - days;
    ParseFormat(n);
    FormatDate(n)
  }

  /** `getDaysFromNow(days)`: the calendar day `days` after today. */
  function GetDaysFromNow(today: Day, days: int): (s: string)
    requires InRange(today + days)
    ensures ParseDate(s) == Some(today + days)
  {
    var n := today + days;
    ParseFormat(n);
    FormatDate(n)
  }

  /** `getDaysAgo(-n)` is `getDaysFromNow(n)`, and each names the day it should. */
  lemma DaysAgoDaysFromNow(today: Day, days: int)
    requires InRange(today + days) && InRange(today - days)
    ensures GetDaysAgo(today, -days) == GetDaysFromNow(today, days)
    ensures ParseDate(GetDaysAgo(today, days)) == Some(today - days)
    ensures ParseDate(GetDaysFromNow(today, days)) == Some(today + days)
  {
    SameDate(today - -days, today + days);
  }

  /** `isPast`: an invalid date compares false against today. */
  function IsPast(s: string, today: Day): bool
  {
    match ParseDate(s)
    case Some(d) => d < today
    case None => false
  }

  /** `isFuture`: an invalid date compares false against today. */
  function IsFuture(s: string, today: Day): bool
  {
    match ParseDate(s)
    case Some(d) => d > today
    case None => false
  }

  /** Never both; neither exactly for today and for strings that do not parse. */
  lemma PastFutureExclusive(s: string, today: Day)
    ensures !(IsPast(s, today) && IsFuture(s, today))
    ensures !IsPast(s, today) && !IsFuture(s, today)
        <==> ParseDate(s) == Some(today) || ParseDate(s) == None
  {
  }

  /** The number of days between two day numbers. */
  function Distance(a: Day, b: Day): nat
  {
    if b >= a then b - a else a - b
  }

  /** `daysDifference`: the absolute number of days between two dates; None for NaN. */
  function DaysDifference(s1: string, s2: string): (r: Option<nat>)
    ensures r.Some? <==> ParseDate(s1).Some? && ParseDate(s2).Some?
  {
    match (ParseDate(s1), ParseDate(s2))
    case (Some(a), Some(b)) => Some(Distance(a, b))
    case _ => None
  }

  /** Symmetric, and 0 exactly when both strings are the same valid date. */
  lemma DaysDifferenceProperties(s1: string, s2: string)
    ensures DaysDifference(s1, s2) == DaysDifference(s2, s1)
    ensures DaysDifference(s1, s2) == Some(0) <==> ParseDate(s1).Some? && s1 == s2
  {
    ParseDateSpec(s1);
    ParseDateSpec(s2);
  }

  /** `getDayOfWeek`: 0 = Sunday .. 6 = Saturday; None for an invalid date. */
  function GetDayOfWeek(s: string): (r: Option<int>)
    ensures r.Some? <==> ParseDate(s).Some?
    ensures r.Some? ==> 0 <= r.value < 7
  {
    match ParseDate(s)
    case Some(d) => Some(DayOfWeek(d))
    case None => None
  }

  const DayNames: seq<string> :=
    ["Sunday", "Monday", "Tuesday", "Wednesday", "Thursday", "Friday", "Saturday"]

  /** `getDayOfWeekName`: the weekday always indexes inside the name table. */
  function GetDayOfWeekName(s: string): (r: Option<string>)
    ensures r.Some? <==> ParseDate(s).Some?
    ensures r.Some? ==> r.value in DayNames
  {
    match GetDayOfWeek(s)
    case Some(w) => Some(DayNames[w])
    case None => None
  }

  /** The formatted days `a`, `a + 1`, ..., `a + n - 1`: entry `k` is day `a + k`. */
  function FormatRange(a: Day, n: nat): (r: seq<string>)
    requires MinDay <= a && a + n - 1 <= MaxDay
    ensures |r| == n
  {
    seq(n, k requires 0 <= k < n => FormatDate(a + k))
  }

  /** Extending the range from `a` by the day `c` appends `c` formatted. */
  lemma FormatRangeSnoc(a: Day, c: Day)
    requires MinDay <= a <= c <= MaxDay
    ensures FormatRange(a, c - a + 1) == FormatRange(a, c - a) + [FormatDate(c)]
  {
    var r, l := FormatRange(a, c - a + 1), FormatRange(a, c - a) + [FormatDate(c)];
    forall k | 0 <= k < |r|
      ensures r[k] == l[k]
    {
      if k == c - a {
        SameDate(a + k, c);
      }
    }
  }

  /** Equal days format alike. */
  lemma SameDate(x: Day, y: Day)
    requires InRange(x) && x == y
    ensures InRange(y) && FormatDate(x) == FormatDate(y)
  {
  }

  lemma FormatRangeAt(a: Day, n: nat, i: nat)
    requires MinDay <= a && a + n - 1 <= MaxDay && i < n
    ensures InRange(a + i) && FormatRange(a, n)[i] == FormatDate(a + i)
  {
  }

  /** The entries of a formatted range ascend in string order, so the
      source's string comparisons see them in calendar order. */
  lemma FormatRangeAscending(a: Day, n: nat, i: nat, j: nat)
    requires MinDay <= a && a + n - 1 <= MaxDay && i < j < n
    ensures LexLess(FormatRange(a, n)[i], FormatRange(a, n)[j])
  {
    FormatRangeAt(a, n, i);
    FormatRangeAt(a, n, j);
    FormatOrder(a + i, a + j);
  }

  /** The dates from day `a` to day `b` inclusive; none when `b` is before `a`. */
  function DaysBetween(a: Day, b: Day): (r: seq<string>)
    requires InRange(a) && InRange(b)
    ensures |r| == if b < a then 0 else b - a + 1
  {
    if b < a then [] else FormatRange(a, b - a + 1)
  }

  /** `getDateRange`: every day from start to end inclusive, ascending;
      empty when end is before start or either date is invalid. */
  method GetDateRange(startStr: string, endStr: string) returns (dates: seq<string>)
    ensures ParseDate(startStr).None? || ParseDate(endStr).None? ==> dates == []
    ensures ParseDate(startStr).Some? && ParseDate(endStr).Some? ==>
      dates == DaysBetween(ParseDate(startStr).value, ParseDate(endStr).value)
  {
    dates := [];
    var start, end := ParseDate(startStr), ParseDate(endStr);
    if start.Some? && end.Some? {
      dates := FormatDays(start.value, end.value);
    }
  }

  /** The loop of `getDateRange`, from the parsed start to the parsed end. */
  method FormatDays(a: Day, b: Day) returns (dates: seq<string>)
    requires InRange(a) && InRange(b)
    ensures dates == DaysBetween(a, b)
  {
    dates := [];
    var current := a;
    while current <= b
      invariant a <= current && (current <= b + 1 || current == a)
      invariant dates == FormatRange(a, current - a)
    {
      FormatRangeSnoc(a, current);
      dates := dates + [FormatDate(current)];
      current := current + 1;  // setDate(getDate() + 1): the next calendar day (NextDay)
    }
  }

  /** A range of valid dates holds one more date than the days between its ends. */
  lemma DateRangeLength(startStr: string, endStr: string)
    requires ParseDate(startStr).Some? && ParseDate(endStr).Some?
    requires ParseDate(startStr).value <= ParseDate(endStr).value
    ensures |DaysBetween(ParseDate(startStr).value, ParseDate(endStr).value)|
      == DaysDifference(startStr, endStr).value + 1
  {
  }

  /** A valid date of a four-digit year is in range and is the civil date of its day number. */
  lemma TargetInRange(c: Civil)
    requires ValidCivil(c) && 0 <= c.year <= 9999
    ensures InRange(DaysFromCivil(c)) && CivilFromDays(DaysFromCivil(c)) == c
  {
    CivilRoundTrip(c);
    InRangeYears(DaysFromCivil(c));
  }

  /** Day 0 of the following month is the last day of month `month0` (0-based). */
  lemma LastOfMonth(year: int, month0: int)
    ensures var y := FullYear(year) + month0 / 12; var m := month0 % 12 + 1;
      MakeDay(year, month0 + 1, 0) == DaysFromCivil(Civil(y, m, DaysInMonth(y, m)))
  {
    var y := FullYear(year) + month0 / 12;
    var m := month0 % 12 + 1;
    var c := Civil(y, m, DaysInMonth(y, m));
    NextCivilStep(c);
    if m == 12 {
      assert (month0 + 1) / 12 == month0 / 12 + 1 && (month0 + 1) % 12 == 0;
    } else {
      assert (month0 + 1) / 12 == month0 / 12 && (month0 + 1) % 12 == m;
    }
  }

  /** `new Date(d.getFullYear(), d.getMonth(), 1)`: the first of the month of day `d`. */
  lemma FirstOfMonthDay(d: Day)
    requires InRange(d)
    ensures var c := CivilFromDays(d); var first := MakeDay(c.year, c.month - 1, 1);
      InRange(first) && CivilFromDays(first) == Civil(FullYear(c.year), c.month, 1)
  {
    var c := CivilFromDays(d);
    CivilFromDaysSpec(d);
    InRangeYears(d);
    assert (c.month - 1) / 12 == 0 && (c.month - 1) % 12 + 1 == c.month;
    var t := Civil(FullYear(c.year), c.month, 1);
    assert MakeDay(c.year, c.month - 1, 1) == DaysFromCivil(t);
    TargetInRange(t);
  }

  /** `new Date(d.getFullYear(), d.getMonth() + 1, 0)`: the last of the month of day `d`. */
  lemma LastOfMonthDay(d: Day)
    requires InRange(d)
    ensures var c := CivilFromDays(d); var y := FullYear(c.year);
      var last := MakeDay(c.year, c.month, 0);
      InRange(last) && CivilFromDays(last) == Civil(y, c.month, DaysInMonth(y, c.month))
  {
    var c := CivilFromDays(d);
    CivilFromDaysSpec(d);
    InRangeYears(d);
    var y := FullYear(c.year);
    LastOfMonthWithin(c.year, c.month);
    TargetInRange(Civil(y, c.month, DaysInMonth(y, c.month)));
  }

  /** Day 0 of the month after month `m` (1-based) of a year is the last of month `m`. */
  lemma LastOfMonthWithin(year: int, m: int)
    requires 1 <= m <= 12
    ensures MakeDay(year, m, 0) == DaysFromCivil(Civil(FullYear(year), m, DaysInMonth(FullYear(year), m)))
  {
    var y := FullYear(year);
    MonthStep(y, m);
    if m == 12 {
      assert m / 12 == 1 && m % 12 + 1 == 1;
      YearStep(y);
    } else {
      assert m / 12 == 0 && m % 12 + 1 == m + 1;
    }
  }

  /** `getFirstDayOfMonth`: the first of the month of a valid date, None where
      `toISOString` throws on an invalid one. The year goes through
      `new Date(year, month, 1)`, which reads years 0..99 as 1900..1999. */
  function GetFirstDayOfMonth(s: string): (r: Option<string>)
    ensures r.Some? <==> ParseDate(s).Some?
    ensures r.Some? ==>
      && IsDateShape(r.value) && IsDateShape(s)
      && Fields(r.value) == Civil(FullYear(Fields(s).year), Fields(s).month, 1)
  {
    ParseDateSpec(s);
    match ParseDate(s)
    case None => None
    case Some(d) =>
      var c := CivilFromDays(d);
      var first := MakeDay(c.year, c.month - 1, 1);
      FirstOfMonthDay(d);
      FormatFields(d);
      FormatFields(first);
      Some(FormatDate(first))
  }

  /** `getLastDayOfMonth`: day 0 of the following month, through
      `new Date(year, month + 1, 0)`: the month's length by the Gregorian rule. */
  function GetLastDayOfMonth(s: string): (r: Option<string>)
    ensures r.Some? <==> ParseDate(s).Some?
    ensures r.Some? ==>
      && IsDateShape(r.value) && IsDateShape(s)
      && var y := FullYear(Fields(s).year);
         Fields(r.value) == Civil(y, Fields(s).month, DaysInMonth(y, Fields(s).month))
  {
    ParseDateSpec(s);
    match ParseDate(s)
    case None => None
    case Some(d) =>
      var c := CivilFromDays(d);
      var last := MakeDay(c.year, c.month, 0);
      LastOfMonthDay(d);
      FormatFields(d);
      FormatFields(last);
      Some(FormatDate(last))
  }

  /** For years from 100 on, the first and last day of the month keep the
      year and month of the date, and the date lies between them. */
  lemma MonthBounds(s: string)
    requires ParseDate(s).Some? && Fields(s).year >= 100
    ensures var first, last := Fields(GetFirstDayOfMonth(s).value), Fields(GetLastDayOfMonth(s).value);
      && first.year == last.year == Fields(s).year
      && first.month == last.month == Fields(s).month
      && first.day == 1 <= Fields(s).day <= last.day
  {
    FormatFields(ParseDate(s).value);
  }

  /** For years 0000-0099 the month helpers land in the 1900s: the first and
      last day of the month carry year 1900 + year, so the date itself lies
      before the "first day of its month". */
  lemma TwoDigitYearShift(s: string)
    requires ParseDate(s).Some? && Fields(s).year <= 99
    ensures var first, last := Fields(GetFirstDayOfMonth(s).value), Fields(GetLastDayOfMonth(s).value);
      && first == Civil(1900 + Fields(s).year, Fields(s).month, 1)
      && last.year == 1900 + Fields(s).year && last.month == Fields(s).month
    ensures ParseDate(GetFirstDayOfMonth(s).value).Some?
    ensures ParseDate(s).value < ParseDate(GetFirstDayOfMonth(s).value).value
  {
    var c := Fields(s);
    var f := Fields(GetFirstDayOfMonth(s).value);
    assert ValidCivil(c);
    assert ValidCivil(f);
    CivilOrder(c, f);
  }

  /** The `i`-th day after the first of a month is day `i + 1` of that month. */
  lemma DayOfMonth(y: int, m: int, i: int)
    requires 0 <= y <= 9999 && 1 <= m <= 12 && 0 <= i < DaysInMonth(y, m)
    ensures InRange(DaysFromCivil(Civil(y, m, 1)) + i)
    ensures CivilFromDays(DaysFromCivil(Civil(y, m, 1)) + i) == Civil(y, m, i + 1)
  {
    DayShift(y, m, i);
    TargetInRange(Civil(y, m, i + 1));
  }

  // Counting on `i` days from the first of a month is day `i + 1` of it.
  lemma DayShift(y: int, m: int, i: int)
    requires 1 <= m <= 12
    ensures DaysFromCivil(Civil(y, m, 1)) + i == DaysFromCivil(Civil(y, m, i + 1))
    ensures CivilFromDays(DaysFromCivil(Civil(y, m, 1)) + i) == CivilFromDays(DaysFromCivil(Civil(y, m, i + 1)))
  {
    var base := DaysBeforeYear(y) + DaysBeforeMonth(y, m) - EpochOffset;
    assert DaysFromCivil(Civil(y, m, 1)) == base;
    assert DaysFromCivil(Civil(y, m, i + 1)) == base + i;
  }

  /** `getDatesInMonth(year, month)` with a 0-based month: every day of that
      month, in order (the month may overflow into neighbouring years, as
      the Date constructor allows). */
  method GetDatesInMonth(year: int, month: int) returns (dates: seq<string>)
    requires 0 <= FullYear(year) + month / 12 <= 9999
    ensures var y, m := FullYear(year) + month / 12, month % 12 + 1;
      && |dates| == DaysInMonth(y, m)
      && forall i :: 0 <= i < |dates| ==> IsDateShape(dates[i]) && Fields(dates[i]) == Civil(y, m, i + 1)
  {
    var y, m := FullYear(year) + month / 12, month % 12 + 1;
    var firstDay := MakeDay(year, month, 1);
    var lastDay := MakeDay(year, month + 1, 0);
    var first, last := DaysFromCivil(Civil(y, m, 1)), DaysFromCivil(Civil(y, m, DaysInMonth(y, m)));
    MonthEnds(year, month);
    assert firstDay == first && lastDay == last;
    dates := DateRangeOfDays(first, last);
    MonthDates(y, m, dates);
  }

  /** The days `new Date(year, month, 1)` and `new Date(year, month + 1, 0)`
      name: the first and the last of the month, both in range. */
  lemma MonthEnds(year: int, month: int)
    requires 0 <= FullYear(year) + month / 12 <= 9999
    ensures var y, m := FullYear(year) + month / 12, month % 12 + 1;
      && MakeDay(year, month, 1) == DaysFromCivil(Civil(y, m, 1))
      && MakeDay(year, month + 1, 0) == DaysFromCivil(Civil(y, m, DaysInMonth(y, m)))
      && InRange(DaysFromCivil(Civil(y, m, 1)))
      && InRange(DaysFromCivil(Civil(y, m, DaysInMonth(y, m))))
  {
    var y, m := FullYear(year) + month / 12, month % 12 + 1;
    LastOfMonth(year, month);
    TargetInRange(Civil(y, m, 1));
    TargetInRange(Civil(y, m, DaysInMonth(y, m)));
  }

  /** `getDateRange(formatDate(a), formatDate(b))`: the round trip through
      the strings lands on the same days. */
  method DateRangeOfDays(a: Day, b: Day) returns (dates: seq<string>)
    requires InRange(a) && InRange(b)
    ensures dates == DaysBetween(a, b)
  {
    ParseFormat(a);
    ParseFormat(b);
    dates := GetDateRange(FormatDate(a), FormatDate(b));
  }

  /** The formatted range from the first to the last of a month spells each day of it. */
  lemma MonthDates(y: int, m: int, dates: seq<string>)
    requires 0 <= y <= 9999 && 1 <= m <= 12
    requires InRange(DaysFromCivil(Civil(y, m, 1)))
    requires InRange(DaysFromCivil(Civil(y, m, DaysInMonth(y, m))))
    requires dates == DaysBetween(DaysFromCivil(Civil(y, m, 1)), DaysFromCivil(Civil(y, m, DaysInMonth(y, m))))
    ensures |dates| == DaysInMonth(y, m)
    ensures forall i :: 0 <= i < |dates| ==> IsDateShape(dates[i]) && Fields(dates[i]) == Civil(y, m, i + 1)
  {
    forall i | 0 <= i < |dates|
      ensures IsDateShape(dates[i]) && Fields(dates[i]) == Civil(y, m, i + 1)
    {
      MonthEntry(y, m, dates, i);
    }
  }

  lemma MonthEntry(y: int, m: int, dates: seq<string>, i: int)
    requires 0 <= y <= 9999 && 1 <= m <= 12
    requires InRange(DaysFromCivil(Civil(y, m, 1)))
    requires InRange(DaysFromCivil(Civil(y, m, DaysInMonth(y, m))))
    requires dates == DaysBetween(DaysFromCivil(Civil(y, m, 1)), DaysFromCivil(Civil(y, m, DaysInMonth(y, m))))
    requires 0 <= i < |dates|
    ensures IsDateShape(dates[i]) && Fields(dates[i]) == Civil(y, m, i + 1)
  {
    var first, last := DaysFromCivil(Civil(y, m, 1)), DaysFromCivil(Civil(y, m, DaysInMonth(y, m)));
    FormatRangeAt(first, last - first + 1, i);
    MonthDate(y, m, i);
  }

  lemma MonthDate(y: int, m: int, i: int)
    requires 0 <= y <= 9999 && 1 <= m <= 12 && 0 <= i < DaysInMonth(y, m)
    ensures InRange(DaysFromCivil(Civil(y, m, 1)) + i)
    ensures var s := FormatDate(DaysFromCivil(Civil(y, m, 1)) + i);
      IsDateShape(s) && Fields(s) == Civil(y, m, i + 1)
  {
    DayOfMonth(y, m, i);
    FormatFields(DaysFromCivil(Civil(y, m, 1)) + i);
  }

  /** The number in "N day(s)": `NaN` when the difference is not a number. */
  function CountText(diff: Option<nat>): string
  {
    match diff
    case Some(n) => NatToString(n)
    case None => "NaN"
  }

  /** "s" when the difference is above 1 (a NaN difference is not). */
  function PluralSuffix(diff: Option<nat>): string
  {
    if diff.Some? && diff.value > 1 then "s" else ""
  }

  /** The label of a past date: "N day(s) ago". */
  function PastLabel(diff: Option<nat>): string
  {
    CountText(diff) + (" day" + PluralSuffix(diff) + " ago")
  }

  /** The label of any other date: "In N day(s)". */
  function FutureLabel(diff: Option<nat>): string
  {
    "In " + CountText(diff) + " day" + PluralSuffix(diff)
  }

  /** `getRelativeTimeString(dateStr)`. */
  function GetRelativeTimeString(s: string, today: Day): string
    requires InRange(today - 1) && InRange(today + 1)
  {
    var todayStr := GetToday(today);
    var diff := DaysDifference(todayStr, s);
    if s == todayStr then "Today"
    else if s == GetDaysAgo(today, -1) then "Tomorrow"
    else if s == GetDaysAgo(today, 1) then "Yesterday"
    else if IsPast(s, today) then PastLabel(diff)
    else FutureLabel(diff)
  }

  /** The labels other than the three named days begin with a digit, 'N' or 'I'. */
  lemma OtherLabels(diff: Option<nat>)
    ensures PastLabel(diff)[0] != 'T' && PastLabel(diff)[0] != 'Y'
    ensures FutureLabel(diff)[0] != 'T' && FutureLabel(diff)[0] != 'Y'
  {
    var text := CountText(diff);
    assert text[0] == 'N' || IsDigit(text[0]);
    assert PastLabel(diff)[0] == text[0];
  }

  /** A string equals the formatted form of a day exactly when it parses to it. */
  lemma NamesDay(s: string, d: Day)
    requires InRange(d)
    ensures s == FormatDate(d) <==> ParseDate(s) == Some(d)
  {
    ParseFormat(d);
    ParseDateSpec(s);
  }

  /** The difference from today is the distance to the day the string names. */
  lemma DiffFromToday(s: string, today: Day)
    requires InRange(today)
    ensures ParseDate(s).None? ==> DaysDifference(GetToday(today), s).None?
    ensures ParseDate(s).Some? ==> DaysDifference(GetToday(today), s) == Some(Distance(today, ParseDate(s).value))
  {
    ParseFormat(today);
  }

  /** What the comparisons in `getRelativeTimeString` decide, in terms of
      the day the string names. */
  lemma Classify(s: string, today: Day)
    requires InRange(today - 1) && InRange(today + 1)
    ensures s == GetToday(today) <==> ParseDate(s) == Some(today)
    ensures s == GetDaysAgo(today, -1) <==> ParseDate(s) == Some(today + 1)
    ensures s == GetDaysAgo(today, 1) <==> ParseDate(s) == Some(today - 1)
  {
    NamesDay(s, today);
    NamesDay(s, today + 1);
    NamesDay(s, today - 1);
  }

  /** The label in terms of the day a string names (None: not a date). */
  function LabelOfDay(p: Option<Day>, today: Day): string
  {
    match p
    case None => FutureLabel(None)
    case Some(d) =>
      if d == today then "Today"
      else if d == today + 1 then "Tomorrow"
      else if d == today - 1 then "Yesterday"
      else if d < today then PastLabel(Some(today - d))
      else FutureLabel(Some(d - today))
  }

  /** The string comparisons of `getRelativeTimeString` pick the label of
      the day the string names. */
  lemma RelativeTimeByDay(s: string, today: Day)
    requires InRange(today - 1) && InRange(today + 1)
    ensures GetRelativeTimeString(s, today) == LabelOfDay(ParseDate(s), today)
  {
    Classify(s, today);
    DiffFromToday(s, today);
  }

  /** 'Today', 'Tomorrow' and 'Yesterday' exactly for those days. */
  lemma RelativeTimeNamedDays(s: string, today: Day)
    requires InRange(today - 1) && InRange(today + 1)
    ensures GetRelativeTimeString(s, today) == "Today" <==> ParseDate(s) == Some(today)
    ensures GetRelativeTimeString(s, today) == "Tomorrow" <==> ParseDate(s) == Some(today + 1)
    ensures GetRelativeTimeString(s, today) == "Yesterday" <==> ParseDate(s) == Some(today - 1)
  {
    RelativeTimeByDay(s, today);
    match ParseDate(s)
    case None => OtherLabels(None);
    case Some(d) =>
      if d < today {
        OtherLabels(Some(today - d));
      } else {
        OtherLabels(Some(d - today));
      }
  }

  lemma PastPlural(n: nat)
    requires n > 1
    ensures PastLabel(Some(n)) == NatToString(n) + " days ago"
  {
    assert " day" + "s" + " ago" == " days ago";
  }

  lemma FuturePlural(n: nat)
    requires n > 1
    ensures FutureLabel(Some(n)) == "In " + NatToString(n) + " days"
  {
  }

  /** A valid date more than a day in the past is labelled with a plural
      count of days ago. */
  lemma RelativeTimePast(s: string, today: Day)
    requires InRange(today - 1) && InRange(today + 1)
    requires ParseDate(s).Some? && ParseDate(s).value < today - 1
    ensures GetRelativeTimeString(s, today) == NatToString(today - ParseDate(s).value) + " days ago"
  {
    var d := ParseDate(s).value;
    RelativeTimeByDay(s, today);
    assert LabelOfDay(ParseDate(s), today) == PastLabel(Some(today - d));
    PastPlural(today - d);
  }

  /** A valid date more than a day ahead is labelled "In N days", plural. */
  lemma RelativeTimeFuture(s: string, today: Day)
    requires InRange(today - 1) && InRange(today + 1)
    requires ParseDate(s).Some? && ParseDate(s).value > today + 1
    ensures GetRelativeTimeString(s, today) == "In " + NatToString(ParseDate(s).value - today) + " days"
  {
    var d := ParseDate(s).value;
    RelativeTimeByDay(s, today);
    assert LabelOfDay(ParseDate(s), today) == FutureLabel(Some(d - today));
    FuturePlural(d - today);
  }

  /** The singular is reached only by a string that is not a date, as "In NaN day". */
  lemma RelativeTimeInvalid(s: string, today: Day)
    requires InRange(today - 1) && InRange(today + 1)
    requires ParseDate(s).None?
    ensures GetRelativeTimeString(s, today) == "In NaN day"
  {
    RelativeTimeByDay(s, today);
    assert ParseDate(s) == None;
    NaNLabel();
  }

  /** The label of a NaN difference. */
  lemma NaNLabel()
    ensures FutureLabel(None) == "In NaN day"
  {
    assert FutureLabel(None) == "In " + "NaN" + " day" + "";
  }
}
