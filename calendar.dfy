/** The weekday of a `YYYY-MM-DD` date, as `new Date(date).getDay()` gives
    it in slots.ts: a proleptic Gregorian day count, 0 = Sunday. An
    unparsable date gives no weekday (JavaScript's NaN, equal to nothing). */
module Calendar {
  import opened Wrappers
  import opened Strings
  import opened Time

  predicate IsLeapYear(y: nat) {
    y % 4 == 0 && (y % 100 != 0 || y % 400 == 0)
  }

  /** Leap years among the years 0 .. y - 1 (year 0 is a leap year). */
  function LeapYearsBefore(y: nat): nat {
    (y + 3) / 4 - (y + 99) / 100 + (y + 399) / 400
  }

  /** Days from 0000-01-01 to the first of January of year y. */
  function DaysBeforeYear(y: nat): nat {
    365 * y + LeapYearsBefore(y)
  }

  /** Days from the first of January to the first of month m. */
  function DaysBeforeMonth(y: nat, m: nat): nat
    requires 1 <= m <= 12
  {
    var table := [0, 31, 59, 90, 120, 151, 181, 212, 243, 273, 304, 334];
    table[m - 1] + (if m > 2 && IsLeapYear(y) then 1 else 0)
  }

  /** Days from 0000-01-01 to year y, month m, day d; a day past the end of
      its month counts on into the next month, as the date parser does. */
  function DayNumber(y: nat, m: nat, d: nat): nat
    requires 1 <= m <= 12 && 1 <= d
  {
    DaysBeforeYear(y) + DaysBeforeMonth(y, m) + d - 1
  }

  function FourDigitValue(s: string): nat
    requires |s| == 4 && IsDigit(s[0]) && IsDigit(s[1]) && IsDigit(s[2]) && IsDigit(s[3])
  {
    100 * TwoDigitValue(s[0], s[1]) + TwoDigitValue(s[2], s[3])
  }

  /** The year, month and day the ISO date parser reads from a date-only
      string: months 1..12 and days 1..31, or nothing (NaN). */
  function ParseDate(date: string): (r: Option<(nat, nat, nat)>)
    ensures r.Some? ==> IsValidDate(date) && 1 <= r.value.1 <= 12 && 1 <= r.value.2 <= 31
  {
    if !IsValidDate(date) then None
    else
      var y := FourDigitValue(date[..4]);
      var m := TwoDigitValue(date[5], date[6]);
      var d := TwoDigitValue(date[8], date[9]);
      if 1 <= m <= 12 && 1 <= d <= 31 then Some((y, m, d)) else None
  }

  /** `new Date(date).getDay()` for a date-only string; 0000-01-01 was a Saturday. */
  function DayOfWeek(date: string): (r: Option<int>)
    ensures r.Some? ==> 0 <= r.value < 7
    ensures r.Some? ==> IsValidDate(date)
    ensures r.Some? <==> ParseDate(date).Some?
  {
    match ParseDate(date)
    case None => None
    case Some((y, m, d)) => Some((DayNumber(y, m, d) + 6) % 7)
  }

  /** Days in month m of year y. */
  function MonthLength(y: nat, m: nat): nat
    requires 1 <= m <= 12
  {
    [31, if IsLeapYear(y) then 29 else 28, 31, 30, 31, 30, 31, 31, 30, 31, 30, 31][m - 1]
  }

  /** The calendar date after year y, month m, day d. */
  function NextDate(y: nat, m: nat, d: nat): (nat, nat, nat)
    requires 1 <= m <= 12
  {
    if d < MonthLength(y, m) then (y, m, d + 1)
    else if m < 12 then (y, m + 1, 1)
    else (y + 1, 1, 1)
  }

  /** The day after a real date is numbered one more: within a month,
      across a month's end and across a year's end. */
  lemma {:induction false} DayNumberNext(y: nat, m: nat, d: nat)
    requires 1 <= m <= 12 && 1 <= d <= MonthLength(y, m)
    ensures 1 <= NextDate(y, m, d).1 <= 12 && 1 <= NextDate(y, m, d).2
    ensures DayNumber(NextDate(y, m, d).0, NextDate(y, m, d).1, NextDate(y, m, d).2) == DayNumber(y, m, d) + 1
  {
    if d == MonthLength(y, m) && m == 12 {
      YearLength(y);
    }
  }

  /** The weekday of the next calendar date is one further on, modulo 7; with
      UnixEpochWeekday this fixes the weekday of every date. */
  lemma DayOfWeekNext(date: string, next: string)
    requires ParseDate(date).Some?
    requires ParseDate(date).value.2 <= MonthLength(ParseDate(date).value.0, ParseDate(date).value.1)
    requires ParseDate(next) == Some(NextDate(ParseDate(date).value.0, ParseDate(date).value.1, ParseDate(date).value.2))
    ensures DayOfWeek(next).Some? && DayOfWeek(date).Some?
    ensures DayOfWeek(next).value == (DayOfWeek(date).value + 1) % 7
  {
    var (y, m, d) := ParseDate(date).value;
    var (y', m', d') := NextDate(y, m, d);
    DayNumberNext(y, m, d);
    WeekdayStep(DayNumber(y, m, d), DayNumber(y', m', d'));
    WeekdayOf(date, y, m, d);
    WeekdayOf(next, y', m', d');
  }

  /** A day numbered one more falls one weekday further on. */
  lemma WeekdayStep(n: nat, n': nat)
    requires n' == n + 1
    ensures (n' + 6) % 7 == ((n + 6) % 7 + 1) % 7
  {
  }

  lemma WeekdayOf(date: string, y: nat, m: nat, d: nat)
    requires ParseDate(date) == Some((y, m, d))
    ensures 1 <= m <= 12 && 1 <= d
    ensures DayOfWeek(date) == Some((DayNumber(y, m, d) + 6) % 7)
  {
  }

  /** The day count steps over exactly 366 days in a leap year and 365 otherwise. */
  lemma YearLength(y: nat)
    ensures DaysBeforeYear(y + 1) - DaysBeforeYear(y) == if IsLeapYear(y) then 366 else 365
  {
    MultipleStep4(y);
    MultipleStep100(y);
    MultipleStep400(y);
    DivisibilityChain(y);
  }

  /** A multiple of 400 is a multiple of 100, and a multiple of 100 one of 4. */
  lemma DivisibilityChain(y: nat)
    ensures y % 400 == 0 ==> y % 100 == 0
    ensures y % 100 == 0 ==> y % 4 == 0
  {
    if y % 400 == 0 {
      assert y == 400 * (y / 400);
      assert y == 100 * (4 * (y / 400));
    }
    if y % 100 == 0 {
      assert y == 100 * (y / 100);
      assert y == 4 * (25 * (y / 100));
    }
  }

  /** Counting multiples of 4 (of 100, of 400) below y + 1 rather than y
      adds one exactly when y is such a multiple. */
  lemma MultipleStep4(y: nat)
    ensures (y + 4) / 4 - (y + 3) / 4 == if y % 4 == 0 then 1 else 0
  {
  }

  lemma MultipleStep100(y: nat)
    ensures (y + 100) / 100 - (y + 99) / 100 == if y % 100 == 0 then 1 else 0
  {
  }

  lemma MultipleStep400(y: nat)
    ensures (y + 400) / 400 - (y + 399) / 400 == if y % 400 == 0 then 1 else 0
  {
  }

  /** Calendar anchors: the Unix epoch was a Thursday, 2000-01-01 a
      Saturday and 2025-03-10 a Monday. */
  lemma UnixEpochWeekday()
    ensures DayOfWeek("1970-01-01") == Some(4)
  {
    assert "1970-01-01"[..4] == "1970";
    assert FourDigitValue("1970") == 1970;
    assert DayNumber(1970, 1, 1) == 719528;
  }

  lemma Y2KWeekday()
    ensures DayOfWeek("2000-01-01") == Some(6)
  {
    assert "2000-01-01"[..4] == "2000";
    assert FourDigitValue("2000") == 2000;
    assert DayNumber(2000, 1, 1) == 730485;
  }

  lemma MondayWeekday()
    ensures DayOfWeek("2025-03-10") == Some(1)
  {
    assert "2025-03-10"[..4] == "2025";
    assert FourDigitValue("2025") == 2025;
    assert DayNumber(2025, 3, 10) == 739685;
  }

  /** A shape-valid date with month 13 has no weekday, so no window matches it. */
  lemma MonthThirteenHasNoWeekday()
    ensures IsValidDate("2025-13-45") && DayOfWeek("2025-13-45") == None
  {
  }
}
