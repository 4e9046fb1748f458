/** The day numbers of dates in plain arithmetic: cycles of 400 years of 146097 days. */
module DayNumbers {
  import opened Versions
  import opened Date

  /** The days before a year within its cycle. */
  function CycleDays(k: int): int {
    365 * k + (k + 3) / 4 - (k + 99) / 100 + (k + 399) / 400
  }

  /** Which years of a cycle have a leap day. */
  predicate LongYear(k: int) {
    k % 4 == 0 && (k % 100 != 0 || k == 0)
  }

  lemma CycleStep(k: int)
    requires 0 <= k < 400
    ensures CycleDays(k + 1) - CycleDays(k) == if LongYear(k) then 366 else 365
  {
    DivStep(k + 4, 4);
    DivStep(k + 100, 100);
    DivStep(k + 400, 400);
    Shifted(k);
    MultiplesOf100(k);
  }

  lemma Shifted(k: int)
    ensures (k + 4) % 4 == k % 4 && (k + 100) % 100 == k % 100 && (k + 400) % 400 == k % 400
  {
  }

  lemma MultiplesOf100(k: int)
    requires 0 <= k < 400
    ensures k % 100 == 0 ==> k % 4 == 0
    ensures k % 400 == 0 <==> k == 0
  {
  }

  lemma LongYears(y: int)
    ensures IsLeap(y) <==> LongYear(y % 400)
  {
    var q, k := y / 400, y % 400;
    assert y == 4 * (100 * q) + k && y == 100 * (4 * q) + k;
  }

  /** Each cycle has the same years. */
  lemma {:induction false} YearStartInCycle(y: int)
    ensures YearStart(y) == 146097 * (y / 400) + CycleDays(y % 400)
    decreases if y < 0 then -y else y
  {
    if y > 0 {
      YearStartInCycle(y - 1);
      CycleNext(y - 1);
    } else if y < 0 {
      YearStartInCycle(y + 1);
      CycleNext(y);
    }
  }

  lemma CycleNext(y: int)
    ensures 146097 * ((y + 1) / 400) + CycleDays((y + 1) % 400)
      == 146097 * (y / 400) + CycleDays(y % 400) + DaysOfYear(y)
  {
    var q, k := y / 400, y % 400;
    LongYears(y);
    CycleStep(k);
    if k < 399 {
      assert (y + 1) / 400 == q && (y + 1) % 400 == k + 1;
    } else {
      assert (y + 1) / 400 == q + 1 && (y + 1) % 400 == 0;
    }
  }

  /** The days before a month, without a leap day. */
  const MONTHS: seq<int> := [0, 31, 59, 90, 120, 151, 181, 212, 243, 273, 304, 334]

  /** The number of a date, with years running through 0. */
  lemma DayNumberInCycle(y: int, m: int, d: int)
    requires 1 <= m <= 12
    ensures DayNumber(y, m, d)
      == 146097 * (y / 400) + CycleDays(y % 400) + MONTHS[m - 1] + (if m > 2 && LongYear(y % 400) then 1 else 0) + d - 1
  {
    YearStartInCycle(y);
    LongYears(y);
    MonthTables(IsLeap(y));
  }

  /** Which dates are accepted. */
  lemma AcceptsExactly(year: int, month: int, day: int)
    ensures Accepts(year, month, day) <==>
      && year != 0 && -5867411 <= year <= 5867411
      && ((month in {1, 3, 5, 7, 8, 10, 12} && 1 <= day <= 31) || (month in {4, 6, 9, 11} && 1 <= day <= 30)
          || (month == 2 && 1 <= day <= if year % 4 == 0 && (year % 100 != 0 || year % 400 == 0) then 29 else 28))
  {
  }

  /** An accepted date gets its number; the check looks at the year as shown, the number is that of the year with years running
    through 0. */
  method NumberOfDate(year: int32, month: int32, day: int32) returns (number: Option<int32>)
    ensures number.Some? <==>
      && year != 0 && -5867411 <= year <= 5867411
      && ((month in {1, 3, 5, 7, 8, 10, 12} && 1 <= day <= 31) || (month in {4, 6, 9, 11} && 1 <= day <= 30)
          || (month == 2 && 1 <= day <= if LongYear(year as int % 400) then 29 else 28))
    ensures number.Some? ==>
      var y := if year < 0 then year as int + 1 else year as int;
      number.value as int == 146097 * (y / 400) + CycleDays(y % 400) + MONTHS[month as int - 1]
        + (if month > 2 && LongYear(y % 400) then 1 else 0) + day as int - 1
  {
    number := DateToNumber(year, month, day);
    AcceptsExactly(year as int, month as int, day as int);
    LongYears(year as int);
    if number.Some? { DayNumberInCycle(Inner(year as int), month as int, day as int); }
  }

  // ----- numbers that survive -----

  /** The number is that of a February 29. */
  ghost predicate IsLeapDay(n: int) {
    exists k :: 0 <= k < 400 && LongYear(k) && n % 146097 == CycleDays(k) + 59
  }

  lemma {:induction false} CycleDaysAscend(k: int, l: int)
    requires 0 <= k < l <= 400
    ensures CycleDays(k) + 365 <= CycleDays(l)
    decreases l - k
  {
    CycleStep(k);
    if k + 1 < l { CycleDaysAscend(k + 1, l); }
  }

  /** The leap days of the calendar have these numbers. */
  lemma LeapDayExactly(y: int, m: int, d: int)
    requires IsDate(y, m, d)
    ensures IsLeapDay(DayNumber(y, m, d)) <==> m == 2 && d == 29
  {
    var n, k := DayNumber(y, m, d), y % 400;
    YearStartInCycle(y);
    MonthTables(IsLeap(y));
    LongYears(y);
    CycleStep(k);
    if k < 399 { CycleDaysAscend(k + 1, 400); }
    if 0 < k { CycleDaysAscend(0, k); }
    var place := CycleDays(k) + DaysBefore(m, IsLeap(y)) + d - 1;
    YearOfPlace(y, m, d);
    assert n == 146097 * (y / 400) + place && 0 <= place < 146097;
    RemainderIs(n, y / 400, place);
    if l :| 0 <= l < 400 && LongYear(l) && n % 146097 == CycleDays(l) + 59 {
      CycleStep(l);
      if l < k { CycleDaysAscend(l, k); CycleDaysNext(l, k); }
      if k < l { CycleDaysNext(k, l); }
    }
    if m == 2 && d == 29 { assert n % 146097 == CycleDays(k) + 59; }
  }

  lemma RemainderIs(n: int, q: int, place: int)
    requires n == 146097 * q + place && 0 <= place < 146097
    ensures n % 146097 == place
  {
  }

  lemma CycleDaysNext(k: int, l: int)
    requires 0 <= k < l < 400
    ensures CycleDays(k + 1) <= CycleDays(l)
  {
    if k + 1 < l { CycleDaysAscend(k + 1, l); }
  }

  /** A date is within its year. */
  lemma YearOfPlace(y: int, m: int, d: int)
    requires IsDate(y, m, d)
    ensures 0 <= DaysBefore(m, IsLeap(y)) + d - 1 < DaysOfYear(y)
  {
    MonthTables(IsLeap(y));
    if m < 12 { MonthsAscend(m, 13, IsLeap(y)); }
  }

  lemma YearStartIn(y: int, q: int, k: int)
    requires 0 <= k < 400 && y == 400 * q + k
    ensures YearStart(y) == 146097 * q + CycleDays(k)
  {
    YearStartInCycle(y);
    CycleOf(y, q, k);
  }

  lemma CycleOf(y: int, q: int, k: int)
    requires 0 <= k < 400 && y == 400 * q + k
    ensures y / 400 == q && y % 400 == k
  {
  }

  lemma FirstDay(y: int)
    requires y == -5867410
    ensures YearStart(y) == -2143027496
  {
    YearStartIn(y, -14669, 190);
  }

  lemma DayAfterLast(y: int)
    requires y == 5867412
    ensures YearStart(y) == 2143028227
  {
    YearStartIn(y, 14668, 212);
  }

  /** The first day in range, the first day of year 1, and the day after the last one in range. */
  lemma YearStarts(first: int, one: int, last: int)
    requires first == -5867410 && one == 1 && last == 5867412
    ensures YearStart(first) == -2143027496 && YearStart(one) == 366 && YearStart(last) == 2143028227
  {
    FirstDay(first);
    YearStartIn(one, 0, 1);
    DayAfterLast(last);
  }

  /** Which numbers belong to years in range, and which of them to years before 1. */
  lemma RangeExactly(year: int, m: int, d: int)
    requires year != 0 && IsDate(Inner(year), m, d)
    ensures var n := DayNumber(Inner(year), m, d);
      && (-5867411 <= year <= 5867411 <==> -2143027496 <= n <= 2143028226)
      && (year < 0 <==> n < 366)
  {
    var y := Inner(year);
    var first, one, last := -5867410, 1, 5867412;
    YearStarts(first, one, last);
    YearOfPlace(y, m, d);
    NextYear(y);
    BeforeOrAfter(y, first);
    BeforeOrAfter(y, one);
    BeforeOrAfter(y, last);
  }

  lemma BeforeOrAfter(y: int, z: int)
    ensures y < z ==> YearStart(y) + DaysOfYear(y) <= YearStart(z)
    ensures z <= y ==> YearStart(z) <= YearStart(y)
  {
    if y < z { YearsAscend(y, z); }
    if z < y { YearsAscend(z, y); }
  }

  /** From a number to its date and back: the days of the years 1 to 5867411 come back, those of the years before down to
    -5867411 unless they are leap days, and no others. */
  method NumberAndBack(n: int32) returns (back: Option<int32>)
    ensures back == Some(n) <==> 366 <= n <= 2143028226 || (-2143027496 <= n <= 365 && !IsLeapDay(n as int))
  {
    var year, month, day;
    year, month, day := NumberToDate(n);
    ConvertedIsAccepted(year as int, month as int, day as int);
    RangeExactly(year as int, month as int, day as int);
    LeapDayExactly(Inner(year as int), month as int, day as int);
    back := DateToNumber(year, month, day);
  }
}
