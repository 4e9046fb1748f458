/** Day numbers and calendar dates.

  Inside the conversion years run through zero; outside, the year before 1 is -1. */
module Date {
  import opened Versions

  /** Results of this type are checked to stay within 32 bits. */
  newtype int32 = x: int | -0x8000_0000 <= x < 0x8000_0000

  const CUMDAYS: seq<int32> := [0, 31, 59, 90, 120, 151, 181, 212, 243, 273, 304, 334, 365]
  const CUMLEAPDAYS: seq<int32> := [0, 31, 60, 91, 121, 152, 182, 213, 244, 274, 305, 335, 366]
  const LEAPDAYS: seq<int32> := [0, 31, 29, 31, 30, 31, 30, 31, 31, 30, 31, 30, 31]

  const YEAR_MAX: int32 := 5867411
  const YEAR_MIN: int32 := -5867411

  // ----- the calendar -----

  predicate IsLeap(y: int) {
    y % 4 == 0 && (y % 100 != 0 || y % 400 == 0)
  }

  function DaysOfYear(y: int): int { if IsLeap(y) then 366 else 365 }

  function DaysOfMonth(m: int, leap: bool): int
    requires 1 <= m <= 12
  {
    if m == 2 then (if leap then 29 else 28) else if m in {4, 6, 9, 11} then 30 else 31
  }

  /** The days of a year before its m-th month. */
  function DaysBefore(m: int, leap: bool): int
    requires 1 <= m <= 13
  {
    if m == 1 then 0 else DaysBefore(m - 1, leap) + DaysOfMonth(m - 1, leap)
  }

  /** The days between the start of year 0 and the start of a year. */
  function YearStart(y: int): int
    decreases if y < 0 then -y else y
  {
    if y == 0 then 0 else if y > 0 then YearStart(y - 1) + DaysOfYear(y - 1) else YearStart(y + 1) - DaysOfYear(y)
  }

  ghost predicate IsDate(y: int, m: int, d: int) {
    1 <= m <= 12 && 1 <= d <= DaysOfMonth(m, IsLeap(y))
  }

  function DayNumber(y: int, m: int, d: int): int
    requires 1 <= m <= 12
  {
    YearStart(y) + DaysBefore(m, IsLeap(y)) + d - 1
  }

  function Inner(year: int): int { if year < 0 then year + 1 else year }

  // ----- counting leap years -----

  /** Division as the source language does it: toward zero. */
  function Quotient(a: int32, b: int32): (q: int32)
    requires 0 < b
    ensures a >= 0 ==> q as int == a as int / b as int
    ensures a < 0 ==> q as int == -(-(a as int) / b as int)
  {
    if a >= 0 then a / b else if a == -0x8000_0000 then NegativeQuotient(b) else -(-a / b)
  }

  function NegativeQuotient(b: int32): (q: int32)
    requires 0 < b
    ensures q as int == -(0x8000_0000 / b as int)
  {
    (-(0x8000_0000 / b as int)) as int32
  }

  function Truncated(a: int, b: int): int
    requires 0 < b
  {
    if a >= 0 then a / b else -(-a / b)
  }

  function LeapCount(y: int): int {
    Truncated(y, 4) + Truncated(y, 400) - Truncated(y, 100) + if y >= 0 then 1 else 0
  }

  function LeapYears(year: int32): (n: int32)
    ensures n as int == LeapCount(year as int)
    ensures 0 <= year ==> 0 <= n <= year / 4 + 1
    ensures year < 0 ==> Quotient(year, 4) <= n <= 0
  {
    Quotient(year, 4) + Quotient(year, 400) - Quotient(year, 100) + if year >= 0 then 1 else 0
  }

  /** The year from which leap years are counted back. */
  function Counted(y: int): int { if y >= 0 then y - 1 else y }

  function Divides(k: int, y: int): int
    requires 0 < k
  {
    if y % k == 0 then 1 else 0
  }

  lemma LeapByDivisors(y: int)
    ensures (if IsLeap(y) then 1 else 0) == Divides(4, y) - Divides(100, y) + Divides(400, y)
  {
    if y % 100 == 0 {
      var q := y / 100;
      assert y == 100 * q && y == 4 * (25 * q);
    }
    if y % 400 == 0 {
      var q := y / 400;
      assert y == 400 * q && y == 100 * (4 * q);
    }
  }

  lemma CountStep(y: int)
    ensures LeapCount(Counted(y + 1)) - LeapCount(Counted(y)) == if IsLeap(y) then 1 else 0
  {
    LeapByDivisors(y);
    if y > 0 {
      DivStep(y, 4);
      DivStep(y, 100);
      DivStep(y, 400);
    } else if y < -1 {
      NegativeStep(y, 4);
      NegativeStep(y, 100);
      NegativeStep(y, 400);
    }
  }

  lemma NegativeStep(y: int, k: int)
    requires y < -1 && k in {4, 100, 400}
    ensures Truncated(y + 1, k) - Truncated(y, k) == Divides(k, y)
  {
    DivStep(-y, k);
  }

  lemma DivStep(y: int, k: int)
    requires 0 < y && k in {4, 100, 400}
    ensures y / k - (y - 1) / k == if y % k == 0 then 1 else 0
    ensures (-y) % k == 0 <==> y % k == 0
  {
  }

  /** The formula of the conversion counts the days before a year. */
  lemma {:induction false} YearStartIs(y: int)
    ensures YearStart(y) == 365 * y + LeapCount(Counted(y))
    decreases if y < 0 then -y else y
  {
    if y > 0 {
      YearStartIs(y - 1);
      CountStep(y - 1);
    } else if y < 0 {
      YearStartIs(y + 1);
      CountStep(y);
    }
  }

  // ----- order -----

  lemma NextYear(y: int)
    ensures YearStart(y + 1) == YearStart(y) + DaysOfYear(y)
  {
    if y < 0 { assert YearStart(y) == YearStart(y + 1) - DaysOfYear(y); }
  }

  lemma {:induction false} YearsAscend(y: int, z: int)
    requires y < z
    ensures YearStart(y) + DaysOfYear(y) <= YearStart(z)
    decreases z - y
  {
    NextYear(y);
    if y + 1 < z { YearsAscend(y + 1, z); }
  }

  lemma {:induction false} MonthsAscend(m: int, k: int, leap: bool)
    requires 1 <= m < k <= 13
    ensures DaysBefore(m, leap) + DaysOfMonth(m, leap) <= DaysBefore(k, leap)
    decreases k
  {
    if m + 1 < k { MonthsAscend(m, k - 1, leap); }
  }

  lemma MonthTables(leap: bool)
    ensures forall m {:trigger DaysBefore(m, leap)} :: 1 <= m <= 13 ==>
      DaysBefore(m, leap) == (if leap then CUMLEAPDAYS else CUMDAYS)[m - 1] as int
  {
    forall m | 1 <= m <= 13 ensures DaysBefore(m, leap) == (if leap then CUMLEAPDAYS else CUMDAYS)[m - 1] as int {
      MonthTable(m, leap);
    }
  }

  lemma {:induction false} MonthTable(m: int, leap: bool)
    requires 1 <= m <= 13
    ensures DaysBefore(m, leap) == (if leap then CUMLEAPDAYS else CUMDAYS)[m - 1] as int
  {
    if m > 1 { MonthTable(m - 1, leap); }
  }

  predicate Earlier(y: int, m: int, d: int, y': int, m': int, d': int) {
    y < y' || (y == y' && (m < m' || (m == m' && d < d')))
  }

  /** Later dates have greater day numbers. */
  lemma DayNumbersAscend(y: int, m: int, d: int, y': int, m': int, d': int)
    requires IsDate(y, m, d) && IsDate(y', m', d') && Earlier(y, m, d, y', m', d')
    ensures DayNumber(y, m, d) < DayNumber(y', m', d')
  {
    if y < y' {
      YearsAscend(y, y');
      if m < 12 { MonthsAscend(m, 13, IsLeap(y)); }
      MonthTables(IsLeap(y));
      MonthTables(IsLeap(y'));
    } else if m < m' {
      MonthsAscend(m, m', IsLeap(y));
    }
  }

  lemma DayNumberIsDate(y: int, m: int, d: int, y': int, m': int, d': int)
    requires IsDate(y, m, d) && IsDate(y', m', d') && DayNumber(y, m, d) == DayNumber(y', m', d')
    ensures y == y' && m == m' && d == d'
  {
    if Earlier(y, m, d, y', m', d') { DayNumbersAscend(y, m, d, y', m', d'); }
    if Earlier(y', m', d', y, m, d) { DayNumbersAscend(y', m', d', y, m, d); }
  }

  // ----- the conversion -----

  function LeapYear(y: int32): (leap: bool)
    ensures leap == IsLeap(y as int)
  {
    y % 4 == 0 && (y % 100 != 0 || y % 400 == 0)
  }

  function YearDays(y: int32): (n: int32)
    ensures n as int == DaysOfYear(y as int)
  {
    if LeapYear(y) then 366 else 365
  }

  lemma CountBounds(y: int)
    ensures y >= 0 ==> 0 <= LeapCount(Counted(y)) <= y
    ensures y <= 0 ==> y <= LeapCount(Counted(y)) <= 0
  {
  }

  /** Goes forward from a year that starts before a day before year 0, until the day lies in the year. */
  method YearForward(n: int32, first: int32, days: int32) returns (year: int32, day: int32)
    requires n < 0 && -5900000 <= first < 0 && days as int == n as int - YearStart(first as int + 1) && YearStart(first as int) <= n as int
    ensures 0 <= day as int < DaysOfYear(year as int) && YearStart(year as int) + day as int == n as int
    ensures -5900000 <= year <= 5900000
  {
    year, day := first, days;
    while day >= 0
      invariant -5900000 <= year < 0 && day as int == n as int - YearStart(year as int + 1) && YearStart(year as int) <= n as int
      decreases day as int
    {
      NextYear(year as int + 1);
      year := year + 1;
      day := day - YearDays(year);
    }
    NextYear(year as int);
    day := YearDays(year) + day;
  }

  /** Goes back from a year that a day from year 0 on cannot lie behind, until the day lies in the year. */
  method YearBack(n: int32, last: int32, days: int32) returns (year: int32, day: int32)
    requires 0 <= n && 0 <= last <= 5900000 && days as int == n as int - YearStart(last as int) && (n as int) < YearStart(last as int + 1)
    ensures 0 <= day as int < DaysOfYear(year as int) && YearStart(year as int) + day as int == n as int
    ensures -5900000 <= year <= 5900000
  {
    year, day := last, days;
    NextYear(year as int);
    while day < 0
      invariant 0 <= year <= 5900000 && day as int == n as int - YearStart(year as int) && (n as int) < YearStart(year as int + 1)
      decreases year as int
    {
      NextYear(year as int - 1);
      year := year - 1;
      day := day + YearDays(year);
    }
    NextYear(year as int);
  }

  /** A year counted with 365 days each, and how far the day is from its start. */
  method EstimateYear(n: int32) returns (year: int32, day: int32)
    ensures -5899999 <= year <= 5899999
    ensures n >= 0 ==> 0 <= year && day as int == n as int - YearStart(year as int) && (n as int) < YearStart(year as int + 1)
    ensures n < 0 ==> year <= 0 && day as int == n as int - YearStart(year as int) && YearStart(year as int - 1) <= n as int
  {
    year := Quotient(n, 365);
    CountBounds(year as int);
    YearStartIs(year as int);
    day := (n - year * 365) - LeapYears(if year >= 0 then year - 1 else year);
    if n < 0 {
      YearStartIs(year as int - 1);
      CountBounds(year as int - 1);
    } else {
      YearStartIs(year as int + 1);
      CountBounds(year as int + 1);
    }
  }

  /** The year of a day number, and the days since its start. */
  method FindYear(n: int32) returns (year: int32, day: int32)
    ensures 0 <= day as int < DaysOfYear(year as int) && YearStart(year as int) + day as int == n as int
    ensures -5900000 <= year <= 5900000
  {
    year, day := EstimateYear(n);
    if n < 0 {
      year, day := YearForward(n, year - 1, day);
    } else {
      year, day := YearBack(n, year, day);
    }
  }

  /** The month of a day of a year, counted from 1. */
  method FindMonth(day: int32, leap: bool) returns (month: int32)
    requires 1 <= day <= if leap then 366 else 365
    ensures 1 <= month <= 12
    ensures DaysBefore(month as int, leap) < day as int <= DaysBefore(month as int + 1, leap)
  {
    var table := if leap then CUMLEAPDAYS else CUMDAYS;
    MonthTables(leap);
    month := if day / 31 == 0 then 1 else day / 31;
    while month <= 12
      invariant 1 <= month <= 12 && table[month - 1] < day
      decreases 12 - month as int
    {
      if day > table[month - 1] && day <= table[month] {
        break;
      }
      month := month + 1;
    }
  }

  /** Converts any 32-bit number to the date with that number. */
  method NumberToDate(n: int32) returns (year: int32, month: int32, day: int32)
    ensures year != 0 && IsDate(Inner(year as int), month as int, day as int)
    ensures DayNumber(Inner(year as int), month as int, day as int) == n as int
  {
    year, day := FindYear(n);
    day := day + 1;
    MonthTables(LeapYear(year));
    month := FindMonth(day, LeapYear(year));
    day := day - (if LeapYear(year) then CUMLEAPDAYS else CUMDAYS)[month - 1];
    assert DaysBefore(month as int + 1, LeapYear(year)) == DaysBefore(month as int, LeapYear(year)) + DaysOfMonth(month as int, LeapYear(year));
    year := if year <= 0 then year - 1 else year;
  }

  /** The check before a date is converted.  It looks at the year as shown. */
  predicate Accepts(year: int, month: int, day: int) {
    && 0 < month <= 12 && 0 < day && year != 0 && YEAR_MIN as int <= year <= YEAR_MAX as int
    && day <= if month != 2 then LEAPDAYS[month] as int else if IsLeap(year) then 29 else 28
  }

  lemma MonthLengths(month: int, leap: bool)
    requires 1 <= month <= 12 && month != 2
    ensures DaysOfMonth(month, leap) == LEAPDAYS[month] as int
  {
  }

  /** Converts a date that passes the check; otherwise the result is not defined. */
  method DateToNumber(year: int32, month: int32, day: int32) returns (number: Option<int32>)
    ensures number.Some? <==> Accepts(year as int, month as int, day as int)
    ensures number.Some? ==> number.value as int == DayNumber(Inner(year as int), month as int, day as int)
  {
    if !Accepts(year as int, month as int, day as int) {
      return None;
    }
    if month != 2 { MonthLengths(month as int, LeapYear(year)); }
    var y := if year < 0 then year + 1 else year;
    MonthTables(LeapYear(y));
    YearStartIs(y as int);
    CountBounds(y as int);
    var n := day - 1;
    if month > 2 && LeapYear(y) {
      n := n + 1;
    }
    n := n + CUMDAYS[month - 1];
    n := n + (365 * y + LeapYears(if y >= 0 then y - 1 else y));
    return Some(n);
  }

  // ----- round trips -----

  /** The day before March of a leap year before year 1. */
  predicate OldLeapDay(year: int, month: int, day: int) {
    year < 0 && month == 2 && day == 29
  }

  /** A date made from a number converts back exactly if its year is in range and it is no leap day before year 1. */
  lemma ConvertedIsAccepted(year: int, month: int, day: int)
    requires year != 0 && IsDate(Inner(year), month, day)
    ensures Accepts(year, month, day) <==> YEAR_MIN as int <= year <= YEAR_MAX as int && !OldLeapDay(year, month, day)
  {
    if month != 2 { MonthLengths(month, IsLeap(Inner(year))); }
    NotBothLeap(year);
  }

  lemma NotBothLeap(year: int)
    ensures !(IsLeap(year) && IsLeap(year + 1))
  {
  }

  /** An accepted date is a real one, and so the only one with its number, exactly if it is no leap day before year 1. */
  lemma AcceptedIsDate(year: int, month: int, day: int)
    requires Accepts(year, month, day)
    ensures IsDate(Inner(year), month, day) <==> !OldLeapDay(year, month, day)
  {
    if month != 2 { MonthLengths(month, IsLeap(Inner(year))); }
    NotBothLeap(year);
  }

  /** From a number to a date and back. */
  method ConvertBack(n: int32) returns (year: int32, month: int32, day: int32, back: Option<int32>)
    ensures back == Some(n) <==> YEAR_MIN <= year <= YEAR_MAX && !OldLeapDay(year as int, month as int, day as int)
    ensures back.Some? ==> back.value == n
  {
    year, month, day := NumberToDate(n);
    ConvertedIsAccepted(year as int, month as int, day as int);
    back := DateToNumber(year, month, day);
  }

  /** From a date to a number and back. */
  method FromDateAndBack(year: int32, month: int32, day: int32) returns (year': int32, month': int32, day': int32)
    requires Accepts(year as int, month as int, day as int)
    ensures (year', month', day') == (year, month, day) <==> !OldLeapDay(year as int, month as int, day as int)
  {
    var number := DateToNumber(year, month, day);
    year', month', day' := NumberToDate(number.value);
    AcceptedIsDate(year as int, month as int, day as int);
    if !OldLeapDay(year as int, month as int, day as int) {
      DayNumberIsDate(Inner(year as int), month as int, day as int, Inner(year' as int), month' as int, day' as int);
    }
  }

  /** The leap day that the check wrongly accepts before year 1 becomes the first of March. */
  lemma OldLeapDayIsMarch(year: int)
    requires Accepts(year, 2, 29) && year < 0
    ensures DayNumber(Inner(year), 2, 29) == DayNumber(Inner(year), 3, 1)
  {
    NotBothLeap(year);
    assert DaysBefore(3, false) == DaysBefore(2, false) + DaysOfMonth(2, false);
  }

  /** Dates of the years from 1 on convert in their order. */
  lemma ConversionIsMonotonic(year: int, month: int, day: int, year': int, month': int, day': int)
    requires Accepts(year, month, day) && Accepts(year', month', day') && 0 < year && 0 < year'
    requires Earlier(year, month, day, year', month', day')
    ensures DayNumber(Inner(year), month, day) < DayNumber(Inner(year'), month', day')
  {
    AcceptedIsDate(year, month, day);
    AcceptedIsDate(year', month', day');
    DayNumbersAscend(year, month, day, year', month', day');
  }
}
