/**
 * The proleptic Gregorian calendar that every date computation of the repository
 * rests on, with the leap years of Appendix C of RFC 3339. The source delegates it
 * to a calendar library; here it is written out, and the conversion between dates
 * and day numbers is proved to be a bijection.
 */
module Calendar {

  datatype Date = Date(year: int, month: int, day: int)

  predicate IsLeapYear(year: int) {
    year % 4 == 0 && (year % 100 != 0 || year % 400 == 0)
  }

  function DaysInYear(year: int): int {
    if IsLeapYear(year) then 366 else 365
  }

  function DaysInMonth(year: int, month: int): int {
    if month == 2 then (if IsLeapYear(year) then 29 else 28)
    else if month == 4 || month == 6 || month == 9 || month == 11 then 30
    else 31
  }

  /** Whether the three numbers name a calendar date. */
  predicate IsDate(d: Date) {
    1 <= d.month <= 12 && 1 <= d.day <= DaysInMonth(d.year, d.month)
  }

  /** The order of dates: by year, then month, then day. */
  predicate Before(a: Date, b: Date) {
    || a.year < b.year
    || (a.year == b.year && (a.month < b.month || (a.month == b.month && a.day < b.day)))
  }

  /** Days from 0000-01-01 to the first day of the year. */
  function DaysBeforeYear(year: int): int {
    365 * year + (year + 3) / 4 - (year + 99) / 100 + (year + 399) / 400
  }

  /** Days of the year before the first day of the month. */
  function DaysBeforeMonth(year: int, month: int): int {
    var leap := if IsLeapYear(year) then 1 else 0;
    if month <= 1 then 0
    else if month == 2 then 31
    else if month == 3 then 59 + leap
    else if month == 4 then 90 + leap
    else if month == 5 then 120 + leap
    else if month == 6 then 151 + leap
    else if month == 7 then 181 + leap
    else if month == 8 then 212 + leap
    else if month == 9 then 243 + leap
    else if month == 10 then 273 + leap
    else if month == 11 then 304 + leap
    else if month == 12 then 334 + leap
    else 365 + leap
  }

  /** The number of a date, counted from 0000-01-01. */
  function DayNumber(d: Date): int {
    DaysBeforeYear(d.year) + DaysBeforeMonth(d.year, d.month) + d.day - 1
  }

  /** The day after, by rollover of day, month and year. */
  function NextDay(d: Date): Date {
    if d.day < DaysInMonth(d.year, d.month) then Date(d.year, d.month, d.day + 1)
    else if d.month < 12 then Date(d.year, d.month + 1, 1)
    else Date(d.year + 1, 1, 1)
  }

  /** Calendar addition of months; the day is clamped to the length of the month reached. */
  function AddMonths(d: Date, months: int): Date {
    var count := 12 * d.year + d.month - 1 + months;
    var year, month := count / 12, count % 12 + 1;
    Date(year, month, if d.day <= DaysInMonth(year, month) then d.day else DaysInMonth(year, month))
  }

  function AddYears(d: Date, years: int): Date {
    var year := d.year + years;
    Date(year, d.month, if d.day <= DaysInMonth(year, d.month) then d.day else DaysInMonth(year, d.month))
  }

  function AddDays(d: Date, days: int): Date {
    FromDayNumber(DayNumber(d) + days)
  }

  // How many multiples of 4, of 100 and of 400 a year adds to those before it.

  lemma Multiples4(year: int)
    ensures (year + 1 + 3) / 4 == (year + 3) / 4 + (if year % 4 == 0 then 1 else 0)
  {
    var q, r := year / 4, year % 4;
    assert year == 4 * q + r;
    assert (year + 1 + 3) / 4 == q + 1;
  }

  lemma Multiples100(year: int)
    ensures (year + 1 + 99) / 100 == (year + 99) / 100 + (if year % 100 == 0 then 1 else 0)
  {
    var q, r := year / 100, year % 100;
    assert year == 100 * q + r;
    assert (year + 1 + 99) / 100 == q + 1;
  }

  lemma Multiples400(year: int)
    ensures (year + 1 + 399) / 400 == (year + 399) / 400 + (if year % 400 == 0 then 1 else 0)
  {
    var q, r := year / 400, year % 400;
    assert year == 400 * q + r;
    assert (year + 1 + 399) / 400 == q + 1;
  }

  lemma Divisible400(year: int)
    requires year % 400 == 0
    ensures year % 100 == 0
  {
    var q := year / 400;
    assert year == 100 * (4 * q);
  }

  lemma Divisible100(year: int)
    requires year % 100 == 0
    ensures year % 4 == 0
  {
    var q := year / 100;
    assert year == 4 * (25 * q);
  }

  lemma YearLength(year: int)
    ensures DaysBeforeYear(year + 1) == DaysBeforeYear(year) + DaysInYear(year)
  {
    Multiples4(year);
    Multiples100(year);
    Multiples400(year);
    if year % 400 == 0 { Divisible400(year); }
    if year % 100 == 0 { Divisible100(year); }
    var four, hundred, fourHundred := year % 4 == 0, year % 100 == 0, year % 400 == 0;
    assert DaysInYear(year) == 365 + (if four && (!hundred || fourHundred) then 1 else 0);
  }

  lemma {:induction false} YearsAscend(a: int, b: int)
    requires a <= b
    ensures DaysBeforeYear(a) + 365 * (b - a) <= DaysBeforeYear(b)
    decreases b - a
  {
    if a < b {
      YearLength(a);
      YearsAscend(a + 1, b);
    }
  }

  lemma MonthLength(year: int, month: int)
    requires 1 <= month <= 12
    ensures DaysBeforeMonth(year, month + 1) == DaysBeforeMonth(year, month) + DaysInMonth(year, month)
    ensures DaysBeforeMonth(year, 13) == DaysInYear(year)
  {
  }

  lemma MonthsAscend(year: int, a: int, b: int)
    requires 1 <= a < b <= 13
    ensures DaysBeforeMonth(year, a) + DaysInMonth(year, a) <= DaysBeforeMonth(year, b)
  {
  }

  /** A date lies inside its year: its number is between the first days of two years. */
  lemma InsideYear(d: Date)
    requires IsDate(d)
    ensures DaysBeforeYear(d.year) <= DayNumber(d) < DaysBeforeYear(d.year + 1)
  {
    MonthsAscend(d.year, d.month, 13);
    YearLength(d.year);
  }

  /** Day numbers are ordered exactly as dates are; so no two dates share one. */
  lemma DayNumberOrder(a: Date, b: Date)
    requires IsDate(a) && IsDate(b)
    ensures DayNumber(a) < DayNumber(b) <==> Before(a, b)
    ensures DayNumber(a) == DayNumber(b) <==> a == b
  {
    hide DaysBeforeYear;
    hide DaysBeforeMonth;
    hide DaysInMonth;
    InsideYear(a);
    InsideYear(b);
    if a.year < b.year {
      YearsAscend(a.year + 1, b.year);
    } else if b.year < a.year {
      YearsAscend(b.year + 1, a.year);
    } else if a.month < b.month {
      MonthsAscend(a.year, a.month, b.month);
    } else if b.month < a.month {
      MonthsAscend(a.year, b.month, a.month);
    }
  }

  /** The year a day number falls in. */
  function YearOf(n: int): (year: int)
    ensures DaysBeforeYear(year) <= n < DaysBeforeYear(year + 1)
  {
    var guess := (400 * n) / 146097;
    if n < DaysBeforeYear(guess) then guess - 1
    else if DaysBeforeYear(guess + 1) <= n then guess + 1
    else guess
  }

  /** The month of a day counted from the first day of its year. */
  function MonthOf(year: int, day: int): (month: int)
    requires 0 <= day < DaysInYear(year)
    ensures 1 <= month <= 12
    ensures DaysBeforeMonth(year, month) <= day < DaysBeforeMonth(year, month + 1)
  {
    var leap := if IsLeapYear(year) then 1 else 0;
    if day < 31 then 1
    else if day < 59 + leap then 2
    else if day < 90 + leap then 3
    else if day < 120 + leap then 4
    else if day < 151 + leap then 5
    else if day < 181 + leap then 6
    else if day < 212 + leap then 7
    else if day < 243 + leap then 8
    else if day < 273 + leap then 9
    else if day < 304 + leap then 10
    else if day < 334 + leap then 11
    else 12
  }

  /** The date of a day number: the inverse of `DayNumber`. */
  function FromDayNumber(n: int): (d: Date)
    ensures IsDate(d) && DayNumber(d) == n
  {
    var year := YearOf(n);
    YearLength(year);
    var day := n - DaysBeforeYear(year);
    var month := MonthOf(year, day);
    MonthLength(year, month);
    Date(year, month, day - DaysBeforeMonth(year, month) + 1)
  }

  lemma FromDayNumberInverse(d: Date)
    requires IsDate(d)
    ensures FromDayNumber(DayNumber(d)) == d
  {
    DayNumberOrder(FromDayNumber(DayNumber(d)), d);
  }

  lemma RolloverNumber(d: Date)
    requires IsDate(d)
    ensures IsDate(NextDay(d)) && DayNumber(NextDay(d)) == DayNumber(d) + 1
  {
    hide IsLeapYear;
    hide DaysBeforeYear;
    if d.day == DaysInMonth(d.year, d.month) {
      MonthLength(d.year, d.month);
      YearLength(d.year);
    }
  }

  /** Rollover is the successor of the day count, and so is calendar addition of one day. */
  lemma NextDayIsSuccessor(d: Date)
    requires IsDate(d)
    ensures IsDate(NextDay(d)) && DayNumber(NextDay(d)) == DayNumber(d) + 1
    ensures AddDays(d, 1) == NextDay(d)
  {
    RolloverNumber(d);
    FromDayNumberInverse(NextDay(d));
  }

  /** Adding months keeps the day, or takes the last of the month reached where that has no such day. */
  lemma AddMonthsClamps(d: Date, months: int)
    requires IsDate(d)
    ensures var r := AddMonths(d, months);
      && IsDate(r) && 12 * r.year + r.month == 12 * d.year + d.month + months
      && (r.day == d.day || (r.day < d.day && !IsDate(Date(r.year, r.month, d.day)) && !IsDate(Date(r.year, r.month, r.day + 1))))
  {
    var count := 12 * d.year + d.month - 1 + months;
    assert count == 12 * (count / 12) + count % 12;
    hide IsLeapYear;
  }
}
