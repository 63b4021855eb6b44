/**
 The calendar arithmetic behind the monthly listing: the proleptic Gregorian
 calendar of ISO 8601 (section 3.2.1 of ISO 8601:2004) as java.time computes
 it, reduced to what `YearMonth.atDay(1)` and `YearMonth.atEndOfMonth()` need.
 */
module Dates {

  /** A month-of-year, January = 1 … December = 12. */
  type Month = m: int | 1 <= m <= 12 witness 1

  /**
   The Gregorian leap-year rule: every fourth year, except centuries that are
   not a multiple of 400. Only divisibility is tested, so Dafny's Euclidean `%`
   agrees with Java's truncating `%` for negative (proleptic) years too.
   */
  predicate IsLeapYear(year: int) {
    year % 4 == 0 && (year % 100 != 0 || year % 400 == 0)
  }

  /** The length of a month, as java.time's `Month.length(leapYear)`. */
  function DaysInMonth(year: int, month: Month): (n: int)
    ensures 28 <= n <= 31
  {
    if month == 2 then (if IsLeapYear(year) then 29 else 28)
    else if month == 4 || month == 6 || month == 9 || month == 11 then 30
    else 31
  }

  /**
   An independent description of month lengths: the day-of-year on which each
   month starts, as java.time's `Month.firstDayOfYear(leapYear)` tabulates it.
   */
  function FirstDayOfYear(month: Month, leap: bool): int {
    var l := if leap then 1 else 0;
    if month == 1 then 1
    else if month == 2 then 32
    else if month == 3 then 60 + l
    else if month == 4 then 91 + l
    else if month == 5 then 121 + l
    else if month == 6 then 152 + l
    else if month == 7 then 182 + l
    else if month == 8 then 213 + l
    else if month == 9 then 244 + l
    else if month == 10 then 274 + l
    else if month == 11 then 305 + l
    else 335 + l
  }

  /** Days in the months of `year` that precede `month` (13 stands for "after December"). */
  function DaysBeforeMonth(year: int, month: int): nat
    requires 1 <= month <= 13
  {
    if month == 1 then 0 else DaysBeforeMonth(year, month - 1) + DaysInMonth(year, month - 1)
  }

  /** Summing `DaysInMonth` reproduces java.time's start-of-month table. */
  lemma {:induction false} DaysBeforeMonthMatchesTable(year: int, month: Month)
    ensures DaysBeforeMonth(year, month) + 1 == FirstDayOfYear(month, IsLeapYear(year))
  {
    if month > 1 {
      DaysBeforeMonthMatchesTable(year, month - 1);
    }
  }

  /** The twelve month lengths add up to 366 days in a leap year and 365 otherwise. */
  lemma YearLength(year: int)
    ensures DaysBeforeMonth(year, 13) == if IsLeapYear(year) then 366 else 365
  {
    DaysBeforeMonthMatchesTable(year, 12);
  }

  /** The raw fields of a date; `LocalDate` below admits only the real ones. */
  datatype DateParts = DateParts(year: int, month: Month, day: int)

  /** A calendar date that exists: java.time refuses to build any other. */
  type LocalDate = d: DateParts | 1 <= d.day <= DaysInMonth(d.year, d.month)
    witness DateParts(1970, 1, 1)

  /** Chronological order, `a.compareTo(b) <= 0` of java.time. */
  predicate IsOnOrBefore(a: LocalDate, b: LocalDate) {
    a.year < b.year
    || (a.year == b.year && (a.month < b.month || (a.month == b.month && a.day <= b.day)))
  }

  /** A year and a month, as `java.time.YearMonth`. */
  datatype YearMonth = YearMonth(year: int, month: Month)

  /** Whether `d` falls in the month `ym`. */
  predicate InMonth(d: LocalDate, ym: YearMonth) {
    d.year == ym.year && d.month == ym.month
  }

  /** `ym.atDay(1)`: the earliest date of the month. */
  function StartOfMonth(ym: YearMonth): (d: LocalDate)
    ensures InMonth(d, ym)
    ensures forall e: LocalDate :: InMonth(e, ym) ==> IsOnOrBefore(d, e)
  {
    DateParts(ym.year, ym.month, 1)
  }

  /** `ym.atEndOfMonth()`: the latest date of the month. */
  function EndOfMonth(ym: YearMonth): (d: LocalDate)
    ensures InMonth(d, ym)
    ensures forall e: LocalDate :: InMonth(e, ym) ==> IsOnOrBefore(e, d)
  {
    DateParts(ym.year, ym.month, DaysInMonth(ym.year, ym.month))
  }

  /**
   The inclusive range [atDay(1), atEndOfMonth()] holds a date exactly when
   the date lies in that year and month.
   */
  lemma MonthRangeIsTheMonth(ym: YearMonth, d: LocalDate)
    ensures IsOnOrBefore(StartOfMonth(ym), d) && IsOnOrBefore(d, EndOfMonth(ym)) <==> InMonth(d, ym)
  {
  }

  /** The last day of the month is 28, 29, 30 or 31 as the leap rule says. */
  lemma EndOfMonthDay(ym: YearMonth)
    ensures EndOfMonth(ym).day == 29 <==> ym.month == 2 && IsLeapYear(ym.year)
    ensures EndOfMonth(ym).day == 28 <==> ym.month == 2 && !IsLeapYear(ym.year)
    ensures EndOfMonth(ym).day == 30 <==> ym.month in {4, 6, 9, 11}
    ensures EndOfMonth(ym).day == 31 <==> ym.month in {1, 3, 5, 7, 8, 10, 12}
  {
  }

  /** Concrete months: April 2024, and February in 2024, 1900 and 2000. */
  lemma EndOfMonthExamples()
    ensures EndOfMonth(YearMonth(2024, 4)) == DateParts(2024, 4, 30)
    ensures EndOfMonth(YearMonth(2024, 2)).day == 29
    ensures EndOfMonth(YearMonth(1900, 2)).day == 28
    ensures EndOfMonth(YearMonth(2000, 2)).day == 29
  {
  }
}
