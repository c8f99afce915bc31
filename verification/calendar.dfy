/** Calendar days as a date parser hands them back: a day, a month and a year
    of the proleptic Gregorian calendar, as Python's `datetime` represents them. */
module Calendar {

  datatype Ymd = Ymd(day: int, month: int, year: int)

  predicate IsLeapYear(y: int) {
    y % 4 == 0 && (y % 100 != 0 || y % 400 == 0)
  }

  /** Number of days of month `m` (1..12) in year `y`. */
  function DaysInMonth(m: int, y: int): (n: int)
    requires 1 <= m <= 12
    ensures 28 <= n <= 31
    ensures n == 31 <==> m in {1, 3, 5, 7, 8, 10, 12}
    ensures n == 30 <==> m in {4, 6, 9, 11}
    ensures n == 29 <==> m == 2 && IsLeapYear(y)
    ensures n == 28 <==> m == 2 && !IsLeapYear(y)
  {
    if m == 2 then (if IsLeapYear(y) then 29 else 28)
    else if m == 4 || m == 6 || m == 9 || m == 11 then 30
    else 31
  }

  /** A day `datetime` can hold: years 1..9999, months 1..12, and a day that
      exists in that month of that year. */
  predicate IsCalendarDate(d: Ymd) {
    && 1 <= d.year <= 9999
    && 1 <= d.month <= 12
    && 1 <= d.day <= DaysInMonth(d.month, d.year)
  }

  /** The dates the model lets a parser return: calendar days whose year has
      four digits, so that `%Y` renders it the same way on every platform. */
  type Date = d: Ymd | IsCalendarDate(d) && 1000 <= d.year witness Ymd(1, 1, 1900)

  /** 29 February exists exactly in leap years. */
  lemma LeapDayExistsIffLeapYear(y: int)
    requires 1000 <= y <= 9999
    ensures IsCalendarDate(Ymd(29, 2, y)) <==> IsLeapYear(y)
  {
  }

  /** The impossible dates of the tests can never be a parsed `Date`, so they
      can never reach the formatter: 31 February 1930 does not exist, nor does
      29 February of the common year 1983. */
  lemma ImpossibleTestDates()
    ensures !IsCalendarDate(Ymd(31, 2, 1930))
    ensures !IsLeapYear(1983) && !IsCalendarDate(Ymd(29, 2, 1983))
  {
  }
}
