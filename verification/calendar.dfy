/**
 * Calendar arithmetic used by the date/time editor of the Pico clock
 * (`days_in_month` in code.py).
 */
module Calendar {
  import opened Wrappers

  /** Lengths of the months of a common year, January first. */
  const MonthLengths: seq<int> := [31, 28, 31, 30, 31, 30, 31, 31, 30, 31, 30, 31]

  /** The Gregorian leap-year rule. For a positive divisor Dafny's `%` and
      Python's `%` agree (both are non-negative), so this is the rule the
      source evidently means for every integer year. */
  predicate IsLeapYear(year: int) {
    (year % 4 == 0 && year % 100 != 0) || year % 400 == 0
  }

  /** Number of days in `month` of `year`, with the intended leap-year rule.
      The source as written raises an error for every February instead; see
      `DaysInMonthAsWritten`. */
  function DaysInMonth(month: int, year: int): (days: int)
    requires 1 <= month <= 12
    ensures 28 <= days <= 31
    ensures days == 29 <==> month == 2 && IsLeapYear(year)
    ensures !(month == 2 && IsLeapYear(year)) ==> days == MonthLengths[month - 1]
  {
    if month == 2 && IsLeapYear(year) then 29 else MonthLengths[month - 1]
  }

  /** The errors Python raises while evaluating `days_in_month`. */
  datatype PyError = NameError(name: string) | IndexError

  /**
   * `days_in_month` exactly as written. The guard tests `month == 2` first;
   * only when that holds does Python evaluate the year test, whose first
   * operand names the undefined variable `ear`, so every February call
   * raises NameError. Other months index the tuple with `month - 1`, where
   * Python accepts indices -12..11 (negative ones count from the end) and
   * raises IndexError for the rest.
   */
  function DaysInMonthAsWritten(month: int, year: int): (r: Result<int, PyError>)
    ensures r == Failure(NameError("ear")) <==> month == 2
    ensures r.Failure? <==> month == 2 || month < -11 || 12 < month
    ensures month < -11 || 12 < month ==> r == Failure(IndexError)
    ensures 1 <= month <= 12 && month != 2 ==> r == Success(DaysInMonth(month, year))
    ensures -11 <= month <= 0 ==> r == Success(MonthLengths[month + 11])
  {
    if month == 2 then Failure(NameError("ear"))
    else if -11 <= month <= 12 then Success(MonthLengths[(month - 1) % 12])
    else Failure(IndexError)
  }

  /** The as-written function cannot answer for February at all: for 2024,
      a leap year, the intended answer is 29 but the call raises NameError. */
  lemma AsWrittenFailsOnLeapFebruary()
    ensures DaysInMonthAsWritten(2, 2024) == Failure(NameError("ear"))
    ensures DaysInMonth(2, 2024) == 29
  {
  }

  /** The familiar rule, stated without the table: thirty days have
      September, April, June and November; February has 28, or 29 in a leap
      year; all the rest have 31. */
  lemma DaysInMonthByRule(month: int, year: int)
    requires 1 <= month <= 12
    ensures DaysInMonth(month, year) ==
      if month == 2 then (if IsLeapYear(year) then 29 else 28)
      else if month == 4 || month == 6 || month == 9 || month == 11 then 30
      else 31
  {
  }

  /** Total number of days in the first `months` months of `year`. */
  function DaysBefore(months: nat, year: int): int
    requires months <= 12
  {
    if months == 0 then 0 else DaysBefore(months - 1, year) + DaysInMonth(months, year)
  }

  /** The months of a year add up to 365 days, or 366 in a leap year. */
  lemma YearLength(year: int)
    ensures DaysBefore(12, year) == if IsLeapYear(year) then 366 else 365
  {
    // Only February depends on the year; the other eleven months give 334.
    assert DaysBefore(1, year) == 31;
    assert DaysBefore(2, year) == 31 + DaysInMonth(2, year);
    assert DaysBefore(3, year) == DaysBefore(2, year) + 31;
    assert DaysBefore(4, year) == DaysBefore(2, year) + 61;
    assert DaysBefore(5, year) == DaysBefore(2, year) + 92;
    assert DaysBefore(6, year) == DaysBefore(2, year) + 122;
    assert DaysBefore(7, year) == DaysBefore(2, year) + 153;
    assert DaysBefore(8, year) == DaysBefore(2, year) + 184;
    assert DaysBefore(9, year) == DaysBefore(2, year) + 214;
    assert DaysBefore(10, year) == DaysBefore(2, year) + 245;
    assert DaysBefore(11, year) == DaysBefore(2, year) + 275;
  }
}
