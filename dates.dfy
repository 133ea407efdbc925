/**
 * Calendar arithmetic used to validate a task's due date before the task is
 * created: the Gregorian leap-year rule, the length of each month, and the
 * validity test for a (day, month, year) triple.
 */
module Dates {

  /** The Gregorian rule: every fourth year is a leap year, except centuries
      that are not divisible by 400. Dafny's `%` is Euclidean where Java's
      truncates, but a remainder is zero under one convention exactly when it
      is zero under the other, so the rule reads the same for every year. */
  predicate IsLeapYear(year: int)
    ensures IsLeapYear(year) ==> year % 4 == 0
    ensures year % 400 == 0 ==> IsLeapYear(year)
    ensures year % 100 == 0 && year % 400 != 0 ==> !IsLeapYear(year)
    ensures year % 4 == 0 && year % 100 != 0 ==> IsLeapYear(year)
  {
    year % 4 == 0 && (year % 100 != 0 || year % 400 == 0)
  }

  /** Month lengths of a common year, January first. */
  const CommonMonthLengths: seq<int> := [31, 28, 31, 30, 31, 30, 31, 31, 30, 31, 30, 31]

  /** Number of days in `month` (1 = January) of `year`. The table lookup
      would fail for a month outside 1..12; the only caller rules that out
      first, so it is a precondition here. */
  function DaysInMonth(month: int, year: int): (days: int)
    requires 1 <= month <= 12
    ensures 28 <= days <= 31
    ensures days == 29 <==> month == 2 && IsLeapYear(year)
    ensures days == 28 <==> month == 2 && !IsLeapYear(year)
    ensures days == 31 <==> month in {1, 3, 5, 7, 8, 10, 12}
    ensures days == 30 <==> month in {4, 6, 9, 11}
  {
    if month == 2 && IsLeapYear(year) then 29 else CommonMonthLengths[month - 1]
  }

  /** A (day, month, year) triple names a real calendar day. */
  predicate IsValidDate(day: int, month: int, year: int)
    ensures IsValidDate(day, month, year) ==> 1 <= day <= 31 && 1 <= month <= 12
  {
    if month < 1 || month > 12 || day < 1 then false
    else day <= DaysInMonth(month, year)
  }

  /** The 29th of February exists exactly in leap years. */
  lemma LeapDayIsValidExactlyInLeapYears(year: int)
    ensures IsValidDate(29, 2, year) <==> IsLeapYear(year)
  {
  }

  /** The 31st exists exactly in the seven long months, whatever the year. */
  lemma ThirtyFirstIsValidExactlyInLongMonths(month: int, year: int)
    ensures IsValidDate(31, month, year) <==> month in {1, 3, 5, 7, 8, 10, 12}
  {
  }

  /** Days 1 to 28 exist in every month. */
  lemma FirstTwentyEightDaysAlwaysValid(day: int, month: int, year: int)
    requires 1 <= month <= 12
    ensures 1 <= day <= 28 ==> IsValidDate(day, month, year)
  {
  }
}
