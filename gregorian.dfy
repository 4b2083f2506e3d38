/** The proleptic Gregorian calendar, stated independently of any date library:
    the leap-year rule, month and year lengths, and a weekday formula.
    Months are numbered 0 (January) to 11 (December), weekdays 0 (Sunday) to 6 (Saturday). */
module Gregorian {

  /** Every fourth year is a leap year, except centuries not divisible by 400. */
  predicate IsLeapYear(y: int) {
    y % 4 == 0 && (y % 100 != 0 || y % 400 == 0)
  }

  function DaysInYear(y: int): (n: int)
    ensures n == 365 || n == 366
    ensures n == 366 <==> IsLeapYear(y)
  {
    if IsLeapYear(y) then 366 else 365
  }

  /** The length of month m of year y. */
  function DaysInMonth(y: int, m: int): (n: int)
    requires 0 <= m < 12
    ensures 28 <= n <= 31
  {
    if m == 1 then (if IsLeapYear(y) then 29 else 28)
    else if m == 3 || m == 5 || m == 8 || m == 10 then 30
    else 31
  }

  /** Month offsets of Sakamoto's weekday method, for months 0..11. */
  const MonthKey: seq<int> := [0, 3, 2, 5, 0, 3, 5, 1, 4, 6, 2, 4]

  /** Number of leap years among 1..y (extended to all integers by floor division). */
  function LeapsThrough(y: int): int {
    y / 4 - y / 100 + y / 400
  }

  /** Weekday of day d of month m of year y by Sakamoto's method: January and February count
      as the last months of the previous year, so that the leap day comes at the end. */
  function DayOfWeek(y: int, m: int, d: int): (w: int)
    requires 0 <= m < 12
    ensures 0 <= w < 7
  {
    var yy := if m < 2 then y - 1 else y;
    (yy + LeapsThrough(yy) + MonthKey[m] + d) % 7
  }

  /** The leap-year count grows by one exactly at leap years. */
  lemma LeapsThroughStep(y: int)
    ensures LeapsThrough(y) - LeapsThrough(y - 1) == if IsLeapYear(y) then 1 else 0
  {
    FloorStep4(y);
    FloorStep100(y);
    FloorStep400(y);
  }

  /** Floor division by 4, 100 and 400 steps up exactly at the multiples. */
  lemma FloorStep4(a: int)
    ensures a / 4 - (a - 1) / 4 == if a % 4 == 0 then 1 else 0
  {
  }

  lemma FloorStep100(a: int)
    ensures a / 100 - (a - 1) / 100 == if a % 100 == 0 then 1 else 0
  {
  }

  lemma FloorStep400(a: int)
    ensures a / 400 - (a - 1) / 400 == if a % 400 == 0 then 1 else 0
  {
  }

  /** February is the only month whose length depends on the year. */
  lemma FebruaryLength(y: int)
    ensures DaysInMonth(y, 1) == 29 <==> IsLeapYear(y)
    ensures DaysInMonth(y, 1) == 28 <==> !IsLeapYear(y)
  {
  }

  /** The twelve months add up to the year. */
  lemma MonthsFillYear(y: int)
    ensures DaysInMonth(y, 0) + DaysInMonth(y, 1) + DaysInMonth(y, 2) + DaysInMonth(y, 3)
          + DaysInMonth(y, 4) + DaysInMonth(y, 5) + DaysInMonth(y, 6) + DaysInMonth(y, 7)
          + DaysInMonth(y, 8) + DaysInMonth(y, 9) + DaysInMonth(y, 10) + DaysInMonth(y, 11)
          == DaysInYear(y)
  {
  }

  /** Within a month the weekday advances by one each day: day d falls d - 1 days after the 1st. */
  lemma DayOfWeekFromFirst(y: int, m: int, d: int)
    requires 0 <= m < 12
    ensures DayOfWeek(y, m, d) == (DayOfWeek(y, m, 1) + d - 1) % 7
  {
    var yy := if m < 2 then y - 1 else y;
    var b := yy + LeapsThrough(yy) + MonthKey[m];
    assert DayOfWeek(y, m, d) == (b + d) % 7;
    assert DayOfWeek(y, m, 1) == (b + 1) % 7;
    ModSevenShift(b + 1, d - 1);
  }

  lemma ModSevenShift(a: int, e: int)
    ensures (a + e) % 7 == (a % 7 + e) % 7
  {
    var q := a / 7;
    assert a + e == 7 * q + (a % 7 + e);
  }
}
