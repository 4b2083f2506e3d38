/** The part of the ECMAScript Date object the calendar relies on, on whole days.
    A time value is counted in days since 1970-01-01 (day 0, a Thursday), as in the
    ECMAScript abstract operations Day, DayFromYear, MonthFromTime, DateFromTime,
    WeekDay and MakeDay. The local time zone is taken to be UTC. */
module JsDate {
  import Gregorian

  /** The day number of January 1st of year y (ECMAScript DayFromYear). */
  function DayFromYear(y: int): int {
    365 * (y - 1970) + (y - 1969) / 4 - (y - 1901) / 100 + (y - 1601) / 400
  }

  /** Day-within-year of the 1st of month m, for m in 0..12 (m == 12 is the year's end):
      the boundaries of ECMAScript MonthFromTime. */
  function DaysBeforeMonth(y: int, m: int): (n: int)
    requires 0 <= m <= 12
    ensures 0 <= n <= Gregorian.DaysInYear(y)
  {
    var leap := if Gregorian.IsLeapYear(y) then 1 else 0;
    [0, 31, 59, 90, 120, 151, 181, 212, 243, 273, 304, 334, 365][m] + (if m >= 2 then leap else 0)
  }

  /** ECMAScript MakeDay: the day number of (year, month, date); a month outside 0..11 is
      carried into the year by floor division, and date is added as a plain offset, so that
      date 0 is the day before the 1st. */
  function MakeDay(year: int, month: int, date: int): int {
    var ym := year + month / 12;
    var mn := month % 12;
    DayFromYear(ym) + DaysBeforeMonth(ym, mn) + date - 1
  }

  /** The Date constructor with separate components reads a year 0..99 as 1900..1999. */
  function DateYear(y: int): (r: int)
    ensures 0 <= y <= 99 ==> r == 1900 + y
    ensures !(0 <= y <= 99) ==> r == y
  {
    if 0 <= y <= 99 then 1900 + y else y
  }

  /** `new Date(year, month, date)`, as a day number. */
  function NewDate(year: int, month: int, date: int): int {
    MakeDay(DateYear(year), month, date)
  }

  /** Date.prototype.getDay: the weekday, 0 = Sunday; day 0 was a Thursday. */
  function WeekDay(t: int): (w: int)
    ensures 0 <= w < 7
  {
    (t + 4) % 7
  }

  /** ECMAScript YearFromTime: the year whose span of days holds day t. */
  function YearFromDay(t: int): (y: int)
    ensures DayFromYear(y) <= t < DayFromYear(y + 1)
  {
    var y0 := YearEstimate(t);
    YearEstimateClose(t);
    if DayFromYear(y0 + 1) <= t then y0 + 1
    else if DayFromYear(y0) <= t then y0
    else y0 - 1
  }

  /** 1970 plus the days since the epoch over the mean Gregorian year of 365.2425 days. */
  function YearEstimate(t: int): int {
    1970 + (400 * t) / 146097
  }

  /** The estimate is off by at most one year. */
  lemma YearEstimateClose(t: int)
    ensures DayFromYear(YearEstimate(t) - 1) <= t < DayFromYear(YearEstimate(t) + 2)
  {
    var q := (400 * t) / 146097;
    assert 146097 * q <= 400 * t < 146097 * q + 146097;
    DayFromYearNear(1970 + q - 1);
    DayFromYearNear(1970 + q + 2);
  }

  /** ECMAScript MonthFromTime, given its year: the month among 0..m holding day-within-year w. */
  function MonthSearch(y: int, w: int, m: int): (r: int)
    requires 0 <= m < 12
    requires 0 <= w < DaysBeforeMonth(y, m + 1)
    ensures 0 <= r <= m
    ensures DaysBeforeMonth(y, r) <= w < DaysBeforeMonth(y, r + 1)
    decreases m
  {
    if DaysBeforeMonth(y, m) <= w then m else MonthSearch(y, w, m - 1)
  }

  /** A calendar date: year, month 0..11 and day of month. */
  datatype Civil = Civil(year: int, month: int, day: int)

  /** The date exists in the Gregorian calendar. */
  predicate ValidCivil(c: Civil) {
    0 <= c.month < 12 && 1 <= c.day <= Gregorian.DaysInMonth(c.year, c.month)
  }

  function DayOfCivil(c: Civil): int {
    MakeDay(c.year, c.month, c.day)
  }

  /** The calendar date of day t (ECMAScript YearFromTime, MonthFromTime, DateFromTime). */
  function ToCivil(t: int): (c: Civil)
    ensures ValidCivil(c)
  {
    CivilInYear(t, YearFromDay(t))
  }

  /** The month and day of day t, given the year y whose span holds t. */
  function CivilInYear(t: int, y: int): (c: Civil)
    requires DayFromYear(y) <= t < DayFromYear(y + 1)
    ensures ValidCivil(c) && c.year == y
  {
    DayFromYearStep(y);
    var w := t - DayFromYear(y);
    var m := MonthSearch(y, w, 11);
    MonthBoundary(y, m);
    Civil(y, m, w - DaysBeforeMonth(y, m) + 1)
  }

  /** Date.prototype.getDate: the day of the month of day t. */
  function DateFromDay(t: int): (d: int)
    ensures 1 <= d <= 31
  {
    ToCivil(t).day
  }

  // ----- Arithmetic facts about DayFromYear and the month table -----

  /** Consecutive years are DaysInYear apart. */
  lemma DayFromYearStep(y: int)
    ensures DayFromYear(y + 1) - DayFromYear(y) == Gregorian.DaysInYear(y)
  {
    DayFromYearByLeaps(y);
    DayFromYearByLeaps(y + 1);
    Gregorian.LeapsThroughStep(y);
  }

  /** DayFromYear counts 365 days a year since 1970 plus the leap days before year y. */
  lemma DayFromYearByLeaps(y: int)
    ensures DayFromYear(y) == 365 * (y - 1970) + Gregorian.LeapsThrough(y - 1) - 477
  {
    var z := y - 1;
    assert (y - 1969) / 4 == z / 4 - 492 by { assert y - 1969 == z - 4 * 492; }
    assert (y - 1901) / 100 == z / 100 - 19 by { assert y - 1901 == z - 100 * 19; }
    assert (y - 1601) / 400 == z / 400 - 4 by { assert y - 1601 == z - 400 * 4; }
  }

  /** DayFromYear stays within two days of 365.2425 days per year since 1970. */
  lemma DayFromYearNear(y: int)
    ensures 146097 * (y - 1970) - 800 <= 400 * DayFromYear(y) <= 146097 * (y - 1970) + 800
  {
  }

  /** Month boundaries are the running sums of the Gregorian month lengths. */
  lemma MonthBoundary(y: int, m: int)
    requires 0 <= m < 12
    ensures DaysBeforeMonth(y, m + 1) == DaysBeforeMonth(y, m) + Gregorian.DaysInMonth(y, m)
    ensures DaysBeforeMonth(y, 12) == Gregorian.DaysInYear(y)
  {
  }

  /** Later years start later: the spans of different years do not overlap. */
  lemma DayFromYearIncreasing(a: int, b: int)
    requires a < b
    ensures DayFromYear(a + 1) <= DayFromYear(b)
  {
    if b == a + 1 {
    } else {
      DayFromYearNear(a + 1);
      DayFromYearNear(b);
    }
  }

  /** Month boundaries never decrease. */
  lemma DaysBeforeMonthIncreasing(y: int, m1: int, m2: int)
    requires 0 <= m1 <= m2 <= 12
    ensures DaysBeforeMonth(y, m1) <= DaysBeforeMonth(y, m2)
  {
  }

  // ----- The Date getters invert MakeDay -----

  /** YearFromDay finds the only year whose span contains t. */
  lemma YearFromDayUnique(t: int, y: int)
    requires DayFromYear(y) <= t < DayFromYear(y + 1)
    ensures YearFromDay(t) == y
  {
    var r := YearFromDay(t);
    if r < y {
      DayFromYearIncreasing(r, y);
    } else if y < r {
      DayFromYearIncreasing(y, r);
    }
  }

  /** MonthSearch finds the only month whose span contains w. */
  lemma {:induction false} MonthSearchUnique(y: int, w: int, m: int, r: int)
    requires 0 <= r <= m < 12
    requires DaysBeforeMonth(y, r) <= w < DaysBeforeMonth(y, r + 1)
    ensures MonthSearch(y, w, m) == r
    decreases m
  {
    if r < m {
      DaysBeforeMonthIncreasing(y, r + 1, m);
      MonthSearchUnique(y, w, m - 1, r);
    }
  }

  /** For a month in 0..11, MakeDay carries nothing into the year. */
  lemma MakeDayInYear(y: int, m: int, d: int)
    requires 0 <= m < 12
    ensures MakeDay(y, m, d) == DayFromYear(y) + DaysBeforeMonth(y, m) + d - 1
  {
    assert m / 12 == 0 && m % 12 == m;
  }

  /** Reading back the date of a day gives that day (DateFromTime and friends agree with MakeDay). */
  lemma DayOfToCivil(t: int)
    ensures DayOfCivil(ToCivil(t)) == t
  {
    var c := ToCivil(t);
    MakeDayInYear(c.year, c.month, c.day);
  }

  /** Every valid date is read back unchanged from its day number. */
  lemma ToCivilOfDay(c: Civil)
    requires ValidCivil(c)
    ensures ToCivil(DayOfCivil(c)) == c
  {
    MakeDayInYear(c.year, c.month, c.day);
    ReadBackDate(c.year, c.month, c.day, DayOfCivil(c));
  }

  /** The getters find the year, the month and the day that day number t was made of. */
  lemma ReadBackDate(y: int, m: int, d: int, t: int)
    requires 0 <= m < 12 && 1 <= d <= Gregorian.DaysInMonth(y, m)
    requires t == DayFromYear(y) + DaysBeforeMonth(y, m) + d - 1
    ensures ToCivil(t) == Civil(y, m, d)
  {
    DateInSpans(y, m, d, t);
    ToCivilIn(t, y, m, d);
  }

  /** A day in the span of year y and of its month m is read back as (y, m, d). */
  lemma ToCivilIn(t: int, y: int, m: int, d: int)
    requires 0 <= m < 12
    requires DayFromYear(y) <= t < DayFromYear(y + 1)
    requires DaysBeforeMonth(y, m) <= t - DayFromYear(y) < DaysBeforeMonth(y, m + 1)
    requires d == t - DayFromYear(y) - DaysBeforeMonth(y, m) + 1
    ensures ToCivil(t) == Civil(y, m, d)
  {
    YearFromDayUnique(t, y);
    CivilInYearAt(t, y, m, d);
  }

  lemma CivilInYearAt(t: int, y: int, m: int, d: int)
    requires 0 <= m < 12
    requires DayFromYear(y) <= t < DayFromYear(y + 1)
    requires DaysBeforeMonth(y, m) <= t - DayFromYear(y) < DaysBeforeMonth(y, m + 1)
    requires d == t - DayFromYear(y) - DaysBeforeMonth(y, m) + 1
    ensures CivilInYear(t, y) == Civil(y, m, d)
  {
    MonthSearchUnique(y, t - DayFromYear(y), 11, m);
  }

  /** The day number of a valid date lies in its year's span and in its month's span. */
  lemma DateInSpans(y: int, m: int, d: int, t: int)
    requires 0 <= m < 12 && 1 <= d <= Gregorian.DaysInMonth(y, m)
    requires t == DayFromYear(y) + DaysBeforeMonth(y, m) + d - 1
    ensures DayFromYear(y) <= t < DayFromYear(y + 1)
    ensures DaysBeforeMonth(y, m) <= t - DayFromYear(y) < DaysBeforeMonth(y, m + 1)
  {
    MonthBoundary(y, m);
    DaysBeforeMonthIncreasing(y, m + 1, 12);
    DayFromYearStep(y);
  }

  /** Two valid dates with the same day number are the same date. */
  lemma DayOfCivilInjective(c1: Civil, c2: Civil)
    requires ValidCivil(c1) && ValidCivil(c2)
    requires DayOfCivil(c1) == DayOfCivil(c2)
    ensures c1 == c2
  {
    ToCivilOfDay(c1);
    ToCivilOfDay(c2);
  }

  // ----- The two Date idioms of the calendar -----

  /** Day 0 of month m + 1 is the last day of month m, also for December, whose month + 1
      carries into January of the next year. */
  lemma DayZeroIsLastDay(y: int, m: int)
    requires 0 <= m < 12
    ensures MakeDay(y, m + 1, 0) == DayOfCivil(Civil(y, m, Gregorian.DaysInMonth(y, m)))
  {
    MakeDayInYear(y, m, Gregorian.DaysInMonth(y, m));
    MonthBoundary(y, m);
    if m == 11 {
      assert (m + 1) / 12 == 1 && (m + 1) % 12 == 0;
      DayFromYearStep(y);
    } else {
      MakeDayInYear(y, m + 1, 0);
    }
  }

  /** So `new Date(y, m + 1, 0)` reads back as the last day of month m, and its getDate()
      is the month's length. */
  lemma LastDayOfMonth(y: int, m: int)
    requires 0 <= m < 12
    ensures ToCivil(MakeDay(y, m + 1, 0)) == Civil(y, m, Gregorian.DaysInMonth(y, m))
    ensures DateFromDay(MakeDay(y, m + 1, 0)) == Gregorian.DaysInMonth(y, m)
  {
    DayZeroIsLastDay(y, m);
    ToCivilOfDay(Civil(y, m, Gregorian.DaysInMonth(y, m)));
  }

  /** getDay() of `new Date(y, m, d)` agrees with Sakamoto's weekday formula. */
  lemma WeekDayOfDate(y: int, m: int, d: int)
    requires 0 <= m < 12
    ensures WeekDay(MakeDay(y, m, d)) == Gregorian.DayOfWeek(y, m, d)
  {
    var yy := if m < 2 then y - 1 else y;
    var t := MakeDay(y, m, d);
    var b := yy + Gregorian.LeapsThrough(yy) + Gregorian.MonthKey[m] + d;
    var k := MonthKeyOffset(y, m);
    assert t + 4 == b + 7 * (52 * yy + k) by {
      MakeDayInYear(y, m, d);
      DayFromYearByLeaps(y);
      Gregorian.LeapsThroughStep(y);
    }
    SameModSeven(t + 4, b, 52 * yy + k);
  }

  /** The offsets of Sakamoto's month table are the month boundaries, taken modulo 7 and
      shifted for the leap day and the 1970 epoch. */
  ghost function MonthKeyOffset(y: int, m: int): (k: int)
    requires 0 <= m < 12
    ensures m < 2 ==> DaysBeforeMonth(y, m) - Gregorian.MonthKey[m] + 365 - 719524 == 7 * k
    ensures m >= 2 ==>
      DaysBeforeMonth(y, m) - (if Gregorian.IsLeapYear(y) then 1 else 0) - Gregorian.MonthKey[m] - 719524 == 7 * k
  {
    if m < 2 then
      (DaysBeforeMonth(y, m) - Gregorian.MonthKey[m] + 365 - 719524) / 7
    else
      (DaysBeforeMonth(y, m) - (if Gregorian.IsLeapYear(y) then 1 else 0) - Gregorian.MonthKey[m] - 719524) / 7
  }

  lemma SameModSeven(a: int, b: int, k: int)
    requires a == b + 7 * k
    ensures a % 7 == b % 7
  {
  }

  /** 1 January 2024 is day 19723 of the epoch, a Monday; 1 February 2024 is a Thursday. */
  lemma NewYear2024()
    ensures NewDate(2024, 0, 1) == 19723 && WeekDay(NewDate(2024, 0, 1)) == 1
    ensures NewDate(2024, 1, 1) == 19754 && WeekDay(NewDate(2024, 1, 1)) == 4
  {
    assert DayFromYear(2024) == 19723;
    assert DateYear(2024) == 2024;
    MakeDayInYear(2024, 0, 1);
    MakeDayInYear(2024, 1, 1);
    assert DaysBeforeMonth(2024, 1) == 31;
  }
}
