/** The Gregorian calendar, and the day count VTIM_parse computes (lib/vtim.c). */
module Calendar {
  // ------------------------------------------------ the calendar

  predicate IsLeap(y: int) { y % 4 == 0 && (y % 100 != 0 || y % 400 == 0) }

  function YearLength(y: int): int { if IsLeap(y) then 366 else 365 }

  function MonthLength(y: int, m: int): (n: int)
    ensures 28 <= n <= 31
  {
    if m == 2 then if IsLeap(y) then 29 else 28
    else if m == 4 || m == 6 || m == 9 || m == 11 then 30
    else 31
  }

  /** Days from 1 January 2000 to 1 January of year `y`: the lengths of the years between. */
  function DaysToYear(y: int): int
    decreases if y >= 2000 then y - 2000 else 2000 - y
  {
    if y == 2000 then 0
    else if y > 2000 then DaysToYear(y - 1) + YearLength(y - 1)
    else DaysToYear(y + 1) - YearLength(y)
  }

  /** Days from 1 January to the first of month `m`. */
  function DaysToMonth(y: int, m: int): int
    requires 1 <= m <= 12
    decreases m
  {
    if m == 1 then 0 else DaysToMonth(y, m - 1) + MonthLength(y, m - 1)
  }

  function DayNumber(y: int, m: int, d: int): int
    requires 1 <= m <= 12
  {
    DaysToYear(y) + DaysToMonth(y, m) + (d - 1)
  }

  /** 1 January 2000 was a Saturday; Sunday is 0. */
  function Weekday(day: int): (w: int)
    ensures 0 <= w < 7
  {
    (day + 6) % 7
  }

  // ------------------------------------------------ the code's count

  function DaysBeforeMonth(m: int): int
    requires 1 <= m <= 12
  {
    [0, 31, 59, 90, 120, 151, 181, 212, 243, 273, 304, 334][m - 1]
  }

  /** The days of the years, as the code adds them up. */
  function YearDays(y: int): int {
    y % 100 * 365 + (if y % 100 > 0 then (y % 100 - 1) / 4
      else 0) + (y / 100 - 20) * (100 * 365 + 24) + ((y - 1) / 400 - 4)
  }

  function CodeDays(y: int, m: int, d: int): int
    requires 1 <= m <= 12
  {
    d - 1 + DaysBeforeMonth(m) + (if m > 2 && IsLeap(y) then 1 else 0) + YearDays(y)
  }

  /** A year by its four-century, century and year in the century. */
  lemma Parts(y: int) returns (a: int, b: int, r: int)
    requires y >= 1
    ensures y == 400 * a + 100 * b + r && 0 <= b < 4 && 0 <= r < 100 && a >= 0
    ensures y % 100 == r && y / 100 == 4 * a + b && y % 4 == r % 4 && y % 400 == 100 * b + r
    ensures (y - 1) / 400 == if b == 0 && r == 0 then a - 1 else a
  {
    a, r := y / 400, y % 100;
    b := y / 100 - 4 * a;
  }

  /** The count goes up by the length of each year. */
  lemma YearStep(y: int)
    requires y >= 1
    ensures YearDays(y + 1) == YearDays(y) + YearLength(y)
  {
    var a, b, r := Parts(y);
    var a', b', r' := Parts(y + 1);
    assert r < 99 ==> a' == a && b' == b && r' == r + 1;
    assert r == 99 && b < 3 ==> a' == a && b' == b + 1 && r' == 0;
    assert r == 99 && b == 3 ==> a' == a + 1 && b' == 0 && r' == 0;
  }

  lemma {:induction false} YearsRight(y: int)
    requires y >= 1
    ensures YearDays(y) == DaysToYear(y)
    decreases if y >= 2000 then y - 2000 else 2000 - y
  {
    hide YearDays, YearLength;
    if y == 2000 {
      assert YearDays(2000) == 0 by { At2000(); }
    } else if y > 2000 {
      YearsRight(y - 1);
      YearStep(y - 1);
    } else {
      YearsRight(y + 1);
      YearStep(y);
    }
  }

  lemma At2000()
    ensures YearDays(2000) == 0
  {}

  lemma {:induction false} MonthsRight(y: int, m: int)
    requires 1 <= m <= 12
    ensures DaysToMonth(y, m) == DaysBeforeMonth(m) + if m > 2 && IsLeap(y) then 1 else 0
  {
    hide IsLeap;
    if m > 1 { MonthsRight(y, m - 1); }
  }

  /** The closed form counts the days of the calendar, for every year the code accepts (and earlier). */
  lemma DaysRight(y: int, m: int, d: int)
    requires y >= 1 && 1 <= m <= 12
    ensures CodeDays(y, m, d) == DayNumber(y, m, d)
  {
    hide YearDays, DaysBeforeMonth, IsLeap;
    YearsRight(y);
    MonthsRight(y, m);
  }

  // ------------------------------------------------ instants

  datatype Civil = Civil(year: int, month: int, day: int, hour: int, min: int, sec: int)

  /** A date and a time of day that exist; leap seconds are not told apart from what precedes them. */
  predicate Exists(c: Civil) {
    && 1 <= c.month <= 12 && 1 <= c.day <= MonthLength(c.year, c.month)
    && 0 <= c.hour < 24 && 0 <= c.min < 60 && 0 <= c.sec <= 60
  }

  /** Seconds since 1970 began. */
  function Seconds(c: Civil): int
    requires 1 <= c.month <= 12
  {
    (DayNumber(c.year, c.month, c.day) + 10957) * 86400 + (c.hour * 60 + c.min) * 60 + if c.sec == 60 then 59 else c.sec
  }

  function NextDay(c: Civil): Civil {
    if c.day < MonthLength(c.year, c.month) then Civil(c.year, c.month, c.day + 1, 0, 0, 0)
    else if c.month < 12 then Civil(c.year, c.month + 1, 1, 0, 0, 0)
    else Civil(c.year + 1, 1, 1, 0, 0, 0)
  }

  /** The second that follows one that is not a leap second. */
  function NextSecond(c: Civil): Civil {
    if c.sec < 59 then c.(sec := c.sec + 1)
    else if c.min < 59 then c.(min := c.min + 1, sec := 0)
    else if c.hour < 23 then c.(hour := c.hour + 1, min := 0, sec := 0)
    else NextDay(c)
  }

  lemma YearOfMonths(y: int)
    ensures DaysToMonth(y, 12) + MonthLength(y, 12) == YearLength(y)
  {
    MonthsRight(y, 12);
  }

  lemma YearFollows(y: int)
    ensures DaysToYear(y + 1) == DaysToYear(y) + YearLength(y)
  {}

  /** Day after day, the day number goes up by one and the weekday goes round. */
  lemma DayFollows(c: Civil)
    requires Exists(c)
    ensures var n := NextDay(c);
      && Exists(n)
      && DayNumber(n.year, n.month, n.day) == DayNumber(c.year, c.month, c.day) + 1
      && Weekday(DayNumber(n.year, n.month, n.day)) == (Weekday(DayNumber(c.year, c.month, c.day)) + 1) % 7
  {
    hide YearLength, DaysToYear, MonthLength;
    YearOfMonths(c.year);
    YearFollows(c.year);
    assert DaysToMonth(c.year + 1, 1) == 0;
  }

  /** Successive seconds are one apart. */
  lemma SecondFollows(c: Civil)
    requires Exists(c) && c.sec < 60
    ensures Exists(NextSecond(c)) && Seconds(NextSecond(c)) == Seconds(c) + 1
  {
    hide DayNumber, MonthLength;
    if c.sec == 59 && c.min == 59 && c.hour == 23 { DayFollows(c); }
  }

  /** Midnight of 1 January 1970 is second number 0. */
  lemma Epoch()
    ensures Seconds(Civil(1970, 1, 1, 0, 0, 0)) == 0
  {
    DaysRight(1970, 1, 1);
  }

  /** 1 January 1970 was a Thursday, 6 November 1994 a Sunday. */
  lemma Thursday()
    ensures Weekday(DayNumber(1970, 1, 1)) == 4 && Weekday(DayNumber(1994, 11, 6)) == 0
  {
    DaysRight(1970, 1, 1);
    DaysRight(1994, 11, 6);
  }

  // ------------------------------------------------ the order of instants

  predicate DateBefore(a: Civil, b: Civil) {
    a.year < b.year || (a.year == b.year && (a.month < b.month || (a.month == b.month && a.day < b.day)))
  }

  lemma {:induction false} YearsGrow(x: int, y: int)
    requires x <= y
    ensures DaysToYear(x) <= DaysToYear(y) && (x < y ==> DaysToYear(x) + YearLength(x) <= DaysToYear(y))
    decreases y - x
  {
    hide YearLength;
    if x < y {
      YearsGrow(x, y - 1);
      YearFollows(y - 1);
      assert YearLength(y - 1) >= 365 by { SomeDays(y - 1); }
    }
  }

  lemma SomeDays(y: int)
    ensures YearLength(y) >= 365
  {}

  lemma {:induction false} MonthsGrow(y: int, k: int, m: int)
    requires 1 <= k <= m <= 12
    ensures DaysToMonth(y, k) <= DaysToMonth(y, m)
    ensures (k < m ==> DaysToMonth(y, k) + MonthLength(y, k) <= DaysToMonth(y, m))
    ensures 0 <= DaysToMonth(y, m)
    decreases m - k, m
  {
    if k < m {
      MonthsGrow(y, k, m - 1);
    } else if k > 1 {
      MonthsGrow(y, k - 1, k - 1);
    }
  }

  lemma DatesGrow(a: Civil, b: Civil)
    requires Exists(a) && Exists(b) && DateBefore(a, b)
    ensures DayNumber(a.year, a.month, a.day) < DayNumber(b.year, b.month, b.day)
  {
    hide YearLength, MonthLength, DaysToYear, DaysToMonth;
    MonthsGrow(a.year, 1, a.month);
    MonthsGrow(b.year, 1, b.month);
    if a.year < b.year {
      YearsGrow(a.year, b.year);
      MonthsGrow(a.year, a.month, 12);
      YearOfMonths(a.year);
    } else if a.month < b.month {
      MonthsGrow(a.year, a.month, b.month);
    }
  }

  /** No two instants have the same count of seconds. */
  lemma SecondsTell(a: Civil, b: Civil)
    requires Exists(a) && Exists(b) && a.sec < 60 && b.sec < 60
    ensures Seconds(a) == Seconds(b) <==> a == b
  {
    hide DayNumber, MonthLength;
    if DateBefore(a, b) {
      DatesGrow(a, b);
    } else if DateBefore(b, a) {
      DatesGrow(b, a);
    }
    assert a == Civil(a.year, a.month, a.day, a.hour, a.min, a.sec);
    assert b == Civil(b.year, b.month, b.day, b.hour, b.min, b.sec);
  }
}
