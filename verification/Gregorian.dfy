/** Calendar arithmetic on day numbers, day 0 being 1 January 1970
    (sections 15.9.1.2 to 15.9.1.6 and 15.9.1.12 of ECMA-262 5.1). */
module Gregorian {
  const MS_PER_DAY := 86_400_000

  function DayFromYear(y: int): int {
    365 * (y - 1970) + (y - 1969) / 4 - (y - 1901) / 100 + (y - 1601) / 400
  }

  predicate Leap(y: int) {
    y % 4 == 0 && (y % 100 != 0 || y % 400 == 0)
  }

  function DaysInYear(y: int): int {
    if Leap(y) then 366 else 365
  }

  lemma FourthYears(y: int)
    ensures (y - 1968) / 4 == (y - 1969) / 4 + if y % 4 == 0 then 1 else 0
  {
  }

  lemma Centuries(y: int)
    ensures (y - 1900) / 100 == (y - 1901) / 100 + if y % 100 == 0 then 1 else 0
  {
  }

  lemma FourthCenturies(y: int)
    ensures (y - 1600) / 400 == (y - 1601) / 400 + if y % 400 == 0 then 1 else 0
  {
  }

  lemma LeapCount(y: int)
    ensures (if y % 4 == 0 then 1 else 0) - (if y % 100 == 0 then 1 else 0) + (if y % 400 == 0 then 1 else 0) ==
            if Leap(y) then 1 else 0
  {
  }

  lemma YearLength(y: int)
    ensures DayFromYear(y + 1) == DayFromYear(y) + DaysInYear(y)
  {
    FourthYears(y);
    Centuries(y);
    FourthCenturies(y);
    LeapCount(y);
    hide Leap;
  }

  lemma {:induction false} YearsAscend(y: int, z: int)
    requires y <= z
    ensures DayFromYear(z) - DayFromYear(y) >= 365 * (z - y)
    decreases z - y
  {
    if y < z {
      YearsAscend(y, z - 1);
      YearLength(z - 1);
    }
  }

  /** The year whose days include `day`, searched from a guess. */
  function YearNear(day: int, guess: int): (y: int)
    ensures DayFromYear(y) <= day < DayFromYear(y + 1)
    decreases day < DayFromYear(guess),
              if day < DayFromYear(guess) then DayFromYear(guess) - day else day - DayFromYear(guess)
  {
    hide DayFromYear, Leap;
    YearLength(guess);
    YearLength(guess - 1);
    if day < DayFromYear(guess) then YearNear(day, guess - 1)
    else if day >= DayFromYear(guess + 1) then YearNear(day, guess + 1)
    else guess
  }

  function YearOf(day: int): (y: int)
    ensures DayFromYear(y) <= day < DayFromYear(y + 1)
  {
    YearNear(day, 1970 + day / 365)
  }

  lemma YearIsUnique(day: int, y: int)
    requires DayFromYear(y) <= day < DayFromYear(y + 1)
    ensures YearOf(day) == y
  {
    hide DayFromYear, YearOf;
    var z := YearOf(day);
    if z < y {
      YearsAscend(z + 1, y);
    } else if y < z {
      YearsAscend(y + 1, z);
    }
  }

  /** The day of the year on which a month starts; month 12 is the next January. */
  function MonthStart(month: int, leap: bool): int
    requires 0 <= month <= 12
  {
    [0, 31, 59, 90, 120, 151, 181, 212, 243, 273, 304, 334, 365][month] + if leap && month >= 2 then 1 else 0
  }

  function MonthLength(year: int, month: int): (n: int)
    requires 0 <= month < 12
    ensures 28 <= n <= 31
  {
    MonthStart(month + 1, Leap(year)) - MonthStart(month, Leap(year))
  }

  function MonthWithin(dayInYear: int, leap: bool, month: int): (m: int)
    requires 0 <= month < 12 && MonthStart(month, leap) <= dayInYear < MonthStart(12, leap)
    ensures 0 <= m < 12 && MonthStart(m, leap) <= dayInYear < MonthStart(m + 1, leap)
    decreases 12 - month
  {
    if month == 11 || dayInYear < MonthStart(month + 1, leap) then month
    else MonthWithin(dayInYear, leap, month + 1)
  }

  function DayWithinYear(day: int): (n: int)
    ensures 0 <= n < MonthStart(12, Leap(YearOf(day)))
  {
    YearLength(YearOf(day));
    day - DayFromYear(YearOf(day))
  }

  function MonthOf(day: int): (m: int)
    ensures 0 <= m < 12
  {
    MonthWithin(DayWithinYear(day), Leap(YearOf(day)), 0)
  }

  function DateOf(day: int): (d: int)
    ensures 1 <= d <= MonthLength(YearOf(day), MonthOf(day))
  {
    DayWithinYear(day) - MonthStart(MonthOf(day), Leap(YearOf(day))) + 1
  }

  /** `MakeDay`: months and dates outside their range carry over. */
  function MakeDay(year: int, month: int, date: int): int {
    var y := year + month / 12;
    DayFromYear(y) + MonthStart(month % 12, Leap(y)) + date - 1
  }

  /** 0 is Sunday. */
  function WeekDay(day: int): int {
    (day + 4) % 7
  }

  lemma {:induction false} MonthStartsAscend(m: int, n: int, leap: bool)
    requires 0 <= m < n <= 12
    ensures MonthStart(m, leap) < MonthStart(n, leap)
    decreases n - m
  {
    if m < n - 1 {
      MonthStartsAscend(m, n - 1, leap);
    }
  }

  /** Where a day lies in its year and month. */
  lemma DateParts(day: int)
    ensures var y, m := YearOf(day), MonthOf(day);
            && DayFromYear(y) <= day < DayFromYear(y + 1)
            && MonthStart(m, Leap(y)) <= day - DayFromYear(y) < MonthStart(m + 1, Leap(y))
            && DateOf(day) == day - DayFromYear(y) - MonthStart(m, Leap(y)) + 1
  {
    hide YearNear, MonthStart, DayFromYear, Leap;
  }

  /** Reading the date off a day and making the day of a date are inverse. */
  lemma DayOfDate(day: int)
    ensures MakeDay(YearOf(day), MonthOf(day), DateOf(day)) == day
  {
    DateParts(day);
    hide YearOf, MonthOf, DateOf, MonthStart, DayFromYear;
  }

  lemma MonthIsUnique(dayInYear: int, leap: bool, m: int, n: int)
    requires 0 <= m < 12 && MonthStart(m, leap) <= dayInYear < MonthStart(m + 1, leap)
    requires 0 <= n < 12 && MonthStart(n, leap) <= dayInYear < MonthStart(n + 1, leap)
    ensures m == n
  {
    hide MonthStart;
    if m + 1 < n { MonthStartsAscend(m + 1, n, leap); }
    if n + 1 < m { MonthStartsAscend(n + 1, m, leap); }
  }

  lemma DateOfDay(year: int, month: int, date: int)
    requires 0 <= month < 12 && 1 <= date <= MonthLength(year, month)
    ensures var day := MakeDay(year, month, date);
            YearOf(day) == year && MonthOf(day) == month && DateOf(day) == date
  {
    var leap, inYear := Leap(year), MonthStart(month, Leap(year)) + date - 1;
    var day := DayFromYear(year) + inYear;
    assert MakeDay(year, month, date) == day && inYear < MonthStart(month + 1, leap);
    assert 0 <= inYear < DaysInYear(year) by {
      if month < 11 { MonthStartsAscend(month + 1, 12, leap); }
    }
    hide YearOf, MonthOf, DateOf, MonthStart, DayFromYear, MakeDay;
    YearLength(year);
    YearIsUnique(day, year);
    DateParts(day);
    MonthIsUnique(inYear, leap, MonthOf(day), month);
  }

  lemma SameDateSameDay(a: int, b: int)
    requires YearOf(a) == YearOf(b) && MonthOf(a) == MonthOf(b) && DateOf(a) == DateOf(b)
    ensures a == b
  {
    DayOfDate(a);
    DayOfDate(b);
  }

  predicate DateBefore(a: int, b: int) {
    || YearOf(a) < YearOf(b)
    || (YearOf(a) == YearOf(b) && MonthOf(a) < MonthOf(b))
    || (YearOf(a) == YearOf(b) && MonthOf(a) == MonthOf(b) && DateOf(a) < DateOf(b))
  }

  lemma EarlierDate(a: int, b: int)
    requires DateBefore(a, b)
    ensures a < b
  {
    hide YearOf, MonthOf, DateOf, MonthStart, DayFromYear;
    DateParts(a);
    DateParts(b);
    if YearOf(a) < YearOf(b) {
      YearsAscend(YearOf(a) + 1, YearOf(b));
    } else if MonthOf(a) + 1 < MonthOf(b) {
      MonthStartsAscend(MonthOf(a) + 1, MonthOf(b), Leap(YearOf(a)));
    }
  }

  /** Days are ordered as their dates are. */
  lemma DateOrder(a: int, b: int)
    ensures a < b <==> DateBefore(a, b)
  {
    hide YearOf, MonthOf, DateOf;
    if DateBefore(a, b) {
      EarlierDate(a, b);
    } else if DateBefore(b, a) {
      EarlierDate(b, a);
    } else {
      SameDateSameDay(a, b);
    }
  }

  // ---- the calendar, by its successor ----

  /** The last date of a month, by the rule everyone knows. */
  function LastDate(year: int, month: int): int
    requires 0 <= month < 12
  {
    if month in {0, 2, 4, 6, 7, 9, 11} then 31
    else if month in {3, 5, 8, 10} then 30
    else if year % 4 == 0 && (year % 100 != 0 || year % 400 == 0) then 29
    else 28
  }

  lemma MonthEndsOnLastDate(year: int, month: int)
    requires 0 <= month < 12
    ensures MonthLength(year, month) == LastDate(year, month)
  {
  }

  /** Day 0 is 1 January 1970, a Thursday. */
  lemma DayZero()
    ensures YearOf(0) == 1970 && MonthOf(0) == 0 && DateOf(0) == 1 && WeekDay(0) == 4
  {
    hide *;
    DayZeroIsMade();
    ZeroIsThursday(0);
    DateOfDay(1970, 0, 1);
  }

  lemma DayZeroIsMade()
    ensures MakeDay(1970, 0, 1) == 0 && MonthLength(1970, 0) >= 1
  {
  }

  lemma ZeroIsThursday(day: int)
    requires day == 0
    ensures WeekDay(day) == 4
  {
  }

  lemma NextWeekDay(day: int)
    ensures 0 <= WeekDay(day) < 7 && WeekDay(day + 1) == if WeekDay(day) == 6 then 0 else WeekDay(day) + 1
  {
  }

  lemma MonthRolls(year: int, month: int)
    requires 0 <= month < 12
    ensures MakeDay(year, month, LastDate(year, month) + 1) ==
            if month < 11 then MakeDay(year, month + 1, 1) else MakeDay(year + 1, 0, 1)
  {
    hide DayFromYear, MonthStart, LastDate, Leap, DaysInYear;
    MonthEndsOnLastDate(year, month);
    YearLength(year);
    YearHasTwelveMonths(year);
  }

  lemma YearHasTwelveMonths(year: int)
    ensures MonthStart(12, Leap(year)) == DaysInYear(year) && forall leap :: MonthStart(0, leap) == 0
  {
  }

  /** The next day is the next weekday and the next date: of the same month, or else
      the first of the next month or year. */
  lemma NextDay(day: int)
    ensures 0 <= WeekDay(day) < 7 && WeekDay(day + 1) == if WeekDay(day) == 6 then 0 else WeekDay(day) + 1
    ensures var (y, m, d) := (YearOf(day), MonthOf(day), DateOf(day));
            (YearOf(day + 1), MonthOf(day + 1), DateOf(day + 1)) ==
            if d < LastDate(y, m) then (y, m, d + 1) else if m < 11 then (y, m + 1, 1) else (y + 1, 0, 1)
  {
    hide *;
    NextWeekDay(day);
    var y, m, d := YearOf(day), MonthOf(day), DateOf(day);
    DayOfDate(day);
    MonthEndsOnLastDate(y, m);
    DatesFollow(y, m, d);
    if d < LastDate(y, m) {
      DateOfDay(y, m, d + 1);
    } else if m < 11 {
      MonthRolls(y, m);
      DateOfDay(y, m + 1, 1);
    } else {
      MonthRolls(y, m);
      DateOfDay(y + 1, 0, 1);
    }
  }

  lemma DatesFollow(year: int, month: int, date: int)
    ensures MakeDay(year, month, date + 1) == MakeDay(year, month, date) + 1
  {
    hide DayFromYear, MonthStart;
  }
}
