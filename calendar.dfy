/** Whole-day calendar arithmetic, following the Date object's definitions in
    section 21.4.1 of ECMA-262 (Day, WeekDay, DayFromYear, YearFromTime,
    InLeapYear, MonthFromTime, DateFromTime, MakeDay) restricted to midnight
    time values: a date is the number of days since 1970-01-01. */
module Calendar {

  /** A calendar date: days since 1970-01-01 (negative before it). */
  type Day = int

  /** getDay(): 0 is Sunday, 6 is Saturday; 1970-01-01 was a Thursday. */
  function WeekDay(d: Day): (w: int)
    ensures 0 <= w < 7
  {
    (d + 4) % 7
  }

  /** The Gregorian leap-year rule. */
  predicate IsLeapYear(y: int)
  {
    (y % 4 == 0 && y % 100 != 0) || y % 400 == 0
  }

  function DaysInYear(y: int): int
  {
    if IsLeapYear(y) then 366 else 365
  }

  /** The number of the day on which year y starts: the lengths of the years
      from 1970 up to y, or minus those from y up to 1970. */
  function DayFromYear(y: int): int
    decreases if y < 1970 then 1970 - y else y - 1970
  {
    if y == 1970 then 0
    else if y > 1970 then DayFromYear(y - 1) + DaysInYear(y - 1)
    else DayFromYear(y + 1) - DaysInYear(y)
  }

  /** Consecutive years start DaysInYear days apart. */
  lemma YearLength(y: int)
    ensures DayFromYear(y + 1) == DayFromYear(y) + DaysInYear(y)
  {
  }

  /** The closed form ECMA-262 gives for DayFromYear. */
  function DayFromYearFormula(y: int): int
  {
    365 * (y - 1970) + (y - 1969) / 4 - (y - 1901) / 100 + (y - 1601) / 400
  }

  /** Each of the formula's three quotients grows by one exactly at a multiple of its divisor. */
  lemma QuotientSteps(y: int)
    ensures (y - 1968) / 4 == (y - 1969) / 4 + (if y % 4 == 0 then 1 else 0)
    ensures (y - 1900) / 100 == (y - 1901) / 100 + (if y % 100 == 0 then 1 else 0)
    ensures (y - 1600) / 400 == (y - 1601) / 400 + (if y % 400 == 0 then 1 else 0)
  {
    assert (y - 1968) % 4 == y % 4 by {
      assert y - 1968 == y + 4 * (-492);
    }
    assert (y - 1900) % 100 == y % 100 by {
      assert y - 1900 == y + 100 * (-19);
    }
    assert (y - 1600) % 400 == y % 400 by {
      assert y - 1600 == y + 400 * (-4);
    }
  }

  lemma FormulaStep(y: int)
    ensures DayFromYearFormula(y + 1) == DayFromYearFormula(y) + DaysInYear(y)
  {
    QuotientSteps(y);
  }

  /** Summing year lengths gives ECMA-262's closed form for every year. */
  lemma {:induction false} DayFromYearIsFormula(y: int)
    ensures DayFromYear(y) == DayFromYearFormula(y)
    decreases if y < 1970 then 1970 - y else y - 1970
  {
    if y > 1970 {
      DayFromYearIsFormula(y - 1);
      FormulaStep(y - 1);
    } else if y < 1970 {
      DayFromYearIsFormula(y + 1);
      FormulaStep(y);
    }
  }

  lemma {:induction false} DayFromYearMonotone(a: int, b: int)
    requires a <= b
    ensures DayFromYear(a) + 365 * (b - a) <= DayFromYear(b)
    decreases b - a
  {
    if a < b {
      YearLength(a);
      DayFromYearMonotone(a + 1, b);
    }
  }

  /** The year containing d, searching upwards from a year that starts on or before d. */
  function YearUp(d: Day, y: int): (r: int)
    requires DayFromYear(y) <= d
    ensures DayFromYear(r) <= d < DayFromYear(r + 1)
    decreases d - DayFromYear(y)
  {
    YearLength(y);
    if d < DayFromYear(y + 1) then y else YearUp(d, y + 1)
  }

  /** The year containing d, searching downwards from a year that ends after d. */
  function YearDown(d: Day, y: int): (r: int)
    requires d < DayFromYear(y + 1)
    ensures DayFromYear(r) <= d < DayFromYear(r + 1)
    decreases DayFromYear(y + 1) - d
  {
    YearLength(y - 1);
    if DayFromYear(y) <= d then y else YearDown(d, y - 1)
  }

  /** getFullYear(): the largest year that starts on or before d (YearFromTime). */
  function YearOf(d: Day): (y: int)
    ensures DayFromYear(y) <= d < DayFromYear(y + 1)
  {
    if 0 <= d then YearUp(d, 1970) else YearDown(d, 1969)
  }

  /** A day lies in exactly one year. */
  lemma YearUnique(d: Day, y: int)
    requires DayFromYear(y) <= d < DayFromYear(y + 1)
    ensures YearOf(d) == y
  {
    var x := YearOf(d);
    if x < y {
      DayFromYearMonotone(x + 1, y);
    } else if y < x {
      DayFromYearMonotone(y + 1, x);
    }
  }

  /** The number of days in month m of year y (0 = January), as the Gregorian calendar gives it. */
  function DaysInMonth(y: int, m: int): (n: int)
    requires 0 <= m < 12
    ensures 28 <= n <= 31
    ensures m == 1 ==> (n == 29 <==> IsLeapYear(y))
  {
    if m == 1 then (if IsLeapYear(y) then 29 else 28)
    else if m == 3 || m == 5 || m == 8 || m == 10 then 30
    else 31
  }

  /** Days of year y that come before month m (m = 12: the whole year). */
  function MonthStart(y: int, m: int): (s: int)
    requires 0 <= m <= 12
    ensures 28 * m <= s <= 31 * m
  {
    if m == 0 then 0 else MonthStart(y, m - 1) + DaysInMonth(y, m - 1)
  }

  /** MonthStart agrees with the cumulative table of MonthFromTime in ECMA-262
      (0, 31, 59, 90, ... with one more day from March on in a leap year). */
  lemma {:induction false} MonthStartTable(y: int, m: int)
    requires 0 <= m <= 12
    ensures MonthStart(y, m) == (if IsLeapYear(y) && m >= 2 then 1 else 0) + (match m
      case 0 => 0 case 1 => 31 case 2 => 59 case 3 => 90 case 4 => 120 case 5 => 151
      case 6 => 181 case 7 => 212 case 8 => 243 case 9 => 273 case 10 => 304 case 11 => 334
      case _ => 365)
  {
    if m > 0 {
      MonthStartTable(y, m - 1);
    }
  }

  /** The twelve months fill the year. */
  lemma MonthsFillYear(y: int)
    ensures MonthStart(y, 12) == DaysInYear(y)
  {
    MonthStartTable(y, 12);
  }

  lemma {:induction false} MonthStartMonotone(y: int, a: int, b: int)
    requires 0 <= a <= b <= 12
    ensures MonthStart(y, a) <= MonthStart(y, b)
    decreases b - a
  {
    if a < b {
      MonthStartMonotone(y, a, b - 1);
    }
  }

  /** The last month up to m that starts on or before day i of year y. */
  function MonthSearch(y: int, i: int, m: int): (r: int)
    requires 0 <= m < 12
    ensures 0 <= r <= m
    ensures r == 0 || MonthStart(y, r) <= i
    ensures r < m ==> i < MonthStart(y, r + 1)
    decreases m
  {
    if m == 0 || MonthStart(y, m) <= i then m else MonthSearch(y, i, m - 1)
  }

  /** Days elapsed in the year of d before d (DayWithinYear). */
  function DayInYear(d: Day): (i: int)
    ensures 0 <= i < DaysInYear(YearOf(d))
  {
    YearLength(YearOf(d));
    d - DayFromYear(YearOf(d))
  }

  /** getMonth(): 0 = January, 11 = December. */
  function MonthOf(d: Day): (m: int)
    ensures 0 <= m < 12
  {
    MonthSearch(YearOf(d), DayInYear(d), 11)
  }

  /** getDate(): the day of the month, from 1. */
  function DateOf(d: Day): (r: int)
    ensures 1 <= r <= DaysInMonth(YearOf(d), MonthOf(d))
  {
    MonthOfBounds(d);
    DayInYear(d) - MonthStart(YearOf(d), MonthOf(d)) + 1
  }

  /** new Date(year, month, date) at midnight: month and date may overflow
      (month 12 is January of the next year, date 0 the day before the 1st). */
  function MakeDay(year: int, month: int, date: int): (r: Day)
    ensures 0 <= month < 12 && 1 <= date <= DaysInMonth(year, month) ==>
      DayFromYear(year) <= r < DayFromYear(year + 1)
  {
    var y := year + month / 12;
    var m := month % 12;
    if 0 <= month < 12 && 1 <= date <= DaysInMonth(year, month) then
      assert y == year && m == month;
      MonthStartMonotone(year, month + 1, 12);
      MonthsFillYear(year);
      YearLength(year);
      DayFromYear(y) + MonthStart(y, m) + date - 1
    else
      DayFromYear(y) + MonthStart(y, m) + date - 1
  }

  /** Date.prototype.setDate(date): the same year and month, another day of the month. */
  function SetDate(d: Day, date: int): (r: Day)
    ensures r == d + (date - DateOf(d))
  {
    DecomposeDay(d);
    MakeDayInYear(YearOf(d), MonthOf(d), date);
    MakeDayInYear(YearOf(d), MonthOf(d), DateOf(d));
    MakeDay(YearOf(d), MonthOf(d), date)
  }

  /** MonthOf places a day inside its month: the months partition the year. */
  lemma MonthOfBounds(d: Day)
    ensures MonthStart(YearOf(d), MonthOf(d)) <= DayInYear(d) < MonthStart(YearOf(d), MonthOf(d) + 1)
  {
    MonthsFillYear(YearOf(d));
  }

  /** A day of the year between the starts of months m and m + 1 lies in month m. */
  lemma MonthSearchExact(y: int, i: int, m: int)
    requires 0 <= m < 12 && MonthStart(y, m) <= i < MonthStart(y, m + 1)
    ensures MonthSearch(y, i, 11) == m
  {
    var r := MonthSearch(y, i, 11);
    if r < m {
      MonthStartMonotone(y, r + 1, m);
    } else if m < r {
      MonthStartMonotone(y, m + 1, r);
    }
  }

  /** Within a single year MakeDay needs no month overflow. */
  lemma MakeDayInYear(y: int, m: int, date: int)
    requires 0 <= m < 12
    ensures MakeDay(y, m, date) == DayFromYear(y) + MonthStart(y, m) + date - 1
  {
  }

  /** The year, month and date of a day put it back together. */
  lemma DecomposeDay(d: Day)
    ensures d == MakeDay(YearOf(d), MonthOf(d), DateOf(d))
  {
    MonthOfBounds(d);
    MakeDayInYear(YearOf(d), MonthOf(d), DateOf(d));
  }

  /** A valid calendar date names a day whose year, month and date are the given ones. */
  lemma MakeDayExact(y: int, m: int, date: int)
    requires 0 <= m < 12 && 1 <= date <= DaysInMonth(y, m)
    ensures YearOf(MakeDay(y, m, date)) == y
    ensures MonthOf(MakeDay(y, m, date)) == m
    ensures DateOf(MakeDay(y, m, date)) == date
  {
    var d := MakeDay(y, m, date);
    var i := MonthStart(y, m) + date - 1;
    MakeDayInYear(y, m, date);
    assert YearOf(d) == y by {
      MonthStartMonotone(y, m + 1, 12);
      MonthsFillYear(y);
      YearUnique(d, y);
    }
    assert DayInYear(d) == i;
    assert MonthOf(d) == m by {
      MonthSearchExact(y, i, m);
    }
  }

  /** Days of month m of year y form the range [MakeDay(y, m, 1), MakeDay(y, m, 1) + DaysInMonth(y, m)). */
  lemma MonthRange(d: Day, y: int, m: int)
    requires 0 <= m < 12
    ensures (YearOf(d) == y && MonthOf(d) == m) <==>
            (MakeDay(y, m, 1) <= d < MakeDay(y, m, 1) + DaysInMonth(y, m))
  {
    var first := MakeDay(y, m, 1);
    assert first == DayFromYear(y) + MonthStart(y, m) by {
      MakeDayInYear(y, m, 1);
    }
    if YearOf(d) == y && MonthOf(d) == m {
      assert first <= d < first + DaysInMonth(y, m) by {
        DecomposeDay(d);
        MakeDayInYear(y, m, DateOf(d));
      }
    }
    if first <= d < first + DaysInMonth(y, m) {
      var date := d - first + 1;
      assert d == MakeDay(y, m, date) by {
        MakeDayInYear(y, m, date);
      }
      MakeDayExact(y, m, date);
    }
  }

  /** "Day 0 of the next month" is the last day of this month, December included. */
  lemma DayZeroOfNextMonth(y: int, m: int)
    requires 0 <= m < 12
    ensures MakeDay(y, m + 1, 0) == MakeDay(y, m, DaysInMonth(y, m))
  {
    MakeDayInYear(y, m, DaysInMonth(y, m));
    if m < 11 {
      MakeDayInYear(y, m + 1, 0);
    } else {
      assert (m + 1) / 12 == 1 && (m + 1) % 12 == 0;
      YearLength(y);
      MonthsFillYear(y);
    }
  }

  /** So the date of day 0 of the next month is the month's length. */
  lemma DayZeroDate(y: int, m: int)
    requires 0 <= m < 12
    ensures DateOf(MakeDay(y, m + 1, 0)) == DaysInMonth(y, m)
  {
    DayZeroOfNextMonth(y, m);
    MakeDayExact(y, m, DaysInMonth(y, m));
  }

  /** The Sunday-to-Saturday week that starts on Sunday s holds exactly the days whose
      week starts on s. */
  lemma SundayWeek(c: Day, s: Day)
    requires WeekDay(s) == 0
    ensures c - WeekDay(c) == s <==> s <= c <= s + 6
  {
  }

  /** A day is the last of its month exactly when its date is that month's length. */
  lemma LastDayOfItsMonth(d: Day)
    ensures var y, m := YearOf(d), MonthOf(d);
      DateOf(d) == DaysInMonth(y, m) <==> d == MakeDay(y, m, 1) + DaysInMonth(y, m) - 1
  {
    var y, m := YearOf(d), MonthOf(d);
    DecomposeDay(d);
    MakeDayInYear(y, m, 1);
    MakeDayInYear(y, m, DateOf(d));
  }
}
