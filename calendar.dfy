/** Date arithmetic of the .NET runtime that the controllers rely on: `DateTime.DayOfWeek`,
    `DateTime.Year`, `DateTime.DayOfYear` and `GregorianCalendar.GetWeekOfYear` with the
    `FirstDay` rule, plus the controllers' own `GetMondayOfWeek`. A date is a whole day. */
module Calendar {

  /** Days since 0001-01-01 in the proleptic Gregorian calendar (the day count of a .NET
      `DateTime`). Day 0 is a Monday. */
  type Day = nat

  /** `DayOfWeek` values: Sunday = 0, Monday = 1, ..., Saturday = 6. */
  const Sunday := 0
  const Monday := 1

  function DayOfWeek(d: Day): (w: nat)
    ensures w < 7
    ensures w == Monday <==> d % 7 == 0
  {
    (d + 1) % 7
  }

  /** The Gregorian leap-year rule, stated on its own as the reference for the cycle arithmetic below. */
  predicate IsLeapYear(y: int)
  {
    y % 4 == 0 && (y % 100 != 0 || y % 400 == 0)
  }

  function DaysInYear(y: int): nat
  {
    if IsLeapYear(y) then 366 else 365
  }

  /** A day count split into whole 400-, 100-, 4- and 1-year periods and the day within the year. */
  datatype YearSplit = YearSplit(y400: nat, y100: nat, y4: nat, y1: nat, dayInYear: nat)

  /** The runtime's decomposition of a day count. A 400-year period holds 146097 days, a 100-year
      period 36524, a 4-year period 1461, a year 365; the clamps of the 100-year and 1-year counts
      to 3 give the extra day of a 400-year and of a 4-year period to its last year. */
  function Split(d: Day): (p: YearSplit)
    ensures p.y100 <= 3 && p.y4 <= 24 && p.y1 <= 3
    ensures d == p.y400 * 146097 + p.y100 * 36524 + p.y4 * 1461 + p.y1 * 365 + p.dayInYear
    ensures p.dayInYear <= 365
    ensures p.dayInYear == 365 ==> p.y1 == 3 && (p.y4 != 24 || p.y100 == 3)
  {
    var y400 := d / 146097;
    var n1 := d % 146097;
    var y100 := if n1 / 36524 == 4 then 3 else n1 / 36524;
    var n2 := n1 - y100 * 36524;
    assert n2 <= 36524;
    assert n2 == 36524 ==> y100 == 3;
    var y4 := n2 / 1461;
    var n3 := n2 % 1461;
    var y1 := if n3 / 365 == 4 then 3 else n3 / 365;
    YearSplit(y400, y100, y4, y1, n3 - y1 * 365)
  }

  /** `DateTime.Year`. */
  function Year(d: Day): (y: int)
    ensures y >= 1
  {
    var p := Split(d);
    p.y400 * 400 + p.y100 * 100 + p.y4 * 4 + p.y1 + 1
  }

  /** `DateTime.DayOfYear`, from 1. */
  function DayOfYear(d: Day): (n: nat)
    ensures 1 <= n <= DaysInYear(Year(d))
  {
    var p := Split(d);
    LeapDigits(p.y400, p.y100, p.y4, p.y1);
    p.dayInYear + 1
  }

  /** 1 January of the year of `d`. */
  function YearStart(d: Day): Day
  {
    d - (DayOfYear(d) - 1)
  }

  /** The number of days before 1 January of year `y`, by the leap-year rule. */
  function DaysBeforeYear(y: int): int
    requires y >= 1
  {
    var k := y - 1;
    k * 365 + k / 4 - k / 100 + k / 400
  }

  lemma LeapDigits(a: nat, b: nat, c: nat, e: nat)
    requires b <= 3 && c <= 24 && e <= 3
    ensures e == 3 && (c != 24 || b == 3) ==> IsLeapYear(a * 400 + b * 100 + c * 4 + e + 1)
  {
    var y := a * 400 + b * 100 + c * 4 + e + 1;
    if e == 3 {
      assert y == (a * 100 + b * 25 + c + 1) * 4;
      assert y % 4 == 0;
      if c != 24 {
        assert y == (a * 4 + b) * 100 + (c * 4 + 4);
        assert 0 < c * 4 + 4 < 100;
        assert y % 100 != 0;
      } else if b == 3 {
        assert y == (a + 1) * 400;
      }
    }
  }

  /** Division and remainder by one of the calendar's period lengths. */
  lemma DivOf(q: int, r: int, m: int)
    requires m in {4, 6, 7, 36, 100, 365, 400, 1461, 36524, 146097} && 0 <= r < m
    ensures (q * m + r) / m == q && (q * m + r) % m == r
  {
    if m == 4 {
    } else if m == 6 {
    } else if m == 7 {
    } else if m == 36 {
    } else if m == 100 {
    } else if m == 365 {
    } else if m == 400 {
    } else if m == 1461 {
    } else if m == 36524 {
    } else {
    }
  }

  /** Summing the periods of a year number gives the leap-rule count of the days before it. */
  lemma DaysBeforeYearDigits(a: nat, b: nat, c: nat, e: nat)
    requires b <= 3 && c <= 24 && e <= 3
    ensures DaysBeforeYear(a * 400 + b * 100 + c * 4 + e + 1) == a * 146097 + b * 36524 + c * 1461 + e * 365
  {
    var k := a * 400 + b * 100 + c * 4 + e;
    DivOf(a * 100 + b * 25 + c, e, 4);
    assert k == (a * 100 + b * 25 + c) * 4 + e;
    DivOf(a * 4 + b, c * 4 + e, 100);
    assert k == (a * 4 + b) * 100 + (c * 4 + e);
    DivOf(a, b * 100 + c * 4 + e, 400);
    assert k == a * 400 + (b * 100 + c * 4 + e);
  }

  /** 1 January of the year of `d` is the leap-rule count of the days before that year. */
  lemma YearStartClosedForm(d: Day)
    ensures YearStart(d) == DaysBeforeYear(Year(d))
  {
    var p := Split(d);
    DaysBeforeYearDigits(p.y400, p.y100, p.y4, p.y1);
  }

  /** 1 January lies in the year it starts and is its first day. */
  lemma YearStartOfYearStart(d: Day)
    ensures Year(YearStart(d)) == Year(d) && DayOfYear(YearStart(d)) == 1
    ensures YearStart(YearStart(d)) == YearStart(d)
  {
    var p := Split(d);
    var j := YearStart(d);
    assert j == p.y400 * 146097 + p.y100 * 36524 + p.y4 * 1461 + p.y1 * 365;
    DivOf(p.y400, p.y100 * 36524 + p.y4 * 1461 + p.y1 * 365, 146097);
    var n1 := p.y100 * 36524 + p.y4 * 1461 + p.y1 * 365;
    DivOf(p.y100, p.y4 * 1461 + p.y1 * 365, 36524);
    DivOf(p.y4, p.y1 * 365, 1461);
    DivOf(p.y1, 0, 365);
    assert Split(j) == YearSplit(p.y400, p.y100, p.y4, p.y1, 0);
  }

  /** The controllers' `GetMondayOfWeek`: step back to the Monday of the week (a Sunday goes back
      six days). */
  function MondayOf(d: Day): (m: Day)
    ensures m <= d < m + 7
    ensures DayOfWeek(m) == Monday && m % 7 == 0
  {
    var daysFromMonday := (DayOfWeek(d) - Monday + 7) % 7;
    assert daysFromMonday == d % 7;
    d - daysFromMonday
  }

  /** Every day of the week starting at Monday `m` resolves to `m`; in particular a Monday resolves
      to itself, so `MondayOf` is idempotent. */
  lemma MondayOfWeekDays(m: Day, k: nat)
    requires DayOfWeek(m) == Monday && k < 7
    ensures MondayOf(m + k) == m
    ensures MondayOf(MondayOf(m + k)) == MondayOf(m + k)
  {
    MultipleOfSevenBelow(m + k, m);
    MultipleOfSevenBelow(m + k, MondayOf(m + k));
  }

  /** A Sunday resolves to the Monday six days before it. */
  lemma SundayGoesBackSix(d: Day)
    requires DayOfWeek(d) == Sunday
    ensures d >= 6 && MondayOf(d) == d - 6
  {
    MultipleOfSevenBelow(d, MondayOf(d));
    DivOf(d / 7, d % 7, 7);
  }

  /** `GregorianCalendar.GetWeekOfYear(d, CalendarWeekRule.FirstDay, DayOfWeek.Monday)`. The sum
      inside the remainder is at least 7, so the runtime's truncating `%` agrees with Dafny's. */
  function WeekOfYear(d: Day): (w: int)
    ensures 1 <= w <= 54
  {
    var dayOfYear := DayOfYear(d) - 1;
    var dayForJan1 := DayOfWeek(d) - dayOfYear % 7;
    var offset := (dayForJan1 - Monday + 14) % 7;
    (dayOfYear + offset) / 7 + 1
  }

  lemma ModShift(j: int, v: int, t: int)
    requires j == 7 * t + v
    ensures j % 7 == v % 7
  {
    DivOf(t + v / 7, v % 7, 7);
  }

  /** The Monday at or before `j`, as a multiple of 7. */
  lemma MultipleOfSevenBelow(j: int, m: int)
    requires m % 7 == 0 && m <= j < m + 7
    ensures m == j - j % 7
  {
    DivOf(m / 7, j - m, 7);
  }

  /** The arithmetic of the `FirstDay` rule: for a date `d` that is day `doy` (from 0) of a year
      starting on day `d - doy`, the offset is the weekday of that start counted from Monday. */
  lemma FirstDayArithmetic(d: int, doy: int)
    requires 0 <= doy <= d
    ensures var j := d - doy;
      (doy + ((d + 1) % 7 - doy % 7 - Monday + 14) % 7) / 7 == (d - (j - j % 7)) / 7
  {
    var j := d - doy;
    var a := (d + 1) % 7;
    var b := doy % 7;
    var v := a - b - Monday + 14;
    DivOf((d + 1) / 7, a, 7);
    DivOf(doy / 7, b, 7);
    ModShift(j, v, (d + 1) / 7 - doy / 7 - 2);
  }

  /** Week numbers count Monday-started weeks from the one that holds 1 January. */
  lemma WeekOfYearCountsMondays(d: Day)
    ensures WeekOfYear(d) == (d - MondayOf(YearStart(d))) / 7 + 1
  {
    var j := YearStart(d);
    FirstDayArithmetic(d, DayOfYear(d) - 1);
    MultipleOfSevenBelow(j, MondayOf(j));
  }

  /** The week that holds 1 January is week 1, and no other week is. */
  lemma WeekOneHoldsJanuaryFirst(d: Day)
    ensures WeekOfYear(d) == 1 <==> MondayOf(d) == MondayOf(YearStart(d))
  {
    WeekOfYearCountsMondays(d);
    FirstWeekIndex(MondayOf(YearStart(d)), MondayOf(d), d);
  }

  /** For Mondays `m0 <= d` and `m` (the Monday of `d`), `d` is less than a week after `m0` exactly
      when `m` is `m0`. */
  lemma FirstWeekIndex(m0: int, m: int, d: int)
    requires m0 % 7 == 0 && m % 7 == 0 && m <= d < m + 7 && m0 <= d
    ensures (d - m0) / 7 == 0 <==> m == m0
  {
    DivOf(m0 / 7, 0, 7);
    DivOf(m / 7, 0, 7);
  }

  lemma JanuaryFirstIsWeekOne(d: Day)
    ensures WeekOfYear(YearStart(d)) == 1
  {
    YearStartOfYearStart(d);
    WeekOneHoldsJanuaryFirst(YearStart(d));
  }

  /** Two consecutive Mondays of one year have consecutive week numbers. */
  lemma NextMondayNextWeek(m: Day)
    requires DayOfWeek(m) == Monday && Year(m + 7) == Year(m)
    ensures WeekOfYear(m + 7) == WeekOfYear(m) + 1
  {
    YearStartClosedForm(m);
    YearStartClosedForm(m + 7);
    var j := YearStart(m);
    assert YearStart(m + 7) == j;
    WeekOfYearCountsMondays(m);
    WeekOfYearCountsMondays(m + 7);
    NextWeekIndex(m - MondayOf(j));
  }

  lemma NextWeekIndex(x: nat)
    ensures (x + 7) / 7 == x / 7 + 1
  {
    DivOf(x / 7, x % 7, 7);
    DivOf(x / 7 + 1, x % 7, 7);
  }

  /** A Monday is determined by its (week number, year) pair. */
  lemma WeekKeyDeterminesMonday(m1: Day, m2: Day)
    requires DayOfWeek(m1) == Monday && DayOfWeek(m2) == Monday
    requires Year(m1) == Year(m2) && WeekOfYear(m1) == WeekOfYear(m2)
    ensures m1 == m2
  {
    YearStartClosedForm(m1);
    YearStartClosedForm(m2);
    var j := YearStart(m1);
    assert YearStart(m2) == j;
    WeekOfYearCountsMondays(m1);
    WeekOfYearCountsMondays(m2);
    SameWeekIndex(MondayOf(j), m1, m2);
  }

  /** Two Mondays at or after the Monday `m0` with the same number of whole weeks since it are equal. */
  lemma SameWeekIndex(m0: int, m1: int, m2: int)
    requires m0 % 7 == 0 && m1 % 7 == 0 && m2 % 7 == 0 && m0 <= m1 && m0 <= m2
    requires (m1 - m0) / 7 == (m2 - m0) / 7
    ensures m1 == m2
  {
    DivOf(m0 / 7, 0, 7);
    DivOf(m1 / 7, 0, 7);
    DivOf(m2 / 7, 0, 7);
    DivOf(m1 / 7 - m0 / 7, 0, 7);
    DivOf(m2 / 7 - m0 / 7, 0, 7);
  }

  /** 2021-01-01 (day 737790) is a Friday whose Monday, 2020-12-28, is in week 53 of 2020: the
      week key of a date in early January can name the previous year. */
  lemma EarlyJanuaryResolvesToPreviousYear()
    ensures Year(737790) == 2021 && DayOfYear(737790) == 1 && DayOfWeek(737790) == 5
    ensures MondayOf(737790) == 737786
    ensures Year(737786) == 2020 && WeekOfYear(737786) == 53
  {
    assert Split(737790) == YearSplit(5, 0, 5, 0, 0);
    assert Split(737786) == YearSplit(5, 0, 4, 3, 362);
  }

  /** 2024-01-01 (day 738885) is a Monday and opens week 1 of 2024. */
  lemma FirstMondayOf2024()
    ensures DayOfWeek(738885) == Monday && MondayOf(738885) == 738885
    ensures Year(738885) == 2024 && WeekOfYear(738885) == 1
  {
    assert Split(738885) == YearSplit(5, 0, 5, 3, 0);
  }
}
