/**
  The date of an absolute day by divisions and remainders alone: 400-year eras of years that begin
  on the first of March, so that the leap day comes last.
*/
module CivilDate {
  import opened Calendar

  /** Days in an era. */
  const ERA := 146097

  /** The absolute day of the first of March of year 0. */
  const MARCH_FIRST := 61

  // ----- the year within an era -----

  /** Days of an era before its year `y`. */
  function YearStart(y: int): int {
    365 * y + y / 4 - y / 100
  }

  /** The year that holds day `doe` of an era. */
  function YearOfEra(doe: int): int {
    (doe - doe / 1460 + doe / 36524 - doe / 146096) / 365
  }

  /** A day of an era as its century, its four years in there, its year in there, and its day. */
  predicate Parts(doe: int, c: int, q: int, r: int, doy: int) {
    && 0 <= c < 4 && 0 <= q < 25 && 0 <= r < 4 && 0 <= doy <= 365
    && (doy == 365 ==> r == 3 && (q < 24 || c == 3))
    && doe == 36524 * c + 1461 * q + 365 * r + doy
  }

  lemma SplitCentury(doe: int) returns (c: int, n: int)
    requires 0 <= doe < ERA
    ensures 0 <= c < 4 && doe == 36524 * c + n && 0 <= n <= 36524 && (n == 36524 ==> c == 3)
  {
    c := if doe == 146096 then 3 else doe / 36524;
    n := doe - 36524 * c;
  }

  lemma SplitFour(c: int, n: int) returns (q: int, r: int, doy: int)
    requires 0 <= c < 4 && 0 <= n <= 36524 && (n == 36524 ==> c == 3)
    ensures Parts(36524 * c + n, c, q, r, doy)
  {
    q := n / 1461;
    var m := n - 1461 * q;
    r := if m == 1460 then 3 else m / 365;
    doy := m - 365 * r;
  }

  lemma CenturyDivisions(doe: int, c: int, q: int, r: int, doy: int)
    requires Parts(doe, c, q, r, doy)
    ensures doe / 36524 - doe / 146096 == c
  {
    var n := 1461 * q + 365 * r + doy;
    assert 0 <= n <= 36524 && (n == 36524 ==> c == 3);
  }

  lemma FourYearDivision(doe: int, c: int, q: int, r: int, doy: int)
    requires Parts(doe, c, q, r, doy)
    ensures doe / 1460 == 25 * c + q + if 24 * c + q + 365 * r + doy >= 1460 then 1 else 0
  {
    var rest := 24 * c + q + 365 * r + doy;
    assert doe == 1460 * (25 * c + q) + rest && 0 <= rest < 2920;
  }

  lemma PartsYear(doe: int, c: int, q: int, r: int, doy: int)
    requires Parts(doe, c, q, r, doy)
    ensures YearOfEra(doe) == 100 * c + 4 * q + r
  {
    CenturyDivisions(doe, c, q, r, doy);
    FourYearDivision(doe, c, q, r, doy);
    var late := if 24 * c + q + 365 * r + doy >= 1460 then 1 else 0;
    var y := 100 * c + 4 * q + r;
    assert doe - doe / 1460 + doe / 36524 - doe / 146096 == 365 * y + (doy - late);
    assert 0 <= doy - late < 365;
  }

  lemma PartsStart(c: int, q: int, r: int)
    requires 0 <= c < 4 && 0 <= q < 25 && 0 <= r < 4
    ensures var y := 100 * c + 4 * q + r; y / 4 == 25 * c + q && y / 100 == c
  {
    assert 0 <= 4 * q + r < 100;
  }

  /** The day of the year of a day of an era, and whether the year that ends with it has a leap day. */
  lemma YearOfEraCorrect(doe: int)
    requires 0 <= doe < ERA
    ensures var y, doy := YearOfEra(doe), doe - YearStart(YearOfEra(doe));
            0 <= y < 400 && 0 <= doy <= 365 && (doy == 365 ==> IsLeapYear(y + 1))
  {
    var c, n := SplitCentury(doe);
    var q, r, doy := SplitFour(c, n);
    PartsYear(doe, c, q, r, doy);
    PartsStart(c, q, r);
    if doy == 365 {
      LastDayIsLeap(c, q, 100 * c + 4 * q + 4);
    }
  }

  lemma LastDayIsLeap(c: int, q: int, year: int)
    requires 0 <= c < 4 && 0 <= q < 25 && (q < 24 || c == 3) && year == 100 * c + 4 * q + 4
    ensures IsLeapYear(year)
  {
    if q < 24 {
      assert 0 < 4 * q + 4 < 100;
    } else {
      assert year == 400;
    }
  }

  // ----- the month within a year -----

  /** Month of a year that begins in March, from 0. */
  function MarchMonth(doy: int): int {
    (5 * doy + 2) / 153
  }

  /** Days of the year before that month. */
  function MarchOffset(mp: int): int {
    (153 * mp + 2) / 5
  }

  lemma MarchMonthCorrect(doy: int)
    requires 0 <= doy <= 365
    ensures var mp := MarchMonth(doy);
            0 <= mp < 12 && MarchOffset(mp) <= doy && (mp < 11 ==> doy < MarchOffset(mp + 1))
  {
  }

  lemma MarchLengths(year: int, mp: int)
    requires 0 <= mp < 11
    ensures MarchOffset(mp + 1) - MarchOffset(mp) == DaysInMonth(year, if mp < 10 then mp + 3 else mp - 9)
  {
    assert mp == 0 || mp == 1 || mp == 2 || mp == 3 || mp == 4 || mp == 5 || mp == 6 || mp == 7 || mp == 8 || mp == 9
        || mp == 10;
  }

  /** Days from the first of January to the first of a month of the March year, the leap day counted. */
  lemma MarchMonthStart(year: int, mp: int)
    requires 0 <= mp < 12
    ensures mp < 10 ==> DaysBeforeMonth(year, mp + 3) == 59 + MarchOffset(mp) + if IsLeapYear(year) then 1 else 0
    ensures mp >= 10 ==> DaysBeforeMonth(year, mp - 9) == MarchOffset(mp) - 306
  {
    assert mp == 0 || mp == 1 || mp == 2 || mp == 3 || mp == 4 || mp == 5 || mp == 6 || mp == 7 || mp == 8 || mp == 9
        || mp == 10 || mp == 11;
  }

  lemma YearStartShift(e: int, y: int)
    requires 0 <= y < 400
    ensures DaysBeforeYear(400 * e + y + 1) == ERA * e + YearStart(y) + 366
  {
    var n := 400 * e + y;
    assert n / 4 == 100 * e + y / 4;
    assert n / 100 == 4 * e + y / 100;
    assert n / 400 == e;
  }

  lemma Multiple4(e: int, y: int)
    ensures (400 * e + y) % 4 == y % 4
  {
    assert 400 * e + y == 4 * (100 * e + y / 4) + y % 4;
  }

  lemma Multiple100(e: int, y: int)
    ensures (400 * e + y) % 100 == y % 100
  {
    assert 400 * e + y == 100 * (4 * e + y / 100) + y % 100;
  }

  lemma Multiple400(e: int, y: int)
    ensures (400 * e + y) % 400 == y % 400
  {
    assert 400 * e + y == 400 * (e + y / 400) + y % 400;
  }

  lemma LeapInEra(e: int, y: int)
    ensures IsLeapYear(400 * e + y) == IsLeapYear(y)
  {
    Multiple4(e, y);
    Multiple100(e, y);
    Multiple400(e, y);
  }

  // ----- the date -----

  /** Year, month and day of an absolute day. */
  function DateAt(day: int): (r: (int, int, int))
    ensures ValidDate(r.0, r.1, r.2) && AbsoluteDay(r.0, r.1, r.2) == day
  {
    DateInEra((day - MARCH_FIRST) / ERA, (day - MARCH_FIRST) % ERA)
  }

  /** Day of the March year, from 0. */
  function DayOfYear(doe: int): int {
    doe - YearStart(YearOfEra(doe))
  }

  /** January and February belong to the next calendar year. */
  function YearIn(era: int, doe: int): int {
    400 * era + YearOfEra(doe) + if MarchMonth(DayOfYear(doe)) < 10 then 0 else 1
  }

  function MonthIn(doe: int): int {
    var mp := MarchMonth(DayOfYear(doe));
    if mp < 10 then mp + 3 else mp - 9
  }

  function DayIn(doe: int): int {
    DayOfYear(doe) - MarchOffset(MarchMonth(DayOfYear(doe))) + 1
  }

  /** Year, month and day of day `doe` of an era. */
  function DateInEra(era: int, doe: int): (r: (int, int, int))
    requires 0 <= doe < ERA
    ensures ValidDate(r.0, r.1, r.2) && AbsoluteDay(r.0, r.1, r.2) == ERA * era + doe + MARCH_FIRST
  {
    DateIsValid(era, doe);
    DateIsThatDay(era, doe);
    (YearIn(era, doe), MonthIn(doe), DayIn(doe))
  }

  lemma DateIsValid(era: int, doe: int)
    requires 0 <= doe < ERA
    ensures ValidDate(YearIn(era, doe), MonthIn(doe), DayIn(doe))
  {
    YearOfEraCorrect(doe);
    MarchMonthCorrect(DayOfYear(doe));
    var mp := MarchMonth(DayOfYear(doe));
    if mp < 11 {
      MarchLengths(YearIn(era, doe), mp);
    } else {
      LeapInEra(era, YearOfEra(doe) + 1);
    }
  }

  lemma DateIsThatDay(era: int, doe: int)
    requires 0 <= doe < ERA
    ensures AbsoluteDay(YearIn(era, doe), MonthIn(doe), DayIn(doe)) == ERA * era + doe + MARCH_FIRST
  {
    YearOfEraCorrect(doe);
    MarchMonthCorrect(DayOfYear(doe));
    MarchDay(era, YearOfEra(doe), MarchMonth(DayOfYear(doe)), DayIn(doe));
  }

  /** The absolute day of a day in a month of a March year. */
  lemma MarchDay(era: int, yoe: int, mp: int, day: int)
    requires 0 <= yoe < 400 && 0 <= mp < 12
    ensures AbsoluteDay(400 * era + yoe + if mp < 10 then 0 else 1, if mp < 10 then mp + 3 else mp - 9, day)
            == ERA * era + YearStart(yoe) + MarchOffset(mp) + day + MARCH_FIRST - 1
  {
    if mp < 10 {
      MarchToDecember(era, yoe, mp, 400 * era + yoe);
    } else {
      JanuaryFebruary(era, yoe, mp, 400 * era + yoe + 1);
    }
  }

  lemma MarchToDecember(era: int, yoe: int, mp: int, year: int)
    requires 0 <= yoe < 400 && 0 <= mp < 10 && year == 400 * era + yoe
    ensures MonthStart(MonthIndex(year, mp + 3)) == ERA * era + YearStart(yoe) + MarchOffset(mp) + MARCH_FIRST - 1
  {
    YearStartShift(era, yoe);
    MarchMonthStart(year, mp);
    ClosedMonth(year, mp + 3);
    YearLength(year);
  }

  lemma JanuaryFebruary(era: int, yoe: int, mp: int, year: int)
    requires 0 <= yoe < 400 && 10 <= mp < 12 && year == 400 * era + yoe + 1
    ensures MonthStart(MonthIndex(year, mp - 9)) == ERA * era + YearStart(yoe) + MarchOffset(mp) + MARCH_FIRST - 1
  {
    YearStartShift(era, yoe);
    MarchMonthStart(year, mp);
    ClosedMonth(year, mp - 9);
  }

  lemma ClosedMonth(year: int, month: int)
    requires 1 <= month <= 12
    ensures MonthStart(MonthIndex(year, month)) == DaysBeforeYear(year) + DaysBeforeMonth(year, month)
  {
    MonthStartClosed(MonthIndex(year, month));
    IndexOfMonth(year, month);
  }

  /** The date of the day of a valid date is that date. */
  lemma DateOfDay(year: int, month: int, day: int)
    requires ValidDate(year, month, day)
    ensures DateAt(AbsoluteDay(year, month, day)) == (year, month, day)
  {
    var r := DateAt(AbsoluteDay(year, month, day));
    DateOrder(year, month, day, r.0, r.1, r.2);
  }

  // ----- the date and time -----

  /** The time of day of a second count. */
  function TimeAt(s: int): (t: (int, int, int))
    ensures 0 <= t.0 < 24 && 0 <= t.1 < 60 && 0 <= t.2 < 60
    ensures SecondOfDay(t.0, t.1, t.2) == s % 86400
  {
    var r := s % 86400;
    (r / 3600, r % 3600 / 60, r % 60)
  }

  /** The date and time of an absolute second. */
  function DateTimeAt(s: int): (t: DateTime)
    ensures Valid(t) && Absolute(t) == s
  {
    var date, time := DateAt(s / 86400), TimeAt(s);
    DateTime(date.0, date.1, date.2, time.0, time.1, time.2)
  }

  /** The absolute second of any six fields, without counting months. */
  function ClosedAbsolute(t: DateTime): int {
    86400 * (ClosedDays(MonthIndex(t.year, t.month)) + t.day) + SecondOfDay(t.hour, t.minute, t.second)
  }
}
