/**
  Dates and times in the proleptic Gregorian calendar: the day count that gives any combination of
  fields, in range or not, one absolute second, and the uniqueness of the in-range fields.
*/
module Calendar {

  datatype DateTime = DateTime(year: int, month: int, day: int, hour: int, minute: int, second: int)

  function IsLeapYear(year: int): bool {
    if year % 4 != 0 then false
    else if year % 100 != 0 then true
    else year % 400 == 0
  }

  const DAYS_IN_MONTH_NORMAL := [0, 31, 28, 31, 30, 31, 30, 31, 31, 30, 31, 30, 31]
  const DAYS_IN_MONTH_LEAP := [0, 31, 29, 31, 30, 31, 30, 31, 31, 30, 31, 30, 31]

  function DaysInMonth(year: int, month: int): (d: int)
    requires 1 <= month <= 12
    ensures 28 <= d <= 31
  {
    if month == 2 then if IsLeapYear(year) then 29 else 28
    else if month == 4 || month == 6 || month == 9 || month == 11 then 30
    else 31
  }

  /** The tables of the source say the same. */
  lemma TableLookup(year: int, month: int)
    requires 1 <= month <= 12
    ensures DaysInMonth(year, month) == (if IsLeapYear(year) then DAYS_IN_MONTH_LEAP else DAYS_IN_MONTH_NORMAL)[month]
  {
    assert month == 1 || month == 2 || month == 3 || month == 4 || month == 5 || month == 6
        || month == 7 || month == 8 || month == 9 || month == 10 || month == 11 || month == 12;
  }

  /** Months since the start of year 0; `month` need not be in range. */
  function MonthIndex(year: int, month: int): int {
    12 * year + month - 1
  }

  function YearOf(m: int): int { m / 12 }

  function MonthOf(m: int): int { m % 12 + 1 }

  /** Length of the month with linear index `m`. */
  function MonthLength(m: int): (d: int)
    ensures 28 <= d <= 31
  {
    DaysInMonth(YearOf(m), MonthOf(m))
  }

  /** Days before the first day of the month with linear index `m`, counted from January of year 0. */
  function DaysBefore(m: int): int
    decreases if m < 0 then -m else m
  {
    if m == 0 then 0
    else if m > 0 then DaysBefore(m - 1) + MonthLength(m - 1)
    else DaysBefore(m + 1) - MonthLength(m)
  }

  /** `DaysBefore`, in a form that proofs unfold at most once. */
  function MonthStart(m: int): int {
    DaysBefore(m)
  }

  /** The day count steps by the length of the month, before and after year 0. */
  lemma MonthStartStep(m: int)
    ensures MonthStart(m + 1) == MonthStart(m) + MonthLength(m)
  {
  }

  /** The absolute day of possibly out-of-range fields. */
  function AbsoluteDay(year: int, month: int, day: int): int {
    MonthStart(MonthIndex(year, month)) + day
  }

  function SecondOfDay(hour: int, minute: int, second: int): int {
    3600 * hour + 60 * minute + second
  }

  /** Absolute seconds of possibly out-of-range fields. */
  function Absolute(t: DateTime): int {
    86400 * AbsoluteDay(t.year, t.month, t.day) + SecondOfDay(t.hour, t.minute, t.second)
  }

  predicate ValidDate(year: int, month: int, day: int) {
    1 <= month <= 12 && 1 <= day <= DaysInMonth(year, month)
  }

  predicate Valid(t: DateTime) {
    ValidDate(t.year, t.month, t.day) && 0 <= t.hour < 24 && 0 <= t.minute < 60 && 0 <= t.second < 60
  }

  // ----- uniqueness -----

  lemma {:induction false} MonthStartMonotone(m: int, n: int)
    requires m <= n
    ensures MonthStart(m) + 28 * (n - m) <= MonthStart(n)
    decreases n - m
  {
    if m < n {
      MonthStartStep(m);
      MonthStartMonotone(m + 1, n);
    }
  }

  /** A valid date of an earlier month is an earlier day. */
  lemma EarlierMonth(m: int, d: int, n: int, e: int)
    requires m < n && d <= MonthLength(m) && 1 <= e
    ensures MonthStart(m) + d < MonthStart(n) + e
  {
    MonthStartStep(m);
    MonthStartMonotone(m + 1, n);
  }

  lemma IndexOfMonth(year: int, month: int)
    requires 1 <= month <= 12
    ensures YearOf(MonthIndex(year, month)) == year && MonthOf(MonthIndex(year, month)) == month
  {
  }

  /** Valid dates are ordered by their absolute day as by (year, month, day). */
  lemma DateOrder(y1: int, m1: int, d1: int, y2: int, m2: int, d2: int)
    requires ValidDate(y1, m1, d1) && ValidDate(y2, m2, d2)
    ensures AbsoluteDay(y1, m1, d1) < AbsoluteDay(y2, m2, d2) <==>
            MonthIndex(y1, m1) < MonthIndex(y2, m2) || (MonthIndex(y1, m1) == MonthIndex(y2, m2) && d1 < d2)
    ensures AbsoluteDay(y1, m1, d1) == AbsoluteDay(y2, m2, d2) <==> y1 == y2 && m1 == m2 && d1 == d2
  {
    IndexOfMonth(y1, m1);
    IndexOfMonth(y2, m2);
    var a, b := MonthIndex(y1, m1), MonthIndex(y2, m2);
    if a < b {
      EarlierMonth(a, d1, b, d2);
    } else if b < a {
      EarlierMonth(b, d2, a, d1);
    }
  }

  lemma SplitSeconds(t: DateTime)
    requires Valid(t)
    ensures Absolute(t) / 86400 == AbsoluteDay(t.year, t.month, t.day)
    ensures Absolute(t) % 86400 == SecondOfDay(t.hour, t.minute, t.second)
  {
    assert 0 <= SecondOfDay(t.hour, t.minute, t.second) < 86400;
  }

  /** There is one valid date and time for each absolute second. */
  lemma ValidIsUnique(s: DateTime, t: DateTime)
    requires Valid(s) && Valid(t) && Absolute(s) == Absolute(t)
    ensures s == t
  {
    SplitSeconds(s);
    SplitSeconds(t);
    DateOrder(s.year, s.month, s.day, t.year, t.month, t.day);
    TimeIsUnique(s.hour, s.minute, s.second, t.hour, t.minute, t.second);
  }

  lemma TimeIsUnique(h: int, m: int, s: int, h': int, m': int, s': int)
    requires 0 <= m < 60 && 0 <= s < 60 && 0 <= m' < 60 && 0 <= s' < 60
    requires SecondOfDay(h, m, s) == SecondOfDay(h', m', s')
    ensures h == h' && m == m' && s == s'
  {
  }

  // ----- closed form -----

  /** Days before the first of January of a year. */
  function DaysBeforeYear(year: int): int {
    var y := year - 1;
    365 * year + y / 4 - y / 100 + y / 400 + 1
  }

  /** Days of the year before the first of a month. */
  function DaysBeforeMonth(year: int, month: int): int
    requires 1 <= month <= 12
  {
    [0, 0, 31, 59, 90, 120, 151, 181, 212, 243, 273, 304, 334][month] + if month > 2 && IsLeapYear(year) then 1 else 0
  }

  function ClosedDays(m: int): int {
    DaysBeforeYear(YearOf(m)) + DaysBeforeMonth(YearOf(m), MonthOf(m))
  }

  lemma DivStep(n: int)
    ensures (n + 1) / 4 == n / 4 + if (n + 1) % 4 == 0 then 1 else 0
    ensures (n + 1) / 100 == n / 100 + if (n + 1) % 100 == 0 then 1 else 0
    ensures (n + 1) / 400 == n / 400 + if (n + 1) % 400 == 0 then 1 else 0
  {
  }

  lemma LeapMultiples(year: int)
    ensures year % 100 == 0 ==> year % 4 == 0
    ensures year % 400 == 0 ==> year % 100 == 0
  {
  }

  lemma YearLength(year: int)
    ensures DaysBeforeYear(year + 1) - DaysBeforeYear(year) == if IsLeapYear(year) then 366 else 365
  {
    DivStep(year - 1);
    LeapMultiples(year);
  }

  lemma ClosedStep(m: int)
    ensures ClosedDays(m + 1) == ClosedDays(m) + MonthLength(m)
  {
    YearLength(YearOf(m));
    if MonthOf(m) == 12 {
      assert YearOf(m + 1) == YearOf(m) + 1 && MonthOf(m + 1) == 1;
    } else {
      assert YearOf(m + 1) == YearOf(m) && MonthOf(m + 1) == MonthOf(m) + 1;
    }
  }

  lemma ClosedBothWays(m: int)
    ensures MonthStart(m + 1) == ClosedDays(m + 1) <==> MonthStart(m) == ClosedDays(m)
  {
    ClosedStep(m);
    MonthStartStep(m);
  }

  lemma ClosedAtZero()
    ensures MonthStart(0) == ClosedDays(0)
  {
  }

  /** Counting month by month gives the usual formula with leap years every 4, not 100, but 400 years. */
  lemma {:induction false} MonthStartClosed(m: int)
    ensures MonthStart(m) == ClosedDays(m)
    decreases if m < 0 then -m else m
  {
    if m > 0 {
      MonthStartClosed(m - 1);
      ClosedBothWays(m - 1);
    } else if m < 0 {
      MonthStartClosed(m + 1);
      ClosedBothWays(m);
    } else {
      ClosedAtZero();
    }
  }

  /** 400 years are 146097 days, and month lengths repeat. */
  lemma FourCenturies(m: int)
    ensures MonthStart(m + 4800) == MonthStart(m) + 146097
    ensures MonthLength(m + 4800) == MonthLength(m)
  {
    MonthStartClosed(m);
    MonthStartClosed(m + 4800);
    PartsShift(m);
    ClosedShift(m);
    LeapShift(YearOf(m));
  }

  lemma PartsShift(m: int)
    ensures YearOf(m + 4800) == YearOf(m) + 400 && MonthOf(m + 4800) == MonthOf(m)
  {
  }

  lemma ClosedShift(m: int)
    ensures ClosedDays(m + 4800) == ClosedDays(m) + 146097
  {
    PartsShift(m);
    LeapShift(YearOf(m));
    YearShift(YearOf(m));
  }

  lemma YearShift(year: int)
    ensures DaysBeforeYear(year + 400) == DaysBeforeYear(year) + 146097
  {
    var n := year - 1;
    assert (n + 400) / 4 == n / 4 + 100;
    assert (n + 400) / 100 == n / 100 + 4;
    assert (n + 400) / 400 == n / 400 + 1;
  }

  lemma LeapShift(year: int)
    ensures IsLeapYear(year + 400) == IsLeapYear(year)
  {
    ModShift4(year);
    ModShift100(year);
    ModShift400(year);
  }

  lemma ModShift4(n: int)
    ensures (n + 400) % 4 == n % 4
  {
  }

  lemma ModShift100(n: int)
    ensures (n + 400) % 100 == n % 100
  {
  }

  lemma ModShift400(n: int)
    ensures (n + 400) % 400 == n % 400
  {
  }
}
