/** `_normalize` and `relativedelta_add` with their loops, and what they promise. */
module RelativeDelta {
  import opened Calendar
  import opened CivilDate

  /** The deltas in weeks, days, hours, minutes and seconds come after those in years and months. */
  datatype Delta = Delta(years: int, months: int, weeks: int, days: int, hours: int, minutes: int, seconds: int)

  /**
    Cascades overflow and underflow upwards. The result is the only valid date and time with the
    same absolute second.
  */
  method Normalize(t: DateTime) returns (r: DateTime)
    ensures Valid(r) && Absolute(r) == Absolute(t)
    ensures r == Normalized(t)
  {
    var year, month, day, hour, minute, second := t.year, t.month, t.day, t.hour, t.minute, t.second;
    while second < 0
      invariant SecondOfDay(hour, minute, second) == SecondOfDay(t.hour, t.minute, t.second)
      decreases -second
    {
      minute := minute - 1;
      second := second + 60;
    }
    while second >= 60
      invariant SecondOfDay(hour, minute, second) == SecondOfDay(t.hour, t.minute, t.second) && 0 <= second
    {
      minute := minute + 1;
      second := second - 60;
    }
    while minute < 0
      invariant SecondOfDay(hour, minute, second) == SecondOfDay(t.hour, t.minute, t.second)
      decreases -minute
    {
      hour := hour - 1;
      minute := minute + 60;
    }
    while minute >= 60
      invariant SecondOfDay(hour, minute, second) == SecondOfDay(t.hour, t.minute, t.second) && 0 <= minute
    {
      hour := hour + 1;
      minute := minute - 60;
    }
    while hour < 0
      invariant 86400 * day + SecondOfDay(hour, minute, second) ==
                86400 * t.day + SecondOfDay(t.hour, t.minute, t.second)
      decreases -hour
    {
      day := day - 1;
      hour := hour + 24;
    }
    while hour >= 24
      invariant 86400 * day + SecondOfDay(hour, minute, second) ==
                86400 * t.day + SecondOfDay(t.hour, t.minute, t.second)
      invariant 0 <= hour
    {
      day := day + 1;
      hour := hour - 24;
    }
    year, month := WrapMonth(year, month);
    year, month, day := WrapDay(year, month, day);
    r := DateTime(year, month, day, hour, minute, second);
    NormalizeIsDetermined(t, r);
  }

  /** The two month loops. */
  method WrapMonth(year: int, month: int) returns (y: int, m: int)
    ensures 1 <= m <= 12 && MonthIndex(y, m) == MonthIndex(year, month)
  {
    y, m := year, month;
    while m < 1
      invariant MonthIndex(y, m) == MonthIndex(year, month)
      decreases -m
    {
      y := y - 1;
      m := m + 12;
    }
    while m > 12
      invariant MonthIndex(y, m) == MonthIndex(year, month) && 1 <= m
    {
      y := y + 1;
      m := m - 12;
    }
  }

  /** Borrowing the days of the month before leaves the absolute day as it was. */
  lemma BorrowMonth(year: int, month: int, day: int)
    requires 1 <= month <= 12
    ensures var (y, m) := if month - 1 < 1 then (year - 1, month + 11) else (year, month - 1);
            AbsoluteDay(y, m, day + DaysInMonth(y, m)) == AbsoluteDay(year, month, day)
  {
    var (y, m) := if month - 1 < 1 then (year - 1, month + 11) else (year, month - 1);
    var i := MonthIndex(y, m);
    assert MonthIndex(year, month) == i + 1;
    IndexOfMonth(y, m);
    MonthStartStep(i);
  }

  /** Carrying the days of this month leaves the absolute day as it was. */
  lemma CarryMonth(year: int, month: int, day: int)
    requires 1 <= month <= 12
    ensures var (y, m) := if month + 1 > 12 then (year + 1, month - 11) else (year, month + 1);
            AbsoluteDay(y, m, day - DaysInMonth(year, month)) == AbsoluteDay(year, month, day)
  {
    var (y, m) := if month + 1 > 12 then (year + 1, month - 11) else (year, month + 1);
    var i := MonthIndex(year, month);
    assert MonthIndex(y, m) == i + 1;
    IndexOfMonth(year, month);
    MonthStartStep(i);
  }

  /** The two day loops: months are borrowed or carried until the day fits. */
  method WrapDay(year: int, month: int, day: int) returns (y: int, m: int, d: int)
    requires 1 <= month <= 12
    ensures ValidDate(y, m, d) && AbsoluteDay(y, m, d) == AbsoluteDay(year, month, day)
  {
    y, m, d := year, month, day;
    while d < 1
      invariant 1 <= m <= 12 && AbsoluteDay(y, m, d) == AbsoluteDay(year, month, day)
      decreases -d
    {
      BorrowMonth(y, m, d);
      m := m - 1;
      if m < 1 {
        y := y - 1;
        m := m + 12;
      }
      d := d + DaysInMonth(y, m);
    }
    while d > DaysInMonth(y, m)
      invariant 1 <= m <= 12 && 1 <= d && AbsoluteDay(y, m, d) == AbsoluteDay(year, month, day)
      decreases d
    {
      CarryMonth(y, m, d);
      d := d - DaysInMonth(y, m);
      m := m + 1;
      if m > 12 {
        y := y + 1;
        m := m - 12;
      }
    }
  }

  // ----- the normal form as a function -----

  /** The valid date and time of an absolute second: there is one, and no other. */
  ghost function AtSecond(s: int): (t: DateTime)
    ensures Valid(t) && Absolute(t) == s
  {
    SecondHasDateTime(s);
    var t :| Valid(t) && Absolute(t) == s;
    t
  }

  lemma SecondHasDateTime(s: int)
    ensures exists t :: Valid(t) && Absolute(t) == s
  {
    assert Valid(DateTimeAt(s)) && Absolute(DateTimeAt(s)) == s;
  }

  /** `_normalize` as a function of its input. */
  ghost function Normalized(t: DateTime): DateTime {
    AtSecond(Absolute(t))
  }

  /** Any valid result with the input's absolute second is the one `_normalize` returns. */
  lemma NormalizeIsDetermined(t: DateTime, r: DateTime)
    requires Valid(r) && Absolute(r) == Absolute(t)
    ensures r == Normalized(t)
  {
    ValidIsUnique(r, Normalized(t));
  }

  /** All six fields of the result by divisions and remainders of the six fields given. */
  lemma NormalizedClosedForm(t: DateTime)
    ensures Normalized(t) == DateTimeAt(ClosedAbsolute(t))
  {
    MonthStartClosed(MonthIndex(t.year, t.month));
    NormalizeIsDetermined(t, DateTimeAt(ClosedAbsolute(t)));
  }

  lemma NormalizeIsIdempotent(t: DateTime)
    ensures Normalized(Normalized(t)) == Normalized(t)
    ensures Normalized(t) == t <==> Valid(t)
  {
    if Valid(t) {
      ValidIsUnique(t, Normalized(t));
    }
  }

  // ----- addition -----

  /** The date and time with whole years and months added and the day clamped, nothing else. */
  function Shifted(t: DateTime, years: int, months: int): DateTime {
    var m := MonthIndex(t.year + years, t.month + months);
    var cap := MonthLength(m);
    t.(year := YearOf(m), month := MonthOf(m), day := if t.day > cap then cap else t.day)
  }

  /** The shifted date, from its year and month in range. */
  lemma ShiftedParts(t: DateTime, years: int, months: int, year: int, month: int)
    requires 1 <= month <= 12 && MonthIndex(year, month) == MonthIndex(t.year + years, t.month + months)
    ensures var cap := DaysInMonth(year, month);
            Shifted(t, years, months) == t.(year := year, month := month, day := if t.day > cap then cap else t.day)
  {
  }

  /** Seconds in the weeks, days, hours, minutes and seconds of a delta. */
  function Elapsed(d: Delta): int {
    86400 * (7 * d.weeks + d.days) + 3600 * d.hours + 60 * d.minutes + d.seconds
  }

  /** `relativedelta_add` as a function. */
  ghost function Added(t: DateTime, d: Delta): (r: DateTime)
    ensures Valid(r)
  {
    AtSecond(Absolute(Shifted(t, d.years, d.months)) + Elapsed(d))
  }

  lemma ElapsedAdds(t: DateTime, moved: DateTime, d: Delta)
    requires moved == DateTime(t.year, t.month, t.day + d.weeks * 7 + d.days,
                               t.hour + d.hours, t.minute + d.minutes, t.second + d.seconds)
    ensures Absolute(moved) == Absolute(t) + Elapsed(d)
  {
  }

  lemma AddedIsNormalized(t: DateTime, d: Delta, shifted: DateTime, moved: DateTime)
    requires shifted == Shifted(t, d.years, d.months)
    requires moved == DateTime(shifted.year, shifted.month, shifted.day + d.weeks * 7 + d.days,
                               shifted.hour + d.hours, shifted.minute + d.minutes, shifted.second + d.seconds)
    ensures Normalized(moved) == Added(t, d)
  {
    ElapsedAdds(shifted, moved, d);
  }

  /** The result has three zero fields after the date and time, to match the shape of `parse_iso`. */
  method RelativeDeltaAdd(t: DateTime, d: Delta) returns (r: (DateTime, int, int, int))
    ensures r == (Added(t, d), 0, 0, 0)
  {
    var year, month := WrapMonth(t.year + d.years, t.month + d.months);
    var cap := DaysInMonth(year, month);
    var day := if t.day > cap then cap else t.day;
    ghost var shifted := t.(year := year, month := month, day := day);
    ShiftedParts(t, d.years, d.months, year, month);
    day := day + d.weeks * 7 + d.days;
    var moved := DateTime(year, month, day, t.hour + d.hours, t.minute + d.minutes, t.second + d.seconds);
    AddedIsNormalized(t, d, shifted, moved);
    var n := Normalize(moved);
    r := (n, 0, 0, 0);
  }

  predicate IsTimeDelta(d: Delta) {
    d.years == 0 && d.months == 0
  }

  predicate IsMonthDelta(d: Delta) {
    d.weeks == 0 && d.days == 0 && d.hours == 0 && d.minutes == 0 && d.seconds == 0
  }

  function Plus(d: Delta, e: Delta): Delta {
    Delta(d.years + e.years, d.months + e.months, d.weeks + e.weeks, d.days + e.days,
          d.hours + e.hours, d.minutes + e.minutes, d.seconds + e.seconds)
  }

  function Minus(d: Delta): Delta {
    Delta(-d.years, -d.months, -d.weeks, -d.days, -d.hours, -d.minutes, -d.seconds)
  }

  lemma UnshiftedIsItself(t: DateTime)
    requires Valid(t)
    ensures Shifted(t, 0, 0) == t
  {
  }

  /** On valid dates a delta without years and months adds its seconds. */
  lemma TimeDeltaAddsSeconds(t: DateTime, d: Delta)
    requires Valid(t) && IsTimeDelta(d)
    ensures Absolute(Added(t, d)) == Absolute(t) + Elapsed(d)
  {
    UnshiftedIsItself(t);
  }

  /** A week, a day, an hour and a minute in seconds. */
  lemma UnitsInSeconds(t: DateTime, weeks: int, days: int, hours: int, minutes: int, seconds: int)
    requires Valid(t)
    ensures Absolute(Added(t, Delta(0, 0, weeks, days, hours, minutes, seconds)))
         == Absolute(t) + 604800 * weeks + 86400 * days + 3600 * hours + 60 * minutes + seconds
  {
    TimeDeltaAddsSeconds(t, Delta(0, 0, weeks, days, hours, minutes, seconds));
  }

  /** The last second of a day. */
  predicate IsLastSecond(t: DateTime) {
    t.hour == 23 && t.minute == 59 && t.second == 59
  }

  lemma AbsoluteOf(t: DateTime, day: int, seconds: int, a: int)
    requires AbsoluteDay(t.year, t.month, t.day) == day && SecondOfDay(t.hour, t.minute, t.second) == seconds
    requires a == 86400 * day + seconds
    ensures Absolute(t) == a
  {
  }

  lemma LastSecondAt(t: DateTime, day: int, a: int)
    requires IsLastSecond(t) && AbsoluteDay(t.year, t.month, t.day) == day && a == 86400 * day + 86399
    ensures Absolute(t) == a
  {
    AbsoluteOf(t, day, 86399, a);
  }

  lemma MidnightAt(next: DateTime, day: int, a: int)
    requires next.hour == next.minute == next.second == 0
    requires AbsoluteDay(next.year, next.month, next.day) == day && a == 86400 * day
    ensures Absolute(next) == a
  {
    AbsoluteOf(next, day, SecondOfDay(next.hour, next.minute, next.second), a);
  }

  lemma {:induction false} NextMidnight(t: DateTime, next: DateTime, d: Delta, day: int)
    requires Valid(t) && Valid(next) && IsLastSecond(t) && next.hour == next.minute == next.second == 0
    requires AbsoluteDay(t.year, t.month, t.day) == day && AbsoluteDay(next.year, next.month, next.day) == day + 1
    requires d == Delta(0, 0, 0, 0, 0, 0, 1)
    ensures Added(t, d) == next
  {
    var a := 86400 * day + 86399;
    LastSecondAt(t, day, a);
    MidnightAt(next, day + 1, a + 1);
    NextSecond(t, next, d, a);
  }

  lemma {:induction false} NextMonth(year: int, month: int, year': int, month': int)
    requires 1 <= month <= 12 && MonthIndex(year', month') == MonthIndex(year, month) + 1
    ensures AbsoluteDay(year', month', 1) == AbsoluteDay(year, month, DaysInMonth(year, month)) + 1
  {
    IndexOfMonth(year, month);
    MonthStartStep(MonthIndex(year, month));
  }

  /** A second after the last one of a year. */
  lemma {:induction false} NewYear(t: DateTime, next: DateTime, d: Delta)
    requires t.month == 12 && t.day == 31 && IsLastSecond(t) && d == Delta(0, 0, 0, 0, 0, 0, 1)
    requires next == DateTime(t.year + 1, 1, 1, 0, 0, 0)
    ensures Added(t, d) == next
  {
    NextMonth(t.year, t.month, next.year, next.month);
    NextMidnight(t, next, d, AbsoluteDay(t.year, t.month, t.day));
  }

  lemma LeapYears(year: int)
    ensures IsLeapYear(year) <==> year % 400 == 0 || (year % 4 == 0 && year % 100 != 0)
  {
  }

  lemma {:induction false} EndOfFebruary(t: DateTime, next: DateTime, d: Delta)
    requires t.month == 2 && t.day == DaysInMonth(t.year, t.month) && IsLastSecond(t)
    requires d == Delta(0, 0, 0, 0, 0, 0, 1) && next == DateTime(t.year, 3, 1, 0, 0, 0)
    ensures Added(t, d) == next
  {
    NextMonth(t.year, t.month, next.year, next.month);
    NextMidnight(t, next, d, AbsoluteDay(t.year, t.month, t.day));
  }

  lemma {:induction false} NextOfMonth(t: DateTime, next: DateTime, d: Delta)
    requires 1 <= t.month <= 12 && 1 <= t.day < DaysInMonth(t.year, t.month) && IsLastSecond(t)
    requires d == Delta(0, 0, 0, 0, 0, 0, 1) && next == DateTime(t.year, t.month, t.day + 1, 0, 0, 0)
    ensures Added(t, d) == next
  {
    NextMidnight(t, next, d, AbsoluteDay(t.year, t.month, t.day));
  }

  /** A second after the last one of 28 February. */
  lemma {:induction false} LeapDay(t: DateTime, next: DateTime, d: Delta)
    requires t.month == 2 && t.day == 28 && IsLastSecond(t) && d == Delta(0, 0, 0, 0, 0, 0, 1)
    requires next == if t.year % 400 == 0 || (t.year % 4 == 0 && t.year % 100 != 0)
                     then DateTime(t.year, 2, 29, 0, 0, 0) else DateTime(t.year, 3, 1, 0, 0, 0)
    ensures Added(t, d) == next
  {
    LeapYears(t.year);
    if IsLeapYear(t.year) {
      NextOfMonth(t, next, d);
    } else {
      EndOfFebruary(t, next, d);
    }
  }

  lemma {:induction false} NextSecond(t: DateTime, next: DateTime, d: Delta, a: int)
    requires Valid(t) && Valid(next) && d == Delta(0, 0, 0, 0, 0, 0, 1) && Absolute(t) == a && Absolute(next) == a + 1
    ensures Added(t, d) == next
  {
    TimeDeltaAddsSeconds(t, d);
    ValidIsUnique(Added(t, d), next);
  }

  /** Such deltas act as a group: they compose, and adding the opposite undoes. */
  lemma TimeDeltasCompose(t: DateTime, d: Delta, e: Delta)
    requires Valid(t) && IsTimeDelta(d) && IsTimeDelta(e)
    ensures Added(Added(t, d), e) == Added(t, Plus(d, e))
    ensures Added(Added(t, d), Minus(d)) == t
  {
    TimeDeltaAddsSeconds(t, d);
    TimeDeltaAddsSeconds(Added(t, d), e);
    TimeDeltaAddsSeconds(t, Plus(d, e));
    ValidIsUnique(Added(Added(t, d), e), Added(t, Plus(d, e)));
    TimeDeltaAddsSeconds(Added(t, d), Minus(d));
    ValidIsUnique(Added(Added(t, d), Minus(d)), t);
  }

  /** They keep strict order, both ways. */
  lemma TimeDeltasKeepOrder(s: DateTime, t: DateTime, d: Delta)
    requires Valid(s) && Valid(t) && IsTimeDelta(d)
    ensures Absolute(s) < Absolute(t) <==> Absolute(Added(s, d)) < Absolute(Added(t, d))
    ensures s == t <==> Added(s, d) == Added(t, d)
  {
    TimeDeltaAddsSeconds(s, d);
    TimeDeltaAddsSeconds(t, d);
    if Added(s, d) == Added(t, d) {
      ValidIsUnique(s, t);
    }
  }

  /** A valid date moved by years and months is valid, so the normalisation leaves it alone. */
  lemma ShiftedIsValid(t: DateTime, years: int, months: int)
    requires Valid(t)
    ensures Valid(Shifted(t, years, months))
  {
  }

  lemma PartsInRange(m: int)
    ensures 1 <= MonthOf(m) <= 12 && MonthIndex(YearOf(m), MonthOf(m)) == m
  {
  }

  /** Years and months move the month index by 12 * years + months; the day is kept or clamped, the time kept. */
  lemma MonthDeltaMovesMonths(t: DateTime, d: Delta)
    requires Valid(t) && IsMonthDelta(d)
    ensures var r := Added(t, d);
            var m := MonthIndex(t.year, t.month) + 12 * d.years + d.months;
            && r == Shifted(t, d.years, d.months)
            && MonthIndex(r.year, r.month) == m
            && r.day == (if t.day <= MonthLength(m) then t.day else MonthLength(m))
            && r.hour == t.hour && r.minute == t.minute && r.second == t.second
  {
    var s := Shifted(t, d.years, d.months);
    ShiftedIsValid(t, d.years, d.months);
    ValidIsUnique(Added(t, d), s);
    PartsInRange(MonthIndex(t.year + d.years, t.month + d.months));
  }

  /** Any delta is its years and months followed by the rest. */
  lemma MonthsThenTime(t: DateTime, d: Delta)
    requires Valid(t)
    ensures Added(t, d) == Added(Added(t, d.(weeks := 0, days := 0, hours := 0, minutes := 0, seconds := 0)),
                                 d.(years := 0, months := 0))
  {
    var months, rest := d.(weeks := 0, days := 0, hours := 0, minutes := 0, seconds := 0), d.(years := 0, months := 0);
    MonthDeltaMovesMonths(t, months);
    TimeDeltaAddsSeconds(Added(t, months), rest);
    ValidIsUnique(Added(t, d), Added(Added(t, months), rest));
  }

  lemma CenturiesShift(t: DateTime)
    requires Valid(t)
    ensures Shifted(t, 400, 0) == t.(year := t.year + 400)
  {
    LeapInEra(1, t.year);
    ShiftedParts(t, 400, 0, t.year + 400, t.month);
  }

  lemma CenturiesSeconds(t: DateTime)
    ensures Absolute(t.(year := t.year + 400)) == Absolute(t) + 86400 * 146097
  {
    var m := MonthIndex(t.year, t.month);
    assert MonthIndex(t.year + 400, t.month) == m + 4800;
    FourCenturies(m);
  }

  /** 146097 days are 400 years, for every valid date and time. */
  lemma FourCenturiesAreDays(t: DateTime, days: Delta, years: Delta)
    requires Valid(t) && IsTimeDelta(days) && Elapsed(days) == 86400 * 146097
    requires IsMonthDelta(years) && years.years == 400 && years.months == 0
    ensures Added(t, days) == Added(t, years)
  {
    TimeDeltaAddsSeconds(t, days);
    MonthDeltaMovesMonths(t, years);
    CenturiesShift(t);
    CenturiesSeconds(t);
    ValidIsUnique(Added(t, days), Added(t, years));
  }

  // ----- years and months: what order they keep -----

  function AbsoluteDayOf(t: DateTime): int {
    AbsoluteDay(t.year, t.month, t.day)
  }

  function SecondsOf(t: DateTime): int {
    SecondOfDay(t.hour, t.minute, t.second)
  }

  lemma DateOrderOf(s: DateTime, t: DateTime)
    requires Valid(s) && Valid(t)
    ensures AbsoluteDayOf(s) < AbsoluteDayOf(t) <==>
            MonthIndex(s.year, s.month) < MonthIndex(t.year, t.month)
            || (MonthIndex(s.year, s.month) == MonthIndex(t.year, t.month) && s.day < t.day)
    ensures AbsoluteDayOf(s) == AbsoluteDayOf(t) <==> s.year == t.year && s.month == t.month && s.day == t.day
  {
    DateOrder(s.year, s.month, s.day, t.year, t.month, t.day);
  }

  lemma SecondOrder(s: DateTime, t: DateTime)
    requires Valid(s) && Valid(t)
    ensures Absolute(s) <= Absolute(t) <==>
            AbsoluteDayOf(s) < AbsoluteDayOf(t)
                || (AbsoluteDayOf(s) == AbsoluteDayOf(t) && SecondsOf(s) <= SecondsOf(t))
  {
  }

  /** On dates, month deltas are weakly monotone. */
  lemma MonthDeltasKeepDateOrder(s: DateTime, t: DateTime, d: Delta)
    requires Valid(s) && Valid(t) && IsMonthDelta(d) && AbsoluteDayOf(s) <= AbsoluteDayOf(t)
    ensures AbsoluteDayOf(Added(s, d)) <= AbsoluteDayOf(Added(t, d))
  {
    DateOrderOf(s, t);
    MonthDeltaMovesMonths(s, d);
    MonthDeltaMovesMonths(t, d);
    DateOrderOf(Added(s, d), Added(t, d));
  }

  /** The two dates are different days of one month, and both are clamped to the end of the target month. */
  predicate ClampedTogether(s: DateTime, t: DateTime, d: Delta) {
    var m := MonthIndex(s.year, s.month) + 12 * d.years + d.months;
    && MonthIndex(s.year, s.month) == MonthIndex(t.year, t.month)
    && s.day < t.day && MonthLength(m) <= s.day
  }

  /** An earlier date stays earlier unless both are clamped to the same day. */
  lemma MonthDeltaMerges(s: DateTime, t: DateTime, d: Delta)
    requires Valid(s) && Valid(t) && IsMonthDelta(d) && AbsoluteDayOf(s) <= AbsoluteDayOf(t)
    ensures AbsoluteDayOf(Added(s, d)) == AbsoluteDayOf(Added(t, d)) <==>
            AbsoluteDayOf(s) == AbsoluteDayOf(t) || ClampedTogether(s, t, d)
  {
    DateOrderOf(s, t);
    MonthDeltaMovesMonths(s, d);
    MonthDeltaMovesMonths(t, d);
    DateOrderOf(Added(s, d), Added(t, d));
  }

  lemma MonthDeltaKeepsTime(t: DateTime, d: Delta)
    requires Valid(t) && IsMonthDelta(d)
    ensures SecondsOf(Added(t, d)) == SecondsOf(t)
  {
    MonthDeltaMovesMonths(t, d);
  }

  /**
    With times of day, order fails exactly when both days are clamped together and the earlier day
    has the later time.
  */
  lemma MonthDeltasAndOrder(s: DateTime, t: DateTime, d: Delta)
    requires Valid(s) && Valid(t) && IsMonthDelta(d) && Absolute(s) <= Absolute(t)
    ensures Absolute(Added(s, d)) <= Absolute(Added(t, d)) <==>
            !(ClampedTogether(s, t, d) && SecondsOf(s) > SecondsOf(t))
  {
    SecondOrder(s, t);
    MonthDeltasKeepDateOrder(s, t, d);
    MonthDeltaMerges(s, t, d);
    MonthDeltaKeepsTime(s, d);
    MonthDeltaKeepsTime(t, d);
    SecondOrder(Added(s, d), Added(t, d));
    if ClampedTogether(s, t, d) {
      DateOrderOf(s, t);
    }
  }

  /** Month deltas compose exactly when the month passed through is long enough for the day that remains. */
  lemma MonthDeltasCompose(t: DateTime, d: Delta, e: Delta)
    requires Valid(t) && IsMonthDelta(d) && IsMonthDelta(e)
    ensures var m := MonthIndex(t.year, t.month) + 12 * d.years + d.months;
            var n := m + 12 * e.years + e.months;
            Added(Added(t, d), e) == Added(t, Plus(d, e)) <==>
            t.day <= MonthLength(m) || MonthLength(n) <= MonthLength(m)
  {
    MonthDeltaMovesMonths(t, d);
    MonthDeltaMovesMonths(Added(t, d), e);
    MonthDeltaMovesMonths(t, Plus(d, e));
    DateOrderOf(Added(Added(t, d), e), Added(t, Plus(d, e)));
  }

  /** In every year, one month after 30 January at noon is later than one month after 31 January at midnight. */
  lemma OrderCanFail(year: int, s: DateTime, t: DateTime, month: Delta)
    requires s == DateTime(year, 1, 30, 12, 0, 0) && t == DateTime(year, 1, 31, 0, 0, 0)
    requires month == Delta(0, 1, 0, 0, 0, 0, 0)
    ensures Valid(s) && Valid(t) && Absolute(s) < Absolute(t) && Absolute(Added(s, month)) > Absolute(Added(t, month))
  {
    LaterInJanuary(s, t);
    JanuaryEndsClamped(s, t, month);
    ClampedInFebruary(s, t, month);
  }

  lemma LaterInJanuary(s: DateTime, t: DateTime)
    requires s.month == 1 && s.day == 30 && s.hour == 12 && s.minute == 0 && s.second == 0
    requires t == s.(day := 31, hour := 0)
    ensures Valid(s) && Valid(t) && Absolute(s) < Absolute(t) && SecondsOf(s) > SecondsOf(t)
  {
  }

  lemma ClampedInFebruary(s: DateTime, t: DateTime, month: Delta)
    requires Valid(s) && Valid(t) && Absolute(s) < Absolute(t) && SecondsOf(s) > SecondsOf(t)
    requires IsMonthDelta(month) && ClampedTogether(s, t, month)
    ensures Absolute(Added(s, month)) > Absolute(Added(t, month))
  {
    MonthDeltasAndOrder(s, t, month);
  }

  lemma JanuaryEndsClamped(s: DateTime, t: DateTime, month: Delta)
    requires s.year == t.year && s.month == t.month == 1 && s.day == 30 && t.day == 31
    requires month.years == 0 && month.months == 1
    ensures ClampedTogether(s, t, month)
  {
    FebruaryIsShort(s.year, MonthIndex(s.year, s.month) + 12 * month.years + month.months);
  }

  lemma FebruaryIsShort(year: int, m: int)
    requires m == 12 * year + 1
    ensures MonthLength(m) <= 29
  {
    assert m / 12 == year && m % 12 == 1;
  }
}
