/** Plain date-times: difference and addition across midnight, with the range checks of the constructors. */
module DateTimes {
  import opened JsNumbers
  import opened Results
  import opened Instants
  import opened IsoDate
  import opened Overflows
  import D = IsoDifference
  import T = TimeOfDay

  datatype DateTime = DateTime(date: Date, time: T.Time)

  datatype Unit = Year | Month | Week | Day | Hour | Minute | Second | Millisecond | Microsecond | Nanosecond

  datatype Duration = Duration(years: int, months: int, weeks: int, time: T.TimeDuration)

  /** The day number of 1 January 1970. */
  const EPOCH_DAY: int := 719529

  const MIN_YEAR: int := -271821
  const MAX_YEAR: int := 275760

  ghost predicate ValidDateTime(dt: DateTime) {
    ValidDate(dt.date) && T.ValidTime(dt.time)
  }

  lemma EpochDayIsUnixEpoch()
    ensures DayNumber(Date(1970, 1, 1)) == EPOCH_DAY
  {
    DaysBeforeYearClosed(1970);
  }

  /** Nanoseconds from 1 January 1970 to a date-time read as UTC. */
  function EpochNs(dt: DateTime): int
    requires 1 <= dt.date.month <= 12
  {
    DAY * (DayNumber(dt.date) - EPOCH_DAY) + T.TimeNs(dt.time)
  }

  /** A valid date-time is determined by its position on the time line. */
  lemma EpochNsUnique(a: DateTime, b: DateTime)
    requires ValidDateTime(a) && ValidDateTime(b) && EpochNs(a) == EpochNs(b)
    ensures a == b
  {
    hide IsoDate.DayNumber, T.TimeNs;
    assert DayNumber(a.date) == DayNumber(b.date) && T.TimeNs(a.time) == T.TimeNs(b.time);
    CompareIsDayOrder(a.date, b.date);
    T.TimeUnique(a.time, b.time);
  }

  /** `BalanceISODateTime`. */
  method BalanceISODateTime(year: int, month: int, day: int, h: int, mi: int, s: int, ms: int, us: int, ns: int)
    returns (r: DateTime)
    ensures ValidDateTime(r)
    ensures EpochNs(r) == DAY * (DayNumberOf(year, month, day) - EPOCH_DAY) + T.Nanoseconds(h, mi, s, ms, us, ns)
  {
    hide IsoDate.LeapYear, IsoDate.DaysBeforeYear, IsoDate.DaysBeforeMonth, T.Nanoseconds;
    var deltaDays, time := T.BalanceTime(h, mi, s, ms, us, ns);
    var date := BalanceISODate(year, month, day + deltaDays);
    r := DateTime(date, time);
  }

  // ---------- range checks ----------

  /** `RejectDateRange`: noon of the date, moved a day less a nanosecond into the range, must be an instant. */
  predicate DateInRange(d: Date)
    requires ValidDate(d)
  {
    var noon := DAY * (DayNumber(d) - EPOCH_DAY) + 43_200_000_000_000;
    && MIN_YEAR <= d.year <= MAX_YEAR
    && (d.year == MIN_YEAR ==> InstantInRange(noon + DAY - 1))
    && (d.year == MAX_YEAR ==> InstantInRange(noon - DAY + 1))
  }

  /** A date between two dates in range is in range. */
  lemma RangeIsConvex(a: Date, d: Date, b: Date)
    requires ValidDate(a) && ValidDate(d) && ValidDate(b) && DateInRange(a) && DateInRange(b)
    requires DayNumber(a) <= DayNumber(d) <= DayNumber(b)
    ensures DateInRange(d)
  {
    hide IsoDate.DayNumber;
    CompareIsDayOrder(a, d);
    CompareIsDayOrder(d, b);
    DayWithinYear(d);
    if d.year == MIN_YEAR {
      YearsMonotone(d.year + 1, 0);
    } else if d.year == MAX_YEAR {
      YearsMonotone(2000, d.year);
      DaysBeforeYearClosed(2000);
    }
  }

  /** `CreateTemporalDate`. */
  function CreateTemporalDate(d: Date): (r: Result<Date>)
    ensures r.Ok? ==> r.value == d
  {
    if ValidDate(d) && DateInRange(d) then Ok(d) else RangeError
  }

  // ---------- units and signs ----------

  function TimeUnitOf(u: Unit): T.TimeUnit {
    match u
    case Year | Month | Week | Day => T.Day
    case Hour => T.Hour
    case Minute => T.Minute
    case Second => T.Second
    case Millisecond => T.Millisecond
    case Microsecond => T.Microsecond
    case Nanosecond => T.Nanosecond
  }

  /** The larger of a day and `u`. */
  function DateUnitOf(u: Unit): D.DateUnit {
    match u
    case Year => D.Years
    case Month => D.Months
    case Week => D.Weeks
    case _ => D.Days
  }

  predicate DayOrLarger(u: Unit) {
    u == Year || u == Month || u == Week || u == Day
  }

  /** `RejectDuration` accepts fields none of which disagrees with the first one in sign. */
  predicate SignsAgree(d: D.DateDuration) {
    D.OneSign(d, T.FirstSign([d.years, d.months, d.weeks, d.days]))
  }

  function RejectDuration(d: D.DateDuration): Result<D.DateDuration> {
    if SignsAgree(d) then Ok(d) else RangeError
  }

  lemma OneSignAgrees(d: D.DateDuration, s: int)
    requires D.OneSign(d, s)
    ensures SignsAgree(d)
  {
    T.FirstSignStep([d.years, d.months, d.weeks, d.days], d.years, [d.months, d.weeks, d.days]);
    T.FirstSignStep([d.months, d.weeks, d.days], d.months, [d.weeks, d.days]);
    T.FirstSignStep([d.weeks, d.days], d.weeks, [d.days]);
    T.FirstSignStep([d.days], d.days, []);
  }

  // ---------- difference ----------

  /** The sign of the difference of the two times of day. */
  function ClockSign(a: DateTime, b: DateTime): int {
    Sign(T.TimeNs(b.time) - T.TimeNs(a.time))
  }

  /** When the clock runs against the calendar, the start date moves one day towards the end date. */
  predicate Borrows(a: DateTime, b: DateTime) {
    CompareISODate(b.date, a.date) == -ClockSign(a, b)
  }

  ghost function StartDate(a: DateTime, b: DateTime): (d: Date)
    requires ValidDateTime(a)
    ensures ValidDate(d)
  {
    DateOfDay(DayNumber(a.date) - if Borrows(a, b) then ClockSign(a, b) else 0)
  }

  /** The part of the difference below whole days. */
  function ClockDifference(a: DateTime, b: DateTime): int {
    T.TimeNs(b.time) - T.TimeNs(a.time) - if Borrows(a, b) then DAY * ClockSign(a, b) else 0
  }

  /** -1, 0 or 1 as `b` lies before, at or after `a`. */
  function TimeLineSign(a: DateTime, b: DateTime): int
    requires 1 <= a.date.month <= 12 && 1 <= b.date.month <= 12
  {
    Sign(EpochNs(b) - EpochNs(a))
  }

  lemma BorrowedDay(a: DateTime, b: DateTime)
    requires ValidDateTime(a) && ValidDateTime(b)
    ensures var s := TimeLineSign(a, b);
            && T.SignIs(D.Direction(StartDate(a, b), b.date), s)
            && T.SignIs(ClockDifference(a, b), s) && T.Below(ClockDifference(a, b), DAY)
    ensures EpochNs(b) - EpochNs(a)
            == DAY * (DayNumber(b.date) - DayNumber(StartDate(a, b))) + ClockDifference(a, b)
    ensures var d := DayNumber(StartDate(a, b));
            DayNumber(a.date) <= d <= DayNumber(b.date) || DayNumber(b.date) <= d <= DayNumber(a.date)
  {
    hide IsoDate.DayNumber, T.TimeNs;
    CompareIsDayOrder(a.date, b.date);
    CompareIsDayOrder(b.date, a.date);
  }

  predicate OneSign(d: Duration, s: int) {
    T.SignIs(d.years, s) && T.SignIs(d.months, s) && T.SignIs(d.weeks, s) && T.OneSign(d.time, s)
  }

  /** What `DifferenceISODateTime` returns: the calendar part is the difference of dates from the start date
  (moved by a day when the clock borrows one), the time part is the rest, and nothing disagrees in sign. */
  ghost predicate IsDateTimeDifference(a: DateTime, b: DateTime, unit: Unit, r: Duration)
    requires ValidDateTime(a) && ValidDateTime(b)
  {
    && OneSign(r, TimeLineSign(a, b)) && T.BalancedUpTo(r.time, TimeUnitOf(unit))
    && (if DayOrLarger(unit)
        then D.IsDifference(StartDate(a, b), b.date, DateUnitOf(unit),
                            D.DateDuration(r.years, r.months, r.weeks, r.time.days))
             && T.TotalNs(r.time.(days := 0)) == ClockDifference(a, b)
        else r.years == 0 && r.months == 0 && r.weeks == 0 && T.TotalNs(r.time) == EpochNs(b) - EpochNs(a))
  }

  /** Whole days and a clock part below a day of the same sign stay apart when balanced. */
  lemma DaysStay(days: int, clock: int, r: T.TimeDuration, s: int)
    requires T.SignIs(days, s) && T.SignIs(clock, s) && T.Below(clock, DAY)
    requires T.TotalNs(r) == DAY * days + clock
    requires T.OneSign(r, Sign(T.TotalNs(r))) && T.BalancedUpTo(r, T.Day)
    ensures r.days == days && T.TotalNs(r.(days := 0)) == clock
  {
    hide T.Nanoseconds;
    TimeBelowDay(r, s);
    SplitUnique(days, clock, r.days, T.TotalNs(r.(days := 0)), DAY, s);
  }

  lemma TimeBelowDay(r: T.TimeDuration, s: int)
    requires T.OneSign(r, s) && T.BalancedUpTo(r, T.Day)
    ensures T.Below(T.TotalNs(r.(days := 0)), DAY) && T.SignIs(T.TotalNs(r.(days := 0)), s)
    ensures T.TotalNs(r) == DAY * r.days + T.TotalNs(r.(days := 0))
  {
  }

  lemma AssembleDifference(a: DateTime, b: DateTime, unit: Unit, dd: D.DateDuration, time: T.TimeDuration)
    requires ValidDateTime(a) && ValidDateTime(b)
    requires D.IsDifference(StartDate(a, b), b.date, DateUnitOf(unit), dd)
    requires T.TotalNs(time) == DAY * dd.days + ClockDifference(a, b)
    requires T.OneSign(time, Sign(T.TotalNs(time))) && T.BalancedUpTo(time, TimeUnitOf(unit))
    ensures IsDateTimeDifference(a, b, unit, Duration(dd.years, dd.months, dd.weeks, time))
  {
    hide IsoDate.DayNumber, IsoDate.ISODaysInMonth, D.IsDifference, T.OneSign, T.BalancedUpTo, T.TotalNs, T.TimeNs;
    var s := TimeLineSign(a, b);
    BorrowedDay(a, b);
    DateDifferenceSigns(StartDate(a, b), b.date, dd, DateUnitOf(unit), s);
    if DayOrLarger(unit) {
      DaysStay(dd.days, ClockDifference(a, b), time, s);
      assert D.DateDuration(dd.years, dd.months, dd.weeks, time.days) == dd;
    } else {
      DaysBetween(StartDate(a, b), b.date, dd);
    }
    SignOfTotal(time, dd.days, ClockDifference(a, b), s);
  }

  lemma DaysBetween(a: Date, b: Date, dd: D.DateDuration)
    requires ValidDate(a) && ValidDate(b) && D.IsDifference(a, b, D.Days, dd)
    ensures dd.years == dd.months == dd.weeks == 0 && dd.days == DayNumber(b) - DayNumber(a)
  {
    hide IsoDate.DayNumber;
    D.ShiftNothing(a);
  }

  lemma SignOfTotal(time: T.TimeDuration, days: int, clock: int, s: int)
    requires T.TotalNs(time) == DAY * days + clock && T.OneSign(time, Sign(T.TotalNs(time)))
    requires T.SignIs(days, s) && T.SignIs(clock, s)
    ensures T.OneSign(time, s)
  {
    hide T.TotalNs;
  }

  /** `DifferenceISODateTime`. Between two date-times whose dates are in range it never throws. */
  method DifferenceISODateTime(a: DateTime, b: DateTime, unit: Unit) returns (r: Result<Duration>)
    requires ValidDateTime(a) && ValidDateTime(b) && DateInRange(a.date) && DateInRange(b.date)
    ensures r.Ok? && IsDateTimeDifference(a, b, unit, r.value)
  {
    hide IsoDate.DayNumber, IsoDate.ValidDate, D.IsDifference, T.OneSign, T.BalancedUpTo, T.TotalNs, T.TimeNs;
    var start := a.date;
    var t := T.DifferenceTime(a.time, b.time);
    var sign := T.DurationSign([t.hours, t.minutes, t.seconds, t.ms, t.us, t.ns]);
    T.DifferenceSign(t);
    BorrowedDay(a, b);
    assert t.(days := 0) == t;
    if CompareISODate(b.date, start) == -sign {
      start := BalanceISODate(start.year, start.month, start.day - sign);
      ReplaceDays(t, -sign);
      t := T.BalanceDuration(t.(days := -sign), TimeUnitOf(unit));
      DropDays(t, ClockDifference(a, b), unit);
    }
    ShiftedDay(a.date, 0);
    ShiftedDay(a.date, sign);
    assert start == StartDate(a, b) && T.TotalNs(t) == ClockDifference(a, b) && t.days == 0;
    EndpointsInRange(a, b);
    var from :- assert CreateTemporalDate(start);
    var until :- assert CreateTemporalDate(b.date);
    var dd := D.DifferenceISODate(from, until, DateUnitOf(unit));
    DateDifferenceSigns(from, until, dd, DateUnitOf(unit), D.Direction(from, until));
    OneSignAgrees(dd, D.Direction(from, until));
    dd :- assert RejectDuration(dd);
    ReplaceDays(t, dd.days);
    var time := T.BalanceDuration(t.(days := dd.days), TimeUnitOf(unit));
    AssembleDifference(a, b, unit, dd, time);
    return Ok(Duration(dd.years, dd.months, dd.weeks, time));
  }

  lemma EndpointsInRange(a: DateTime, b: DateTime)
    requires ValidDateTime(a) && ValidDateTime(b) && DateInRange(a.date) && DateInRange(b.date)
    ensures CreateTemporalDate(StartDate(a, b)).Ok? && CreateTemporalDate(b.date).Ok?
  {
    hide IsoDate.DayNumber, IsoDate.ISODaysInMonth;
    BorrowedDay(a, b);
    if DayNumber(a.date) <= DayNumber(b.date) {
      RangeIsConvex(a.date, StartDate(a, b), b.date);
    } else {
      RangeIsConvex(b.date, StartDate(a, b), a.date);
    }
  }

  lemma DateDifferenceSigns(a: Date, b: Date, dd: D.DateDuration, unit: D.DateUnit, s: int)
    requires ValidDate(a) && ValidDate(b) && D.IsDifference(a, b, unit, dd) && T.SignIs(D.Direction(a, b), s)
    ensures D.OneSign(dd, s)
  {
    hide IsoDate.DayNumber;
  }

  lemma ShiftedDay(d: Date, sign: int)
    requires ValidDate(d)
    ensures DateOfDay(DayNumberOf(d.year, d.month, d.day - sign)) == DateOfDay(DayNumber(d) - sign)
    ensures DateOfDay(DayNumber(d)) == d
  {
    MonthOfUnique(YearMonth(d.year, d.month));
    DateOfDayUnique(d);
  }

  lemma ReplaceDays(t: T.TimeDuration, days: int)
    ensures T.TotalNs(t.(days := days)) == DAY * days + T.TotalNs(t.(days := 0))
  {
  }

  /** The days of the balanced clock difference are dropped; there are none. */
  lemma DropDays(t: T.TimeDuration, clock: int, unit: Unit)
    requires T.TotalNs(t) == clock && T.Below(clock, DAY)
    requires T.OneSign(t, Sign(clock)) && T.BalancedUpTo(t, TimeUnitOf(unit))
    ensures t.days == 0
  {
    hide T.TotalNs, T.OneSign;
    if DayOrLarger(unit) {
      DaysStay(0, clock, t, Sign(clock));
    }
  }

  // ---------- addition ----------

  /** The calendar duration that is added to the date once the clock has carried its days. */
  function CarriedDuration(dt: DateTime, dur: Duration): D.DateDuration {
    var clock := T.TimeNs(dt.time) + T.TotalNs(dur.time.(days := 0));
    D.DateDuration(dur.years, dur.months, dur.weeks, dur.time.days + clock / DAY)
  }

  /** A date-time plus a duration, as a place on the time line: months first, then all the rest. */
  ghost function PlusNs(dt: DateTime, dur: Duration): int
    requires ValidDateTime(dt)
  {
    DAY * (DayNumber(D.ShiftMonths(dt.date, 12 * dur.years + dur.months)) + 7 * dur.weeks - EPOCH_DAY)
    + T.TimeNs(dt.time) + T.TotalNs(dur.time)
  }

  lemma DaysAlone(days: int)
    ensures T.TotalNs(T.TimeDuration(days, 0, 0, 0, 0, 0, 0)) == DAY * days
  {
    hide T.Nanoseconds;
    T.MidnightIsZero();
  }

  /** Balancing whole days up to days changes nothing. */
  lemma WholeDaysStay(days: int, r: T.TimeDuration)
    requires T.TotalNs(r) == T.TotalNs(T.TimeDuration(days, 0, 0, 0, 0, 0, 0))
    requires T.OneSign(r, Sign(T.TotalNs(r))) && T.BalancedUpTo(r, T.Day)
    ensures r.days == days
  {
    hide T.TotalNs, T.OneSign, T.BalancedUpTo, T.Nanoseconds;
    DaysAlone(days);
    DaysStay(days, 0, r, Sign(days));
  }

  /** `dateAdd` of the ISO calendar. */
  method DateAdd(date: Date, dur: D.DateDuration, overflow: Overflow) returns (r: Result<Date>)
    requires ValidDate(date)
    ensures r == if overflow == Reject && D.ShiftMonths(date, 12 * dur.years + dur.months).day != date.day
                 then RangeError
                 else CreateTemporalDate(D.Plus(date, dur))
  {
    hide IsoDate.DayNumber, IsoDate.ValidDate, T.OneSign, T.BalancedUpTo, T.TotalNs, CreateTemporalDate, D.ShiftMonths,
         D.Plus;
    var days := T.BalanceDuration(T.TimeDuration(dur.days, 0, 0, 0, 0, 0, 0), T.Day);
    WholeDaysStay(dur.days, days);
    var sum :- D.AddISODate(date, dur.(days := days.days), overflow);
    r := CreateTemporalDate(sum);
  }

  /** `AddDateTime`. */
  method AddDateTime(dt: DateTime, dur: Duration, overflow: Overflow) returns (r: Result<DateTime>)
    requires ValidDateTime(dt)
    ensures r.Ok? ==> ValidDateTime(r.value) && DateInRange(r.value.date) && EpochNs(r.value) == PlusNs(dt, dur)
    ensures r.Ok? <==>
            && DateInRange(dt.date) && SignsAgree(CarriedDuration(dt, dur))
            && DateInRange(D.Plus(dt.date, CarriedDuration(dt, dur)))
            && (overflow == Reject ==> D.ShiftMonths(dt.date, 12 * dur.years + dur.months).day == dt.date.day)
  {
    hide IsoDate.DayNumber, IsoDate.ISODaysInMonth, T.TotalNs, T.TimeNs, DateInRange, SignsAgree;
    ReplaceDays(dur.time, dur.time.days);
    var deltaDays, time := T.AddTime(dt.time, dur.time);
    var start :- CreateTemporalDate(dt.date);
    var carried :- RejectDuration(D.DateDuration(dur.years, dur.months, dur.weeks, dur.time.days + deltaDays));
    assert carried == CarriedDuration(dt, dur);
    var date :- DateAdd(start, carried, overflow);
    return Ok(DateTime(date, time));
  }

  // ---------- adding the difference back ----------

  /** Two neighbouring days stay neighbours when moved by `k` months. They do when clamping changes
  neither, or when both end up on either side of the end of a month. */
  ghost predicate NeighboursStay(first: Date, k: int)
    requires ValidDate(first)
  {
    var second := NextDate(first);
    var target := D.ShiftMonths(first, k);
    if second.day > 1 then second.day <= ISODaysInMonth(target.year, target.month)
    else first.day >= ISODaysInMonth(target.year, target.month)
  }

  lemma NeighboursMoved(first: Date, k: int)
    requires ValidDate(first)
    ensures DayNumber(D.ShiftMonths(NextDate(first), k)) == DayNumber(D.ShiftMonths(first, k)) + 1
            <==> NeighboursStay(first, k)
  {
    hide IsoDate.DayNumber, IsoDate.ISODaysInMonth;
    var second := NextDate(first);
    var p, q := D.ShiftMonths(first, k), D.ShiftMonths(second, k);
    if second.day > 1 {
      D.SameMonth(p, q);
    } else {
      D.DaysToNextMonth(p, q);
    }
  }

  /** Moving by `k` months takes a date and its borrowed neighbour to neighbouring days. */
  ghost predicate BorrowStays(a: DateTime, b: DateTime, k: int)
    requires ValidDateTime(a)
  {
    Borrows(a, b) && ClockSign(a, b) != 0 ==>
      NeighboursStay(if ClockSign(a, b) < 0 then a.date else PreviousDate(a.date), k)
  }

  /** The calendar months of the difference, from the two date-times alone. */
  ghost function MonthsBetween(a: DateTime, b: DateTime, unit: Unit): int
    requires ValidDateTime(a) && ValidDateTime(b)
  {
    if unit == Year || unit == Month then D.WholeMonths(StartDate(a, b), b.date) else 0
  }

  /** Adding the difference back lands on the end date, except when a day is borrowed and moving the whole months
  between the dates clamps one of the two start dates and not the other. */
  ghost predicate ComesBack(a: DateTime, b: DateTime, unit: Unit)
    requires ValidDateTime(a) && ValidDateTime(b)
  {
    BorrowStays(a, b, MonthsBetween(a, b, unit))
  }

  lemma PreviousIsDayBefore(d: Date)
    requires ValidDate(d)
    ensures PreviousDate(d) == DateOfDay(DayNumber(d) - 1) && NextDate(d) == DateOfDay(DayNumber(d) + 1)
  {
    DayNumberCountsDays(d);
    DayNumberCountsDays(PreviousDate(d));
    DateOfDayUnique(NextDate(d));
    DateOfDayUnique(PreviousDate(d));
  }

  lemma ShiftedStart(a: DateTime, b: DateTime, r: Duration)
    requires ValidDateTime(a)
    ensures var k := 12 * r.years + r.months;
            BorrowStays(a, b, k) <==>
            DayNumber(D.ShiftMonths(a.date, k)) - DayNumber(a.date)
            == DayNumber(D.ShiftMonths(StartDate(a, b), k)) - DayNumber(StartDate(a, b))
  {
    hide IsoDate.DayNumber, IsoDate.ValidDate, D.ShiftMonths, T.TimeNs, NeighboursStay;
    var k := 12 * r.years + r.months;
    PreviousIsDayBefore(a.date);
    DateOfDayUnique(a.date);
    if Borrows(a, b) && ClockSign(a, b) < 0 {
      NeighboursMoved(a.date, k);
    } else if Borrows(a, b) && ClockSign(a, b) > 0 {
      NeighboursMoved(PreviousDate(a.date), k);
    }
  }

  lemma AddBackPosition(a: DateTime, b: DateTime, unit: Unit, r: Duration)
    requires ValidDateTime(a) && ValidDateTime(b) && IsDateTimeDifference(a, b, unit, r)
    ensures PlusNs(a, r) == EpochNs(b) <==> ComesBack(a, b, unit)
    ensures unit != Year && unit != Month ==> ComesBack(a, b, unit)
  {
    hide IsoDate.DayNumber, IsoDate.ISODaysInMonth, D.ShiftMonths, T.TotalNs, T.TimeNs, BorrowStays, D.WholeMonths,
         T.OneSign, T.BalancedUpTo;
    if unit == Year || unit == Month {
      D.DifferenceHasWholeMonths(StartDate(a, b), b.date, DateUnitOf(unit),
                                 D.DateDuration(r.years, r.months, r.weeks, r.time.days));
    }
    BorrowedDay(a, b);
    ReplaceDays(r.time, r.time.days);
    assert r.time.(days := r.time.days) == r.time;
    D.ShiftNothing(a.date);
    D.ShiftNothing(StartDate(a, b));
    ShiftedStart(a, b, r);
  }

  lemma CarriedSigns(a: DateTime, r: Duration, s: int)
    requires ValidDateTime(a) && OneSign(r, s)
    ensures SignsAgree(CarriedDuration(a, r))
  {
    hide T.TimeNs, T.TotalNs, T.OneSign, D.OneSign, SignsAgree;
    var clock := T.TotalNs(r.time.(days := 0));
    ClockFieldsSign(r.time, s);
    CarriedDays(T.TimeNs(a.time), clock, s);
    OneSignFields(CarriedDuration(a, r), s);
    OneSignAgrees(CarriedDuration(a, r), s);
  }

  lemma ClockFieldsSign(time: T.TimeDuration, s: int)
    requires T.OneSign(time, s)
    ensures T.SignIs(T.TotalNs(time.(days := 0)), s) && T.SignIs(time.days, s)
  {
  }

  lemma OneSignFields(d: D.DateDuration, s: int)
    requires T.SignIs(d.years, s) && T.SignIs(d.months, s) && T.SignIs(d.weeks, s) && T.SignIs(d.days, s)
    ensures D.OneSign(d, s)
  {
  }

  lemma CarriedDays(t: int, clock: int, s: int)
    requires 0 <= t < DAY && T.SignIs(clock, s)
    ensures T.SignIs((t + clock) / DAY, s)
  {
  }

  lemma SumInRange(a: DateTime, b: DateTime, r: Duration)
    requires ValidDateTime(a) && ValidDateTime(b) && PlusNs(a, r) == EpochNs(b)
    ensures D.Plus(a.date, CarriedDuration(a, r)) == b.date
  {
    hide IsoDate.DayNumber, IsoDate.ISODaysInMonth, D.ShiftMonths, T.TotalNs, T.TimeNs;
    ReplaceDays(r.time, r.time.days);
    assert r.time.(days := r.time.days) == r.time;
    var clock := T.TimeNs(a.time) + T.TotalNs(r.time.(days := 0));
    var sum := D.Plus(a.date, CarriedDuration(a, r));
    assert DayNumber(sum) == DayNumber(b.date);
    CompareIsDayOrder(sum, b.date);
  }

  /** The description of a date-time difference has one solution. */
  lemma DateTimeDifferenceUnique(a: DateTime, b: DateTime, unit: Unit, r1: Duration, r2: Duration)
    requires ValidDateTime(a) && ValidDateTime(b)
    requires IsDateTimeDifference(a, b, unit, r1) && IsDateTimeDifference(a, b, unit, r2)
    ensures r1 == r2
  {
    hide IsoDate.DayNumber, StartDate, ClockDifference, D.IsDifference, T.OneSign, T.BalancedUpTo, T.TotalNs;
    var s := TimeLineSign(a, b);
    if DayOrLarger(unit) {
      D.DifferenceUnique(StartDate(a, b), b.date, DateUnitOf(unit),
                         D.DateDuration(r1.years, r1.months, r1.weeks, r1.time.days),
                         D.DateDuration(r2.years, r2.months, r2.weeks, r2.time.days));
      TotalsAgree(r1.time, r2.time);
    }
    T.TotalHasSign(r1.time, s);
    T.TotalHasSign(r2.time, s);
    T.BalanceUnique(r1.time, r2.time, TimeUnitOf(unit));
  }

  lemma TotalsAgree(t1: T.TimeDuration, t2: T.TimeDuration)
    requires t1.days == t2.days && T.TotalNs(t1.(days := 0)) == T.TotalNs(t2.(days := 0))
    ensures T.TotalNs(t1) == T.TotalNs(t2)
  {
  }

  /** `DifferenceISODateTime` followed by `AddDateTime`: for the units from week down the sum is always the
  end date-time; for years and months it is exactly when `ComesBack` says so. */
  method DifferenceThenAdd(a: DateTime, b: DateTime, unit: Unit) returns (difference: Duration, back: Result<DateTime>)
    requires ValidDateTime(a) && ValidDateTime(b) && DateInRange(a.date) && DateInRange(b.date)
    ensures IsDateTimeDifference(a, b, unit, difference)
    ensures unit != Year && unit != Month ==> back == Ok(b)
    ensures back == Ok(b) <==> ComesBack(a, b, unit)
  {
    hide IsoDate.DayNumber, IsoDate.ISODaysInMonth, D.ShiftMonths, ComesBack, SignsAgree, DateInRange, T.OneSign,
         T.BalancedUpTo, PlusNs;
    difference :- assert DifferenceISODateTime(a, b, unit);
    back := AddDateTime(a, difference, Constrain);
    AddBackPosition(a, b, unit, difference);
    CarriedSigns(a, difference, TimeLineSign(a, b));
    if ComesBack(a, b, unit) {
      SumInRange(a, b, difference);
      EpochNsUnique(back.value, b);
    }
  }

  lemma NoonToMidnight(a: T.Time, b: T.Time)
    requires a == T.Time(12, 0, 0, 0, 0, 0) && b == T.Time(0, 0, 0, 0, 0, 0)
    ensures T.TimeNs(a) == 43_200_000_000_000 && T.TimeNs(b) == 0
  {
  }

  lemma ClockRunsBack(a: DateTime, b: DateTime)
    requires T.TimeNs(a.time) == 43_200_000_000_000 && T.TimeNs(b.time) == 0
    requires CompareISODate(b.date, a.date) == 1
    ensures Borrows(a, b) && ClockSign(a, b) == -1 && ClockDifference(a, b) == 43_200_000_000_000
  {
    hide T.TimeNs, IsoDate.CompareISODate;
  }

  lemma OneMonthFromJanuary(start: Date, end: Date)
    requires start == Date(2019, 1, 31) && end == Date(2019, 2, 28)
    ensures D.ShiftMonths(start, 1) == end && D.IsDifference(start, end, D.Months, D.DateDuration(0, 1, 0, 0))
  {
    hide IsoDate.DayNumber;
    assert D.ShiftMonths(start, 1).month == 2;
    D.LaterMonthIsLater(start, end);
    D.LaterMonthIsLater(end, D.ShiftMonths(start, 2));
    DateOfDayUnique(end);
  }

  lemma EndOfJanuaryClamps(day: Date)
    requires day == Date(2019, 1, 30)
    ensures ValidDate(day) && NextDate(day) == Date(2019, 1, 31) && !NeighboursStay(day, 1)
  {
    assert D.ShiftMonths(day, 1).month == 2;
  }

  lemma NoonDifference(a: DateTime, b: DateTime, r: Duration)
    requires a == DateTime(Date(2019, 1, 30), T.Time(12, 0, 0, 0, 0, 0))
    requires b == DateTime(Date(2019, 2, 28), T.Time(0, 0, 0, 0, 0, 0))
    requires r == Duration(0, 1, 0, T.TimeDuration(0, 12, 0, 0, 0, 0, 0))
    requires ValidDateTime(a) && ValidDateTime(b)
    ensures IsDateTimeDifference(a, b, Month, r) && !BorrowStays(a, b, 1) && MonthsBetween(a, b, Month) == 1
  {
    hide IsoDate.DayNumber, D.IsDifference, D.WholeMonths, Borrows, ClockSign, ClockDifference, T.TimeNs,
         NeighboursStay;
    NoonToMidnight(a.time, b.time);
    ClockRunsBack(a, b);
    EndOfJanuaryClamps(a.date);
    PreviousIsDayBefore(a.date);
    OneMonthFromJanuary(NextDate(a.date), b.date);
    D.DifferenceHasWholeMonths(NextDate(a.date), b.date, D.Months, D.DateDuration(0, 1, 0, 0));
    D.LaterMonthIsLater(a.date, b.date);
    BorrowedDay(a, b);
  }

  /** From noon on 30 January to midnight on 28 February is one month and twelve hours, and nothing else, and adding
  that back does not give the end. */
  lemma ClampedStartDoesNotComeBack(a: DateTime, b: DateTime, r: Duration)
    requires a == DateTime(Date(2019, 1, 30), T.Time(12, 0, 0, 0, 0, 0))
    requires b == DateTime(Date(2019, 2, 28), T.Time(0, 0, 0, 0, 0, 0))
    requires ValidDateTime(a) && ValidDateTime(b) && IsDateTimeDifference(a, b, Month, r)
    ensures r == Duration(0, 1, 0, T.TimeDuration(0, 12, 0, 0, 0, 0, 0))
    ensures PlusNs(a, r) != EpochNs(b) && !ComesBack(a, b, Month)
  {
    hide IsDateTimeDifference, BorrowStays, PlusNs, EpochNs, MonthsBetween;
    var expected := Duration(0, 1, 0, T.TimeDuration(0, 12, 0, 0, 0, 0, 0));
    NoonDifference(a, b, expected);
    DateTimeDifferenceUnique(a, b, Month, r, expected);
    AddBackPosition(a, b, Month, r);
  }
}
