/** Adding a calendar duration to an ISO date, and the difference of two ISO dates. */
module IsoDifference {
  import opened JsNumbers
  import opened Results
  import opened IsoDate
  import opened Overflows

  datatype DateUnit = Years | Months | Weeks | Days
  datatype DateDuration = DateDuration(years: int, months: int, weeks: int, days: int)

  // ---------- addition ----------

  /** Of the numbers from `lo` to `hi`, `r` is the one nearest to `x`. */
  predicate Nearest(r: int, x: int, lo: int, hi: int) {
    lo <= r <= hi && (x < lo ==> r == lo) && (x > hi ==> r == hi) && (lo <= x <= hi ==> r == x)
  }

  /** `ConstrainISODate`. */
  function ConstrainISODate(y: int, m: int, d: int): (r: Date)
    ensures r.year == y && Nearest(r.month, m, 1, 12) && Nearest(r.day, d, 1, ISODaysInMonth(y, r.month))
    ensures ValidDate(r)
    ensures ValidDate(Date(y, m, d)) ==> r == Date(y, m, d)
  {
    var month := ConstrainToRange(m, 1, 12);
    Date(y, month, ConstrainToRange(d, 1, ISODaysInMonth(y, month)))
  }

  function RegulateISODate(y: int, m: int, d: int, overflow: Overflow): (r: Result<Date>)
    ensures r.Ok? ==> ValidDate(r.value) && (ValidDate(Date(y, m, d)) ==> r.value == Date(y, m, d))
    ensures overflow == Constrain ==> r == Ok(ConstrainISODate(y, m, d))
    ensures r.RangeError? <==> overflow == Reject && !ValidDate(Date(y, m, d))
  {
    match overflow
    case Constrain => Ok(ConstrainISODate(y, m, d))
    case Reject => if ValidDate(Date(y, m, d)) then Ok(Date(y, m, d)) else RangeError
  }

  function MonthIndex(d: Date): int {
    12 * d.year + d.month
  }

  /** The date `k` calendar months after `d`; its day is clamped to the length of the month it lands in. */
  ghost function ShiftMonths(d: Date, k: int): (r: Date)
    requires ValidDate(d)
    ensures ValidDate(r) && MonthIndex(r) == MonthIndex(d) + k
    ensures r.day == if d.day <= ISODaysInMonth(r.year, r.month) then d.day else ISODaysInMonth(r.year, r.month)
  {
    var ym := MonthOf(MonthIndex(d) + k);
    ConstrainISODate(ym.year, ym.month, d.day)
  }

  /** `d` plus a duration: months first, clamping the day, then weeks and days. */
  ghost function Plus(d: Date, dur: DateDuration): (r: Date)
    requires ValidDate(d)
    ensures ValidDate(r)
  {
    DateOfDay(DayNumber(ShiftMonths(d, 12 * dur.years + dur.months)) + 7 * dur.weeks + dur.days)
  }

  /** `AddISODate`. Under `Reject` it throws exactly when the day does not exist in the month reached. */
  method AddISODate(d: Date, dur: DateDuration, overflow: Overflow) returns (r: Result<Date>)
    requires ValidDate(d)
    ensures overflow == Constrain ==> r == Ok(Plus(d, dur))
    ensures overflow == Reject ==>
              r == if ShiftMonths(d, 12 * dur.years + dur.months).day == d.day then Ok(Plus(d, dur)) else RangeError
  {
    hide IsoDate.DaysBeforeYear, IsoDate.DaysBeforeMonth, IsoDate.LeapYear;
    var ym := BalanceISOYearMonth(d.year + dur.years, d.month + dur.months);
    var date :- RegulateISODate(ym.year, ym.month, d.day, overflow);
    var h := dur.days + 7 * dur.weeks;
    MonthOfUnique(YearMonth(date.year, date.month));
    date := BalanceISODate(date.year, date.month, date.day + h);
    return Ok(date);
  }

  // ---------- what the difference promises ----------

  /** -1, 0 or 1 as `b` lies before, on or after `a`. */
  function Direction(a: Date, b: Date): int
    requires ValidDate(a) && ValidDate(b)
  {
    Sign(DayNumber(b) - DayNumber(a))
  }

  /** `r` lies strictly beyond `b`, seen from `a`. */
  ghost predicate Beyond(a: Date, b: Date, r: Date)
    requires ValidDate(a) && ValidDate(b) && ValidDate(r)
  {
    Direction(a, b) != 0 && Direction(b, r) == Direction(a, b)
  }

  predicate OneSign(dur: DateDuration, s: int) {
    && (dur.years == 0 || Sign(dur.years) == s)
    && (dur.months == 0 || Sign(dur.months) == s)
    && (dur.weeks == 0 || Sign(dur.weeks) == s)
    && (dur.days == 0 || Sign(dur.days) == s)
  }

  /** The duration is balanced up to `unit`, and one more year or month would go past `b`. */
  ghost predicate LargestFit(a: Date, b: Date, unit: DateUnit, r: DateDuration)
    requires ValidDate(a) && ValidDate(b)
  {
    var s := Direction(a, b);
    match unit
    case Years =>
      && r.weeks == 0 && Abs(r.months) <= 11
      && (s != 0 ==> Beyond(a, b, ShiftMonths(a, 12 * (r.years + s))))
      && (s != 0 ==> Beyond(a, b, ShiftMonths(a, 12 * r.years + r.months + s)))
    case Months =>
      && r.years == 0 && r.weeks == 0
      && (s != 0 ==> Beyond(a, b, ShiftMonths(a, r.months + s)))
    case Weeks => r.years == 0 && r.months == 0 && Abs(r.days) <= 6
    case Days => r.years == 0 && r.months == 0 && r.weeks == 0
  }

  /** `r` is the difference from `a` to `b`: adding it to `a` gives `b`, its components do not
  disagree in sign, and it is balanced up to `unit`. */
  ghost predicate IsDifference(a: Date, b: Date, unit: DateUnit, r: DateDuration)
    requires ValidDate(a) && ValidDate(b)
  {
    Plus(a, r) == b && OneSign(r, Direction(a, b)) && LargestFit(a, b, unit, r)
  }

  // ---------- months and days between dates ----------

  lemma LaterMonthIsLater(a: Date, b: Date)
    requires ValidDate(a) && ValidDate(b) && MonthIndex(a) < MonthIndex(b)
    ensures DayNumber(a) < DayNumber(b)
  {
    CompareIsDayOrder(a, b);
  }

  lemma ShiftMonotone(d: Date, j: int, k: int)
    requires ValidDate(d) && j <= k
    ensures DayNumber(ShiftMonths(d, j)) <= DayNumber(ShiftMonths(d, k))
  {
    if j < k {
      LaterMonthIsLater(ShiftMonths(d, j), ShiftMonths(d, k));
    }
  }

  lemma DaysToNextMonth(a: Date, b: Date)
    requires ValidDate(a) && ValidDate(b) && MonthIndex(b) == MonthIndex(a) + 1
    ensures DayNumber(b) - DayNumber(a) == ISODaysInMonth(a.year, a.month) - a.day + b.day
  {
    MonthStep(a.year, a.month);
    YearStep(a.year);
  }

  lemma SameMonth(a: Date, b: Date)
    requires ValidDate(a) && ValidDate(b) && MonthIndex(a) == MonthIndex(b)
    ensures a.year == b.year && a.month == b.month
    ensures DayNumber(b) - DayNumber(a) == b.day - a.day
  {
  }

  /** The months of a difference are the most that fit, so the difference is unique. */
  lemma MonthsAtMost(a: Date, b: Date, k1: int, k2: int)
    requires ValidDate(a) && ValidDate(b)
    requires Beyond(a, b, ShiftMonths(a, k1 + Direction(a, b)))
    requires !Beyond(a, b, ShiftMonths(a, k2))
    ensures k2 * Direction(a, b) <= k1 * Direction(a, b)
  {
    hide IsoDate.DayNumber;
    var s := Direction(a, b);
    if s == 1 && k2 > k1 {
      ShiftMonotone(a, k1 + 1, k2);
    } else if s == -1 && k2 < k1 {
      ShiftMonotone(a, k2, k1 - 1);
    }
  }

  lemma FitsWithin(a: Date, b: Date, unit: DateUnit, r: DateDuration)
    requires ValidDate(a) && ValidDate(b) && IsDifference(a, b, unit, r)
    requires unit == Years || unit == Months
    ensures !Beyond(a, b, ShiftMonths(a, 12 * r.years + r.months))
  {
    hide IsoDate.DayNumber, IsoDate.ISODaysInMonth, ShiftMonths;
    var reached := ShiftMonths(a, 12 * r.years + r.months);
    assert DayNumber(b) == DayNumber(reached) + r.days;
  }

  lemma MonthBeyond(a: Date, b: Date, r: Date)
    requires ValidDate(a) && ValidDate(b) && ValidDate(r)
    requires Direction(a, b) != 0 && Sign(MonthIndex(r) - MonthIndex(b)) == Direction(a, b)
    ensures Beyond(a, b, r)
  {
    if MonthIndex(r) > MonthIndex(b) {
      LaterMonthIsLater(b, r);
    } else {
      LaterMonthIsLater(r, b);
    }
  }

  lemma MonthBefore(b: Date, c: Date, s: int)
    requires ValidDate(b) && ValidDate(c) && Abs(s) == 1 && MonthIndex(c) == MonthIndex(b) - s
    ensures Direction(c, b) == s
  {
    if s == 1 {
      LaterMonthIsLater(c, b);
    } else {
      LaterMonthIsLater(b, c);
    }
  }

  /** The whole months from `a` to `b`, from the fields of the two dates alone: the months between their months, less
  one if the day of the month has not been reached. */
  function WholeMonths(a: Date, b: Date): int
    requires 1 <= b.month <= 12
  {
    var between := MonthIndex(b) - MonthIndex(a);
    var s := CompareISODate(b, a);
    if (s == 1 && a.day > b.day && b.day < ISODaysInMonth(b.year, b.month)) || (s == -1 && a.day < b.day)
    then between - s
    else between
  }

  lemma OvershootIsByDay(a: Date, b: Date)
    requires ValidDate(a) && ValidDate(b)
    ensures var k := MonthIndex(b) - MonthIndex(a);
            WholeMonths(a, b) == if Beyond(a, b, ShiftMonths(a, k)) then k - Direction(a, b) else k
  {
    hide IsoDate.DayNumber, IsoDate.CompareISODate;
    CompareIsDayOrder(b, a);
    SameMonth(b, ShiftMonths(a, MonthIndex(b) - MonthIndex(a)));
  }

  /** Every difference in years or months has exactly these months. */
  lemma DifferenceHasWholeMonths(a: Date, b: Date, unit: DateUnit, r: DateDuration)
    requires ValidDate(a) && ValidDate(b) && (unit == Years || unit == Months) && IsDifference(a, b, unit, r)
    ensures 12 * r.years + r.months == WholeMonths(a, b)
  {
    hide IsoDate.DayNumber, IsoDate.ISODaysInMonth, ShiftMonths, Plus, Beyond, WholeMonths;
    var k, w := 12 * r.years + r.months, WholeMonths(a, b);
    if Direction(a, b) == 0 {
      NoMonthsBetween(a, b);
    } else {
      FitsWithin(a, b, unit, r);
      WholeMonthsFit(a, b);
      MonthsAtMost(a, b, k, w);
      MonthsAtMost(a, b, w, k);
    }
  }

  lemma NoMonthsBetween(a: Date, b: Date)
    requires ValidDate(a) && ValidDate(b) && Direction(a, b) == 0
    ensures WholeMonths(a, b) == 0
  {
    CompareIsDayOrder(a, b);
  }

  lemma WholeMonthsFit(a: Date, b: Date)
    requires ValidDate(a) && ValidDate(b) && Direction(a, b) != 0
    ensures !Beyond(a, b, ShiftMonths(a, WholeMonths(a, b)))
            && Beyond(a, b, ShiftMonths(a, WholeMonths(a, b) + Direction(a, b)))
  {
    hide IsoDate.DayNumber, IsoDate.ISODaysInMonth, WholeMonths;
    OvershootIsByDay(a, b);
    var s, k := Direction(a, b), MonthIndex(b) - MonthIndex(a);
    if Beyond(a, b, ShiftMonths(a, k)) {
      MonthBefore(b, ShiftMonths(a, k - s), s);
    } else {
      MonthBeyond(a, b, ShiftMonths(a, k + s));
    }
  }

  lemma TotalMonthsUnique(a: Date, b: Date, unit: DateUnit, r1: DateDuration, r2: DateDuration)
    requires ValidDate(a) && ValidDate(b) && (unit == Years || unit == Months)
    requires IsDifference(a, b, unit, r1) && IsDifference(a, b, unit, r2)
    ensures 12 * r1.years + r1.months == 12 * r2.years + r2.months
  {
    hide IsDifference, WholeMonths;
    DifferenceHasWholeMonths(a, b, unit, r1);
    DifferenceHasWholeMonths(a, b, unit, r2);
  }

  /** Without months, a difference adds up to the days between. */
  lemma DaysAddUp(a: Date, b: Date, unit: DateUnit, r: DateDuration)
    requires ValidDate(a) && ValidDate(b) && (unit == Weeks || unit == Days) && IsDifference(a, b, unit, r)
    ensures 7 * r.weeks + r.days == DayNumber(b) - DayNumber(a)
  {
    hide IsoDate.DayNumber, ISODaysInMonth, OneSign;
    ShiftNothing(a);
  }

  lemma SameMonthsSameDays(a: Date, b: Date, unit: DateUnit, r1: DateDuration, r2: DateDuration)
    requires ValidDate(a) && ValidDate(b) && (unit == Years || unit == Months)
    requires IsDifference(a, b, unit, r1) && IsDifference(a, b, unit, r2)
    ensures 12 * r1.years + r1.months == 12 * r2.years + r2.months && r1.days == r2.days
  {
    hide IsoDate.DayNumber, ISODaysInMonth, OneSign, Beyond, ShiftMonths, Plus;
    TotalMonthsUnique(a, b, unit, r1, r2);
    DaysAfterMonths(a, r1);
    DaysAfterMonths(a, r2);
  }

  lemma DaysAfterMonths(a: Date, r: DateDuration)
    requires ValidDate(a)
    ensures DayNumber(Plus(a, r)) == DayNumber(ShiftMonths(a, 12 * r.years + r.months)) + 7 * r.weeks + r.days
  {
    hide IsoDate.DayNumber, ShiftMonths;
  }

  /** The contract determines the result: two durations that satisfy it are equal. */
  lemma DifferenceUnique(a: Date, b: Date, unit: DateUnit, r1: DateDuration, r2: DateDuration)
    requires ValidDate(a) && ValidDate(b)
    requires IsDifference(a, b, unit, r1) && IsDifference(a, b, unit, r2)
    ensures r1 == r2
  {
    hide IsoDate.DayNumber, Plus, Beyond, ShiftMonths;
    match unit
    case Years =>
      SameMonthsSameDays(a, b, unit, r1, r2);
      SplitUnique(r1.years, r1.months, r2.years, r2.months, 12, Direction(a, b));
    case Months =>
      SameMonthsSameDays(a, b, unit, r1, r2);
    case Weeks =>
      DaysAddUp(a, b, unit, r1);
      DaysAddUp(a, b, unit, r2);
      SplitUnique(r1.weeks, r1.days, r2.weeks, r2.days, 7, Direction(a, b));
    case Days =>
      DaysAddUp(a, b, unit, r1);
      DaysAddUp(a, b, unit, r2);
  }

  // ---------- the difference in years or months ----------

  lemma MonthsFollowDirection(a: Date, b: Date)
    requires ValidDate(a) && ValidDate(b)
    ensures Direction(a, b) == 1 ==> MonthIndex(a) <= MonthIndex(b)
    ensures Direction(a, b) == -1 ==> MonthIndex(b) <= MonthIndex(a)
  {
    if MonthIndex(a) > MonthIndex(b) {
      LaterMonthIsLater(b, a);
    } else if MonthIndex(b) > MonthIndex(a) {
      LaterMonthIsLater(a, b);
    }
  }

  /** The whole years first tried, and whether they overshoot. */
  lemma TriedYears(a: Date, b: Date, m: int, u: int, c: Date)
    requires ValidDate(a) && ValidDate(b) && Direction(a, b) != 0
    requires m == b.year - a.year && u == b.month - a.month && c == ShiftMonths(a, 12 * m)
    ensures var s := Direction(a, b);
            && (Direction(c, b) == s ==> (m == 0 || Sign(m) == s) && (u == 0 || Sign(u) == s))
            && (Direction(c, b) == -s ==> Sign(m) == s && (u == 0 || Sign(u) == -s))
            && (Direction(c, b) == 0 ==> Sign(m) == s && u == 0)
  {
    hide IsoDate.DayNumber;
    MonthsFollowDirection(a, b);
    MonthsFollowDirection(c, b);
    if m == 0 {
      assert c == a;
    }
    if Direction(c, b) == 0 {
      CompareIsDayOrder(c, b);
    }
  }

  lemma Assemble(a: Date, b: Date, unit: DateUnit, y: int, mo: int, days: int)
    requires ValidDate(a) && ValidDate(b) && Direction(a, b) != 0 && (unit == Years || unit == Months)
    requires Abs(mo) <= 11 && OneSign(DateDuration(y, mo, 0, days), Direction(a, b))
    requires days == DayNumber(b) - DayNumber(ShiftMonths(a, 12 * y + mo))
    requires Beyond(a, b, ShiftMonths(a, 12 * (y + Direction(a, b))))
    requires Beyond(a, b, ShiftMonths(a, 12 * y + mo + Direction(a, b)))
    ensures IsDifference(a, b, unit,
                         if unit == Years then DateDuration(y, mo, 0, days) else DateDuration(0, 12 * y + mo, 0, days))
  {
    hide IsoDate.DayNumber, IsoDate.ValidDate, ShiftMonths, Beyond;
    DateOfDayUnique(b);
  }

  lemma DayOrder(a: Date, b: Date)
    requires ValidDate(a) && ValidDate(b)
    ensures -CompareISODate(a, b) == Direction(a, b)
    ensures Direction(a, b) == 0 <==> a == b
  {
    CompareIsDayOrder(a, b);
  }

  lemma ShiftNothing(a: Date)
    requires ValidDate(a)
    ensures ShiftMonths(a, 0) == a
  {
    assert ShiftMonths(a, 0).month == a.month;
  }

  lemma NoDifference(a: Date, unit: DateUnit)
    requires ValidDate(a)
    ensures IsDifference(a, a, unit, DateDuration(0, 0, 0, 0))
  {
    hide IsoDate.DayNumber;
    ShiftNothing(a);
    DateOfDayUnique(a);
  }

  /** `AddISODate` with years and months only. */
  method AddYearsMonths(d: Date, years: int, months: int) returns (c: Date)
    requires ValidDate(d)
    ensures c == ShiftMonths(d, 12 * years + months)
  {
    hide IsoDate.DayNumber;
    c :- assert AddISODate(d, DateDuration(years, months, 0, 0), Constrain);
    DateOfDayUnique(ShiftMonths(d, 12 * years + months));
  }

  /** The days left over once the months have been counted, `c` being the date reached so far. */
  method RemainingDays(s: int, c: Date, b: Date) returns (t: int)
    requires ValidDate(c) && ValidDate(b) && Abs(s) == 1
    requires MonthIndex(c) == MonthIndex(b) || MonthIndex(c) == MonthIndex(b) - s
    ensures t == DayNumber(b) - DayNumber(c)
  {
    if c.month == b.month {
      SameMonth(c, b);
      t := b.day - c.day;
    } else if s < 0 {
      DaysToNextMonth(b, c);
      t := -c.day - (ISODaysInMonth(b.year, b.month) - b.day);
    } else {
      DaysToNextMonth(c, b);
      t := b.day + (ISODaysInMonth(c.year, c.month) - c.day);
    }
  }

  /** The second half: `m` whole years are counted, `u` more months lead to the month of `b`. */
  method DifferenceFromYears(a: Date, b: Date, unit: DateUnit, years: int, months: int) returns (r: DateDuration)
    requires ValidDate(a) && ValidDate(b) && (unit == Years || unit == Months)
    requires Direction(a, b) != 0 && 12 * years + months == MonthIndex(b) - MonthIndex(a)
    requires years == 0 || Sign(years) == Direction(a, b)
    requires months == 0 || Sign(months) == Direction(a, b)
    requires Abs(months) <= 12
    requires months == 0 ==> Direction(ShiftMonths(a, 12 * years + months), b) == Direction(a, b)
    requires Abs(months) == 12 ==> Direction(ShiftMonths(a, 12 * years + months), b) == -Direction(a, b)
    requires Beyond(a, b, ShiftMonths(a, 12 * (years + Direction(a, b))))
    ensures IsDifference(a, b, unit, r)
  {
    hide IsoDate.DayNumber, IsoDate.ValidDate, ShiftMonths, IsDifference, IsoDate.CompareISODate;
    DayOrder(a, b);
    var s := -CompareISODate(a, b);
    var m, u := years, months;
    var c := AddYearsMonths(a, m, u);
    DayOrder(c, b);
    var h := -CompareISODate(c, b);
    if h == 0 {
      MonthBeyond(a, b, ShiftMonths(a, 12 * m + u + s));
      Assemble(a, b, unit, m, u, 0);
      return if unit == Years then DateDuration(m, u, 0, 0) else DateDuration(0, u + 12 * m, 0, 0);
    }
    if h != s {
      u := u - s;
      if u == -s {
        m := m - s;
        u := 11 * s;
      }
      c := AddYearsMonths(a, m, u);
      MonthBefore(b, c, s);
    } else {
      MonthBeyond(a, b, ShiftMonths(a, 12 * m + u + s));
    }
    var t := RemainingDays(s, c, b);
    Assemble(a, b, unit, m, u, t);
    if unit == Months {
      u := u + 12 * m;
      m := 0;
    }
    r := DateDuration(m, u, 0, t);
  }

  /** `DifferenceISODate` for the units year and month. */
  method DifferenceInMonths(a: Date, b: Date, unit: DateUnit) returns (r: DateDuration)
    requires ValidDate(a) && ValidDate(b) && (unit == Years || unit == Months)
    ensures IsDifference(a, b, unit, r)
  {
    hide IsoDate.DayNumber, IsoDate.ISODaysInMonth, ShiftMonths, IsDifference, IsoDate.CompareISODate;
    DayOrder(a, b);
    var s := -CompareISODate(a, b);
    if s == 0 {
      NoDifference(a, unit);
      return DateDuration(0, 0, 0, 0);
    }
    var m := b.year - a.year;
    var u := b.month - a.month;
    var c := AddYearsMonths(a, m, 0);
    DayOrder(c, b);
    var h := -CompareISODate(c, b);
    TriedYears(a, b, m, u, c);
    if h == 0 {
      MonthBeyond(a, b, ShiftMonths(a, 12 * (m + s)));
      MonthBeyond(a, b, ShiftMonths(a, 12 * m + s));
      Assemble(a, b, unit, m, 0, 0);
      return if unit == Years then DateDuration(m, 0, 0, 0) else DateDuration(0, 12 * m, 0, 0);
    }
    if h != s {
      m := m - s;
      u := u + 12 * s;
    } else {
      MonthBeyond(a, b, ShiftMonths(a, 12 * (m + s)));
    }
    r := DifferenceFromYears(a, b, unit, m, u);
  }

  // ---------- the difference in weeks or days ----------

  lemma AssembleDays(a: Date, b: Date, unit: DateUnit, weeks: int, days: int)
    requires ValidDate(a) && ValidDate(b) && (unit == Weeks || unit == Days)
    requires 7 * weeks + days == DayNumber(b) - DayNumber(a)
             && OneSign(DateDuration(0, 0, weeks, days), Direction(a, b))
    requires if unit == Weeks then Abs(days) <= 6 else weeks == 0
    ensures IsDifference(a, b, unit, DateDuration(0, 0, weeks, days))
  {
    hide IsoDate.DayNumber, ShiftMonths;
    ShiftNothing(a);
    DateOfDayUnique(b);
  }

  /** `DifferenceISODate` for the units week and day. */
  method DifferenceInDays(a: Date, b: Date, unit: DateUnit) returns (r: DateDuration)
    requires ValidDate(a) && ValidDate(b) && (unit == Weeks || unit == Days)
    ensures IsDifference(a, b, unit, r)
  {
    hide IsoDate.LeapYear, IsoDate.DaysBeforeMonth;
    DayOrder(a, b);
    var smaller, larger, sign := b, a, -1;
    if CompareISODate(a, b) < 0 {
      smaller, larger, sign := a, b, 1;
    }
    var days := DayOfYear(larger.year, larger.month, larger.day);
    var passed := DayOfYear(smaller.year, smaller.month, smaller.day);
    days := days - passed;
    var year := smaller.year;
    while year < larger.year
      invariant smaller.year <= larger.year ==> year <= larger.year
      invariant days == DayNumber(larger) - DaysBeforeYear(larger.year) - DayNumber(smaller) + DaysBeforeYear(year)
    {
      days := days + DaysInYear(year);
      year := year + 1;
    }
    assert days == DayNumber(larger) - DayNumber(smaller);
    var weeks := 0;
    if unit == Weeks {
      weeks := days / 7;
      days := TruncMod(days, 7);
    }
    weeks := weeks * sign;
    days := days * sign;
    AssembleDays(a, b, unit, weeks, days);
    r := DateDuration(0, 0, weeks, days);
  }

  /** `DifferenceISODate`. */
  method DifferenceISODate(a: Date, b: Date, unit: DateUnit) returns (r: DateDuration)
    requires ValidDate(a) && ValidDate(b)
    ensures IsDifference(a, b, unit, r)
  {
    match unit
    case Years | Months => r := DifferenceInMonths(a, b, unit);
    case Weeks | Days => r := DifferenceInDays(a, b, unit);
  }
}
