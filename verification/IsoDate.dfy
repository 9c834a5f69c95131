/** The ISO calendar: day numbers of the proleptic Gregorian calendar and date balancing. */
module IsoDate {
  import opened JsNumbers

  datatype Date = Date(year: int, month: int, day: int)
  datatype YearMonth = YearMonth(year: int, month: int)

  predicate LeapYear(y: int) {
    y % 4 == 0 && (y % 100 != 0 || y % 400 == 0)
  }

  function DaysInYear(y: int): (r: int)
    ensures 365 <= r <= 366
  {
    if LeapYear(y) then 366 else 365
  }

  function ISODaysInMonth(y: int, m: int): (r: int)
    requires 1 <= m <= 12
    ensures 28 <= r <= 31
  {
    if m == 2 then (if LeapYear(y) then 29 else 28)
    else if m == 4 || m == 6 || m == 9 || m == 11 then 30
    else 31
  }

  predicate ValidDate(d: Date) {
    1 <= d.month <= 12 && 1 <= d.day <= ISODaysInMonth(d.year, d.month)
  }

  /** Days from the start of year 0 to the start of year `y` (negative before it), year by year. */
  function DaysBeforeYear(y: int): int
    decreases Abs(y)
  {
    if y == 0 then 0
    else if y > 0 then DaysBeforeYear(y - 1) + DaysInYear(y - 1)
    else DaysBeforeYear(y + 1) - DaysInYear(y)
  }

  function DaysBeforeMonth(y: int, m: int): int
    requires 1 <= m <= 12
  {
    if m == 1 then 0 else DaysBeforeMonth(y, m - 1) + ISODaysInMonth(y, m - 1)
  }

  /** The day number of a date; the day may lie outside its month. */
  function DayNumber(d: Date): int
    requires 1 <= d.month <= 12
  {
    DaysBeforeYear(d.year) + DaysBeforeMonth(d.year, d.month) + d.day
  }

  /** `CompareISODate`: lexicographic on year, month, day. */
  function CompareISODate(a: Date, b: Date): int {
    if a.year != b.year then Sign(a.year - b.year)
    else if a.month != b.month then Sign(a.month - b.month)
    else Sign(a.day - b.day)
  }

  // ---------- what a day number is ----------

  lemma YearStep(y: int)
    ensures DaysBeforeYear(y + 1) == DaysBeforeYear(y) + DaysInYear(y)
  {
  }

  function MonthStart(m: int): int
    requires 1 <= m <= 12
  {
    [0, 31, 59, 90, 120, 151, 181, 212, 243, 273, 304, 334][m - 1]
  }

  /** The month table: where each month starts within its year. */
  lemma MonthStarts(y: int)
    ensures forall m :: 1 <= m <= 12 ==> DaysBeforeMonth(y, m) == MonthStart(m) + if m > 2 && LeapYear(y) then 1 else 0
    ensures DaysBeforeMonth(y, 12) + 31 == DaysInYear(y)
  {
    assert DaysBeforeMonth(y, 2) == 31;
    assert DaysBeforeMonth(y, 4) == DaysBeforeMonth(y, 2) + ISODaysInMonth(y, 2) + 31;
    assert DaysBeforeMonth(y, 6) == DaysBeforeMonth(y, 4) + 61;
    assert DaysBeforeMonth(y, 8) == DaysBeforeMonth(y, 6) + 61;
    assert DaysBeforeMonth(y, 10) == DaysBeforeMonth(y, 8) + 61;
    assert DaysBeforeMonth(y, 12) == DaysBeforeMonth(y, 10) + 61;
  }

  lemma MonthStep(y: int, m: int)
    requires 1 <= m <= 12
    ensures DaysBeforeMonth(y, m) + ISODaysInMonth(y, m) == if m < 12 then DaysBeforeMonth(y, m + 1) else DaysInYear(y)
  {
    if m == 12 {
      MonthStarts(y);
    }
  }

  lemma {:induction false} MonthsMonotone(y: int, m: int, n: int)
    requires 1 <= m < n <= 12
    ensures DaysBeforeMonth(y, m) + ISODaysInMonth(y, m) <= DaysBeforeMonth(y, n)
  {
    if m + 1 == n {
    } else {
      MonthsMonotone(y, m, n - 1);
    }
  }

  /** The day after a valid date, by the rules of the calendar alone. */
  function NextDate(d: Date): (r: Date)
    requires ValidDate(d)
    ensures ValidDate(r)
  {
    if d.day < ISODaysInMonth(d.year, d.month) then Date(d.year, d.month, d.day + 1)
    else if d.month < 12 then Date(d.year, d.month + 1, 1)
    else Date(d.year + 1, 1, 1)
  }

  function PreviousDate(d: Date): (r: Date)
    requires ValidDate(d)
    ensures ValidDate(r) && NextDate(r) == d
  {
    if d.day > 1 then Date(d.year, d.month, d.day - 1)
    else if d.month > 1 then Date(d.year, d.month - 1, ISODaysInMonth(d.year, d.month - 1))
    else Date(d.year - 1, 12, 31)
  }

  /** The closed form counts days: one step of the calendar is one more day. */
  lemma DayNumberCountsDays(d: Date)
    requires ValidDate(d)
    ensures DayNumber(NextDate(d)) == DayNumber(d) + 1
  {
    MonthStep(d.year, d.month);
    YearStep(d.year);
  }

  lemma {:induction false} YearsMonotone(a: int, b: int)
    requires a <= b
    ensures DaysBeforeYear(b) >= DaysBeforeYear(a) + 365 * (b - a)
    decreases b - a
  {
    if a == b {
    } else {
      YearStep(a);
      YearsMonotone(a + 1, b);
    }
  }

  lemma DayWithinYear(d: Date)
    requires ValidDate(d)
    ensures DaysBeforeYear(d.year) < DayNumber(d) <= DaysBeforeYear(d.year + 1)
  {
    YearStep(d.year);
    MonthStep(d.year, 12);
    if d.month > 1 {
      MonthsMonotone(d.year, 1, d.month);
    }
    if d.month < 12 {
      MonthsMonotone(d.year, d.month, 12);
    }
  }

  /** Comparing valid dates field by field is comparing day numbers; in particular a day number
  belongs to one valid date only. */
  lemma CompareIsDayOrder(a: Date, b: Date)
    requires ValidDate(a) && ValidDate(b)
    ensures CompareISODate(a, b) == Sign(DayNumber(a) - DayNumber(b))
    ensures CompareISODate(a, b) == 0 <==> a == b
  {
    DayWithinYear(a);
    DayWithinYear(b);
    if a.year < b.year {
      YearsMonotone(a.year + 1, b.year);
    } else if b.year < a.year {
      YearsMonotone(b.year + 1, a.year);
    } else if a.month < b.month {
      MonthsMonotone(a.year, a.month, b.month);
    } else if b.month < a.month {
      MonthsMonotone(a.year, b.month, a.month);
    }
  }

  lemma {:induction false} DateExists(n: int)
    ensures exists d :: ValidDate(d) && DayNumber(d) == n
    decreases Abs(n)
  {
    if n == 0 {
      var d := PreviousDate(Date(0, 1, 1));
      DayNumberCountsDays(d);
      assert ValidDate(d) && DayNumber(d) == 0;
    } else if n > 0 {
      DateExists(n - 1);
      var d :| ValidDate(d) && DayNumber(d) == n - 1;
      DayNumberCountsDays(d);
      assert ValidDate(NextDate(d)) && DayNumber(NextDate(d)) == n;
    } else {
      DateExists(n + 1);
      var d :| ValidDate(d) && DayNumber(d) == n + 1;
      DayNumberCountsDays(PreviousDate(d));
      assert ValidDate(PreviousDate(d)) && DayNumber(PreviousDate(d)) == n;
    }
  }

  /** The valid date with a given day number. */
  ghost function DateOfDay(n: int): (d: Date)
    ensures ValidDate(d) && DayNumber(d) == n
  {
    DateExists(n);
    var d :| ValidDate(d) && DayNumber(d) == n;
    d
  }

  lemma DateOfDayUnique(d: Date)
    requires ValidDate(d)
    ensures DateOfDay(DayNumber(d)) == d
  {
    CompareIsDayOrder(d, DateOfDay(DayNumber(d)));
  }

  /** `DayOfYear`: walks the months back to January. */
  method DayOfYear(y: int, m: int, d: int) returns (o: int)
    requires 1 <= m <= 12
    ensures o == DayNumber(Date(y, m, d)) - DaysBeforeYear(y)
  {
    o := d;
    var k := m - 1;
    while k > 0
      invariant 0 <= k < 12
      invariant o == d + DaysBeforeMonth(y, m) - DaysBeforeMonth(y, k + 1)
    {
      MonthStep(y, k);
      o := o + ISODaysInMonth(y, k);
      k := k - 1;
    }
  }

  // ---------- balancing ----------

  /** The only year and month that count `n` months from the start of year 0. */
  ghost function MonthOf(n: int): (r: YearMonth)
    ensures 1 <= r.month <= 12 && 12 * r.year + r.month == n
  {
    var y := (n - 1) / 12;
    assert 1 <= n - 12 * y <= 12;
    assert 12 * YearMonth(y, n - 12 * y).year + YearMonth(y, n - 12 * y).month == n;
    var r: YearMonth :| 1 <= r.month <= 12 && 12 * r.year + r.month == n;
    r
  }

  lemma MonthOfUnique(r: YearMonth)
    requires 1 <= r.month <= 12
    ensures MonthOf(12 * r.year + r.month) == r
  {
  }

  /** `BalanceISOYearMonth`: the month is carried into the year; the count of months is kept. */
  method BalanceISOYearMonth(y: int, m: int) returns (r: YearMonth)
    ensures r == MonthOf(12 * y + m)
  {
    var year, o := y, m;
    o := o - 1;
    RemainderFromTruncated(o, 12);
    hide TruncMod;
    year := year + o / 12;
    o := TruncMod(o, 12);
    if o < 0 {
      o := o + 12;
    }
    o := o + 1;
    r := YearMonth(year, o);
    MonthOfUnique(r);
  }

  /** Where day `d` of month `m` of year `y` falls, for arbitrary integers. */
  ghost function DayNumberOf(y: int, m: int, d: int): int {
    var ym := MonthOf(12 * y + m);
    DayNumber(Date(ym.year, ym.month, d))
  }

  /** One year later, in the same month: the days in between are those of the year whose
  February lies between the two dates. */
  lemma YearShift(y: int, m: int)
    requires 1 <= m <= 12
    ensures DayNumber(Date(y + 1, m, 0)) == DayNumber(Date(y, m, 0)) + DaysInYear(if m > 2 then y + 1 else y)
  {
    YearStep(y);
    MonthStarts(y);
    MonthStarts(y + 1);
  }

  function ClosedDaysBeforeYear(y: int): int {
    365 * y + (y + 3) / 4 - (y + 99) / 100 + (y + 399) / 400
  }

  /** A leap year counts once: the multiples of 400 are multiples of 100, and those of 4. */
  lemma LeapYearCounts(y: int)
    ensures DaysInYear(y)
            == 365 + (if y % 4 == 0 then 1 else 0) - (if y % 100 == 0 then 1 else 0) + (if y % 400 == 0 then 1 else 0)
  {
  }

  lemma ClosedYearStep(y: int)
    ensures ClosedDaysBeforeYear(y + 1) == ClosedDaysBeforeYear(y) + DaysInYear(y)
  {
    LeapYearCounts(y);
    hide LeapYear, DaysInYear;
    CeilStep(y, 4);
    CeilStep(y, 100);
    CeilStep(y, 400);
  }

  /** The count of leap years in closed form. */
  lemma {:induction false} DaysBeforeYearClosed(y: int)
    ensures DaysBeforeYear(y) == ClosedDaysBeforeYear(y)
    decreases Abs(y)
  {
    hide LeapYear, DaysInYear;
    if y == 0 {
    } else if y > 0 {
      hide ClosedDaysBeforeYear;
      DaysBeforeYearClosed(y - 1);
      ClosedYearStep(y - 1);
    } else {
      hide ClosedDaysBeforeYear;
      DaysBeforeYearClosed(y + 1);
      ClosedYearStep(y);
    }
  }

  lemma ClosedFourCenturies(y: int, k: int)
    ensures ClosedDaysBeforeYear(y + 400 * k) == ClosedDaysBeforeYear(y) + 146097 * k
  {
    DivModShift(y + 3, 4, 100 * k);
    DivModShift(y + 99, 100, 4 * k);
    DivModShift(y + 399, 400, k);
  }

  lemma LeapYearPeriod(y: int, k: int)
    ensures LeapYear(y + 400 * k) == LeapYear(y)
  {
    DivModShift(y, 4, 100 * k);
    DivModShift(y, 100, 4 * k);
    DivModShift(y, 400, k);
  }

  lemma YearsPeriod(y: int, k: int)
    ensures DaysBeforeYear(y + 400 * k) == DaysBeforeYear(y) + 146097 * k
  {
    DaysBeforeYearClosed(y);
    DaysBeforeYearClosed(y + 400 * k);
    ClosedFourCenturies(y, k);
  }

  lemma {:induction false} SameLeapSameMonths(y: int, z: int, m: int)
    requires 1 <= m <= 12 && LeapYear(y) == LeapYear(z)
    ensures DaysBeforeMonth(y, m) == DaysBeforeMonth(z, m)
  {
    if m == 1 {
    } else {
      SameLeapSameMonths(y, z, m - 1);
    }
  }

  /** The Gregorian cycle: the same date 400 years later is 146097 days later. */
  lemma FourCenturies(y: int, k: int, m: int)
    requires 1 <= m <= 12
    ensures DayNumber(Date(y + 400 * k, m, 0)) == DayNumber(Date(y, m, 0)) + 146097 * k
  {
    YearsPeriod(y, k);
    LeapYearPeriod(y, k);
    SameLeapSameMonths(y, y + 400 * k, m);
  }

  lemma MonthShift(y: int, m: int)
    requires 1 <= m <= 12
    ensures DayNumberOf(y, m + 1, 0) == DayNumber(Date(y, m, ISODaysInMonth(y, m)))
  {
    MonthOfUnique(if m < 12 then YearMonth(y, m + 1) else YearMonth(y + 1, 1));
    MonthStep(y, m);
    YearStep(y);
  }

  // Each step of `BalanceISODate` names the same day in another way.

  lemma CenturiesMoved(o: int, n: int, a: int, e: int)
    requires 1 <= n <= 12
    ensures DayNumber(Date(o + 400 * e, n, a - 146097 * e)) == DayNumber(Date(o, n, a))
  {
    FourCenturies(o, e, n);
    hide DaysBeforeYear, DaysBeforeMonth;
  }

  lemma YearMovedBack(o: int, n: int, a: int)
    requires 1 <= n <= 12
    ensures DayNumber(Date(o - 1, n, a + DaysInYear(if n > 2 then o else o - 1))) == DayNumber(Date(o, n, a))
  {
    YearShift(o - 1, n);
    hide DaysBeforeYear, DaysBeforeMonth, DaysInYear;
  }

  lemma YearMovedOn(o: int, n: int, a: int)
    requires 1 <= n <= 12
    ensures DayNumber(Date(o + 1, n, a - DaysInYear(if n > 2 then o + 1 else o))) == DayNumber(Date(o, n, a))
  {
    YearShift(o, n);
    hide DaysBeforeYear, DaysBeforeMonth, DaysInYear;
  }

  lemma MonthMovedOn(o: int, n: int, a: int)
    requires 1 <= n <= 12
    ensures var next := MonthOf(12 * o + (n + 1));
            DayNumber(Date(next.year, next.month, a - ISODaysInMonth(o, n))) == DayNumber(Date(o, n, a))
  {
    MonthShift(o, n);
    hide DaysBeforeYear, DaysBeforeMonth, ISODaysInMonth;
  }

  lemma MonthMovedBack(o: int, n: int, a: int)
    requires 1 <= n <= 12
    ensures var last := MonthOf(12 * o + (n - 1));
            DayNumber(Date(last.year, last.month, a + ISODaysInMonth(last.year, last.month)))
                == DayNumber(Date(o, n, a))
  {
    var last := MonthOf(12 * o + (n - 1));
    MonthOfUnique(YearMonth(o, n));
    MonthMovedOn(last.year, last.month, a + ISODaysInMonth(last.year, last.month));
    hide DayNumber, ISODaysInMonth;
  }

  /** `BalanceISODate`: for every integer year, month and day, the valid date with that day number. */
  method BalanceISODate(year: int, month: int, day: int) returns (r: Date)
    ensures ValidDate(r) && DayNumber(r) == DayNumberOf(year, month, day)
    ensures r == DateOfDay(DayNumberOf(year, month, day))
  {
    hide LeapYear, DayNumber, DaysInYear, DaysBeforeYear, DaysBeforeMonth, ISODaysInMonth;
    var ym := BalanceISOYearMonth(year, month);
    var o, n, a := ym.year, ym.month, day;
    ghost var target := DayNumberOf(year, month, day);
    var i := 146097;
    if Abs(a) > i {
      var e := TruncDiv(a, i);
      CenturiesMoved(o, n, a, e);
      o := o + 400 * e;
      a := a - e * i;
    }
    var l := if n > 2 then o else o - 1;
    var s := DaysInYear(l);
    while a < -s
      invariant DayNumber(Date(o, n, a)) == target
      invariant l == (if n > 2 then o else o - 1) && s == DaysInYear(l)
      decreases -a
    {
      YearMovedBack(o, n, a);
      o := o - 1;
      l := l - 1;
      a := a + s;
      s := DaysInYear(l);
    }
    l := l + 1;
    s := DaysInYear(l);
    while a > s
      invariant DayNumber(Date(o, n, a)) == target
      invariant l == (if n > 2 then o + 1 else o) && s == DaysInYear(l)
      decreases a
    {
      YearMovedOn(o, n, a);
      o := o + 1;
      l := l + 1;
      a := a - s;
      s := DaysInYear(l);
    }
    while a < 1
      invariant 1 <= n <= 12 && DayNumber(Date(o, n, a)) == target
      decreases -a
    {
      MonthMovedBack(o, n, a);
      ym := BalanceISOYearMonth(o, n - 1);
      o, n := ym.year, ym.month;
      a := a + ISODaysInMonth(o, n);
    }
    while a > ISODaysInMonth(o, n)
      invariant 1 <= n <= 12 && a >= 1 && DayNumber(Date(o, n, a)) == target
      decreases a
    {
      MonthMovedOn(o, n, a);
      a := a - ISODaysInMonth(o, n);
      ym := BalanceISOYearMonth(o, n + 1);
      o, n := ym.year, ym.month;
    }
    r := Date(o, n, a);
    DateOfDayUnique(r);
  }
}
