/** Days of the week, ISO week numbers, and the week numbers of strftime. */
module Weeks {
  import opened JsNumbers
  import opened IsoDate

  // ---------- days of the week ----------

  /** Monday is 1 and Sunday 7; the days of the week repeat, and day 719529 (1 January 1970) was a Thursday. */
  function Weekday(n: int): (w: int)
    ensures 1 <= w <= 7
  {
    (n + 4) % 7 + 1
  }

  lemma WeekdaysRepeat(n: int)
    ensures Weekday(719529) == 4 && Weekday(n + 1) == if Weekday(n) == 7 then 1 else Weekday(n) + 1
  {
  }

  /** The sum that `DayOfWeek` reduces: years start in March, and `floor(2.6 o - 0.2)` is `(13 o - 1) / 5`. */
  function WeekSum(e: int, t: int, r: int): int {
    var o := t + if t < 3 then 10 else -2;
    var n := e - if t < 3 then 1 else 0;
    var a := n / 100;
    var i := n - 100 * a;
    r + (13 * o - 1) / 5 + (i + i / 4) + (a / 4 - 2 * a)
  }

  /** `DayOfWeek`. */
  function DayOfWeek(e: int, t: int, r: int): int {
    var s := TruncMod(WeekSum(e, t, r), 7);
    s + if s <= 0 then 7 else 0
  }

  /** Days before 1 March of year `n`, and so before any later month of that March year. */
  function BeforeMarchYear(n: int): int {
    365 * n + n / 4 - n / 100 + n / 400 + 60
  }

  lemma MarchYear(e: int)
    ensures BeforeMarchYear(e) == DaysBeforeYear(e) + DaysInYear(e) - 306
    ensures BeforeMarchYear(e - 1) + 306 == DaysBeforeYear(e)
  {
    LeapYearCounts(e);
    DaysBeforeYearClosed(e);
    hide IsoDate.LeapYear, IsoDate.DaysBeforeYear;
    LeapYearsBeforeMarch(e, 4);
    LeapYearsBeforeMarch(e, 100);
    LeapYearsBeforeMarch(e, 400);
  }

  lemma LeapYearsBeforeMarch(e: int, b: int)
    requires b > 1
    ensures (e + b - 1) / b + (if e % b == 0 then 1 else 0) == e / b + 1
    ensures (e - 1) / b + 1 == (e + b - 1) / b
  {
    CeilStep(e, b);
    DivModShift(e, b, 1);
    DivModShift(e - 1, b, 1);
  }

  lemma Centuries(n: int)
    ensures var a, i := n / 100, n % 100;
            n == 100 * a + i && n / 4 == 25 * a + i / 4 && n / 400 == a / 4
  {
    var a, i := n / 100, n % 100;
    DivModShift(i, 4, 25 * a);
    assert n == 400 * (a / 4) + (100 * (a % 4) + i);
    DivModUnique(n, 400, a / 4, 100 * (a % 4) + i);
  }

  /** Where month `t` starts after 1 March, or after 1 January moved to the end of the year. */
  function MarchOffset(e: int, t: int): int
    requires 1 <= t <= 12
  {
    DaysBeforeMonth(e, t) + if t < 3 then 306 else -59 - if LeapYear(e) then 1 else 0
  }

  /** The slope 2.6 of the formula follows the month starts, modulo the week. */
  lemma MarchMonths(e: int, t: int)
    requires 1 <= t <= 12
    ensures (MarchOffset(e, t) - (13 * (t + if t < 3 then 10 else -2) - 1) / 5 + 2) % 7 == 0
  {
    MonthStarts(e);
  }

  lemma SumFollowsDays(d: Date) returns (k: int)
    requires ValidDate(d)
    ensures DayNumber(d) == WeekSum(d.year, d.month, d.day) + 2 + 7 * k
  {
    hide IsoDate.LeapYear, IsoDate.DaysBeforeYear, IsoDate.DaysBeforeMonth;
    var n := d.year - if d.month < 3 then 1 else 0;
    var slope := (13 * (d.month + if d.month < 3 then 10 else -2) - 1) / 5;
    MarchYear(d.year);
    MarchMonths(d.year, d.month);
    Centuries(n);
    assert DayNumber(d) == BeforeMarchYear(n) + MarchOffset(d.year, d.month) + d.day;
    k := 5218 * (n / 100) + 52 * (n % 100) + 8 + (MarchOffset(d.year, d.month) - slope + 2) / 7;
  }

  lemma FromOneToSeven(s: int)
    ensures var m := TruncMod(s, 7); m + (if m <= 0 then 7 else 0) == (s + 6) % 7 + 1
  {
    RemainderFromTruncated(s, 7);
    hide TruncMod;
    var m, q := s % 7, s / 7;
    if m == 0 {
      DivModUnique(s + 6, 7, q, 6);
    } else {
      DivModUnique(s + 6, 7, q + 1, m - 1);
    }
  }

  /** The congruence computes the day of the week of every valid date, in negative years too. */
  lemma DayOfWeekIsWeekday(d: Date)
    requires ValidDate(d)
    ensures DayOfWeek(d.year, d.month, d.day) == Weekday(DayNumber(d))
  {
    hide IsoDate.DayNumber, WeekSum, TruncMod;
    var k := SumFollowsDays(d);
    var s := WeekSum(d.year, d.month, d.day);
    FromOneToSeven(s);
    DivModShift(s + 6, 7, k);
  }

  // ---------- ISO weeks ----------

  /** The Thursday of the week, from Monday to Sunday, that day `n` lies in. */
  function ThursdayOf(n: int): int {
    n - Weekday(n) + 4
  }

  lemma NewYear(y: int)
    ensures DayNumber(Date(y, 1, 1)) == DaysBeforeYear(y) + 1
  {
  }

  /** `WeekOfYear`: the year that contains the Thursday of the date's week, and that Thursday's week in it. */
  method WeekOfYear(d: Date) returns (week: int, year: int)
    requires ValidDate(d)
    ensures DaysBeforeYear(year) < ThursdayOf(DayNumber(d)) <= DaysBeforeYear(year + 1)
    ensures week == (ThursdayOf(DayNumber(d)) - DaysBeforeYear(year) - 1) / 7 + 1
  {
    hide IsoDate.LeapYear, DayOfWeek, IsoDate.DayNumber;
    var o := DayOfYear(d.year, d.month, d.day);
    var n := DayOfWeek(d.year, d.month, d.day);
    var a := DayOfWeek(d.year, 1, 1);
    DayOfWeekIsWeekday(d);
    DayOfWeekIsWeekday(Date(d.year, 1, 1));
    DayWithinYear(d);
    NewYear(d.year);
    var i := (o - n + 10) / 7;
    if i < 1 {
      return if a == 5 || (a == 6 && LeapYear(d.year - 1)) then 53 else 52, d.year - 1;
    } else if i == 53 && DaysInYear(d.year) - o < 4 - n {
      return 1, d.year + 1;
    } else {
      return i, d.year;
    }
  }

  // ---------- the week numbers %U and %W of strftime ----------

  datatype FirstWeekday = Sunday | Monday

  function Numbered(w: FirstWeekday): int {
    if w == Sunday then 7 else 1
  }

  /** How many of the `count` days up to and including day `last` are the weekday `w`. */
  ghost function CountOf(w: FirstWeekday, last: int, count: int): nat
    decreases count
  {
    if count <= 0 then 0
    else CountOf(w, last - 1, count - 1) + if Weekday(last) == Numbered(w) then 1 else 0
  }

  /** Days since the last `w`. */
  function Since(w: FirstWeekday, n: int): int {
    (Weekday(n) - Numbered(w)) % 7
  }

  lemma SinceNext(w: FirstWeekday, n: int)
    ensures Since(w, n) == (if Since(w, n - 1) == 6 then 0 else Since(w, n - 1) + 1) && 0 <= Since(w, n) <= 6
    ensures Weekday(n) == Numbered(w) <==> Since(w, n) == 0
  {
    WeekdaysRepeat(n - 1);
    hide Weekday;
  }

  lemma {:induction false} CountFormula(w: FirstWeekday, last: int, count: nat)
    ensures CountOf(w, last, count) == (count + 6 - Since(w, last)) / 7
    decreases count
  {
    SinceNext(w, last);
    SinceNext(w, last - 1);
    hide Since, Weekday;
    if count == 0 {
    } else {
      CountFormula(w, last - 1, count - 1);
      assert (count - 1) / 7 + 1 == (count + 6) / 7;
    }
  }

  /** `Date.UTC`: the years 0 to 99 stand for 1900 to 1999. */
  function DateUtcDay(y: int, m: int, d: int): int
    requires 1 <= m <= 12
  {
    DayNumber(Date(if 0 <= y <= 99 then 1900 + y else y, m, d))
  }

  lemma TwoDigitMonths(y: int, m: int)
    requires 1 <= m <= 12 && 0 <= y <= 99
    ensures DaysBeforeMonth(1900 + y, m) == DaysBeforeMonth(y, m) - if y == 0 && m >= 3 then 1 else 0
  {
    if y == 0 {
      MonthStarts(y);
      MonthStarts(1900);
    } else {
      SameLeapSameMonths(y, 1900 + y, m);
    }
  }

  lemma TwoDigitYears(y: int, m: int, d: int)
    requires 1 <= m <= 12
    ensures DateUtcDay(y, m, d) - DateUtcDay(y, 1, 1)
            == DayNumber(Date(y, m, d)) - DaysBeforeYear(y) - 1 - if y == 0 && m >= 3 then 1 else 0
  {
    hide IsoDate.DaysBeforeYear, IsoDate.LeapYear;
    if 0 <= y <= 99 {
      TwoDigitMonths(y, m);
    }
  }

  /** Year 0 is taken for 1900, which has no 29 February; its first day being a Saturday, no week is lost. */
  lemma YearZero(w: FirstWeekday, n: int)
    ensures (n + 6 - Since(w, n)) / 7 == (n + 5 - Since(w, n)) / 7
  {
  }

  /** `weekNumber` counts the Sundays, or the Mondays, from 1 January up to the date. */
  method WeekNumber(date: Date, firstWeekday: FirstWeekday) returns (weekNum: int)
    requires ValidDate(date)
    ensures weekNum == CountOf(firstWeekday, DayNumber(date), DayNumber(date) - DaysBeforeYear(date.year))
  {
    hide IsoDate.DayNumber, DateUtcDay, CountOf, IsoDate.ISODaysInMonth;
    ghost var n := DayNumber(date);
    var weekday := Weekday(DayNumber(date)) % 7;
    if firstWeekday == Monday {
      if weekday == 0 {
        weekday := 6;
      } else {
        weekday := weekday - 1;
      }
    }
    assert weekday == Since(firstWeekday, n);
    var firstDayOfYearUtc := DateUtcDay(date.year, 1, 1);
    var dateUtc := DateUtcDay(date.year, date.month, date.day);
    var yday := dateUtc - firstDayOfYearUtc;
    weekNum := (yday + 7 - weekday) / 7;
    TwoDigitYears(date.year, date.month, date.day);
    DayWithinYear(date);
    CountFormula(firstWeekday, n, n - DaysBeforeYear(date.year));
    if date.year == 0 {
      YearZero(firstWeekday, n);
    }
  }
}
