/** Conversion between ISO days and the dates of another calendar. The other calendar is known only through an
oracle that tells the date of a day; the way back is a search, and both ways fill a cache.
ISO dates are represented by their day numbers. */
module CalendarSearch {
  import opened Overflows
  import opened Results

  datatype CalDate = CalDate(year: int, month: int, day: int)

  /** The oracle, the lengths that the conversion knows of, and its first estimate. `length` is the true length of
  each month, which only the oracle knows. */
  datatype Calendar = Calendar(
    date: int -> CalDate,
    monthsInYear: int -> int,
    minLength: (int, int) -> int,
    maxLength: (int, int) -> int,
    length: (int, int) -> int,
    estimate: CalDate -> int)

  predicate IsMonth(c: Calendar, y: int, m: int) {
    1 <= m <= c.monthsInYear(y)
  }

  predicate IsDate(c: Calendar, d: CalDate) {
    IsMonth(c, d.year, d.month) && 1 <= d.day <= c.length(d.year, d.month)
  }

  /** The next day, or the first day of the next month. */
  function Succ(c: Calendar, d: CalDate): CalDate {
    if d.day < c.length(d.year, d.month) then CalDate(d.year, d.month, d.day + 1)
    else if d.month < c.monthsInYear(d.year) then CalDate(d.year, d.month + 1, 1)
    else CalDate(d.year + 1, 1, 1)
  }

  /** Every year has months, every month has days, and consecutive ISO days have consecutive dates. */
  ghost predicate Regular(c: Calendar) {
    && (forall y :: c.monthsInYear(y) >= 1)
    && (forall y, m :: IsMonth(c, y, m) ==> 1 <= c.minLength(y, m) <= c.length(y, m) <= c.maxLength(y, m))
    && (forall k :: IsDate(c, c.date(k)))
    && (forall k :: Succ(c, c.date(k)) == c.date(k + 1))
  }

  // ---------- the dates of the days ----------

  lemma NextDay(c: Calendar, k: int)
    requires Regular(c)
    ensures c.date(k + 1) == Succ(c, c.date(k)) && IsDate(c, c.date(k)) && IsDate(c, c.date(k + 1))
  {
    assert Succ(c, c.date(k)) == c.date(k + 1);
  }

  /** Days of one month follow each other, in both directions. */
  lemma {:induction false} WithinMonth(c: Calendar, k: int, n: int)
    requires Regular(c)
    requires var d := c.date(k); 1 <= d.day + n <= c.length(d.year, d.month)
    ensures c.date(k + n) == CalDate(c.date(k).year, c.date(k).month, c.date(k).day + n)
    decreases if n < 0 then -n else n
  {
    hide Regular;
    if n == 0 {
    } else if n > 0 {
      NextDay(c, k);
      WithinMonth(c, k + 1, n - 1);
    } else {
      NextDay(c, k - 1);
      WithinMonth(c, k - 1, n + 1);
    }
  }

  /** -1, 0 or 1, by year, then month, then day. */
  function CompareCalendarDates(a: CalDate, b: CalDate): int {
    if a.year != b.year then (if a.year > b.year then 1 else -1)
    else if a.month != b.month then (if a.month > b.month then 1 else -1)
    else if a.day != b.day then (if a.day > b.day then 1 else -1)
    else 0
  }

  lemma {:induction false} LaterDaysHaveLaterDates(c: Calendar, j: int, k: int)
    requires Regular(c) && j < k
    ensures CompareCalendarDates(c.date(j), c.date(k)) == -1
    decreases k - j
  {
    hide Regular;
    NextDay(c, k - 1);
    if j == k - 1 {
    } else {
      LaterDaysHaveLaterDates(c, j, k - 1);
    }
  }

  lemma SameDateSameDay(c: Calendar, j: int, k: int)
    requires Regular(c) && c.date(j) == c.date(k)
    ensures j == k
  {
    if j < k {
      LaterDaysHaveLaterDates(c, j, k);
    } else if k < j {
      LaterDaysHaveLaterDates(c, k, j);
    }
  }

  lemma MonthBegins(c: Calendar, k: int) returns (j: int)
    requires Regular(c)
    ensures c.date(j) == CalDate(c.date(k).year, c.date(k).month, 1)
  {
    hide Regular;
    NextDay(c, k);
    j := k - (c.date(k).day - 1);
    WithinMonth(c, k, 1 - c.date(k).day);
  }

  /** From the first day of a month on to the first day of the next one. */
  lemma MonthAfter(c: Calendar, k: int) returns (j: int)
    requires Regular(c) && c.date(k).day == 1
    ensures var d := c.date(k);
            c.date(j) == if d.month < c.monthsInYear(d.year) then CalDate(d.year, d.month + 1, 1)
                         else CalDate(d.year + 1, 1, 1)
  {
    hide Regular;
    var d := c.date(k);
    var n := c.length(d.year, d.month);
    NextDay(c, k);
    WithinMonth(c, k, n - 1);
    NextDay(c, k + n - 1);
    j := k + n;
  }

  lemma {:induction false} MonthOfYear(c: Calendar, k: int, m: int) returns (j: int)
    requires Regular(c) && c.date(k).day == 1 && c.date(k).month <= m <= c.monthsInYear(c.date(k).year)
    ensures c.date(j) == CalDate(c.date(k).year, m, 1)
    decreases m - c.date(k).month
  {
    hide Regular;
    if c.date(k).month == m {
      j := k;
    } else {
      j := MonthAfter(c, k);
      j := MonthOfYear(c, j, m);
    }
  }

  /** Back to the first day of the year. */
  lemma {:induction false} YearBegins(c: Calendar, k: int) returns (j: int)
    requires Regular(c)
    ensures c.date(j) == CalDate(c.date(k).year, 1, 1)
    decreases c.date(k).month
  {
    hide Regular;
    NextDay(c, k);
    j := MonthBegins(c, k);
    if c.date(k).month == 1 {
    } else {
      NextDay(c, j - 1);
      j := YearBegins(c, j - 1);
    }
  }

  lemma {:induction false} YearIsReached(c: Calendar, k: int, y: int) returns (j: int)
    requires Regular(c)
    ensures c.date(j) == CalDate(y, 1, 1)
    decreases if c.date(k).year < y then y - c.date(k).year else c.date(k).year - y
  {
    hide Regular;
    j := YearBegins(c, k);
    if c.date(k).year == y {
    } else if c.date(k).year < y {
      NextDay(c, j);
      j := MonthOfYear(c, j, c.monthsInYear(c.date(k).year));
      j := MonthAfter(c, j);
      j := YearIsReached(c, j, y);
    } else {
      NextDay(c, j - 1);
      j := YearIsReached(c, j - 1, y);
    }
  }

  /** Every date of the calendar is the date of a day. */
  lemma DateIsReached(c: Calendar, d: CalDate) returns (k: int)
    requires Regular(c) && IsDate(c, d)
    ensures c.date(k) == d
  {
    hide Regular;
    k := YearIsReached(c, 0, d.year);
    k := MonthOfYear(c, k, d.month);
    WithinMonth(c, k, d.day - 1);
    k := k + (d.day - 1);
  }

  /** The ISO day of a date. */
  ghost function IsoOf(c: Calendar, d: CalDate): (k: int)
    requires Regular(c) && IsDate(c, d)
    ensures c.date(k) == d
  {
    assert exists k :: c.date(k) == d by {
      var k := DateIsReached(c, d);
    }
    var k :| c.date(k) == d;
    k
  }

  // ---------- the specification ----------

  /** `regulateMonthDayNaive`: it knows only the maximum length of the month. */
  function Regulate(c: Calendar, d: CalDate, overflow: Overflow): Result<CalDate> {
    if overflow == Reject then
      if IsMonth(c, d.year, d.month) && 1 <= d.day <= c.maxLength(d.year, d.month) then Ok(d) else RangeError
    else
      var m := ConstrainToRange(d.month, 1, c.monthsInYear(d.year));
      Ok(CalDate(d.year, m, ConstrainToRange(d.day, 1, c.maxLength(d.year, m))))
  }

  /** The date that is meant: the given one, or under "constrain" the nearest one with the same year. */
  function Meant(c: Calendar, d: CalDate): CalDate {
    var m := ConstrainToRange(d.month, 1, c.monthsInYear(d.year));
    CalDate(d.year, m, ConstrainToRange(d.day, 1, c.length(d.year, m)))
  }

  /** What the conversion has to answer: the day of the date that is meant, which under "reject" must be the
  given one. */
  ghost function Answer(c: Calendar, d: CalDate, overflow: Overflow): (r: Result<int>)
    requires Regular(c)
    ensures r.Ok? ==> c.date(r.value) == Meant(c, d)
    ensures r.Ok? <==> (overflow == Reject ==> IsDate(c, d))
  {
    if overflow == Reject && !IsDate(c, d) then RangeError else Ok(IsoOf(c, Meant(c, d)))
  }

  /** There and back: the day of a day's date is that day. */
  lemma AnswerOfDate(c: Calendar, k: int, overflow: Overflow)
    requires Regular(c)
    ensures Answer(c, c.date(k), overflow) == Ok(k)
  {
    hide Regular;
    NextDay(c, k);
    SameDateSameDay(c, Answer(c, c.date(k), overflow).value, k);
  }

  // ---------- the cache ----------

  datatype Key = IsoToCalendar(day: int) | CalendarToIso(date: CalDate, overflow: Overflow)

  datatype Entry = OfDate(date: CalDate) | OfDay(day: int)

  datatype Cached = Hit(entry: Entry) | Miss

  ghost predicate Agrees(c: Calendar, entries: map<Key, Entry>)
    requires Regular(c)
  {
    forall key :: key in entries ==>
      match key
      case IsoToCalendar(k) => entries[key] == OfDate(c.date(k))
      case CalendarToIso(d, overflow) => entries[key].OfDay? && Answer(c, d, overflow) == Ok(entries[key].day)
  }

  class OneObjectCache {
    var entries: map<Key, Entry>
    var calls: nat
    var hits: nat
    var misses: nat

    constructor ()
      ensures entries == map[] && calls == hits == misses == 0
    {
      entries, calls, hits, misses := map[], 0, 0, 0;
    }

    method Get(key: Key) returns (r: Cached)
      modifies this
      ensures entries == old(entries) && misses == old(misses) && calls == old(calls) + 1
      ensures r == if key in entries then Hit(entries[key]) else Miss
      ensures hits == old(hits) + if r.Hit? then 1 else 0
    {
      r := if key in entries then Hit(entries[key]) else Miss;
      if r.Hit? {
        hits := hits + 1;
      }
      calls := calls + 1;
    }

    method Set(key: Key, entry: Entry)
      modifies this
      ensures entries == old(entries)[key := entry]
      ensures misses == old(misses) + 1 && hits == old(hits) && calls == old(calls)
    {
      entries := entries[key := entry];
      misses := misses + 1;
    }
  }

  /** The entries that looking up a day adds: its date, and the way back under both kinds of overflow. */
  function WithDay(entries: map<Key, Entry>, k: int, d: CalDate): map<Key, Entry> {
    if IsoToCalendar(k) in entries then entries
    else
      entries[IsoToCalendar(k) := OfDate(d)]
             [CalendarToIso(d, Constrain) := OfDay(k)]
             [CalendarToIso(d, Reject) := OfDay(k)]
  }

  lemma WithDayAgrees(c: Calendar, entries: map<Key, Entry>, k: int)
    requires Regular(c) && Agrees(c, entries)
    ensures Agrees(c, WithDay(entries, k, c.date(k)))
  {
    hide Regular, Answer;
    AnswerOfDate(c, k, Constrain);
    AnswerOfDate(c, k, Reject);
  }

  /** `isoToCalendarDate`. */
  method IsoToCalendarDate(c: Calendar, cache: OneObjectCache, k: int) returns (r: CalDate)
    requires Regular(c) && Agrees(c, cache.entries)
    modifies cache
    ensures r == c.date(k) && Agrees(c, cache.entries)
    ensures cache.entries == WithDay(old(cache.entries), k, c.date(k))
  {
    hide Regular, Answer;
    WithDayAgrees(c, cache.entries, k);
    var found := cache.Get(IsoToCalendar(k));
    if found.Hit? {
      return found.entry.date;
    }
    r := c.date(k);
    cache.Set(IsoToCalendar(k), OfDate(r));
    cache.Set(CalendarToIso(r, Constrain), OfDay(k));
    cache.Set(CalendarToIso(r, Reject), OfDay(k));
  }

  // ---------- the search ----------

  predicate SameMonth(a: CalDate, b: CalDate) {
    a.year == b.year && a.month == b.month
  }

  /** A regulated date: the month exists, the day may still be too large for it. */
  predicate IsRegulated(c: Calendar, n: CalDate) {
    IsMonth(c, n.year, n.month) && 1 <= n.day <= c.maxLength(n.year, n.month)
  }

  /** The first day of the month of `n`. */
  ghost function First(c: Calendar, n: CalDate): (k: int)
    requires Regular(c) && IsMonth(c, n.year, n.month)
    ensures c.date(k) == CalDate(n.year, n.month, 1)
  {
    IsoOf(c, CalDate(n.year, n.month, 1))
  }

  ghost function Last(c: Calendar, n: CalDate): int
    requires Regular(c) && IsMonth(c, n.year, n.month)
  {
    First(c, n) + c.length(n.year, n.month) - 1
  }

  /** The answer to a regulated date. */
  ghost function Found(c: Calendar, n: CalDate, overflow: Overflow): Result<int>
    requires Regular(c) && IsRegulated(c, n)
  {
    if n.day <= c.length(n.year, n.month) then Ok(First(c, n) + n.day - 1)
    else if overflow == Reject then RangeError
    else Ok(Last(c, n))
  }

  lemma DaysOfMonth(c: Calendar, n: CalDate, k: int)
    requires Regular(c) && IsMonth(c, n.year, n.month)
    ensures First(c, n) <= k <= Last(c, n) ==> c.date(k) == CalDate(n.year, n.month, k - First(c, n) + 1)
    ensures SameMonth(c.date(k), n) <==> First(c, n) <= k <= Last(c, n)
  {
    hide Regular;
    NextDay(c, k);
    var f := First(c, n);
    if f <= k <= Last(c, n) {
      WithinMonth(c, f, k - f);
    }
    if SameMonth(c.date(k), n) {
      WithinMonth(c, f, c.date(k).day - 1);
      SameDateSameDay(c, k, f + c.date(k).day - 1);
    }
  }

  /** Outside its month, the regulated date lies on the same side of a day as the month does. */
  lemma SideOfMonth(c: Calendar, n: CalDate, k: int)
    requires Regular(c) && IsRegulated(c, n) && !SameMonth(c.date(k), n)
    ensures CompareCalendarDates(n, c.date(k)) == if k < First(c, n) then 1 else -1
  {
    hide Regular;
    DaysOfMonth(c, n, k);
    var f := First(c, n);
    if k < f {
      LaterDaysHaveLaterDates(c, k, f);
    } else if k > f {
      LaterDaysHaveLaterDates(c, f, k);
    }
  }

  lemma FoundIsAnswer(c: Calendar, d: CalDate, overflow: Overflow)
    requires Regular(c)
    ensures match Regulate(c, d, overflow)
            case RangeError => Answer(c, d, overflow) == RangeError
            case Ok(n) => IsRegulated(c, n) && Answer(c, d, overflow) == Found(c, n, overflow) == Answer(c, n, overflow)
  {
    LengthsAreOrdered(c, d);
    hide Regular;
    match Regulate(c, d, overflow)
    case RangeError =>
    case Ok(n) =>
      if Found(c, n, overflow).Ok? {
        var k := Found(c, n, overflow).value;
        DaysOfMonth(c, n, k);
        SameDateSameDay(c, k, Answer(c, d, overflow).value);
        SameDateSameDay(c, k, Answer(c, n, overflow).value);
      }
  }

  lemma LengthsAreOrdered(c: Calendar, d: CalDate)
    requires Regular(c)
    ensures c.monthsInYear(d.year) >= 1
    ensures forall m :: IsMonth(c, d.year, m) ==>
              1 <= c.minLength(d.year, m) <= c.length(d.year, m) <= c.maxLength(d.year, m)
  {
  }

  /** `calculateSameMonthResult`: from a day of the right month, go to the day of the month, and come back as long
  as that is past the end of the month. */
  method SameMonthResult(c: Calendar, cache: OneObjectCache, at: int, days: int, n: CalDate, overflow: Overflow)
    returns (r: Result<int>)
    requires Regular(c) && Agrees(c, cache.entries)
    requires IsRegulated(c, n) && SameMonth(c.date(at), n) && days == n.day - c.date(at).day
    modifies cache
    ensures r == Found(c, n, overflow) && Agrees(c, cache.entries)
  {
    LengthsAreOrdered(c, n);
    hide Regular, Answer, Agrees;
    DaysOfMonth(c, n, at);
    var o := at + days;
    assert o == First(c, n) + n.day - 1;
    if n.day > c.minLength(n.year, n.month) {
      var e := IsoToCalendarDate(c, cache, o);
      DaysOfMonth(c, n, o);
      while !SameMonth(e, n)
        invariant e == c.date(o) && Agrees(c, cache.entries)
        invariant o >= First(c, n) && (overflow == Reject ==> o == First(c, n) + n.day - 1)
        invariant if n.day <= c.length(n.year, n.month) then o == First(c, n) + n.day - 1 else o >= Last(c, n)
        invariant !SameMonth(e, n) <==> o > Last(c, n)
        decreases o - First(c, n)
      {
        if overflow == Reject {
          return RangeError;
        }
        o := o - 1;
        e := IsoToCalendarDate(c, cache, o);
        DaysOfMonth(c, n, o);
      }
    }
    return Ok(o);
  }

  /** `calendarToIsoDate`: estimate, jump, then steps of 8, 4, 2 and 1 days, halved at every change of direction. */
  method CalendarToIsoDate(c: Calendar, cache: OneObjectCache, date: CalDate, overflow: Overflow)
    returns (r: Result<int>)
    requires Regular(c) && Agrees(c, cache.entries)
    modifies cache
    ensures r == Answer(c, date, overflow) && Agrees(c, cache.entries)
  {
    FoundIsAnswer(c, date, overflow);
    hide Regular, Answer, Agrees, Found;
    var n :- Regulate(c, date, overflow);
    var key := CalendarToIso(n, overflow);
    var m := cache.Get(key);
    if m.Hit? {
      CachedAnswer(c, cache.entries, n, overflow);
      return Ok(m.entry.day);
    }
    var original := CalendarToIso(date, overflow);
    if date != n {
      m := cache.Get(original);
      if m.Hit? {
        CachedAnswer(c, cache.entries, date, overflow);
        return Ok(m.entry.day);
      }
    }
    r := Search(c, cache, n, overflow);
    if r.RangeError? {
      return RangeError;
    }
    StoredAnswer(c, cache.entries, n, overflow, r.value);
    cache.Set(key, OfDay(r.value));
    if date != n {
      StoredAnswer(c, cache.entries, date, overflow, r.value);
      cache.Set(original, OfDay(r.value));
    }
  }

  lemma CachedAnswer(c: Calendar, entries: map<Key, Entry>, d: CalDate, overflow: Overflow)
    requires Regular(c) && Agrees(c, entries) && CalendarToIso(d, overflow) in entries
    ensures var e := entries[CalendarToIso(d, overflow)]; e.OfDay? && Answer(c, d, overflow) == Ok(e.day)
  {
    hide Regular, Answer;
  }

  lemma StoredAnswer(c: Calendar, entries: map<Key, Entry>, d: CalDate, overflow: Overflow, k: int)
    requires Regular(c) && Agrees(c, entries) && Answer(c, d, overflow) == Ok(k)
    ensures Agrees(c, entries[CalendarToIso(d, overflow) := OfDay(k)])
  {
    hide Regular, Answer;
  }

  function Distance(a: int, b: int): nat {
    if a < b then b - a else a - b
  }

  /** A day whose date is the wanted one is the answer. */
  lemma EqualIsFound(c: Calendar, n: CalDate, k: int, overflow: Overflow)
    requires Regular(c) && IsRegulated(c, n) && CompareCalendarDates(n, c.date(k)) == 0
    ensures Found(c, n, overflow) == Ok(k) && SameMonth(c.date(k), n)
  {
    LengthsAreOrdered(c, n);
    hide Regular;
    DaysOfMonth(c, n, k);
  }

  /** The halving steps, from a day outside the month. The direction is always towards the month, so the day comes
  closer until it is in the month, or the direction changes and the step is halved. A step of a single day cannot
  change the direction without landing in the month, so the last resort of the loop is never needed. */
  method HalvingSteps(c: Calendar, cache: OneObjectCache, start: int, n: CalDate, overflow: Overflow)
    returns (r: Result<int>)
    requires Regular(c) && Agrees(c, cache.entries) && IsRegulated(c, n) && !SameMonth(c.date(start), n)
    modifies cache
    ensures r == Found(c, n, overflow) && Agrees(c, cache.entries)
  {
    hide Regular, Answer, Agrees, Found, CompareCalendarDates;
    var iso := start;
    var u := c.date(iso);
    SideOfMonth(c, n, iso);
    var h := CompareCalendarDates(n, u);
    var p := 8;
    while h != 0
      invariant Agrees(c, cache.entries)
      invariant p == 8 || p == 4 || p == 2 || p == 1
      invariant h == 0 ==> Ok(iso) == Found(c, n, overflow)
      invariant h != 0 ==> !SameMonth(c.date(iso), n) && h == if iso < First(c, n) then 1 else -1
      decreases h != 0, p, Distance(iso, First(c, n))
    {
      DaysOfMonth(c, n, iso);
      iso := iso + h * p;
      u := IsoToCalendarDate(c, cache, iso);
      var direction := h;
      h := CompareCalendarDates(n, u);
      DaysOfMonth(c, n, iso);
      if h == 0 {
        EqualIsFound(c, n, iso, overflow);
      } else if n.year - u.year == 0 && n.month - u.month == 0 {
        r := SameMonthResult(c, cache, iso, n.day - u.day, n, overflow);
        if r.RangeError? {
          return;
        }
        iso, h := r.value, 0;
      } else {
        SideOfMonth(c, n, iso);
        if h != direction {
          if p > 1 {
            p := p / 2;
          } else {
            assert false;
          }
        }
      }
    }
    return Ok(iso);
  }

  /** The search for a regulated date, when the cache has no answer. */
  method Search(c: Calendar, cache: OneObjectCache, n: CalDate, overflow: Overflow) returns (r: Result<int>)
    requires Regular(c) && Agrees(c, cache.entries) && IsRegulated(c, n)
    modifies cache
    ensures r == Found(c, n, overflow) && Agrees(c, cache.entries)
  {
    hide Regular, Answer, Agrees, Found;
    var iso := c.estimate(n);
    var u := IsoToCalendarDate(c, cache, iso);
    var years, months, days := n.year - u.year, n.month - u.month, n.day - u.day;
    if years == 0 && months == 0 && days == 0 {
      EqualIsFound(c, n, iso, overflow);
      return Ok(iso);
    }
    iso := iso + (365 * years + 30 * months + days);
    u := IsoToCalendarDate(c, cache, iso);
    if n.year - u.year == 0 && n.month - u.month == 0 {
      r := SameMonthResult(c, cache, iso, n.day - u.day, n, overflow);
    } else {
      r := HalvingSteps(c, cache, iso, n, overflow);
    }
  }
}
