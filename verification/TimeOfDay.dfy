/** Times of day and time durations: balancing, addition and difference, all conserving nanoseconds. */
module TimeOfDay {
  import opened JsNumbers
  import opened Instants

  datatype Time = Time(hour: int, minute: int, second: int, ms: int, us: int, ns: int)

  /** The day and time fields of a duration. */
  datatype TimeDuration = TimeDuration(days: int, hours: int, minutes: int, seconds: int, ms: int, us: int, ns: int)

  /** The largest unit of a balanced duration; every unit of a day or more acts as `Day`. */
  datatype TimeUnit = Day | Hour | Minute | Second | Millisecond | Microsecond | Nanosecond

  predicate ValidTime(t: Time) {
    && 0 <= t.hour < 24 && 0 <= t.minute < 60 && 0 <= t.second < 60
    && 0 <= t.ms < 1000 && 0 <= t.us < 1000 && 0 <= t.ns < 1000
  }

  function Nanoseconds(h: int, mi: int, s: int, ms: int, us: int, ns: int): int {
    3_600_000_000_000 * h + 60_000_000_000 * mi + 1_000_000_000 * s + 1_000_000 * ms + 1000 * us + ns
  }

  lemma MidnightIsZero()
    ensures Nanoseconds(0, 0, 0, 0, 0, 0) == 0
  {
  }

  /** Nanoseconds since midnight. */
  function TimeNs(t: Time): (n: int)
    ensures ValidTime(t) ==> 0 <= n < DAY
  {
    Nanoseconds(t.hour, t.minute, t.second, t.ms, t.us, t.ns)
  }

  /** The length of a duration. */
  function TotalNs(d: TimeDuration): int {
    DAY * d.days + Nanoseconds(d.hours, d.minutes, d.seconds, d.ms, d.us, d.ns)
  }

  /** `TotalDurationNanoseconds`, in nested form; a zone offset shift counts only when there are days. */
  function TotalDurationNanoseconds(d: TimeDuration, offsetShift: int): (n: int)
    ensures n == TotalNs(d) - if d.days != 0 then offsetShift else 0
  {
    var ns := if d.days != 0 then d.ns - offsetShift else d.ns;
    var h := d.hours + d.days * 24;
    var mi := d.minutes + h * 60;
    var s := d.seconds + mi * 60;
    var ms := d.ms + s * 1000;
    var us := d.us + ms * 1000;
    ns + us * 1000
  }

  /** A time of day is determined by its nanoseconds since midnight. */
  lemma TimeUnique(a: Time, b: Time)
    requires ValidTime(a) && ValidTime(b) && TimeNs(a) == TimeNs(b)
    ensures a == b
  {
  }

  lemma TimeExists(n: int)
    requires 0 <= n < DAY
    ensures exists t :: ValidTime(t) && TimeNs(t) == n
  {
    var us := n / 1000;
    var ms := us / 1000;
    var s := ms / 1000;
    var mi := s / 60;
    var t := Time(mi / 60, mi % 60, s % 60, ms % 1000, us % 1000, n % 1000);
    assert ValidTime(t) && TimeNs(t) == n;
  }

  /** The time of day `n` nanoseconds after midnight. */
  ghost function TimeOfNs(n: int): (t: Time)
    requires 0 <= n < DAY
    ensures ValidTime(t) && TimeNs(t) == n
  {
    TimeExists(n);
    var t :| ValidTime(t) && TimeNs(t) == n;
    t
  }

  /** `BalanceTime`: carries every field upward with a floored quotient. The result is the only valid
  time, with a count of days, of the same total. */
  method BalanceTime(hour: int, minute: int, second: int, ms: int, us: int, ns: int)
    returns (deltaDays: int, r: Time)
    ensures ValidTime(r)
    ensures deltaDays * DAY + TimeNs(r) == Nanoseconds(hour, minute, second, ms, us, ns)
    ensures deltaDays == Nanoseconds(hour, minute, second, ms, us, ns) / DAY
    ensures r == TimeOfNs(Nanoseconds(hour, minute, second, ms, us, ns) % DAY)
  {
    var l, d, m, c, h, u := hour, minute, second, ms, us, ns;
    var q := NonNegativeBigIntDivmod(u, 1000);
    u := q.1;
    h := h + q.0;
    q := NonNegativeBigIntDivmod(h, 1000);
    h := q.1;
    c := c + q.0;
    q := NonNegativeBigIntDivmod(c, 1000);
    c := q.1;
    m := m + q.0;
    q := NonNegativeBigIntDivmod(m, 60);
    m := q.1;
    d := d + q.0;
    q := NonNegativeBigIntDivmod(d, 60);
    d := q.1;
    l := l + q.0;
    q := NonNegativeBigIntDivmod(l, 24);
    l := q.1;
    deltaDays := q.0;
    r := Time(l, d, m, c, h, u);
    DivModUnique(Nanoseconds(hour, minute, second, ms, us, ns), DAY, deltaDays, TimeNs(r));
    TimeUnique(r, TimeOfNs(TimeNs(r)));
  }

  // ---------- durations ----------

  predicate SignIs(x: int, s: int) {
    x == 0 || Sign(x) == s
  }

  /** No field of the duration disagrees with the sign `s`. */
  predicate OneSign(d: TimeDuration, s: int) {
    && SignIs(d.days, s) && SignIs(d.hours, s) && SignIs(d.minutes, s) && SignIs(d.seconds, s)
    && SignIs(d.ms, s) && SignIs(d.us, s) && SignIs(d.ns, s)
  }

  predicate Below(x: int, limit: int) {
    -limit < x < limit
  }

  /** Every unit above `unit` is empty and every unit below it is less than one of the next. */
  predicate BalancedUpTo(d: TimeDuration, unit: TimeUnit) {
    match unit
    case Day => Below(d.hours, 24) && Below(d.minutes, 60) && Below(d.seconds, 60) && Fractional(d)
    case Hour => d.days == 0 && Below(d.minutes, 60) && Below(d.seconds, 60) && Fractional(d)
    case Minute => d.days == d.hours == 0 && Below(d.seconds, 60) && Fractional(d)
    case Second => d.days == d.hours == d.minutes == 0 && Fractional(d)
    case Millisecond => d.days == d.hours == d.minutes == d.seconds == 0 && Below(d.us, 1000) && Below(d.ns, 1000)
    case Microsecond => d.days == d.hours == d.minutes == d.seconds == d.ms == 0 && Below(d.ns, 1000)
    case Nanosecond => d.days == d.hours == d.minutes == d.seconds == d.ms == d.us == 0
  }

  predicate Fractional(d: TimeDuration) {
    Below(d.ms, 1000) && Below(d.us, 1000) && Below(d.ns, 1000)
  }

  /** The sign of the first field that is not zero. */
  function FirstSign(fields: seq<int>): int {
    if fields == [] then 0 else if fields[0] != 0 then Sign(fields[0]) else FirstSign(fields[1..])
  }

  /** `DurationSign`. */
  method DurationSign(fields: seq<int>) returns (s: int)
    ensures s == FirstSign(fields)
  {
    var i := 0;
    assert fields[0..] == fields;
    while i < |fields|
      invariant i <= |fields| && FirstSign(fields) == FirstSign(fields[i..])
    {
      if fields[i] != 0 {
        s := if fields[i] < 0 then -1 else 1;
        return;
      }
      assert fields[i..][1..] == fields[i + 1..];
      i := i + 1;
    }
    assert fields[i..] == [];
    s := 0;
  }

  /** Fields within range are dominated by the first one, so its sign is that of the total. */
  lemma FirstSignIsTotal(h: int, mi: int, s: int, ms: int, us: int, ns: int)
    requires Below(mi, 60) && Below(s, 60) && Below(ms, 1000) && Below(us, 1000) && Below(ns, 1000)
    ensures FirstSign([h, mi, s, ms, us, ns]) == Sign(Nanoseconds(h, mi, s, ms, us, ns))
  {
    FirstSignStep([h, mi, s, ms, us, ns], h, [mi, s, ms, us, ns]);
    FirstSignStep([mi, s, ms, us, ns], mi, [s, ms, us, ns]);
    FirstSignStep([s, ms, us, ns], s, [ms, us, ns]);
    FirstSignStep([ms, us, ns], ms, [us, ns]);
    FirstSignStep([us, ns], us, [ns]);
    FirstSignStep([ns], ns, []);
  }

  lemma FirstSignStep(fields: seq<int>, x: int, rest: seq<int>)
    requires fields == [x] + rest
    ensures FirstSign(fields) == if x != 0 then Sign(x) else FirstSign(rest)
  {
    assert fields[1..] == rest;
  }

  function Negated(d: TimeDuration): TimeDuration {
    TimeDuration(-d.days, -d.hours, -d.minutes, -d.seconds, -d.ms, -d.us, -d.ns)
  }

  /** Multiplying every field by a sign. */
  function Times(d: TimeDuration, w: int): (r: TimeDuration)
    requires -1 <= w <= 1
    ensures r == if w == 1 then d else if w == -1 then Negated(d) else TimeDuration(0, 0, 0, 0, 0, 0, 0)
  {
    TimeDuration(d.days * w, d.hours * w, d.minutes * w, d.seconds * w, d.ms * w, d.us * w, d.ns * w)
  }

  /** Giving every field of a non-negative duration the sign `w`. */
  lemma SignedFields(d: TimeDuration, w: int, unit: TimeUnit)
    requires -1 <= w <= 1 && OneSign(d, 1) && BalancedUpTo(d, unit)
    ensures OneSign(Times(d, w), w) && BalancedUpTo(Times(d, w), unit)
  {
    hide Times;
  }

  lemma TimesTotal(d: TimeDuration, w: int)
    requires -1 <= w <= 1
    ensures d.days == 0 ==> Times(d, w).days == 0
    ensures TotalNs(Times(d, w)) == if w == 1 then TotalNs(d) else if w == -1 then -TotalNs(d) else 0
  {
    hide Times;
  }

  /** `NanosecondsToDays` without a zone: whole days of 24 hours, truncated toward zero. */
  method NanosecondsToDays(ns: int) returns (days: int, rest: int)
    ensures days * DAY + rest == ns && Abs(rest) < DAY
    ensures SignIs(days, Sign(ns)) && SignIs(rest, Sign(ns))
  {
    if Sign(ns) == 0 {
      return 0, 0;
    }
    var q := DivMod(ns, DAY);
    return q.0, q.1;
  }

  /** Splitting any one field leaves the total as it is. */
  lemma Splits(y: int, f: int, t: int, u: int, h: int, c: int)
    ensures Nanoseconds(0, 0, 0, 0, 0, 1000 * h + c) == Nanoseconds(0, 0, 0, 0, h, c)
    ensures Nanoseconds(0, 0, 0, 0, 1000 * u + h, c) == Nanoseconds(0, 0, 0, u, h, c)
    ensures Nanoseconds(0, 0, 0, 1000 * t + u, h, c) == Nanoseconds(0, 0, t, u, h, c)
    ensures Nanoseconds(0, 0, 60 * f + t, u, h, c) == Nanoseconds(0, f, t, u, h, c)
    ensures Nanoseconds(0, 60 * y + f, t, u, h, c) == Nanoseconds(y, f, t, u, h, c)
    ensures Nanoseconds(0, 0, 0, 0, 0, c) == c
  {
  }

  /** The field-by-field division of `BalanceDuration`, up to its largest unit. */
  method SplitMagnitude(magnitude: nat, unit: TimeUnit) returns (r: TimeDuration)
    ensures TotalNs(r) == magnitude && OneSign(r, 1) && r.days == 0
    ensures BalancedUpTo(r, if unit == Day then Hour else unit)
    ensures magnitude == 0 ==> r == TimeDuration(0, 0, 0, 0, 0, 0, 0)
  {
    hide OneSign, BalancedUpTo, TotalNs, Nanoseconds, JsNumbers.DivMod;
    var c, h, u, t, f, y := magnitude as int, 0, 0, 0, 0, 0;
    Splits(0, 0, 0, 0, 0, c);
    if unit != Nanosecond {
      var q := DivMod(c, 1000);
      h, c := q.0, q.1;
      Splits(0, 0, 0, 0, h, c);
      if unit != Microsecond {
        q := DivMod(h, 1000);
        u, h := q.0, q.1;
        Splits(0, 0, 0, u, h, c);
        if unit != Millisecond {
          q := DivMod(u, 1000);
          t, u := q.0, q.1;
          Splits(0, 0, t, u, h, c);
          if unit != Second {
            q := DivMod(t, 60);
            f, t := q.0, q.1;
            Splits(0, f, t, u, h, c);
            if unit != Minute {
              q := DivMod(f, 60);
              y, f := q.0, q.1;
              Splits(y, f, t, u, h, c);
            }
          }
        }
      }
    }
    r := TimeDuration(0, y, f, t, u, h, c);
    SplitFields(r, unit);
  }

  lemma SplitFields(r: TimeDuration, unit: TimeUnit)
    requires r.days == 0 && r.hours >= 0 && r.minutes >= 0 && r.seconds >= 0 && r.ms >= 0 && r.us >= 0 && r.ns >= 0
    requires unit == Nanosecond || r.ns < 1000
    requires if unit == Nanosecond then r.us == 0 else unit == Microsecond || r.us < 1000
    requires if unit == Nanosecond || unit == Microsecond then r.ms == 0 else unit == Millisecond || r.ms < 1000
    requires if unit == Day || unit == Hour || unit == Minute then r.seconds < 60 else unit == Second || r.seconds == 0
    requires if unit == Day || unit == Hour then r.minutes < 60 else unit == Minute || r.minutes == 0
    requires unit == Day || unit == Hour || r.hours == 0
    ensures OneSign(r, 1) && BalancedUpTo(r, if unit == Day then Hour else unit)
    ensures TotalNs(r) == Nanoseconds(r.hours, r.minutes, r.seconds, r.ms, r.us, r.ns)
    ensures TotalNs(r) == 0 ==> r == TimeDuration(0, 0, 0, 0, 0, 0, 0)
  {
  }

  lemma WithDays(d: TimeDuration, days: int, s: int, unit: TimeUnit)
    requires OneSign(d, s) && SignIs(days, s) && d.days == 0
    requires BalancedUpTo(d, if unit == Day then Hour else unit)
             && if unit == Day then Below(d.hours, 24) else days == 0
    ensures OneSign(d.(days := days), s) && BalancedUpTo(d.(days := days), unit)
    ensures TotalNs(d.(days := days)) == DAY * days + TotalNs(d)
  {
  }

  lemma LessThanADay(d: TimeDuration)
    requires d.days == 0 && (OneSign(d, 1) || OneSign(d, -1)) && Below(TotalNs(d), DAY)
    ensures Below(d.hours, 24)
  {
  }

  /** `BalanceDuration` without a zone. */
  method BalanceDuration(d: TimeDuration, unit: TimeUnit) returns (r: TimeDuration)
    ensures TotalNs(r) == TotalNs(d)
    ensures OneSign(r, Sign(TotalNs(d))) && BalancedUpTo(r, unit)
  {
    hide Times, OneSign, BalancedUpTo, TotalNs, Nanoseconds, TotalDurationNanoseconds;
    var days, c := 0, TotalDurationNanoseconds(d, 0);
    if unit == Day {
      days, c := NanosecondsToDays(c);
    }
    var w := if c < 0 then -1 else 1;
    var m := SplitMagnitude(Abs(c), unit);
    SignedFields(m, w, if unit == Day then Hour else unit);
    TimesTotal(m, w);
    if unit == Day {
      LessThanADay(Times(m, w));
    }
    NothingHasAnySign(m, w, Sign(TotalNs(d)));
    WithDays(Times(m, w), days, Sign(TotalNs(d)), unit);
    r := Times(m, w).(days := days);
  }

  lemma NothingHasAnySign(m: TimeDuration, w: int, s: int)
    requires w == 1 || w == -1
    requires OneSign(Times(m, w), w) && (s == w || m == TimeDuration(0, 0, 0, 0, 0, 0, 0))
    ensures OneSign(Times(m, w), s)
  {
  }

  lemma NestedSign(low: int, high: int, c: int, s: int)
    requires c > 0 && SignIs(low, s) && SignIs(high, s)
    ensures SignIs(low + high * c, s) && (low + high * c == 0 ==> low == 0 && high == 0)
  {
    if high > 0 {
      MulAtLeast(high, c);
    } else if high < 0 {
      MulAtLeast(-high, c);
      assert (-high) * c == -(high * c);
    }
  }

  /** A duration of one sign has a total of that sign, which is zero only if all its fields are. */
  lemma TotalHasSign(d: TimeDuration, s: int)
    requires OneSign(d, s)
    ensures OneSign(d, Sign(TotalNs(d))) && SignIs(TotalNs(d), s)
  {
    var h := d.hours + d.days * 24;
    var mi := d.minutes + h * 60;
    var sec := d.seconds + mi * 60;
    var ms := d.ms + sec * 1000;
    var us := d.us + ms * 1000;
    assert us * 1000 + d.ns == TotalDurationNanoseconds(d, 0);
    hide SignIs, TotalNs;
    NestedSign(d.hours, d.days, 24, s);
    NestedSign(d.minutes, h, 60, s);
    NestedSign(d.seconds, mi, 60, s);
    NestedSign(d.ms, sec, 1000, s);
    NestedSign(d.us, ms, 1000, s);
    NestedSign(d.ns, us, 1000, s);
    SignOfNonzero(TotalNs(d), s);
    NoSignAtAll();
  }

  lemma SignOfNonzero(x: int, s: int)
    requires SignIs(x, s)
    ensures x != 0 ==> Sign(x) == s
  {
  }

  lemma NoSignAtAll()
    ensures OneSign(TimeDuration(0, 0, 0, 0, 0, 0, 0), 0)
  {
  }

  /** Balancing has one result: it is fixed by the total and the largest unit. */
  lemma BalanceUnique(a: TimeDuration, b: TimeDuration, unit: TimeUnit)
    requires BalancedUpTo(a, unit) && BalancedUpTo(b, unit) && TotalNs(a) == TotalNs(b)
    requires OneSign(a, Sign(TotalNs(a))) && OneSign(b, Sign(TotalNs(a)))
    ensures a == b
  {
    var s := Sign(TotalNs(a));
    if unit != Nanosecond {
      SplitUnique(InMicroseconds(a), a.ns, InMicroseconds(b), b.ns, 1000, s);
      MicrosecondsUnique(a, b, unit, s);
    }
  }

  lemma MicrosecondsUnique(a: TimeDuration, b: TimeDuration, unit: TimeUnit, s: int)
    requires unit != Nanosecond && InMicroseconds(a) == InMicroseconds(b) && a.ns == b.ns
    requires BalancedUpTo(a, unit) && BalancedUpTo(b, unit) && OneSign(a, s) && OneSign(b, s)
    ensures a == b
  {
    if unit != Microsecond {
      MicrosecondParts(a, unit, s);
      MicrosecondParts(b, unit, s);
      hide InMicroseconds, InMilliseconds, BalancedUpTo, OneSign;
      SplitUnique(InMilliseconds(a), a.us, InMilliseconds(b), b.us, 1000, s);
      MillisecondsUnique(a, b, unit, s);
    } else {
      OnlyMicroseconds(a, b);
    }
  }

  lemma MicrosecondParts(d: TimeDuration, unit: TimeUnit, s: int)
    requires unit != Nanosecond && unit != Microsecond && BalancedUpTo(d, unit) && OneSign(d, s)
    ensures InMicroseconds(d) == 1000 * InMilliseconds(d) + d.us
    ensures SignIs(InMilliseconds(d), s) && SignIs(d.us, s) && Below(d.us, 1000)
  {
    PartSigns(d, s);
    hide InMilliseconds;
  }

  lemma OnlyMicroseconds(a: TimeDuration, b: TimeDuration)
    requires BalancedUpTo(a, Microsecond) && BalancedUpTo(b, Microsecond)
    requires InMicroseconds(a) == InMicroseconds(b) && a.ns == b.ns
    ensures a == b
  {
  }

  lemma MillisecondParts(d: TimeDuration, unit: TimeUnit, s: int)
    requires unit == Day || unit == Hour || unit == Minute || unit == Second
    requires BalancedUpTo(d, unit) && OneSign(d, s)
    ensures InMilliseconds(d) == 1000 * InSeconds(d) + d.ms
    ensures SignIs(InSeconds(d), s) && SignIs(d.ms, s) && Below(d.ms, 1000)
  {
    PartSigns(d, s);
    hide InSeconds;
  }

  lemma OnlyMilliseconds(a: TimeDuration, b: TimeDuration)
    requires BalancedUpTo(a, Millisecond) && BalancedUpTo(b, Millisecond)
    requires InMilliseconds(a) == InMilliseconds(b) && a.us == b.us && a.ns == b.ns
    ensures a == b
  {
  }

  lemma MillisecondsUnique(a: TimeDuration, b: TimeDuration, unit: TimeUnit, s: int)
    requires unit != Nanosecond && unit != Microsecond
    requires InMilliseconds(a) == InMilliseconds(b) && a.us == b.us && a.ns == b.ns
    requires BalancedUpTo(a, unit) && BalancedUpTo(b, unit) && OneSign(a, s) && OneSign(b, s)
    ensures a == b
  {
    if unit != Millisecond {
      MillisecondParts(a, unit, s);
      MillisecondParts(b, unit, s);
      hide InMilliseconds, InSeconds, InMinutes, BalancedUpTo, OneSign;
      SplitUnique(InSeconds(a), a.ms, InSeconds(b), b.ms, 1000, s);
      if unit != Second {
        SecondParts(a, unit, s);
        SecondParts(b, unit, s);
        SplitUnique(InMinutes(a), a.seconds, InMinutes(b), b.seconds, 60, s);
        MinutesUnique(a, b, unit, s);
      } else {
        OnlySeconds(a, b);
      }
    } else {
      OnlyMilliseconds(a, b);
    }
  }

  lemma PartSigns(d: TimeDuration, s: int)
    requires OneSign(d, s)
    ensures SignIs(InMinutes(d), s) && SignIs(InSeconds(d), s) && SignIs(InMilliseconds(d), s)
  {
    hide SignIs;
    NestedSign(d.hours, d.days, 24, s);
    NestedSign(d.minutes, d.hours + d.days * 24, 60, s);
    NestedSign(d.seconds, InMinutes(d), 60, s);
    NestedSign(d.ms, InSeconds(d), 1000, s);
  }

  lemma SecondParts(d: TimeDuration, unit: TimeUnit, s: int)
    requires unit == Day || unit == Hour || unit == Minute
    requires BalancedUpTo(d, unit) && OneSign(d, s)
    ensures InSeconds(d) == 60 * InMinutes(d) + d.seconds
    ensures SignIs(InMinutes(d), s) && SignIs(d.seconds, s) && Below(d.seconds, 60)
  {
    PartSigns(d, s);
    hide InMinutes;
  }

  lemma OnlySeconds(a: TimeDuration, b: TimeDuration)
    requires BalancedUpTo(a, Second) && BalancedUpTo(b, Second)
    requires InSeconds(a) == InSeconds(b) && a.ms == b.ms && a.us == b.us && a.ns == b.ns
    ensures a == b
  {
  }

  lemma MinutesUnique(a: TimeDuration, b: TimeDuration, unit: TimeUnit, s: int)
    requires unit == Day || unit == Hour || unit == Minute
    requires InMinutes(a) == InMinutes(b) && a.seconds == b.seconds && a.ms == b.ms && a.us == b.us && a.ns == b.ns
    requires BalancedUpTo(a, unit) && BalancedUpTo(b, unit) && OneSign(a, s) && OneSign(b, s)
    ensures a == b
  {
    if unit != Minute {
      NestedSign(a.hours, a.days, 24, s);
      NestedSign(b.hours, b.days, 24, s);
      SplitUnique(24 * a.days + a.hours, a.minutes, 24 * b.days + b.hours, b.minutes, 60, s);
      if unit == Day {
        SplitUnique(a.days, a.hours, b.days, b.hours, 24, s);
      }
    }
  }

  function InMinutes(d: TimeDuration): int {
    1440 * d.days + 60 * d.hours + d.minutes
  }

  function InSeconds(d: TimeDuration): int {
    60 * InMinutes(d) + d.seconds
  }

  function InMilliseconds(d: TimeDuration): int {
    1000 * InSeconds(d) + d.ms
  }

  function InMicroseconds(d: TimeDuration): int {
    1000 * InMilliseconds(d) + d.us
  }

  lemma TimeFields(t: Time)
    requires ValidTime(t)
    ensures var d := TimeDuration(0, t.hour, t.minute, t.second, t.ms, t.us, t.ns);
            OneSign(d, 1) && BalancedUpTo(d, Day) && TotalNs(d) == TimeNs(t)
  {
  }

  function FieldDifference(a: Time, b: Time): TimeDuration {
    TimeDuration(0, b.hour - a.hour, b.minute - a.minute, b.second - a.second, b.ms - a.ms, b.us - a.us, b.ns - a.ns)
  }

  lemma FieldDifferenceTotal(a: Time, b: Time)
    requires ValidTime(a) && ValidTime(b)
    ensures var d := FieldDifference(a, b);
            && TotalNs(d) == TimeNs(b) - TimeNs(a)
            && FirstSign([d.hours, d.minutes, d.seconds, d.ms, d.us, d.ns]) == Sign(TotalNs(d))
  {
    var d := FieldDifference(a, b);
    FirstSignIsTotal(d.hours, d.minutes, d.seconds, d.ms, d.us, d.ns);
  }

  lemma WithoutDays(d: TimeDuration)
    requires d.days == 0
    ensures TotalNs(d) == Nanoseconds(d.hours, d.minutes, d.seconds, d.ms, d.us, d.ns)
  {
  }

  /** `DifferenceTime`: the fields have one sign and stay below one of the next unit; the internal
  assertion that no day is left over never fails. */
  method DifferenceTime(a: Time, b: Time) returns (r: TimeDuration)
    requires ValidTime(a) && ValidTime(b)
    ensures TotalNs(r) == TimeNs(b) - TimeNs(a)
    ensures OneSign(r, Sign(TotalNs(r))) && BalancedUpTo(r, Day) && r.days == 0
  {
    hide Times, OneSign, BalancedUpTo, FirstSign, Nanoseconds, TotalNs, TimeNs, ValidTime, Negated;
    var d := FieldDifference(a, b);
    FieldDifferenceTotal(a, b);
    var sign := DurationSign([d.hours, d.minutes, d.seconds, d.ms, d.us, d.ns]);
    TimesTotal(d, sign);
    d := Times(d, sign);
    WithoutDays(d);
    var days, t := BalanceTime(d.hours, d.minutes, d.seconds, d.ms, d.us, d.ns);
    assert days == 0;
    d := TimeDuration(0, t.hour, t.minute, t.second, t.ms, t.us, t.ns);
    TimeFields(t);
    SignedFields(d, sign, Day);
    TimesTotal(d, sign);
    r := Times(d, sign);
  }

  lemma DifferenceSign(d: TimeDuration)
    requires BalancedUpTo(d, Day) && d.days == 0
    ensures FirstSign([d.hours, d.minutes, d.seconds, d.ms, d.us, d.ns]) == Sign(TotalNs(d))
  {
    FirstSignIsTotal(d.hours, d.minutes, d.seconds, d.ms, d.us, d.ns);
  }

  /** `AddTime`: a time plus the time fields of a duration, with the days carried out. */
  method AddTime(t: Time, d: TimeDuration) returns (deltaDays: int, r: Time)
    ensures deltaDays == (TimeNs(t) + TotalNs(d.(days := 0))) / DAY
    ensures r == TimeOfNs((TimeNs(t) + TotalNs(d.(days := 0))) % DAY)
  {
    deltaDays, r := BalanceTime(t.hour + d.hours, t.minute + d.minutes, t.second + d.seconds,
                                t.ms + d.ms, t.us + d.us, t.ns + d.ns);
  }
}
