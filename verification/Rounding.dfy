/** Rounding to a multiple of an increment, and its use on times of day and on instants. */
module Rounding {
  import opened JsNumbers
  import opened Instants
  import T = TimeOfDay

  datatype Mode = Ceil | Floor | Expand | Trunc | HalfCeil | HalfFloor | HalfExpand | HalfTrunc | HalfEven

  // ---------- what rounding means ----------

  /** Whether `t`, lying strictly between two multiples of `r`, is rounded up (towards plus infinity).
  `d` is the distance from the lower multiple, `q` the quotient of the lower multiple. */
  predicate RoundsUp(negative: bool, q: int, d: int, r: int, mode: Mode) {
    match mode
    case Ceil => true
    case Floor => false
    case Expand => !negative
    case Trunc => negative
    case HalfCeil => 2 * d >= r
    case HalfFloor => 2 * d > r
    case HalfExpand => if negative then 2 * d > r else 2 * d >= r
    case HalfTrunc => if negative then 2 * d >= r else 2 * d > r
    case HalfEven => 2 * d > r || (2 * d == r && q % 2 != 0)
  }

  /** The quotient of the multiple of `r` that `t` rounds to. */
  function RoundedQuotient(t: int, r: int, mode: Mode): int
    requires r > 0
  {
    var q, d := t / r, t % r;
    if d != 0 && RoundsUp(t < 0, q, d, r, mode) then q + 1 else q
  }

  function Rounded(t: int, r: int, mode: Mode): int
    requires r > 0
  {
    RoundedQuotient(t, r, mode) * r
  }

  predicate Half(mode: Mode) {
    mode in {HalfCeil, HalfFloor, HalfExpand, HalfTrunc, HalfEven}
  }

  /** `RoundNumberToIncrement`: works on the truncated quotient, stepping away from zero. */
  method RoundNumberToIncrement(t: int, r: int, mode: Mode) returns (res: int)
    requires r > 0
    ensures res == Rounded(t, r, mode)
  {
    FlooredFromTruncated(t, r);
    if t % r == 0 {
      ExactIsKept(t, r, mode);
    }
    if r == 1 {
      return t;
    }
    var q := DivMod(t, r);
    var n, a := q.0, q.1;
    hide DivMod, Rounded;
    if a == 0 {
      return t;
    }
    QuotientIs(t, r, mode, n, a);
    var i := if a < 0 then -1 else 1;
    var s := Abs(a * 2);
    var l, d := s == r, s > r;
    match mode {
      case Ceil => if i > 0 { n := n + i; }
      case Floor => if i < 0 { n := n + i; }
      case Expand => n := n + i;
      case Trunc =>
      case HalfCeil => if d || (l && i > 0) { n := n + i; }
      case HalfFloor => if d || (l && i < 0) { n := n + i; }
      case HalfExpand => if d || l { n := n + i; }
      case HalfTrunc => if d { n := n + i; }
      case HalfEven => if d || (l && Abs(n) % 2 == 1) { n := n + i; }
    }
    RoundedFromQuotient(t, r, mode, n);
    return n * r;
  }

  lemma ExactIsKept(t: int, r: int, mode: Mode)
    requires r > 0 && t % r == 0
    ensures Rounded(t, r, mode) == t
  {
  }

  lemma RoundedFromQuotient(t: int, r: int, mode: Mode, n: int)
    requires r > 0 && n == RoundedQuotient(t, r, mode)
    ensures n * r == Rounded(t, r, mode)
  {
  }

  /** The rounded quotient in terms of the truncated one. */
  lemma QuotientIs(t: int, r: int, mode: Mode, n: int, a: int)
    requires r > 0 && (n, a) == DivMod(t, r) && a != 0
    ensures RoundedQuotient(t, r, mode)
            == if a < 0 then (if RoundsUp(true, n - 1, a + r, r, mode) then n else n - 1)
               else if RoundsUp(false, n, a, r, mode) then n + 1 else n
  {
    FlooredFromTruncated(t, r);
    hide DivMod;
  }

  lemma FlooredFromTruncated(t: int, r: int)
    requires r > 0
    ensures var (n, a) := DivMod(t, r);
            if a < 0 then t / r == n - 1 && t % r == a + r else t / r == n && t % r == a
    ensures r == 1 ==> t / r == t && t % r == 0
    ensures t % r == 0 ==> (t / r) * r == t
  {
    var (n, a) := DivMod(t, r);
    if a < 0 {
      assert (n - 1) * r + (a + r) == t by { assert (n - 1) * r == n * r - r; }
      DivModUnique(t, r, n - 1, a + r);
    } else {
      DivModUnique(t, r, n, a);
    }
  }

  // ---------- what every mode guarantees ----------

  lemma MultipleOrder(j: int, k: int, r: int)
    requires r > 0
    ensures j <= k <==> j * r <= k * r
  {
    if j > k {
      MulAtLeast(j - k, r);
      assert (j - k) * r == j * r - k * r;
    } else if k > j {
      MulAtLeast(k - j, r);
      assert (k - j) * r == k * r - j * r;
    }
  }

  /** The rounded value lies within one increment, a half mode picks a nearest multiple, the directed modes
  the nearest on their side: no multiple of the increment does better. */
  lemma RoundedIsNearest(t: int, r: int, mode: Mode, k: int)
    requires r > 0
    ensures Abs(Rounded(t, r, mode) - t) < r
    ensures Half(mode) ==> Abs(Rounded(t, r, mode) - t) <= Abs(k * r - t) && 2 * Abs(Rounded(t, r, mode) - t) <= r
    ensures mode == Ceil ==> Rounded(t, r, mode) >= t && (k * r >= t ==> k * r >= Rounded(t, r, mode))
    ensures mode == Floor ==> Rounded(t, r, mode) <= t && (k * r <= t ==> k * r <= Rounded(t, r, mode))
    ensures mode == Expand ==> Abs(Rounded(t, r, mode)) >= Abs(t)
    ensures mode == Trunc ==> Abs(Rounded(t, r, mode)) <= Abs(t)
  {
    hide Rounded;
    NeighbourTaken(t, r, mode);
    NearestNeighbour(t / r, t % r, r, k);
    QuotientSign(t, r);
    assert t == (t / r) * r + t % r;
  }

  /** No multiple lies between two neighbours. */
  lemma NearestNeighbour(q: int, d: int, r: int, k: int)
    requires 0 <= d < r
    ensures (q + 1) * r == q * r + r
    ensures k * r <= q * r || k * r >= (q + 1) * r
  {
    if k <= q {
      MultipleOrder(k, q, r);
    } else {
      MultipleOrder(q + 1, k, r);
    }
  }

  /** The result is one of the two neighbours, and half modes take the nearer one. */
  lemma NeighbourTaken(t: int, r: int, mode: Mode)
    requires r > 0
    ensures var q, d, n := t / r, t % r, Rounded(t, r, mode);
            && n == (if d != 0 && RoundsUp(t < 0, q, d, r, mode) then q + 1 else q) * r
            && (Half(mode) ==> if n == q * r then 2 * d <= r else 2 * d >= r)
  {
    if Rounded(t, r, mode) == (t / r) * r {
      MultipleOrder(t / r + 1, t / r, r);
    }
  }

  /** Multiples of the increment are left alone, so rounding twice is rounding once. */
  lemma RoundedIdempotent(t: int, r: int, mode: Mode)
    requires r > 0
    ensures Rounded(Rounded(t, r, mode), r, mode) == Rounded(t, r, mode)
  {
    var q := RoundedQuotient(t, r, mode);
    DivModUnique(q * r, r, q, 0);
  }

  lemma RoundedMonotone(t: int, u: int, r: int, mode: Mode)
    requires r > 0 && t <= u
    ensures Rounded(t, r, mode) <= Rounded(u, r, mode)
  {
    var q, p := t / r, u / r;
    QuotientMonotone(t, u, r);
    QuotientSign(t, r);
    QuotientSign(u, r);
    if q == p {
      SameQuotientMonotone(t < 0, q, t % r, u % r, r, mode);
    }
    MultipleOrder(RoundedQuotient(t, r, mode), RoundedQuotient(u, r, mode), r);
  }

  lemma QuotientMonotone(t: int, u: int, r: int)
    requires r > 0 && t <= u
    ensures t / r < u / r || (t / r == u / r && t % r <= u % r)
  {
    var q, p := t / r, u / r;
    assert t == q * r + t % r && u == p * r + u % r;
    if q > p {
      MultipleOrder(p + 1, q, r);
    }
  }

  lemma QuotientSign(t: int, r: int)
    requires r > 0
    ensures t / r < 0 <==> t < 0
  {
    MultipleOrder(t / r, -1, r);
    MultipleOrder(0, t / r, r);
  }

  lemma SameQuotientMonotone(negative: bool, q: int, d: int, e: int, r: int, mode: Mode)
    requires d <= e
    ensures RoundsUp(negative, q, d, r, mode) ==> RoundsUp(negative, q, e, r, mode)
  {
  }

  /** `NegateTemporalRoundingMode`. */
  function NegateTemporalRoundingMode(mode: Mode): Mode {
    match mode
    case Ceil => Floor
    case Floor => Ceil
    case HalfCeil => HalfFloor
    case HalfFloor => HalfCeil
    case _ => mode
  }

  /** Rounding the negated number with the negated mode mirrors the result. */
  lemma RoundedMirror(t: int, r: int, mode: Mode)
    requires r > 0
    ensures Rounded(-t, r, NegateTemporalRoundingMode(mode)) == -Rounded(t, r, mode)
  {
    hide RoundedQuotient, NegateTemporalRoundingMode;
    QuotientMirror(t, r, mode);
    var q := RoundedQuotient(t, r, mode);
    assert (-q) * r == -(q * r);
  }

  lemma QuotientMirror(t: int, r: int, mode: Mode)
    requires r > 0
    ensures RoundedQuotient(-t, r, NegateTemporalRoundingMode(mode)) == -RoundedQuotient(t, r, mode)
  {
    var q, d := t / r, t % r;
    NegatedParts(t, r);
    assert d != 0 ==> (-q - 1) % 2 != q % 2;
    QuotientSign(t, r);
  }

  lemma NegatedParts(t: int, r: int)
    requires r > 0
    ensures t % r == 0 ==> (-t) / r == -(t / r) && (-t) % r == 0
    ensures t % r != 0 ==> (-t) / r == -(t / r) - 1 && (-t) % r == r - t % r
  {
    var q, d := t / r, t % r;
    if d == 0 {
      assert (-q) * r == -(q * r);
      DivModUnique(-t, r, -q, 0);
    } else {
      assert (-q - 1) * r == -(q * r) - r;
      DivModUnique(-t, r, -q - 1, r - d);
    }
  }

  // ---------- moving the origin ----------

  /** The mode that agrees with `mode` on numbers that are not negative and does not look at the sign. */
  function UnsignedMode(mode: Mode): Mode {
    match mode
    case Expand => Ceil
    case Trunc => Floor
    case HalfExpand => HalfCeil
    case HalfTrunc => HalfFloor
    case _ => mode
  }

  lemma UnsignedAgrees(t: nat, r: int, mode: Mode)
    requires r > 0
    ensures Rounded(t, r, mode) == Rounded(t, r, UnsignedMode(mode))
  {
  }

  lemma ParityOfSum(q: int, k: int)
    ensures (q + k) % 2 == if k % 2 == 0 then q % 2 else 1 - q % 2
  {
  }

  lemma QuotientShift(t: int, k: int, r: int, mode: Mode)
    requires r > 0 && UnsignedMode(mode) == mode
    ensures RoundedQuotient(t + k * r, r, mode) == RoundedQuotient(t, r, mode) + k
            <==> (mode == HalfEven && 2 * (t % r) == r ==> k % 2 == 0)
  {
    DivModShift(t, r, k);
    ParityOfSum(t / r, k);
    var u := t + k * r;
    assert u / r == t / r + k && u % r == t % r;
  }

  /** Rounding from an origin `k` increments away, which an unsigned mode cannot tell from rounding in
  place, except for a tie broken to even when `k` is odd. */
  lemma RoundedShift(t: int, k: int, r: int, mode: Mode)
    requires r > 0 && UnsignedMode(mode) == mode
    ensures Rounded(t + k * r, r, mode) == Rounded(t, r, mode) + k * r
            <==> (mode == HalfEven && 2 * (t % r) == r ==> k % 2 == 0)
  {
    hide RoundedQuotient, UnsignedMode;
    QuotientShift(t, k, r, mode);
    var p, q := RoundedQuotient(t + k * r, r, mode), RoundedQuotient(t, r, mode);
    MultipleOrder(p, q + k, r);
    MultipleOrder(q + k, p, r);
    assert (q + k) * r == q * r + k * r;
  }

  // ---------- instants ----------

  /** `RoundInstant`: rounds the part since midnight UTC. With an increment that divides the day this is
  rounding the instant itself, by a mode that ignores its sign: truncation is flooring, also before 1970. */
  method RoundInstant(t: int, increment: int, mode: Mode) returns (res: int)
    requires increment > 0 && DAY % increment == 0
    ensures res == t - t % DAY + Rounded(t % DAY, increment, mode)
    ensures res == Rounded(t, increment, UnsignedMode(mode))
            <==> RoundsFromOrigin(t % DAY, (t / DAY) * (DAY / increment), increment, mode)
  {
    var q := NonNegativeBigIntDivmod(t, DAY);
    var a := q.1;
    var i := t - a;
    var s := RoundNumberToIncrement(a, increment, mode);
    WholeIncrements(q.0, DAY, increment);
    UnsignedAgrees(a, increment, mode);
    RoundedShift(a, q.0 * (DAY / increment), increment, UnsignedMode(mode));
    return i + s;
  }

  /** Rounding `t` away from an origin `k` increments before it is the same as rounding it in place:
  always, but for ties broken to even with an odd `k`. */
  predicate RoundsFromOrigin(t: int, k: int, increment: int, mode: Mode)
    requires increment > 0
  {
    mode == HalfEven && 2 * (t % increment) == increment ==> k % 2 == 0
  }

  lemma WholeIncrements(n: int, unit: int, increment: int)
    requires increment > 0 && unit % increment == 0
    ensures n * (unit / increment) * increment == n * unit
  {
    assert (unit / increment) * increment == unit;
  }

  // ---------- times of day ----------

  /** Nanoseconds in one unit. */
  function UnitLength(unit: T.TimeUnit): int {
    match unit
    case Day => DAY
    case Hour => 3_600_000_000_000
    case Minute => 60_000_000_000
    case Second => 1_000_000_000
    case Millisecond => 1_000_000
    case Microsecond => 1000
    case Nanosecond => 1
  }

  function NextUnit(unit: T.TimeUnit): T.TimeUnit {
    match unit
    case Day | Hour => T.Day
    case Minute => T.Hour
    case Second => T.Minute
    case Millisecond => T.Second
    case Microsecond => T.Millisecond
    case Nanosecond => T.Microsecond
  }

  /** The increments that may be asked for: they divide the next larger unit. */
  predicate ValidIncrement(increment: int, unit: T.TimeUnit) {
    && increment >= 1
    && if unit == T.Day then increment == 1 else UnitLength(NextUnit(unit)) % (UnitLength(unit) * increment) == 0
  }

  /** The part of a time below the next larger unit. */
  function Below(t: T.Time, unit: T.TimeUnit): int {
    match unit
    case Day | Hour => T.Nanoseconds(t.hour, t.minute, t.second, t.ms, t.us, t.ns)
    case Minute => T.Nanoseconds(0, t.minute, t.second, t.ms, t.us, t.ns)
    case Second => T.Nanoseconds(0, 0, t.second, t.ms, t.us, t.ns)
    case Millisecond => T.Nanoseconds(0, 0, 0, t.ms, t.us, t.ns)
    case Microsecond => T.Nanoseconds(0, 0, 0, 0, t.us, t.ns)
    case Nanosecond => T.Nanoseconds(0, 0, 0, 0, 0, t.ns)
  }

  /** How many of the next larger unit have passed. */
  function Passed(t: T.Time, unit: T.TimeUnit): int {
    match unit
    case Day | Hour => 0
    case Minute => t.hour
    case Second => 60 * t.hour + t.minute
    case Millisecond => 3600 * t.hour + 60 * t.minute + t.second
    case Microsecond => 3_600_000 * t.hour + 60_000 * t.minute + 1000 * t.second + t.ms
    case Nanosecond => 3_600_000_000 * t.hour + 60_000_000 * t.minute + 1_000_000 * t.second + 1000 * t.ms + t.us
  }

  lemma PassedAndBelow(t: T.Time, unit: T.TimeUnit)
    requires T.ValidTime(t)
    ensures T.TimeNs(t) == Passed(t, unit) * UnitLength(NextUnit(unit)) + Below(t, unit)
    ensures 0 <= Below(t, unit) < UnitLength(NextUnit(unit))
    ensures Passed(t, unit) == T.TimeNs(t) / UnitLength(NextUnit(unit))
    ensures Below(t, unit) == T.TimeNs(t) % UnitLength(NextUnit(unit))
  {
    DivModUnique(T.TimeNs(t), UnitLength(NextUnit(unit)), Passed(t, unit), Below(t, unit));
  }

  /** The fall-through of the first switch of `RoundTime`. */
  method BelowNextUnit(t: T.Time, unit: T.TimeUnit) returns (c: int)
    ensures c == Below(t, unit)
  {
    c := 0;
    if unit == T.Day || unit == T.Hour {
      c := t.hour;
    }
    if unit == T.Day || unit == T.Hour || unit == T.Minute {
      c := c * 60 + t.minute;
    }
    if unit != T.Millisecond && unit != T.Microsecond && unit != T.Nanosecond {
      c := c * 60 + t.second;
    }
    if unit != T.Microsecond && unit != T.Nanosecond {
      c := c * 1000 + t.ms;
    }
    if unit != T.Nanosecond {
      c := c * 1000 + t.us;
    }
    c := c * 1000 + t.ns;
  }

  lemma MidnightIsValid()
    ensures T.ValidTime(T.Time(0, 0, 0, 0, 0, 0)) && T.TimeNs(T.Time(0, 0, 0, 0, 0, 0)) == 0
  {
  }

  /** `BalanceTime` on the fields above the rounded one, which becomes `count`. */
  method Rebuild(t: T.Time, unit: T.TimeUnit, count: int) returns (deltaDays: int, r: T.Time)
    requires T.ValidTime(t)
    ensures T.ValidTime(r)
    ensures DAY * deltaDays + T.TimeNs(r)
            == Passed(t, unit) * UnitLength(NextUnit(unit)) + count * UnitLength(unit)
  {
    hide T.ValidTime, T.TimeNs;
    MidnightIsValid();
    match unit {
      case Day => deltaDays, r := count, T.Time(0, 0, 0, 0, 0, 0);
      case Hour => deltaDays, r := T.BalanceTime(count, 0, 0, 0, 0, 0);
      case Minute => deltaDays, r := T.BalanceTime(t.hour, count, 0, 0, 0, 0);
      case Second => deltaDays, r := T.BalanceTime(t.hour, t.minute, count, 0, 0, 0);
      case Millisecond => deltaDays, r := T.BalanceTime(t.hour, t.minute, t.second, count, 0, 0);
      case Microsecond => deltaDays, r := T.BalanceTime(t.hour, t.minute, t.second, t.ms, count, 0);
      case Nanosecond => deltaDays, r := T.BalanceTime(t.hour, t.minute, t.second, t.ms, t.us, count);
    }
  }

  lemma StepDivides(increment: int, unit: T.TimeUnit)
    requires ValidIncrement(increment, unit)
    ensures UnitLength(unit) >= 1 && increment >= 1 && UnitLength(unit) * increment > 0
    ensures UnitLength(NextUnit(unit)) % (UnitLength(unit) * increment) == 0
  {
  }

  /** `RoundTime` for days of 24 hours: only the part below the next larger unit is rounded. With a valid
  increment that is rounding the whole time of day, but for ties broken to even. */
  method RoundTime(t: T.Time, increment: int, unit: T.TimeUnit, mode: Mode) returns (deltaDays: int, r: T.Time)
    requires T.ValidTime(t) && ValidIncrement(increment, unit)
    ensures T.ValidTime(r)
    ensures DAY * deltaDays + T.TimeNs(r)
            == T.TimeNs(t) - Below(t, unit) + Rounded(Below(t, unit), UnitLength(unit) * increment, mode)
    ensures var step := UnitLength(unit) * increment;
            var larger := UnitLength(NextUnit(unit));
            DAY * deltaDays + T.TimeNs(r) == Rounded(T.TimeNs(t), step, mode)
            <==> RoundsFromOrigin(Below(t, unit), Passed(t, unit) * (larger / step), step, mode)
  {
    StepDivides(increment, unit);
    PassedAndBelow(t, unit);
    hide Rounded, T.TimeNs, T.ValidTime, Below, Passed, UnitLength, NextUnit, ValidIncrement, RoundsFromOrigin;
    var c := BelowNextUnit(t, unit);
    var h := UnitLength(unit);
    RoundedCount(c, increment, h, mode);
    var u := RoundNumberToIncrement(c, h * increment, mode);
    var count := TruncDiv(u, h);
    deltaDays, r := Rebuild(t, unit, count);
    RoundFromOrigin(c, T.TimeNs(t), Passed(t, unit), UnitLength(NextUnit(unit)), h * increment, mode);
  }

  lemma RoundedCount(c: int, increment: int, h: int, mode: Mode)
    requires h >= 1 && increment >= 1
    ensures h * increment > 0 && TruncDiv(Rounded(c, h * increment, mode), h) * h == Rounded(c, h * increment, mode)
  {
    MulAtLeast(h, increment);
    var q := RoundedQuotient(c, h * increment, mode);
    assert q * (h * increment) == (q * increment) * h;
    TruncDivUnique(Rounded(c, h * increment, mode), h, q * increment, 0);
  }

  /** Rounding the part after `n` whole units is rounding the sum, if the increment divides the unit. */
  lemma RoundFromOrigin(c: nat, t: nat, n: int, unit: int, step: int, mode: Mode)
    requires step > 0 && unit % step == 0 && t == n * unit + c
    ensures n * unit + Rounded(c, step, mode) == Rounded(t, step, mode)
            <==> RoundsFromOrigin(c, n * (unit / step), step, mode)
  {
    WholeIncrements(n, unit, step);
    UnsignedAgrees(c, step, mode);
    UnsignedAgrees(t, step, mode);
    RoundedShift(c, n * (unit / step), step, UnsignedMode(mode));
  }

  // ---------- ties to even ----------

  lemma RoundedTie(q: int, r: int)
    requires r > 0
    ensures Rounded(2 * r * q + r, 2 * r, HalfEven) == 2 * r * if q % 2 == 0 then q else q + 1
  {
    assert 2 * r * q + r == q * (2 * r) + r;
    DivModUnique(2 * r * q + r, 2 * r, q, r);
    assert RoundedQuotient(2 * r * q + r, 2 * r, HalfEven) == if q % 2 == 0 then q else q + 1;
    assert (q + 1) * (2 * r) == 2 * r * (q + 1) && q * (2 * r) == 2 * r * q;
  }

  lemma SixPastOne(t: T.Time)
    requires t == T.Time(1, 6, 0, 0, 0, 0)
    ensures T.TimeNs(t) == 3_960_000_000_000 && Below(t, T.Minute) == 360_000_000_000
            && UnitLength(T.Minute) == 60_000_000_000
  {
  }

  /** Six past one, rounded to the even multiple of twelve minutes, is one o'clock by `RoundTime`, which does not see
  the five multiples in the hour; of the whole time of day it would be twelve past one. */
  lemma RoundTimeMissesTie(t: T.Time)
    requires t == T.Time(1, 6, 0, 0, 0, 0)
    ensures T.TimeNs(t) - Below(t, T.Minute) + Rounded(Below(t, T.Minute), UnitLength(T.Minute) * 12, HalfEven)
            == 60 * UnitLength(T.Minute)
    ensures Rounded(T.TimeNs(t), UnitLength(T.Minute) * 12, HalfEven) == 72 * UnitLength(T.Minute)
  {
    hide Rounded, T.TimeNs, Below, UnitLength;
    SixPastOne(t);
    RoundedTie(0, 360_000_000_000);
    RoundedTie(5, 360_000_000_000);
  }

  /** Noon of day 1, rounded to the even day, is the start of day 1 by `RoundInstant`; of the whole instant it would be
  the start of day 2. */
  lemma RoundInstantMissesTie(t: int)
    requires t == DAY + 43_200_000_000_000
    ensures t - t % DAY + Rounded(t % DAY, DAY, HalfEven) == DAY
    ensures Rounded(t, DAY, HalfEven) == 2 * DAY
  {
    RoundedTie(0, 43_200_000_000_000);
    RoundedTie(1, 43_200_000_000_000);
    hide Rounded;
  }
}
