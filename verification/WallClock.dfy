/** From a wall-clock reading to the instants that show it in a named time zone, and the choice among them. */
module WallClock {
  import opened JsNumbers
  import opened Results
  import opened Instants
  import O = Overflows
  import IsoDate
  import D = IsoDifference
  import T = TimeOfDay
  import opened DateTimes
  import Z = ZoneTransitions

  datatype Disambiguation = Compatible | Earlier | Later | Reject

  datatype Answer = Chosen(ns: int) | Undefined | OutOfRange

  // ---------- the reading of a clock ----------

  /** `RejectDateTimeRange`. */
  predicate DateTimeInRange(dt: DateTime)
    requires ValidDateTime(dt)
  {
    && MIN_YEAR <= dt.date.year <= MAX_YEAR
    && (dt.date.year == MIN_YEAR ==> InstantInRange(EpochNs(dt) + DAY - 1))
    && (dt.date.year == MAX_YEAR ==> InstantInRange(EpochNs(dt) - DAY + 1))
  }

  lemma FirstDay()
    ensures DAY * (IsoDate.DayNumber(IsoDate.Date(-271821, 4, 20)) - EPOCH_DAY) == MIN_EPOCH_NS
  {
    IsoDate.DaysBeforeYearClosed(-271821);
    hide IsoDate.DaysBeforeYear;
  }

  lemma LastDay()
    ensures DAY * (IsoDate.DayNumber(IsoDate.Date(275760, 9, 13)) - EPOCH_DAY) == MAX_EPOCH_NS
  {
    IsoDate.DaysBeforeYearClosed(275760);
    hide IsoDate.DaysBeforeYear;
  }

  /** The date-time of an instant in range is in range, and so is its date. */
  lemma InstantsHaveDates(dt: DateTime)
    requires ValidDateTime(dt) && InstantInRange(EpochNs(dt))
    ensures DateInRange(dt.date) && DateTimeInRange(dt)
  {
    var first, last := IsoDate.Date(-271821, 4, 20), IsoDate.Date(275760, 9, 13);
    FirstDay();
    LastDay();
    hide IsoDate.DayNumber;
    assert IsoDate.DayNumber(first) <= IsoDate.DayNumber(dt.date) <= IsoDate.DayNumber(last);
    assert DateInRange(first) && DateInRange(last);
    RangeIsConvex(first, dt.date, last);
    IsoDate.CompareIsDayOrder(first, dt.date);
    IsoDate.CompareIsDayOrder(dt.date, last);
  }

  /** The places on the time line that the formatter accepts: their whole milliseconds must be a time value, so it
  goes on for not quite a millisecond after the last instant. */
  predicate Formattable(x: int) {
    MIN_EPOCH_NS <= x < MAX_EPOCH_NS + 1_000_000
  }

  /** The date-time that the clocks of the zone show at a place on the time line. */
  method LocalReading(f: Z.Zone, x: int) returns (r: Result<DateTime>)
    ensures r.Ok? <==> Formattable(x)
    ensures r.Ok? ==> ValidDateTime(r.value) && EpochNs(r.value) == x + f(x)
  {
    if !Formattable(x) {
      return RangeError;
    }
    EpochDayIsUnixEpoch();
    hide IsoDate.DayNumber;
    assert IsoDate.DayNumberOf(1970, 1, 1) == EPOCH_DAY by {
      assert IsoDate.MonthOf(12 * 1970 + 1) == IsoDate.YearMonth(1970, 1);
    }
    var dt := BalanceISODateTime(1970, 1, 1, 0, 0, 0, 0, 0, x + f(x));
    return Ok(dt);
  }

  // ---------- possible instants ----------

  /** The probes a day before and after the reading, taken at the reading itself when they are not instants. */
  function LowProbe(c: int): int {
    if c - DAY < MIN_EPOCH_NS then c else c - DAY
  }

  function HighProbe(c: int): int {
    if c + DAY > MAX_EPOCH_NS then c else c + DAY
  }

  /** The instant that would read `c` under the offset, if it does. */
  function Kept(f: Z.Zone, c: int, offset: int): seq<int> {
    if c - offset + f(c - offset) == c then [c - offset] else []
  }

  function Candidates(f: Z.Zone, c: int): seq<int> {
    var early, late := f(LowProbe(c)), f(HighProbe(c));
    if early == late then Kept(f, c, early) else Kept(f, c, early) + Kept(f, c, late)
  }

  /** The places whose reading is looked at. */
  function Probed(f: Z.Zone, c: int): seq<int> {
    var early, late := f(LowProbe(c)), f(HighProbe(c));
    if early == late then [c - early] else [c - early, c - late]
  }

  function Possible(f: Z.Zone, c: int): Result<seq<int>> {
    if && InstantInRange(c)
       && (forall x :: x in Probed(f, c) ==> Formattable(x))
       && (forall x :: x in Candidates(f, c) ==> InstantInRange(x))
    then Ok(Candidates(f, c)) else RangeError
  }

  lemma NoInstant(f: Z.Zone, c: int)
    requires !InstantInRange(c)
    ensures Possible(f, c) == RangeError
  {
  }

  method KeptInstants(f: Z.Zone, dt: DateTime, offset: int) returns (r: Result<seq<int>>)
    requires ValidDateTime(dt)
    ensures r == if Formattable(EpochNs(dt) - offset) then Ok(Kept(f, EpochNs(dt), offset)) else RangeError
  {
    hide EpochNs;
    var x := EpochNs(dt) - offset;
    var local :- LocalReading(f, x);
    if EpochNs(local) == EpochNs(dt) {
      EpochNsUnique(local, dt);
    }
    return Ok(if local == dt then [x] else []);
  }

  /** `getPossibleInstantsFor`, for a named zone. */
  method GetPossibleInstantsFor(f: Z.Zone, dt: DateTime) returns (r: Result<seq<int>>)
    requires ValidDateTime(dt)
    ensures r == Possible(f, EpochNs(dt))
  {
    hide EpochNs, Kept;
    var c := EpochNs(dt);
    if !InstantInRange(c) {
      return RangeError;
    }
    var h := c - DAY;
    if h < MIN_EPOCH_NS {
      h := c;
    }
    var u := c + DAY;
    if u > MAX_EPOCH_NS {
      u := c;
    }
    var early, late := f(h), f(u);
    var kept :- KeptInstants(f, dt, early);
    if early != late {
      var more :- KeptInstants(f, dt, late);
      kept := kept + more;
    }
    if forall x :: x in kept ==> InstantInRange(x) {
      return Ok(kept);
    }
    return RangeError;
  }

  /** The offsets that `GetOffsetNanosecondsFor` lets through. */
  predicate IsOffset(offset: int) {
    -DAY < offset < DAY
  }

  ghost predicate Bounded(f: Z.Zone) {
    forall x :: InstantInRange(x) ==> IsOffset(f(x))
  }

  ghost predicate OneChange(f: Z.Zone, lo: int, hi: int) {
    forall x, y :: lo < x < y <= hi && Z.Change(f, x) ==> !Z.Change(f, y)
  }

  lemma NoChange(f: Z.Zone, lo: int, hi: int)
    requires lo <= hi && OneChange(f, lo, hi) && f(lo) == f(hi)
    ensures forall x :: lo <= x <= hi ==> f(x) == f(lo)
  {
    if x :| lo < x <= hi && Z.Change(f, x) {
      Z.SteadyIsConstant(f, lo, x - 1, x - 1);
      Z.SteadyIsConstant(f, x, hi, hi);
    }
    forall x | lo <= x <= hi
      ensures f(x) == f(lo)
    {
      Z.SteadyIsConstant(f, lo, hi, x);
    }
  }

  lemma TheChange(f: Z.Zone, lo: int, hi: int) returns (t: int)
    requires lo <= hi && OneChange(f, lo, hi) && f(lo) != f(hi)
    ensures lo < t <= hi && Z.Change(f, t)
    ensures forall x :: lo <= x < t ==> f(x) == f(lo)
    ensures forall x :: t <= x <= hi ==> f(x) == f(hi)
  {
    if Z.Steady(f, lo, hi) {
      Z.SteadyIsConstant(f, lo, hi, hi);
    }
    t :| lo < t <= hi && Z.Change(f, t);
    forall x | lo <= x < t
      ensures f(x) == f(lo)
    {
      Z.SteadyIsConstant(f, lo, t - 1, x);
    }
    forall x | t <= x <= hi
      ensures f(x) == f(hi)
    {
      Z.SteadyIsConstant(f, t, hi, x);
      Z.SteadyIsConstant(f, t, hi, hi);
    }
  }

  /** The instants within a day of the reading. */
  function Earliest(c: int): int {
    if c - DAY < MIN_EPOCH_NS then MIN_EPOCH_NS else c - DAY
  }

  function Latest(c: int): int {
    if c + DAY > MAX_EPOCH_NS then MAX_EPOCH_NS else c + DAY
  }

  /** An instant that shows `c` with the given offset, which is not that of the moved probe. */
  ghost predicate Hidden(f: Z.Zone, c: int, offset: int) {
    offset != f(c) && InstantInRange(c - offset) && Kept(f, c, offset) != []
  }

  /** A probe that had to be taken at the reading itself hides the offset of an instant with that reading: the offset
  at the first or at the last instant. */
  ghost predicate Missed(f: Z.Zone, c: int) {
    || (LowProbe(c) == c && Hidden(f, c, f(MIN_EPOCH_NS)))
    || (HighProbe(c) == c && Hidden(f, c, f(MAX_EPOCH_NS)))
  }

  /** The list has instants with the given reading, in increasing order. */
  ghost predicate InOrder(f: Z.Zone, c: int, s: seq<int>) {
    && (forall x :: x in s ==> InstantInRange(x) && x + f(x) == c)
    && (forall i, j :: 0 <= i < j < |s| ==> s[i] < s[j])
  }

  /** Every instant with the given reading is a candidate. */
  ghost predicate Complete(f: Z.Zone, c: int) {
    forall x :: InstantInRange(x) && x + f(x) == c ==> x in Candidates(f, c)
  }

  /** An instant with the given reading has an offset from one of the two sides. */
  lemma SolutionsAreNear(f: Z.Zone, c: int, x: int)
    requires Bounded(f) && InstantInRange(c) && OneChange(f, Earliest(c), Latest(c)) && InstantInRange(x)
             && x + f(x) == c
    ensures x == c - f(Earliest(c)) || x == c - f(Latest(c))
  {
    var lo, hi := Earliest(c), Latest(c);
    assert IsOffset(f(x));
    if f(lo) == f(hi) {
      NoChange(f, lo, hi);
    } else {
      var t := TheChange(f, lo, hi);
    }
  }

  lemma CandidatesInOrder(f: Z.Zone, c: int)
    requires Bounded(f) && InstantInRange(c) && OneChange(f, Earliest(c), Latest(c))
    ensures Possible(f, c).Ok? ==> InOrder(f, c, Possible(f, c).value)
    ensures f(LowProbe(c)) == f(Earliest(c)) || f(LowProbe(c)) == f(Latest(c)) == f(HighProbe(c))
    ensures f(HighProbe(c)) == f(Latest(c)) || f(HighProbe(c)) == f(Earliest(c)) == f(LowProbe(c))
  {
    var lo, hi := Earliest(c), Latest(c);
    if f(lo) == f(hi) {
      NoChange(f, lo, hi);
    } else {
      var t := TheChange(f, lo, hi);
    }
  }

  /** With at most one change among the instants within a day either side, the result has only instants with the given
  reading, in increasing order, and it has all of them exactly when no probe had to be moved away from the offset of
  one. */
  lemma PossibleAreSolutions(f: Z.Zone, c: int)
    requires Bounded(f) && InstantInRange(c) && OneChange(f, Earliest(c), Latest(c))
    ensures Possible(f, c).Ok? ==> InOrder(f, c, Possible(f, c).value)
    ensures Complete(f, c) <==> !Missed(f, c)
  {
    hide Bounded, OneChange, InOrder;
    CandidatesInOrder(f, c);
    forall x | InstantInRange(x) && x + f(x) == c
      ensures x == c - f(Earliest(c)) || x == c - f(Latest(c))
    {
      SolutionsAreNear(f, c, x);
    }
    assert Complete(f, c) ==> !Missed(f, c) by {
      if Missed(f, c) {
        var early, late := c - f(Earliest(c)), c - f(Latest(c));
        assert early !in Candidates(f, c) || late !in Candidates(f, c);
      }
    }
  }

  /** A zone that sets its clocks back by an hour one hour after the first instant. */
  function FirstHour(x: int): int {
    if x < -8_640_000_000_000_000_000_000 + 3_600_000_000_000 then 3_600_000_000_000 else 0
  }

  /** Such a zone shows 01:00 twice, the first time at the first instant of all, which is not found. */
  lemma FirstInstantIsMissed(c: int)
    requires c == MIN_EPOCH_NS + 3_600_000_000_000
    ensures Bounded(FirstHour) && OneChange(FirstHour, Earliest(c), Latest(c))
    ensures MIN_EPOCH_NS + FirstHour(MIN_EPOCH_NS) == c
    ensures Missed(FirstHour, c) && Possible(FirstHour, c) == Ok([c])
  {
  }

  // ---------- disambiguation ----------

  /** The reading moved along the time line: what `AddDateTime` and the constructor make of it. */
  method Moved(dt: DateTime, k: int) returns (r: Result<DateTime>)
    requires ValidDateTime(dt) && InstantInRange(EpochNs(dt))
    ensures r.Ok? ==> ValidDateTime(r.value) && EpochNs(r.value) == EpochNs(dt) + k
    ensures InstantInRange(EpochNs(dt) + k) ==> r.Ok?
  {
    var dur := Duration(0, 0, 0, T.TimeDuration(0, 0, 0, 0, 0, 0, k));
    MovedParts(dt, k, dur);
    hide IsoDate.DayNumber, EpochNs, PlusNs, DateInRange, SignsAgree, CarriedDuration;
    var sum :- AddDateTime(dt, dur, O.Constrain);
    if InstantInRange(EpochNs(sum)) {
      InstantsHaveDates(sum);
    }
    if !DateTimeInRange(sum) {
      return RangeError;
    }
    return Ok(sum);
  }

  lemma MovedParts(dt: DateTime, k: int, dur: Duration)
    requires ValidDateTime(dt) && InstantInRange(EpochNs(dt))
    requires dur == Duration(0, 0, 0, T.TimeDuration(0, 0, 0, 0, 0, 0, k))
    ensures PlusNs(dt, dur) == EpochNs(dt) + k
    ensures DateInRange(dt.date) && SignsAgree(CarriedDuration(dt, dur))
    ensures InstantInRange(EpochNs(dt) + k) ==> DateInRange(D.Plus(dt.date, CarriedDuration(dt, dur)))
  {
    hide IsoDate.DayNumber, DateInRange, SignsAgree;
    var clock := T.TimeNs(dt.time) + k;
    var carried := CarriedDuration(dt, dur);
    assert carried == D.DateDuration(0, 0, 0, clock / DAY);
    D.ShiftNothing(dt.date);
    InstantsHaveDates(dt);
    OneSignAgrees(carried, Sign(carried.days));
    var moved := DateTime(D.Plus(dt.date, carried), T.TimeOfNs(clock % DAY));
    assert EpochNs(moved) == EpochNs(dt) + k;
    if InstantInRange(EpochNs(dt) + k) {
      InstantsHaveDates(moved);
    }
  }

  function First(r: Result<seq<int>>): Answer {
    if r.RangeError? then OutOfRange else if r.value == [] then Undefined else Chosen(r.value[0])
  }

  function Last(r: Result<seq<int>>): Answer {
    if r.RangeError? then OutOfRange else if r.value == [] then Undefined else Chosen(r.value[|r.value| - 1])
  }

  /** By how much the offset changes from a day before the reading to a day after it. */
  function Jump(f: Z.Zone, c: int): int {
    f(c + DAY) - f(c - DAY)
  }

  /** The choice in a gap: among the instants of the reading moved by the jump. */
  function InGap(f: Z.Zone, c: int, mode: Disambiguation): Answer {
    if !InstantInRange(c - DAY) || !InstantInRange(c + DAY) then OutOfRange
    else if !IsOffset(f(c - DAY)) || !IsOffset(f(c + DAY)) then OutOfRange
    else match mode
      case Earlier => First(Possible(f, c - Jump(f, c)))
      case Compatible | Later => Last(Possible(f, c + Jump(f, c)))
      case Reject => OutOfRange
  }

  /** `GetInstantFor`, with `DisambiguatePossibleInstants`. */
  method GetInstantFor(f: Z.Zone, dt: DateTime, mode: Disambiguation) returns (r: Answer)
    requires ValidDateTime(dt)
    ensures var c := EpochNs(dt);
            match Possible(f, c)
            case RangeError => r == OutOfRange
            case Ok(s) =>
              if s == [] then r == InGap(f, c, mode)
              else if |s| > 1 && mode == Reject then r == OutOfRange
              else r == Chosen(if mode == Later then s[|s| - 1] else s[0])
  {
    hide EpochNs, Possible;
    var possible := GetPossibleInstantsFor(f, dt);
    if possible.RangeError? {
      return OutOfRange;
    }
    var t := possible.value;
    if |t| == 1 {
      return Chosen(t[0]);
    }
    if |t| > 0 {
      match mode
      case Compatible | Earlier => return Chosen(t[0]);
      case Later => return Chosen(t[|t| - 1]);
      case Reject => return OutOfRange;
    }
    var c := EpochNs(dt);
    var before, after := c - DAY, c + DAY;
    if !InstantInRange(before) || !InstantInRange(after) {
      return OutOfRange;
    }
    if !IsOffset(f(before)) || !IsOffset(f(after)) {
      return OutOfRange;
    }
    var jump := f(after) - f(before);
    match mode
    case Earlier =>
      var moved := Moved(dt, -jump);
      if moved.RangeError? {
        NoInstant(f, c - jump);
        return OutOfRange;
      }
      var instants := GetPossibleInstantsFor(f, moved.value);
      return First(instants);
    case Compatible | Later =>
      var moved := Moved(dt, jump);
      if moved.RangeError? {
        NoInstant(f, c + jump);
        return OutOfRange;
      }
      var instants := GetPossibleInstantsFor(f, moved.value);
      return Last(instants);
    case Reject =>
      return OutOfRange;
  }

  /** No instant has the reading `c`. */
  ghost predicate Gap(f: Z.Zone, c: int) {
    forall x :: InstantInRange(x) ==> x + f(x) != c
  }

  /** A gap is a change to a larger offset, and the reading falls into it. */
  lemma GapShape(f: Z.Zone, c: int) returns (t: int)
    requires InstantInRange(c - DAY) && InstantInRange(c + DAY)
    requires Bounded(f) && OneChange(f, c - DAY, c + DAY) && Gap(f, c)
    ensures var early, late := f(c - DAY), f(c + DAY);
            early < late && c - late < t <= c - early && Z.Change(f, t) && f(t - 1) == early && f(t) == late
  {
    var lo, hi := c - DAY, c + DAY;
    var x, y := c - f(lo), c - f(hi);
    assert x + f(x) != c && y + f(y) != c;
    if f(lo) == f(hi) {
      NoChange(f, lo, hi);
      assert false;
    } else {
      t := TheChange(f, lo, hi);
    }
  }

  /** A change at `t`, and no other within `reach` of the reading. */
  ghost predicate Splits(f: Z.Zone, c: int, reach: int, t: int) {
    && (forall x :: c - reach <= x < t ==> f(x) == f(c - DAY))
    && (forall x :: t <= x <= c + reach ==> f(x) == f(c + DAY))
  }

  /** The answer to "earlier" in a gap between the offsets `early` and `late`, when the change is at `t`. */
  function EarlierAnswer(c: int, early: int, late: int, t: int): Answer {
    var moved := c - (late - early);
    if moved - DAY >= MIN_EPOCH_NS then Chosen(c - late)
    else if moved < MIN_EPOCH_NS || (moved + DAY >= t && moved - late < MIN_EPOCH_NS) then OutOfRange
    else if moved < t then Chosen(c - late)
    else Undefined
  }

  /** The answer to "compatible" and "later". */
  function LaterAnswer(c: int, early: int, late: int, t: int): Answer {
    var moved := c + (late - early);
    if moved + DAY <= MAX_EPOCH_NS then Chosen(c - early)
    else if moved > MAX_EPOCH_NS || (moved - DAY < t && moved - early >= MAX_EPOCH_NS + 1_000_000) then OutOfRange
    else if moved >= t then Chosen(c - early)
    else Undefined
  }

  /** A gap at `c`: the change from the smaller to the larger offset at `t`, and no other within reach. */
  ghost predicate GapAt(f: Z.Zone, c: int, t: int) {
    var early, late := f(c - DAY), f(c + DAY);
    && InstantInRange(c - DAY) && InstantInRange(c + DAY)
    && Splits(f, c, DAY + late - early, t) && early < late && c - late < t <= c - early
  }

  /** A reading for which only one of two offsets gives an instant: it is found if it is probed, unless the probe
  of the other one throws. */
  lemma OneOffsetAnswers(f: Z.Zone, c: int, right: int, wrong: int)
    requires InstantInRange(c) && InstantInRange(c - right) && right != wrong
    requires (f(LowProbe(c)) == right || f(LowProbe(c)) == wrong)
             && (f(HighProbe(c)) == right || f(HighProbe(c)) == wrong)
    requires Kept(f, c, right) == [c - right] && Kept(f, c, wrong) == []
    ensures Possible(f, c)
            == if (f(LowProbe(c)) == wrong || f(HighProbe(c)) == wrong) && !Formattable(c - wrong) then RangeError
               else if f(LowProbe(c)) == right || f(HighProbe(c)) == right then Ok([c - right])
               else Ok([])
  {
    hide Kept, LowProbe, HighProbe;
    var s := Probed(f, c);
    assert c - f(LowProbe(c)) in s && c - f(HighProbe(c)) in s;
    assert Candidates(f, c) == if f(LowProbe(c)) == right || f(HighProbe(c)) == right then [c - right] else [];
  }

  /** The probes for the reading moved back, and which offset gives an instant with it. */
  lemma EarlierProbes(f: Z.Zone, c: int, t: int)
    requires Bounded(f) && GapAt(f, c, t)
    ensures var early, late := f(c - DAY), f(c + DAY);
            var moved := c - (late - early);
            && f(HighProbe(moved)) == (if moved + DAY >= t then late else early)
            && (moved >= MIN_EPOCH_NS ==>
                  f(LowProbe(moved)) == if moved - DAY >= MIN_EPOCH_NS || moved < t then early else late)
            && Kept(f, moved, late) == [] && Kept(f, moved, early) == [c - late]
  {
    var early, late := f(c - DAY), f(c + DAY);
    var moved := c - (late - early);
    assert IsOffset(early) && IsOffset(late);
    assert f(c - late) == early;
    assert moved - late > c - DAY - (late - early);
    assert f(moved - late) == early;
  }

  lemma EarlierInGap(f: Z.Zone, c: int, t: int)
    requires Bounded(f) && GapAt(f, c, t)
    ensures InGap(f, c, Earlier) == EarlierAnswer(c, f(c - DAY), f(c + DAY), t)
  {
    hide Kept, Splits, Possible, LowProbe, HighProbe;
    EarlierProbes(f, c, t);
    var early, late := f(c - DAY), f(c + DAY);
    var moved := c - (late - early);
    assert IsOffset(early) && IsOffset(late);
    hide Bounded;
    if moved >= MIN_EPOCH_NS {
      OneOffsetAnswers(f, moved, early, late);
    } else {
      NoInstant(f, moved);
    }
  }

  /** The probes for the reading moved on, and which offset gives an instant with it. */
  lemma LaterProbes(f: Z.Zone, c: int, t: int)
    requires Bounded(f) && GapAt(f, c, t)
    ensures var early, late := f(c - DAY), f(c + DAY);
            var moved := c + (late - early);
            && f(LowProbe(moved)) == (if moved - DAY >= t then late else early)
            && (moved <= MAX_EPOCH_NS ==>
                  f(HighProbe(moved)) == if moved + DAY <= MAX_EPOCH_NS || moved >= t then late else early)
            && Kept(f, moved, early) == [] && Kept(f, moved, late) == [c - early]
  {
    var early, late := f(c - DAY), f(c + DAY);
    var moved := c + (late - early);
    assert IsOffset(early) && IsOffset(late);
    assert f(c - early) == late;
    assert f(moved - early) == late;
  }

  lemma LaterInGap(f: Z.Zone, c: int, t: int)
    requires Bounded(f) && GapAt(f, c, t)
    ensures InGap(f, c, Compatible) == InGap(f, c, Later) == LaterAnswer(c, f(c - DAY), f(c + DAY), t)
  {
    hide Kept, Splits, Possible, LowProbe, HighProbe;
    LaterProbes(f, c, t);
    var early, late := f(c - DAY), f(c + DAY);
    var moved := c + (late - early);
    assert IsOffset(early) && IsOffset(late);
    hide Bounded;
    if moved <= MAX_EPOCH_NS {
      OneOffsetAnswers(f, moved, late, early);
    } else {
      NoInstant(f, moved);
    }
  }

  /** The two answers to a gap: the reading moved back by the gap is shown just before the change, the reading moved
  on by the gap just after it. Each is found unless it lies so near to an end of the range that a probe for it
  is moved, or lies outside. */
  lemma GapDisambiguation(f: Z.Zone, c: int) returns (t: int)
    requires InstantInRange(c - DAY) && InstantInRange(c + DAY)
    requires Bounded(f) && Gap(f, c)
    requires var reach := DAY + Abs(Jump(f, c)); OneChange(f, c - reach, c + reach)
    ensures var early, late, j := f(c - DAY), f(c + DAY), Jump(f, c);
            && Z.Change(f, t) && c - late < t <= c - early
            && c - late + f(c - late) == c - j && c - early + f(c - early) == c + j
            && InGap(f, c, Earlier) == EarlierAnswer(c, early, late, t)
            && InGap(f, c, Compatible) == InGap(f, c, Later) == LaterAnswer(c, early, late, t)
  {
    var reach := DAY + Abs(Jump(f, c));
    t := GapShape(f, c);
    assert f(c - reach) == f(t - 1) && f(c + reach) == f(t) by {
      Z.SteadyIsConstant(f, c - reach, t - 1, t - 1);
      Z.SteadyIsConstant(f, t, c + reach, c + reach);
    }
    var u := TheChange(f, c - reach, c + reach);
    assert u == t;
    EarlierInGap(f, c, t);
    LaterInGap(f, c, t);
  }
}
