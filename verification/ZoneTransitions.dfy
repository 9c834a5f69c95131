/** The search for the transitions of a named time zone: probes a fortnight apart, then bisection to the nanosecond.
The zone is the function that gives the UTC offset in force at an instant. */
module ZoneTransitions {
  import opened Instants
  import opened JsNumbers

  type Zone = int -> int

  datatype Transition = At(ns: int) | None | InvalidState

  /** The probes are 14 days apart, and start from 1847 at the earliest. */
  const FORTNIGHT: int := 1_209_600_000_000_000
  const LOWER_LIMIT: int := -3_881_520_000_000_000_000
  const YEAR_2088: int := 3_723_753_600_000_000_000

  /** `afterLatestPossibleTzdbRuleChange`: ten years from now. */
  function LatestRuleChange(now: int): int {
    now + 3660 * DAY
  }

  ghost predicate Change(f: Zone, x: int) {
    f(x) != f(x - 1)
  }

  /** No change after `lo`, up to and including `hi`. */
  ghost predicate Steady(f: Zone, lo: int, hi: int) {
    forall x :: lo < x <= hi ==> !Change(f, x)
  }

  /** At most one change in any window of 14 days. */
  ghost predicate Spaced(f: Zone) {
    forall x, y :: Change(f, x) && Change(f, y) && x < y ==> y - x >= FORTNIGHT
  }

  ghost predicate LeastChange(f: Zone, lo: int, hi: int, x: int) {
    lo < x <= hi && Change(f, x) && Steady(f, lo, x - 1)
  }

  ghost predicate GreatestChange(f: Zone, lo: int, hi: int, x: int) {
    lo < x <= hi && Change(f, x) && Steady(f, x, hi)
  }

  lemma {:induction false} SteadyIsConstant(f: Zone, lo: int, hi: int, x: int)
    requires lo <= x <= hi && Steady(f, lo, hi)
    ensures f(x) == f(lo)
    decreases x - lo
  {
    if x == lo {
    } else {
      assert !Change(f, x);
      SteadyIsConstant(f, lo, hi, x - 1);
    }
  }

  /** A window with the same offset at both ends holds no change: a single one would show. */
  lemma EqualEndsAreSteady(f: Zone, a: int, b: int)
    requires Spaced(f) && a <= b <= a + FORTNIGHT && f(a) == f(b)
    ensures Steady(f, a, b)
  {
    forall x | a < x <= b
      ensures !Change(f, x)
    {
      if Change(f, x) {
        assert Steady(f, a, x - 1) && Steady(f, x, b);
        SteadyIsConstant(f, a, x - 1, x - 1);
        SteadyIsConstant(f, x, b, b);
      }
    }
  }

  lemma SteadyTogether(f: Zone, a: int, b: int, c: int)
    requires Steady(f, a, b) && Steady(f, b, c)
    ensures Steady(f, a, c)
  {
  }

  /** In a window with one change every offset is that of one of the ends. */
  lemma OneChangeTwoOffsets(f: Zone, a: int, b: int, x: int)
    requires Spaced(f) && a <= x <= b <= a + FORTNIGHT
    ensures f(x) == f(a) || f(x) == f(b)
  {
    if !Steady(f, a, x) {
      var y :| a < y <= x && Change(f, y);
      assert Steady(f, x, b);
      SteadyIsConstant(f, x, b, b);
    } else {
      SteadyIsConstant(f, a, x, x);
    }
  }

  // ---------- bisection ----------

  /** `bisect`. Whatever it returns is a change, also among negative instants, where the midpoint is rounded up;
  it fails only on a third offset between the two ends. */
  method Bisect(f: Zone, r: int, o: int, n: int, a: int) returns (res: Transition)
    requires r < o && n == f(r) && a == f(o) && n != a
    ensures res.At? ==> r < res.ns <= o && Change(f, res.ns)
    ensures !res.None? && (res.InvalidState? ==> exists x :: r < x < o && f(x) != n && f(x) != a)
    ensures Spaced(f) && o - r <= FORTNIGHT ==>
              res.At? && LeastChange(f, r, o, res.ns) && GreatestChange(f, r, o, res.ns)
  {
    var i, s, l, d := r, o, n, a;
    while s - i > 1
      invariant r <= i < s <= o
      invariant l == n == f(i) && d == a == f(s)
      decreases s - i
    {
      var mid := TruncDiv(i + s, 2);
      var offset := f(mid);
      if offset == l {
        i, l := mid, offset;
      } else {
        if offset != d {
          if Spaced(f) && o - r <= FORTNIGHT {
            OneChangeTwoOffsets(f, r, o, mid);
          }
          return InvalidState;
        }
        s, d := mid, offset;
      }
    }
    assert Change(f, s);
    return At(s);
  }

  // ---------- the next transition ----------

  /** How far `GetNamedTimeZoneNextTransition` looks from a start not below the lower limit. */
  function NextLimit(now: int, start: int): int {
    var late := LatestRuleChange(now);
    if late < start + 366 * DAY then start + 366 * DAY else late
  }

  function AtLeast(least: int, x: int): int {
    if x < least then least else x
  }

  function AtMost(most: int, x: int): int {
    if x > most then most else x
  }

  /** The last probe: the first one at or past the limit, or else the last that is an instant. */
  function LastProbe(now: int, start: int): int {
    var enough := (NextLimit(now, start) - start + 1_209_599_999_999_999) / FORTNIGHT;
    var possible := (8_640_000_000_000_000_000_000 - start) / FORTNIGHT;
    start + FORTNIGHT * AtLeast(0, AtMost(possible, enough))
  }

  lemma ProbesReachLast(now: int, start: int, k: nat, a: int)
    requires a == start + FORTNIGHT * k && (k > 0 ==> a <= MAX_EPOCH_NS)
    requires k > 0 ==> a < NextLimit(now, start) + FORTNIGHT
    ensures a >= NextLimit(now, start) || a + FORTNIGHT > MAX_EPOCH_NS ==> LastProbe(now, start) == a
    ensures a < NextLimit(now, start) && a + FORTNIGHT <= MAX_EPOCH_NS ==> LastProbe(now, start) >= a + FORTNIGHT
  {
  }

  /** `GetNamedTimeZoneNextTransition`. */
  method NextTransition(f: Zone, now: int, r: int) returns (res: Transition)
    ensures res.At? ==> res.ns > AtLeast(LOWER_LIMIT, r) && Change(f, res.ns)
    ensures Spaced(f) ==>
              var start := AtLeast(LOWER_LIMIT, r);
              match res
              case At(x) => LeastChange(f, start, LastProbe(now, start), x)
              case None => Steady(f, start, LastProbe(now, start))
              case InvalidState => false
    decreases r < LOWER_LIMIT
  {
    if r < LOWER_LIMIT {
      res := NextTransition(f, now, LOWER_LIMIT);
      return;
    }
    var n := NextLimit(now, r);
    var a := AtLeast(LOWER_LIMIT, r);
    var i := f(a);
    hide LastProbe;
    var s, l := a, i;
    ghost var k := 0;
    while i == l && a < n
      invariant k >= 0 && a == r + FORTNIGHT * k && i == f(a)
      invariant Spaced(f) ==> Steady(f, r, a)
      invariant k == 0 || a <= MAX_EPOCH_NS
      invariant k > 0 ==> a < n + FORTNIGHT
      invariant if i == l then s == a else s == a + FORTNIGHT && l == f(s) && a < n && s <= MAX_EPOCH_NS
      decreases i == l, n - a
    {
      ProbesReachLast(now, r, k, a);
      s := a + FORTNIGHT;
      if s > MAX_EPOCH_NS {
        return None;
      }
      l := f(s);
      if i == l {
        if Spaced(f) {
          EqualEndsAreSteady(f, a, s);
        }
        a := s;
        k := k + 1;
      }
    }
    ProbesReachLast(now, r, k, a);
    if i == l {
      return None;
    }
    res := Bisect(f, a, s, i, l);
  }

  // ---------- the previous transition ----------

  /** In these two zones the search starts from 2088 at the latest. */
  predicate StartsIn2088(morocco: bool, r: int) {
    morocco && YEAR_2088 < r
  }

  predicate Far(now: int, r: int) {
    r > LatestRuleChange(now)
  }

  /** The instant down to which `GetNamedTimeZonePreviousTransition` looks. */
  function PreviousLimit(now: int, r: int): int {
    if Far(now, r) then r - 366 * DAY else LOWER_LIMIT
  }

  /** The lowest probe: the first one at or past the limit, or else the last above the lower limit. */
  function LowestProbe(now: int, r: int): int {
    var enough := (r - 1 - PreviousLimit(now, r) + 1_209_599_999_999_999) / FORTNIGHT;
    var possible := (r - 1 + 3_881_520_000_000_000_000) / FORTNIGHT;
    r - 1 - FORTNIGHT * AtLeast(0, AtMost(possible, enough))
  }

  /** The scan from `r` is at `s` after `k` fortnights. */
  ghost predicate ProbedAt(r: int, k: nat, s: int) {
    s == r - 1 - FORTNIGHT * k
  }

  lemma NextProbe(r: int, k: nat, s: int)
    ensures ProbedAt(r, 0, r - 1)
    ensures ProbedAt(r, k, s) ==> ProbedAt(r, k + 1, s - FORTNIGHT)
  {
  }

  /** The scan stops at its lowest probe, and not before. */
  lemma ProbesReachLowest(now: int, r: int, k: nat, s: int)
    requires ProbedAt(r, k, s) && s >= LOWER_LIMIT
    requires k > 0 ==> s > PreviousLimit(now, r) - FORTNIGHT
    ensures s <= PreviousLimit(now, r) || s - FORTNIGHT < LOWER_LIMIT ==> LowestProbe(now, r) == s
    ensures s > PreviousLimit(now, r) && s - FORTNIGHT >= LOWER_LIMIT ==> LowestProbe(now, r) <= s - FORTNIGHT
  {
  }

  /** How much further down a search can still start again. */
  function Height(now: int, r: int): nat {
    AtLeast(0, r - AtMost(YEAR_2088, LatestRuleChange(now) - DAY))
  }

  /** What `GetNamedTimeZonePreviousTransition` returns: the greatest change that its scan covers; after a scan
  without one from far ahead, the same from a day short of the latest rule change. */
  ghost predicate IsPrevious(f: Zone, morocco: bool, now: int, r: int, res: Transition)
    decreases Height(now, r)
  {
    if StartsIn2088(morocco, r) then
      IsPrevious(f, morocco, now, YEAR_2088, res)
    else if r - 1 < LOWER_LIMIT then
      res == None
    else if !Steady(f, LowestProbe(now, r), r - 1) then
      res.At? && GreatestChange(f, LowestProbe(now, r), r - 1, res.ns)
    else if Far(now, r) && LowestProbe(now, r) <= PreviousLimit(now, r) then
      IsPrevious(f, morocco, now, LatestRuleChange(now) - DAY, res)
    else
      res == None
  }

  lemma GreatestUnique(f: Zone, lo: int, hi: int, x: int, y: int)
    requires GreatestChange(f, lo, hi, x) && GreatestChange(f, lo, hi, y)
    ensures x == y
  {
  }

  /** The description of the search has one solution. */
  lemma {:induction false} PreviousDetermined(f: Zone, morocco: bool, now: int, r: int, res1: Transition,
                                              res2: Transition)
    requires IsPrevious(f, morocco, now, r, res1) && IsPrevious(f, morocco, now, r, res2)
    ensures res1 == res2
    decreases Height(now, r)
  {
    hide GreatestChange, Steady, LowestProbe;
    if StartsIn2088(morocco, r) {
      PreviousDetermined(f, morocco, now, YEAR_2088, res1, res2);
    } else if r - 1 < LOWER_LIMIT {
    } else if !Steady(f, LowestProbe(now, r), r - 1) {
      GreatestUnique(f, LowestProbe(now, r), r - 1, res1.ns, res2.ns);
    } else if Far(now, r) && LowestProbe(now, r) <= PreviousLimit(now, r) {
      PreviousDetermined(f, morocco, now, LatestRuleChange(now) - DAY, res1, res2);
    }
  }

  lemma StartsAgain(f: Zone, morocco: bool, now: int, r: int, res: Transition)
    requires if StartsIn2088(morocco, r) then IsPrevious(f, morocco, now, YEAR_2088, res)
             else && Far(now, r) && LOWER_LIMIT < r && LowestProbe(now, r) <= PreviousLimit(now, r)
                  && Steady(f, LowestProbe(now, r), r - 1)
                  && IsPrevious(f, morocco, now, LatestRuleChange(now) - DAY, res)
    ensures IsPrevious(f, morocco, now, r, res)
  {
    hide LowestProbe;
  }

  lemma ScansOnce(f: Zone, morocco: bool, now: int, r: int, res: Transition)
    requires !StartsIn2088(morocco, r) && LOWER_LIMIT < r
    requires if res.None?
             then Steady(f, LowestProbe(now, r), r - 1)
                 && !(Far(now, r) && LowestProbe(now, r) <= PreviousLimit(now, r))
             else res.At? && GreatestChange(f, LowestProbe(now, r), r - 1, res.ns)
    ensures IsPrevious(f, morocco, now, r, res)
  {
    hide LowestProbe;
  }

  lemma FoundOnScan(f: Zone, morocco: bool, now: int, r: int, d: int, s: int, x: int)
    requires !StartsIn2088(morocco, r) && LOWER_LIMIT < r && LowestProbe(now, r) <= d && s <= r - 1
    requires GreatestChange(f, d, s, x) && Steady(f, s, r - 1)
    ensures IsPrevious(f, morocco, now, r, At(x))
  {
    SteadyTogether(f, x, s, r - 1);
    ScansOnce(f, morocco, now, r, At(x));
  }

  lemma SearchesFall(now: int, r: int)
    ensures PreviousLimit(now, r) == if Far(now, r) then r - 366 * DAY else LOWER_LIMIT
    ensures Far(now, r) ==> Height(now, LatestRuleChange(now) - DAY) < Height(now, r)
    ensures YEAR_2088 < r ==> Height(now, YEAR_2088) < Height(now, r)
  {
  }

  /** `GetNamedTimeZonePreviousTransition`. */
  method PreviousTransition(f: Zone, morocco: bool, now: int, r: int) returns (res: Transition)
    ensures res.At? ==> res.ns < r && Change(f, res.ns)
    ensures Spaced(f) ==> IsPrevious(f, morocco, now, r, res)
    decreases Height(now, r)
  {
    var o := LatestRuleChange(now);
    var far := r > o;
    var i := if far then r - 366 * DAY else LOWER_LIMIT;
    if morocco {
      if YEAR_2088 < r {
        res := PreviousTransition(f, morocco, now, YEAR_2088);
        if Spaced(f) {
          StartsAgain(f, morocco, now, r, res);
        }
        return;
      }
    }
    var s := r - 1;
    if s < LOWER_LIMIT {
      return None;
    }
    assert Steady(f, s, r - 1);
    assert far == Far(now, r);
    NextProbe(r, 0, s);
    SearchesFall(now, r);
    hide LowestProbe, IsPrevious, Steady, Spaced, Change, LeastChange, GreatestChange, ProbedAt, PreviousLimit, Far,
         Height, LatestRuleChange, AtMost, AtLeast;
    var l := f(s);
    var d, m := s, l;
    ghost var k := 0;
    while l == m && s > i
      invariant k >= 0 && ProbedAt(r, k, s) && l == f(s) && LOWER_LIMIT <= s <= r - 1
      invariant Spaced(f) ==> Steady(f, s, r - 1)
      invariant k > 0 ==> s > i - FORTNIGHT
      invariant if l == m then d == s else d == s - FORTNIGHT && m == f(d) && s > i && d >= LOWER_LIMIT
      decreases l == m, s - i
    {
      ProbesReachLowest(now, r, k, s);
      d := s - FORTNIGHT;
      if d < LOWER_LIMIT {
        if Spaced(f) {
          ScansOnce(f, morocco, now, r, None);
        }
        return None;
      }
      m := f(d);
      if l == m {
        if Spaced(f) {
          EqualEndsAreSteady(f, d, s);
          SteadyTogether(f, d, s, r - 1);
        }
        NextProbe(r, k, s);
        s := d;
        k := k + 1;
      }
    }
    ProbesReachLowest(now, r, k, s);
    if l == m {
      if far {
        res := PreviousTransition(f, morocco, now, o - DAY);
        if Spaced(f) {
          StartsAgain(f, morocco, now, r, res);
        }
        return;
      }
      if Spaced(f) {
        ScansOnce(f, morocco, now, r, None);
      }
      return None;
    }
    res := Bisect(f, d, s, m, l);
    if Spaced(f) {
      FoundOnScan(f, morocco, now, r, d, s, res.ns);
    }
  }

  /** From just after a change the search finds that change, except within a fortnight of the lower limit, where
  it gives up without probing. */
  lemma ChangeIsFoundFromJustAfter(f: Zone, morocco: bool, now: int, x: int, res: Transition)
    requires Change(f, x) && !StartsIn2088(morocco, x + 1) && IsPrevious(f, morocco, now, x + 1, res)
    ensures res == At(x) <==> x >= LOWER_LIMIT + FORTNIGHT
    ensures x < LOWER_LIMIT + FORTNIGHT ==> res == None
  {
  }

  /** A search that starts no later than ten years from now finds the greatest change below its start; if it finds
  none there is none, save perhaps in the fortnight above the lower limit. */
  lemma NearSearchMissesNothing(f: Zone, morocco: bool, now: int, r: int, res: Transition)
    requires !Far(now, r) && !StartsIn2088(morocco, r) && IsPrevious(f, morocco, now, r, res)
    ensures match res
            case At(x) => x < r && Change(f, x) && Steady(f, x, r - 1)
            case None => Steady(f, LOWER_LIMIT + FORTNIGHT - 1, r - 1)
            case InvalidState => false
  {
    if r - 1 >= LOWER_LIMIT {
      assert LowestProbe(now, r) < LOWER_LIMIT + FORTNIGHT;
    }
  }

  /** A result misses nothing: it is the greatest change below the start, or there is none, save perhaps in the
  fortnight above the lower limit. */
  ghost predicate MissesNothing(f: Zone, r: int, res: Transition) {
    match res
    case At(x) => x < r && Change(f, x) && Steady(f, x, r - 1)
    case None => Steady(f, LOWER_LIMIT + FORTNIGHT - 1, r - 1)
    case InvalidState => false
  }

  /** The scans leave no gap: the search scans from its own start, and the scan from far ahead comes down to where
  the second one starts, or to the fortnight above the lower limit. */
  predicate ScansMeet(morocco: bool, now: int, r: int) {
    && !StartsIn2088(morocco, r)
    && (Far(now, r) ==> LowestProbe(now, r) < AtLeast(LOWER_LIMIT + FORTNIGHT, LatestRuleChange(now) - DAY))
  }

  lemma OneScanMissesNothing(f: Zone, morocco: bool, now: int, r: int, res: Transition)
    requires !Far(now, r) && ScansMeet(morocco, now, r) && IsPrevious(f, morocco, now, r, res)
    ensures MissesNothing(f, r, res)
  {
    NearSearchMissesNothing(f, morocco, now, r, res);
  }

  lemma TwoScansMissNothing(f: Zone, morocco: bool, now: int, r: int, res: Transition)
    requires Far(now, r) && ScansMeet(morocco, now, r) && IsPrevious(f, morocco, now, r, res)
    ensures MissesNothing(f, r, res)
  {
    var second := LatestRuleChange(now) - DAY;
    if r - 1 >= LOWER_LIMIT && Steady(f, LowestProbe(now, r), r - 1) && LowestProbe(now, r) <= PreviousLimit(now, r) {
      OneScanMissesNothing(f, morocco, now, second, res);
      hide LowestProbe, PreviousLimit, IsPrevious;
    }
  }

  /** A zone whose only change is at `t`. */
  function OneChangeAt(t: int): Zone {
    x => if x < t then 0 else 1
  }

  /** Where a zone has no change below the start, the search finds none. */
  lemma {:induction false} NothingBelow(f: Zone, morocco: bool, now: int, r: int)
    requires forall x :: x < r ==> !Change(f, x)
    ensures IsPrevious(f, morocco, now, r, None)
    decreases Height(now, r)
  {
    if StartsIn2088(morocco, r) {
      NothingBelow(f, morocco, now, YEAR_2088);
    } else if r - 1 < LOWER_LIMIT {
    } else if Far(now, r) && LowestProbe(now, r) <= PreviousLimit(now, r) {
      NothingBelow(f, morocco, now, LatestRuleChange(now) - DAY);
    }
  }

  /** If the scans leave a gap, a zone with its one change in the gap is searched in vain. */
  lemma GapIsMissed(morocco: bool, now: int, r: int) returns (t: int)
    requires !ScansMeet(morocco, now, r)
    ensures var f := OneChangeAt(t);
            && Spaced(f) && IsPrevious(f, morocco, now, r, None) && !MissesNothing(f, r, None)
            && forall res :: IsPrevious(f, morocco, now, r, res) ==> res == None
  {
    t := if StartsIn2088(morocco, r) then r - 1 else LowestProbe(now, r);
    var f := OneChangeAt(t);
    assert Change(f, t) && forall x :: x != t ==> !Change(f, x);
    if StartsIn2088(morocco, r) {
      NothingBelow(f, morocco, now, YEAR_2088);
    } else {
      LowestProbeFar(now, r);
      NothingBelow(f, morocco, now, LatestRuleChange(now) - DAY);
    }
    forall res | IsPrevious(f, morocco, now, r, res)
      ensures res == None
    {
      PreviousDetermined(f, morocco, now, r, res, None);
    }
  }

  /** A scan that stops above the lower limit by a fortnight has reached its own limit. */
  lemma LowestProbeFar(now: int, r: int)
    requires LowestProbe(now, r) >= LOWER_LIMIT + FORTNIGHT
    ensures LowestProbe(now, r) <= PreviousLimit(now, r)
  {
  }

  /** Every zone with changes at least 14 days apart is searched completely if and only if the scans meet. */
  lemma SearchIsCompleteIfScansMeet(morocco: bool, now: int, r: int)
    ensures ScansMeet(morocco, now, r)
            <==> forall f: Zone, res :: Spaced(f) && IsPrevious(f, morocco, now, r, res) ==> MissesNothing(f, r, res)
  {
    hide ScansMeet, MissesNothing, IsPrevious, Spaced;
    if ScansMeet(morocco, now, r) {
      forall f: Zone, res | Spaced(f) && IsPrevious(f, morocco, now, r, res)
        ensures MissesNothing(f, r, res)
      {
        if Far(now, r) {
          TwoScansMissNothing(f, morocco, now, r, res);
        } else {
          OneScanMissesNothing(f, morocco, now, r, res);
        }
      }
    } else {
      var t := GapIsMissed(morocco, now, r);
    }
  }

  /** Searched from day 5000 on day 0, a change on day 4000 is between the scans. */
  lemma ChangeBetweenTheScans(res: Transition)
    requires IsPrevious(OneChangeAt(4000 * DAY), false, 0, 5000 * DAY, res)
    ensures Spaced(OneChangeAt(4000 * DAY)) && Change(OneChangeAt(4000 * DAY), 4000 * DAY)
    ensures res == None
  {
    var r := 5000 * DAY;
    var f := OneChangeAt(4000 * DAY);
    assert LowestProbe(0, r) > 4000 * DAY;
    assert forall x :: x != 4000 * DAY ==> !Change(f, x);
  }
}
