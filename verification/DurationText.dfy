/** Durations as text: the printer of `TemporalDurationToString` with precision "auto", and the parser. */
module DurationText {
  import opened JsNumbers
  import opened Results
  import opened Decimals
  import T = TimeOfDay
  import opened DateTimes

  /** A number with a unit letter, if the text begins with one, perhaps with a fraction. */
  datatype Part = Missing | Part(whole: nat, fraction: string)

  /** A unit letter in either case. */
  predicate IsLetter(c: char, letter: char)
    requires 'A' <= letter <= 'Z'
  {
    c == letter || c == (letter as int + 32) as char
  }

  // ---------- parsing ----------

  /** The optional group `(\d+)` and a unit letter of the grammar, and what follows it. */
  function TakeField(s: string, letter: char): (Part, string)
    requires 'A' <= letter <= 'Z'
  {
    var n := LeadingDigits(s);
    if n > 0 && n < |s| && IsLetter(s[n], letter) then (Part(Value(s[..n]), ""), s[n + 1..]) else (Missing, s)
  }

  /** The same with an optional fraction of one to nine digits. */
  function TakePart(s: string, letter: char): (r: (Part, string))
    requires 'A' <= letter <= 'Z'
    ensures r.0.Part? ==> AllDigits(r.0.fraction)
  {
    var n := LeadingDigits(s);
    if n > 0 && n < |s| && (s[n] == '.' || s[n] == ',') then
      var rest := s[n + 1..];
      var k := LeadingDigits(rest);
      if 1 <= k <= 9 && k < |rest| && IsLetter(rest[k], letter) then (Part(Value(s[..n]), rest[..k]), rest[k + 1..])
      else (Missing, s)
    else TakeField(s, letter)
  }

  function Whole(p: Part): nat {
    if p.Part? then p.whole else 0
  }

  predicate HasFraction(p: Part) {
    p.Part? && p.fraction != ""
  }

  function FractionValue(p: Part): nat
    requires p.Part? ==> AllDigits(p.fraction)
  {
    if HasFraction(p) then Value(RightPadded(p.fraction)) else 0
  }

  /** All fields, in the order in which `DurationSign` and `RejectDuration` look at them. */
  function Fields(d: Duration): seq<int> {
    [d.years, d.months, d.weeks, d.time.days, d.time.hours, d.time.minutes, d.time.seconds, d.time.ms, d.time.us,
     d.time.ns]
  }

  /** What `RejectDuration` lets through: no field disagrees in sign with the first one that is not zero. */
  predicate Consistent(d: Duration) {
    OneSign(d, T.FirstSign(Fields(d)))
  }

  /** The fraction of the smallest unit, in nanoseconds times `sign`, spread over the smaller units. */
  function Spread(d: Duration, p: int): Duration {
    d.(time := d.time.(minutes := d.time.minutes + TruncDiv(p, 60_000_000_000),
                       seconds := d.time.seconds + TruncMod(TruncDiv(p, 1_000_000_000), 60),
                       ms := TruncMod(TruncDiv(p, 1_000_000), 1000),
                       us := TruncMod(TruncDiv(p, 1000), 1000),
                       ns := TruncMod(p, 1000)))
  }

  function Assemble(sign: int, years: Part, months: Part, weeks: Part, days: Part, h: Part, mi: Part,
                    s: Part): Result<Duration>
    requires (h.Part? ==> AllDigits(h.fraction)) && (mi.Part? ==> AllDigits(mi.fraction))
             && (s.Part? ==> AllDigits(s.fraction))
  {
    if years.Missing? && months.Missing? && weeks.Missing? && days.Missing? && h.Missing? && mi.Missing?
        && s.Missing? then
      RangeError
    else if (HasFraction(h) && (mi.Part? || s.Part?)) || (HasFraction(mi) && s.Part?) then
      RangeError
    else
      var d := Duration(sign * Whole(years), sign * Whole(months), sign * Whole(weeks),
                        T.TimeDuration(sign * Whole(days), sign * Whole(h), sign * Whole(mi), sign * Whole(s), 0, 0,
                                       0));
      var p := if HasFraction(h) then 3600 * FractionValue(h)
               else if HasFraction(mi) then 60 * FractionValue(mi)
               else FractionValue(s);
      if Consistent(Spread(d, sign * p)) then Ok(Spread(d, sign * p)) else RangeError
  }

  /** The part after the designator `T`. */
  function ParseTime(sign: int, years: Part, months: Part, weeks: Part, days: Part, s: string): Result<Duration> {
    var (h, s1) := TakePart(s, 'H');
    var (mi, s2) := TakePart(s1, 'M');
    var (sec, s3) := TakePart(s2, 'S');
    if s3 == "" then Assemble(sign, years, months, weeks, days, h, mi, sec) else RangeError
  }

  /** The part after the designator `P`. */
  function ParseDate(sign: int, s: string): Result<Duration> {
    var (years, s1) := TakeField(s, 'Y');
    var (months, s2) := TakeField(s1, 'M');
    var (weeks, s3) := TakeField(s2, 'W');
    var (days, s4) := TakeField(s3, 'D');
    if s4 == "" then Assemble(sign, years, months, weeks, days, Missing, Missing, Missing)
    else if IsLetter(s4[0], 'T') && |s4| > 1 then ParseTime(sign, years, months, weeks, days, s4[1..])
    else RangeError
  }

  /** `ParseTemporalDurationString`. */
  function ParseDuration(s: string): Result<Duration> {
    var signed := s != "" && (s[0] == '+' || IsMinus(s[0]));
    var body := if signed then s[1..] else s;
    if body != "" && IsLetter(body[0], 'P') then
      ParseDate(if signed && IsMinus(s[0]) then -1 else 1, body[1..])
    else RangeError
  }

  // ---------- printing ----------

  function PrintField(n: nat, letter: char): string {
    if n == 0 then "" else Digits(n) + [letter]
  }

  /** Seconds with as many decimals as needed. */
  function PrintSeconds(ns: nat): string {
    if ns == 0 then ""
    else Digits(ns / 1_000_000_000)
         + (if ns % 1_000_000_000 == 0 then "" else "." + Stripped(Padded(ns % 1_000_000_000, 9))) + "S"
  }

  /** The seconds and everything below, in nanoseconds. */
  function SecondsTotal(d: Duration): int {
    T.Nanoseconds(0, 0, d.time.seconds, d.time.ms, d.time.us, d.time.ns)
  }

  function PrintTime(d: Duration): string {
    var time := PrintField(Abs(d.time.hours), 'H') + PrintField(Abs(d.time.minutes), 'M')
                + PrintSeconds(Abs(SecondsTotal(d)));
    if time == "" then "" else "T" + time
  }

  function PrintDate(d: Duration): string {
    PrintField(Abs(d.years), 'Y') + PrintField(Abs(d.months), 'M') + PrintField(Abs(d.weeks), 'W')
        + PrintField(Abs(d.time.days), 'D')
  }

  function PrintDuration(d: Duration): string {
    if PrintDate(d) == "" && PrintTime(d) == "" then "PT0S"
    else (if T.FirstSign(Fields(d)) < 0 then "-" else "") + "P" + PrintDate(d) + PrintTime(d)
  }

  /** The three divisions by 1000 leave the magnitudes of the whole seconds and of the rest. */
  lemma DividedThrice(total: int)
    ensures var q1 := DivMod(total, 1000);
            var q2 := DivMod(q1.0, 1000);
            var q3 := DivMod(q2.0, 1000);
            && 1_000_000 * Abs(q3.1) + 1000 * Abs(q2.1) + Abs(q1.1) == Abs(total) % 1_000_000_000
            && Abs(q3.0) == Abs(total) / 1_000_000_000
  {
    hide TruncDiv, TruncMod;
    var q1 := DivMod(total, 1000);
    var q2 := DivMod(q1.0, 1000);
    var q3 := DivMod(q2.0, 1000);
    var p := 1_000_000 * Abs(q3.1) + 1000 * Abs(q2.1) + Abs(q1.1);
    DivModUnique(Abs(total), 1_000_000_000, Abs(q3.0), p);
  }

  /** `TemporalDurationToString` with precision "auto". */
  method TemporalDurationToString(d: Duration) returns (r: string)
    ensures r == PrintDuration(d)
  {
    hide Digits, Padded, Stripped, T.FirstSign, T.Nanoseconds, DivMod, Abs;
    var sign := T.DurationSign(Fields(d));
    var date := PrintField(Abs(d.years), 'Y') + PrintField(Abs(d.months), 'M') + PrintField(Abs(d.weeks), 'W')
                + PrintField(Abs(d.time.days), 'D');
    var time := PrintField(Abs(d.time.hours), 'H') + PrintField(Abs(d.time.minutes), 'M');
    var total := T.TotalDurationNanoseconds(T.TimeDuration(0, 0, 0, d.time.seconds, d.time.ms, d.time.us, d.time.ns),
                                            0);
    DividedThrice(total);
    var q1 := DivMod(total, 1000);
    var q2 := DivMod(q1.0, 1000);
    var q3 := DivMod(q2.0, 1000);
    var p := 1_000_000 * Abs(q3.1) + 1000 * Abs(q2.1) + Abs(q1.1);
    var seconds := "";
    if p != 0 {
      var z := StripTrailingZeros(Padded(p, 9));
      seconds := "." + z;
    }
    if !(q3.0 == 0 && seconds == "") {
      seconds := Digits(Abs(q3.0)) + seconds;
    }
    NoSeconds(total, q3.0, p);
    if seconds != "" {
      time := time + (seconds + "S");
    }
    assert time == PrintField(Abs(d.time.hours), 'H') + PrintField(Abs(d.time.minutes), 'M')
           + PrintSeconds(Abs(SecondsTotal(d)));
    if time != "" {
      time := "T" + time;
    }
    if date == "" && time == "" {
      return "PT0S";
    }
    return (if sign < 0 then "-" else "") + "P" + date + time;
  }

  lemma NoSeconds(total: int, f: int, p: nat)
    requires Abs(f) == Abs(total) / 1_000_000_000 && p == Abs(total) % 1_000_000_000
    ensures f == 0 && p == 0 <==> Abs(total) == 0
    ensures f == 0 <==> Abs(f) == 0
  {
  }

  // ---------- reading back what was printed ----------

  function FieldPart(n: nat): Part {
    if n == 0 then Missing else Part(n, "")
  }

  function SecondsPart(total: nat): Part {
    if total == 0 then Missing
    else Part(total / 1_000_000_000,
              if total % 1_000_000_000 == 0 then "" else Stripped(Padded(total % 1_000_000_000, 9)))
  }

  /** The text does not begin with a number and this letter, with or without a fraction. */
  predicate NoPart(s: string, letter: char)
    requires 'A' <= letter <= 'Z'
  {
    TakeField(s, letter) == TakePart(s, letter) == (Missing, s)
  }

  lemma FieldIsTaken(n: nat, letter: char, rest: string)
    requires 'A' <= letter <= 'Z' && NoPart(rest, letter)
    ensures var s := PrintField(n, letter) + rest; TakeField(s, letter) == TakePart(s, letter) == (FieldPart(n), rest)
  {
    if n > 0 {
      var s := PrintField(n, letter) + rest;
      assert s == Digits(n) + ([letter] + rest);
      LeadingDigitsOf(Digits(n), [letter] + rest);
      ValueOfDigits(n);
      assert s[|Digits(n)| + 1..] == rest;
    } else {
      assert PrintField(n, letter) + rest == rest;
    }
  }

  lemma FieldIsSkipped(n: nat, letter: char, other: char, rest: string)
    requires 'A' <= letter <= 'Z' && 'A' <= other <= 'Z' && letter != other && NoPart(rest, other)
    ensures NoPart(PrintField(n, letter) + rest, other)
  {
    if n > 0 {
      assert PrintField(n, letter) + rest == Digits(n) + ([letter] + rest);
      LeadingDigitsOf(Digits(n), [letter] + rest);
    } else {
      assert PrintField(n, letter) + rest == rest;
    }
  }

  lemma SecondsAreTaken(total: nat)
    ensures TakePart(PrintSeconds(total), 'S') == (SecondsPart(total), "")
    ensures NoPart(PrintSeconds(total), 'H') && NoPart(PrintSeconds(total), 'M')
  {
    if total == 0 {
      assert LeadingDigits("") == 0;
    } else if total % 1_000_000_000 == 0 {
      var d := Digits(total / 1_000_000_000);
      assert PrintSeconds(total) == d + "S";
      LeadingDigitsOf(d, "S");
      ValueOfDigits(total / 1_000_000_000);
    } else {
      SecondsWithFraction(total / 1_000_000_000, total % 1_000_000_000);
    }
  }

  lemma SecondsWithFraction(seconds: nat, ns: nat)
    requires 0 < ns < 1_000_000_000
    ensures var z := Stripped(Padded(ns, 9));
            var s := Digits(seconds) + ("." + z) + "S";
            && AllDigits(z) && TakePart(s, 'S') == (Part(seconds, z), "") && NoPart(s, 'H') && NoPart(s, 'M')
  {
    hide Padded, Stripped, Value;
    Billion();
    PaddedIsFixed(ns, 9);
    PaddingUndoesStripping(Padded(ns, 9));
    StrippedIsEmpty(Padded(ns, 9));
    ValueOfDigits(seconds);
    FractionIsTaken(Digits(seconds), Stripped(Padded(ns, 9)));
  }

  lemma FractionIsTaken(d: string, z: string)
    requires AllDigits(d) && AllDigits(z) && d != "" && 1 <= |z| <= 9
    ensures var s := d + ("." + z) + "S";
            TakePart(s, 'S') == (Part(Value(d), z), "") && NoPart(s, 'H') && NoPart(s, 'M')
  {
    FractionScanned(d, z);
    FractionIsNoPart(d, z);
    hide LeadingDigits, Value, AllDigits, NoPart, TakeField;
    var s := d + ("." + z) + "S";
    assert s[|d|] == '.' && (z + "S")[|z|] == 'S';
  }

  lemma FractionIsNoPart(d: string, z: string)
    requires AllDigits(d) && AllDigits(z) && d != "" && 1 <= |z| <= 9
    ensures var s := d + ("." + z) + "S"; NoPart(s, 'H') && NoPart(s, 'M')
  {
    FractionScanned(d, z);
    hide LeadingDigits, Value, AllDigits;
    var s := d + ("." + z) + "S";
    assert s[|d|] == '.' && !IsLetter('.', 'H') && !IsLetter('.', 'M');
  }

  lemma FractionScanned(d: string, z: string)
    requires AllDigits(d) && AllDigits(z)
    ensures var s := d + ("." + z) + "S";
            && LeadingDigits(s) == |d| && s[..|d|] == d && s[|d| + 1..] == z + "S"
            && LeadingDigits(z + "S") == |z| && (z + "S")[..|z|] == z && (z + "S")[|z|..] == "S"
               && (z + "S")[|z| + 1..] == ""
  {
    hide LeadingDigits, AllDigits;
    var s := d + ("." + z) + "S";
    assert s == d + ("." + z + "S");
    LeadingDigitsOf(d, "." + z + "S");
    LeadingDigitsOf(z, "S");
  }

  lemma DesignatorIsNoPart(tail: string, letter: char)
    requires 'A' <= letter <= 'Z' && (tail == "" || tail[0] == 'T')
    ensures NoPart(tail, letter)
  {
    LeadingDigitsOf("", tail);
    assert "" + tail == tail;
  }

  lemma DateParses(sign: int, y: nat, mo: nat, w: nat, da: nat, tail: string)
    requires tail == "" || (tail[0] == 'T' && |tail| > 1)
    ensures ParseDate(sign, PrintField(y, 'Y') + PrintField(mo, 'M') + PrintField(w, 'W') + PrintField(da, 'D') + tail)
            == if tail == ""
               then Assemble(sign, FieldPart(y), FieldPart(mo), FieldPart(w), FieldPart(da), Missing, Missing, Missing)
               else ParseTime(sign, FieldPart(y), FieldPart(mo), FieldPart(w), FieldPart(da), tail[1..])
  {
    hide TakeField, TakePart, PrintField, Assemble, ParseTime;
    DesignatorIsNoPart(tail, 'D');
    DesignatorIsNoPart(tail, 'W');
    DesignatorIsNoPart(tail, 'M');
    DesignatorIsNoPart(tail, 'Y');
    var s4 := PrintField(da, 'D') + tail;
    FieldIsTaken(da, 'D', tail);
    FieldIsSkipped(da, 'D', 'W', tail);
    FieldIsSkipped(da, 'D', 'M', tail);
    FieldIsSkipped(da, 'D', 'Y', tail);
    var s3 := PrintField(w, 'W') + s4;
    FieldIsTaken(w, 'W', s4);
    FieldIsSkipped(w, 'W', 'M', s4);
    FieldIsSkipped(w, 'W', 'Y', s4);
    var s2 := PrintField(mo, 'M') + s3;
    FieldIsTaken(mo, 'M', s3);
    FieldIsSkipped(mo, 'M', 'Y', s3);
    FieldIsTaken(y, 'Y', s2);
    assert PrintField(y, 'Y') + s2
           == PrintField(y, 'Y') + PrintField(mo, 'M') + PrintField(w, 'W') + PrintField(da, 'D') + tail;
  }

  lemma TimeParses(sign: int, years: Part, months: Part, weeks: Part, days: Part, h: nat, mi: nat, total: nat)
    ensures ParseTime(sign, years, months, weeks, days, PrintField(h, 'H') + PrintField(mi, 'M') + PrintSeconds(total))
            == Assemble(sign, years, months, weeks, days, FieldPart(h), FieldPart(mi), TotalPart(total))
  {
    hide TakeField, TakePart, PrintField, Assemble, PrintSeconds, SecondsPart;
    var s2 := PrintSeconds(total);
    SecondsAreTaken(total);
    var s1 := PrintField(mi, 'M') + s2;
    FieldIsTaken(mi, 'M', s2);
    FieldIsSkipped(mi, 'M', 'H', s2);
    FieldIsTaken(h, 'H', s1);
    assert PrintField(h, 'H') + s1 == PrintField(h, 'H') + PrintField(mi, 'M') + s2;
  }

  function TotalPart(total: nat): (p: Part)
    ensures p == SecondsPart(total) && (p.Part? ==> AllDigits(p.fraction))
    ensures FractionValue(p) == total % 1_000_000_000 && Whole(p) == total / 1_000_000_000
  {
    FractionOfTotal(total);
    SecondsPart(total)
  }

  lemma FractionOfTotal(total: nat)
    ensures var p := SecondsPart(total);
            (p.Part? ==> AllDigits(p.fraction)) && FractionValue(p) == total % 1_000_000_000
                && Whole(p) == total / 1_000_000_000
  {
    var ns := total % 1_000_000_000;
    hide Padded, Stripped, RightPadded, Value;
    Billion();
    PaddedIsFixed(ns, 9);
    PaddingUndoesStripping(Padded(ns, 9));
    StrippedIsEmpty(Padded(ns, 9));
  }

  // ---------- signs and the fraction ----------

  lemma {:induction false} FirstSignOf(fields: seq<int>, s: int)
    requires forall i :: 0 <= i < |fields| ==> T.SignIs(fields[i], s)
    ensures forall i :: 0 <= i < |fields| ==> T.SignIs(fields[i], T.FirstSign(fields))
  {
    if fields == [] {
    } else {
      var rest := fields[1..];
      FirstSignOf(rest, s);
      forall i | 0 <= i < |fields|
        ensures T.SignIs(fields[i], T.FirstSign(fields))
      {
        if i > 0 {
          assert fields[i] == rest[i - 1];
        }
      }
    }
  }

  /** A duration none of whose fields disagrees with a sign is consistent. */
  lemma OneSignIsConsistent(d: Duration, s: int)
    requires OneSign(d, s)
    ensures Consistent(d)
  {
    hide T.FirstSign, T.SignIs;
    var f := Fields(d);
    FirstSignOf(f, s);
    assert T.SignIs(f[0], T.FirstSign(f)) && T.SignIs(f[1], T.FirstSign(f)) && T.SignIs(f[2], T.FirstSign(f));
    assert T.SignIs(f[3], T.FirstSign(f)) && T.SignIs(f[4], T.FirstSign(f)) && T.SignIs(f[5], T.FirstSign(f));
    assert T.SignIs(f[6], T.FirstSign(f)) && T.SignIs(f[7], T.FirstSign(f)) && T.SignIs(f[8], T.FirstSign(f))
           && T.SignIs(f[9], T.FirstSign(f));
  }

  /** Spreading a fraction over the smaller units loses nothing, and keeps its sign. */
  lemma FractionIsConserved(p: int)
    ensures 60_000_000_000 * TruncDiv(p, 60_000_000_000) + 1_000_000_000 * TruncMod(TruncDiv(p, 1_000_000_000), 60)
            + 1_000_000 * TruncMod(TruncDiv(p, 1_000_000), 1000) + 1000 * TruncMod(TruncDiv(p, 1000), 1000)
                + TruncMod(p, 1000) == p
  {
    MagnitudeIsConserved(Abs(p));
  }

  lemma MagnitudeIsConserved(q: nat)
    ensures 60_000_000_000 * (q / 60_000_000_000) + 1_000_000_000 * (q / 1_000_000_000 % 60)
            + 1_000_000 * (q / 1_000_000 % 1000)
            + 1000 * (q / 1000 % 1000) + q % 1000 == q
  {
    var us := q / 1000;
    var ms := us / 1000;
    var s := ms / 1000;
    assert ms == q / 1_000_000;
    assert s == q / 1_000_000_000;
    assert s / 60 == q / 60_000_000_000;
  }

  /** Magnitudes of the printed fields. */
  datatype Magnitudes = Magnitudes(y: nat, mo: nat, w: nat, da: nat, h: nat, mi: nat, total: nat)

  function MagnitudesOf(d: Duration): Magnitudes {
    Magnitudes(Abs(d.years), Abs(d.months), Abs(d.weeks), Abs(d.time.days), Abs(d.time.hours), Abs(d.time.minutes),
               Abs(SecondsTotal(d)))
  }

  function Reassembled(sign: int, m: Magnitudes): Result<Duration> {
    Assemble(sign, FieldPart(m.y), FieldPart(m.mo), FieldPart(m.w), FieldPart(m.da), FieldPart(m.h), FieldPart(m.mi),
             TotalPart(m.total))
  }

  lemma BodyParses(sign: int, d: Duration)
    ensures ParseDate(sign, PrintDate(d) + PrintTime(d)) == Reassembled(sign, MagnitudesOf(d))
  {
    hide PrintField, PrintSeconds, Assemble, ParseTime, ParseDate, Abs, SecondsTotal;
    var m := MagnitudesOf(d);
    var tail := PrintTime(d);
    var time := PrintField(m.h, 'H') + PrintField(m.mi, 'M') + PrintSeconds(m.total);
    DateParses(sign, m.y, m.mo, m.w, m.da, tail);
    if tail == "" {
      NothingPrinted(m.h, m.mi, m.total);
    } else {
      assert tail[1..] == time;
      TimeParses(sign, FieldPart(m.y), FieldPart(m.mo), FieldPart(m.w), FieldPart(m.da), m.h, m.mi, m.total);
    }
  }

  lemma NothingPrinted(h: nat, mi: nat, total: nat)
    ensures PrintField(h, 'H') + PrintField(mi, 'M') + PrintSeconds(total) == "" <==> h == 0 && mi == 0 && total == 0
    ensures TotalPart(0) == Missing && FieldPart(0) == Missing
  {
  }

  lemma NoDatePrinted(d: Duration)
    ensures PrintDate(d) == "" <==> d.years == 0 && d.months == 0 && d.weeks == 0 && d.time.days == 0
  {
  }

  /** The fraction of a second, spread and added up again. */
  lemma SpreadTotal(d: Duration, p: int, sign: int)
    requires -1_000_000_000 < p < 1_000_000_000 && T.SignIs(p, sign) && T.SignIs(d.time.seconds, sign)
    ensures var e := Spread(d, p);
            && e.time.minutes == d.time.minutes
            && SecondsTotal(e) == 1_000_000_000 * d.time.seconds + p
            && T.SignIs(e.time.seconds, sign) && T.SignIs(e.time.ms, sign) && T.SignIs(e.time.us, sign)
               && T.SignIs(e.time.ns, sign)
  {
    hide TruncDiv, TruncMod, T.SignIs, Sign;
    FractionIsConserved(p);
    SmallFraction(p);
    SignFollows(TruncMod(TruncDiv(p, 1_000_000), 1000), p, sign);
    SignFollows(TruncMod(TruncDiv(p, 1000), 1000), p, sign);
    SignFollows(TruncMod(p, 1000), p, sign);
  }

  lemma SignFollows(x: int, p: int, sign: int)
    requires T.SignIs(x, Sign(p)) && T.SignIs(p, sign)
    ensures T.SignIs(x, sign)
  {
  }

  lemma SignedTotal(sign: int, total: nat)
    requires sign == 1 || sign == -1
    ensures var s, p := sign * (total / 1_000_000_000), sign * (total % 1_000_000_000);
            && 1_000_000_000 * s + p == sign * total
            && -1_000_000_000 < p < 1_000_000_000 && T.SignIs(p, sign) && T.SignIs(s, sign)
  {
  }

  lemma SmallFraction(p: int)
    requires -1_000_000_000 < p < 1_000_000_000
    ensures TruncDiv(p, 60_000_000_000) == 0 && TruncMod(TruncDiv(p, 1_000_000_000), 60) == 0
    ensures var s := Sign(p);
            T.SignIs(TruncMod(TruncDiv(p, 1_000_000), 1000), s) && T.SignIs(TruncMod(TruncDiv(p, 1000), 1000), s)
                && T.SignIs(TruncMod(p, 1000), s)
  {
  }

  function SignedDuration(sign: int, m: Magnitudes): Duration {
    Duration(sign * m.y, sign * m.mo, sign * m.w,
             T.TimeDuration(sign * m.da, sign * m.h, sign * m.mi, sign * (m.total / 1_000_000_000), 0, 0, 0))
  }

  /** Unless all fields are missing, the fields that were read are assembled with their sign. */
  lemma ReassembledIsSpread(sign: int, m: Magnitudes)
    requires m != Magnitudes(0, 0, 0, 0, 0, 0, 0)
    ensures var e := Spread(SignedDuration(sign, m), sign * (m.total % 1_000_000_000));
            Reassembled(sign, m) == if Consistent(e) then Ok(e) else RangeError
  {
    hide Spread, SecondsTotal, Consistent, SecondsPart, FractionValue;
    NothingPrinted(0, 0, m.total);
    PartIsMissing(m.total);
  }

  lemma PartIsMissing(total: nat)
    ensures TotalPart(total).Missing? <==> total == 0
  {
  }

  lemma ReassembledFields(sign: int, m: Magnitudes)
    requires sign == 1 || sign == -1
    requires m != Magnitudes(0, 0, 0, 0, 0, 0, 0)
    ensures var r := Reassembled(sign, m);
            && r.Ok?
            && r.value.years == sign * m.y && r.value.months == sign * m.mo && r.value.weeks == sign * m.w
            && r.value.time.days == sign * m.da && r.value.time.hours == sign * m.h
               && r.value.time.minutes == sign * m.mi
            && SecondsTotal(r.value) == sign * m.total
  {
    hide Spread, SecondsTotal, Consistent, Reassembled;
    ReassembledIsSpread(sign, m);
    var d, p := SignedDuration(sign, m), sign * (m.total % 1_000_000_000);
    SignedTotal(sign, m.total);
    SpreadTotal(d, p, sign);
    SpreadKeepsRest(d, p);
    SignedFields(sign, m);
    OneSignIsConsistent(Spread(d, p), sign);
  }

  lemma SignedFields(sign: int, m: Magnitudes)
    requires sign == 1 || sign == -1
    ensures var d := SignedDuration(sign, m);
            && T.SignIs(d.years, sign) && T.SignIs(d.months, sign) && T.SignIs(d.weeks, sign)
            && T.SignIs(d.time.days, sign) && T.SignIs(d.time.hours, sign) && T.SignIs(d.time.minutes, sign)
  {
  }

  lemma SpreadKeepsRest(d: Duration, p: int)
    ensures Spread(d, p).years == d.years && Spread(d, p).months == d.months && Spread(d, p).weeks == d.weeks
    ensures Spread(d, p).time.days == d.time.days && Spread(d, p).time.hours == d.time.hours
  {
  }

  /** The same in every field down to the minutes, and in the total of the fields below. */
  predicate SameDuration(d: Duration, e: Duration) {
    && e.years == d.years && e.months == d.months && e.weeks == d.weeks && e.time.days == d.time.days
    && e.time.hours == d.time.hours && e.time.minutes == d.time.minutes && SecondsTotal(e) == SecondsTotal(d)
  }

  lemma SignTimesMagnitude(x: int, s: int, sign: int)
    requires T.SignIs(x, s) && sign == (if s < 0 then -1 else 1)
    ensures sign * Abs(x) == x
  {
  }

  lemma SecondsTotalSign(d: Duration, s: int)
    requires OneSign(d, s)
    ensures T.SignIs(SecondsTotal(d), s)
  {
  }

  lemma PrintedNonzero(d: Duration, sign: int)
    requires Consistent(d) && sign == (if T.FirstSign(Fields(d)) < 0 then -1 else 1)
    requires MagnitudesOf(d) != Magnitudes(0, 0, 0, 0, 0, 0, 0)
    ensures Reassembled(sign, MagnitudesOf(d)).Ok? && SameDuration(d, Reassembled(sign, MagnitudesOf(d)).value)
  {
    hide Reassembled, T.FirstSign, SecondsTotal, Abs;
    var s := T.FirstSign(Fields(d));
    ReassembledFields(sign, MagnitudesOf(d));
    SecondsTotalSign(d, s);
    SignTimesMagnitude(d.years, s, sign);
    SignTimesMagnitude(d.months, s, sign);
    SignTimesMagnitude(d.weeks, s, sign);
    SignTimesMagnitude(d.time.days, s, sign);
    SignTimesMagnitude(d.time.hours, s, sign);
    SignTimesMagnitude(d.time.minutes, s, sign);
    SignTimesMagnitude(SecondsTotal(d), s, sign);
  }

  lemma SignIsTaken(minus: bool, body: string)
    ensures ParseDuration((if minus then "-" else "") + "P" + body) == ParseDate(if minus then -1 else 1, body)
  {
    hide ParseDate;
    var s := (if minus then "-" else "") + "P" + body;
    assert (if minus then s[2..] else s[1..]) == body;
    assert minus ==> s[1..][1..] == body;
  }

  lemma ZeroParses()
    ensures ParseDuration("PT0S") == Ok(Duration(0, 0, 0, T.TimeDuration(0, 0, 0, 0, 0, 0, 0)))
  {
    hide ParseDuration, ParseDate, ParseTime;
    SignIsTaken(false, "T0S");
    assert "" + "P" + "T0S" == "PT0S";
    ZeroDate();
    ZeroSeconds();
  }

  lemma ZeroDate()
    ensures ParseDate(1, "T0S") == ParseTime(1, Missing, Missing, Missing, Missing, "0S")
  {
    hide ParseTime, TakeField;
    DesignatorIsNoPart("T0S", 'Y');
    DesignatorIsNoPart("T0S", 'M');
    DesignatorIsNoPart("T0S", 'W');
    DesignatorIsNoPart("T0S", 'D');
    assert "T0S"[1..] == "0S";
  }

  lemma ZeroSeconds()
    ensures ParseTime(1, Missing, Missing, Missing, Missing, "0S")
            == Ok(Duration(0, 0, 0, T.TimeDuration(0, 0, 0, 0, 0, 0, 0)))
  {
    hide Assemble, TakePart;
    ZeroIsTaken();
    ZeroAssembles();
  }

  lemma ZeroIsTaken()
    ensures NoPart("0S", 'H') && NoPart("0S", 'M') && TakePart("0S", 'S') == (Part(0, ""), "")
  {
    LeadingDigitsOf("0", "S");
    assert "0" + "S" == "0S";
    assert Value("0") == 0;
  }

  lemma ZeroAssembles()
    ensures Assemble(1, Missing, Missing, Missing, Missing, Missing, Missing, Part(0, ""))
            == Ok(Duration(0, 0, 0, T.TimeDuration(0, 0, 0, 0, 0, 0, 0)))
  {
    hide Consistent, Spread;
    ZeroIsConsistent();
    ZeroSpread();
  }

  lemma ZeroIsConsistent()
    ensures Consistent(Duration(0, 0, 0, T.TimeDuration(0, 0, 0, 0, 0, 0, 0)))
  {
    hide Consistent;
    OneSignIsConsistent(Duration(0, 0, 0, T.TimeDuration(0, 0, 0, 0, 0, 0, 0)), 0);
  }

  lemma ZeroSpread()
    ensures var zero := Duration(0, 0, 0, T.TimeDuration(0, 0, 0, 0, 0, 0, 0)); Spread(zero, 0) == zero
  {
  }

  /** What is printed can be read back: every field down to the minutes is the same, and so is the total of the
  seconds and everything below, despite the stripped zeros and the padding. */
  lemma PrintThenParse(d: Duration)
    requires Consistent(d)
    ensures ParseDuration(PrintDuration(d)).Ok? && SameDuration(d, ParseDuration(PrintDuration(d)).value)
  {
    hide ParseDuration, Reassembled, Consistent, T.FirstSign, PrintField, PrintSeconds, SecondsTotal, ParseDate;
    var m := MagnitudesOf(d);
    NothingPrinted(m.h, m.mi, m.total);
    NoDatePrinted(d);
    if PrintDate(d) == "" && PrintTime(d) == "" {
      ZeroParses();
      ZeroSecondsTotal();
    } else {
      var minus := T.FirstSign(Fields(d)) < 0;
      var sign := if minus then -1 else 1;
      BodyParses(sign, d);
      PrintedNonzero(d, sign);
      SignIsTaken(minus, PrintDate(d) + PrintTime(d));
      assert (if minus then "-" else "") + "P" + PrintDate(d) + PrintTime(d)
             == (if minus then "-" else "") + "P" + (PrintDate(d) + PrintTime(d));
    }
  }

  lemma ZeroSecondsTotal()
    ensures SecondsTotal(Duration(0, 0, 0, T.TimeDuration(0, 0, 0, 0, 0, 0, 0))) == 0
  {
  }

  /** Whatever is accepted is consistent, and is read back the same after printing. */
  lemma ParseThenPrint(s: string)
    requires ParseDuration(s).Ok?
    ensures var d := ParseDuration(s).value;
            && Consistent(d)
            && ParseDuration(PrintDuration(d)).Ok? && SameDuration(d, ParseDuration(PrintDuration(d)).value)
  {
    ParsedIsConsistent(s);
    hide ParseDuration, PrintDuration, Consistent, SameDuration;
    PrintThenParse(ParseDuration(s).value);
  }

  lemma ParsedIsConsistent(s: string)
    requires ParseDuration(s).Ok?
    ensures Consistent(ParseDuration(s).value)
  {
    hide Consistent, Spread, TakeField, TakePart;
  }

  // ---------- the length that is read ----------

  /** What the text says after the designator `T`, if it has one. */
  function TimeText(s: string): string {
    var body := if s != "" && (s[0] == '+' || IsMinus(s[0])) then s[1..] else s;
    if body == "" then ""
    else
      var (_, s1) := TakeField(body[1..], 'Y');
      var (_, s2) := TakeField(s1, 'M');
      var (_, s3) := TakeField(s2, 'W');
      var (_, s4) := TakeField(s3, 'D');
      if s4 == "" then "" else s4[1..]
  }

  /** A part with its fraction, in billionths of its unit. */
  function Billionths(p: Part): nat
    requires p.Part? ==> AllDigits(p.fraction)
  {
    1_000_000_000 * Whole(p) + FractionValue(p)
  }

  /** The length that the time part of the text says, in nanoseconds. */
  function TextNs(s: string): nat {
    var (h, s1) := TakePart(s, 'H');
    var (mi, s2) := TakePart(s1, 'M');
    var (sec, s3) := TakePart(s2, 'S');
    3600 * Billionths(h) + 60 * Billionths(mi) + Billionths(sec)
  }

  /** Spreading nanoseconds adds them. */
  lemma SpreadAdds(hours: int, minutes: int, seconds: int, p: int, d: Duration)
    requires d.time.hours == hours && d.time.minutes == minutes && d.time.seconds == seconds
    ensures T.TotalNs(Spread(d, p).time.(days := 0))
            == 3_600_000_000_000 * hours + 60_000_000_000 * minutes + 1_000_000_000 * seconds + p
  {
    hide TruncDiv, TruncMod;
    FractionIsConserved(p);
  }

  lemma SignOut(sign: int, h: nat, mi: nat, s: nat, p: nat)
    ensures 3_600_000_000_000 * (sign * h) + 60_000_000_000 * (sign * mi) + 1_000_000_000 * (sign * s) + sign * p
            == sign * (3_600_000_000_000 * h + 60_000_000_000 * mi + 1_000_000_000 * s + p)
  {
  }

  lemma AssembledTotal(sign: int, years: Part, months: Part, weeks: Part, days: Part, h: Part, mi: Part, s: Part)
    requires (h.Part? ==> AllDigits(h.fraction)) && (mi.Part? ==> AllDigits(mi.fraction))
             && (s.Part? ==> AllDigits(s.fraction))
    ensures var r := Assemble(sign, years, months, weeks, days, h, mi, s);
            r.Ok? ==>
              T.TotalNs(r.value.time.(days := 0)) == sign * (3600 * Billionths(h) + 60 * Billionths(mi) + Billionths(s))
  {
    hide Spread, Consistent, T.TotalNs, Value;
    var d := Duration(sign * Whole(years), sign * Whole(months), sign * Whole(weeks),
                      T.TimeDuration(sign * Whole(days), sign * Whole(h), sign * Whole(mi), sign * Whole(s), 0, 0, 0));
    var p := if HasFraction(h) then 3600 * FractionValue(h)
             else if HasFraction(mi) then 60 * FractionValue(mi)
             else FractionValue(s);
    SpreadAdds(sign * Whole(h), sign * Whole(mi), sign * Whole(s), sign * p, d);
    SignOut(sign, Whole(h), Whole(mi), Whole(s), p);
  }

  /** An accepted text is read as exactly the length it says: a fraction of an hour, a minute or a second is spread
  over the smaller units without loss, and nothing else is read. */
  lemma ParsedTotalIsExact(s: string)
    requires ParseDuration(s).Ok?
    ensures T.TotalNs(ParseDuration(s).value.time.(days := 0))
            == (if IsMinus(s[0]) then -1 else 1) * TextNs(TimeText(s))
  {
    hide Assemble, T.TotalNs, Billionths, TakeField, TakePart;
    var sign := if IsMinus(s[0]) then -1 else 1;
    var body := if s[0] == '+' || IsMinus(s[0]) then s[1..] else s;
    var (years, s1) := TakeField(body[1..], 'Y');
    var (months, s2) := TakeField(s1, 'M');
    var (weeks, s3) := TakeField(s2, 'W');
    var (days, s4) := TakeField(s3, 'D');
    var (h, t1) := TakePart(TimeText(s), 'H');
    var (mi, t2) := TakePart(t1, 'M');
    var (sec, t3) := TakePart(t2, 'S');
    AssembledTotal(sign, years, months, weeks, days, h, mi, sec);
    NoTime();
  }

  lemma NoTime()
    ensures TakePart("", 'H') == (Missing, "") && TakePart("", 'M') == (Missing, "")
            && TakePart("", 'S') == (Missing, "")
  {
  }
}
