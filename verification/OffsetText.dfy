/** Time-zone offsets as text: `FormatTimeZoneOffsetString` and `ParseTimeZoneOffsetString`. */
module OffsetText {
  import opened JsNumbers
  import opened Instants
  import opened Results
  import opened Decimals

  predicate IsSign(c: char) {
    c == '+' || IsMinus(c)
  }

  /** Two digits, the first not above `most`. */
  predicate TwoDigits(s: string, most: char) {
    |s| >= 2 && '0' <= s[0] <= most && IsDigit(s[1])
  }

  function TwoValue(s: string): nat
    requires |s| >= 2 && IsDigit(s[0]) && IsDigit(s[1])
  {
    10 * DigitValue(s[0]) + DigitValue(s[1])
  }

  function SkipColon(s: string): string {
    if s != "" && s[0] == ':' then s[1..] else s
  }

  /** The fraction of a second, as nanoseconds. */
  function ParseFraction(s: string): Result<nat> {
    if s == "" then Ok(0)
    else if (s[0] == '.' || s[0] == ',') && 1 <= LeadingDigits(s[1..]) <= 9 && LeadingDigits(s[1..]) == |s| - 1 then
      Ok(Value(RightPadded(s[1..])))
    else RangeError
  }

  function ParseSeconds(s: string): Result<nat> {
    if s == "" then Ok(0)
    else if TwoDigits(SkipColon(s), '5') then
      var fraction :- ParseFraction(SkipColon(s)[2..]);
      Ok(1_000_000_000 * TwoValue(SkipColon(s)) + fraction)
    else RangeError
  }

  function ParseMinutes(s: string): Result<nat> {
    if s == "" then Ok(0)
    else if TwoDigits(SkipColon(s), '5') then
      var seconds :- ParseSeconds(SkipColon(s)[2..]);
      Ok(60_000_000_000 * TwoValue(SkipColon(s)) + seconds)
    else RangeError
  }

  predicate IsHour(s: string) {
    TwoDigits(s, '1') || (|s| >= 2 && s[0] == '2' && '0' <= s[1] <= '3')
  }

  /** `ParseTimeZoneOffsetString`. */
  function ParseOffset(s: string): Result<int> {
    if s != "" && IsSign(s[0]) && IsHour(s[1..]) then
      var minutes :- ParseMinutes(s[3..]);
      var magnitude := 3_600_000_000_000 * TwoValue(s[1..]) + minutes;
      Ok(if IsMinus(s[0]) then -magnitude else magnitude)
    else RangeError
  }

  // ---------- printing ----------

  /** `ISODateTimePartString`: the last two characters after padding. */
  function DatePart(n: nat): string {
    var s := "00" + Digits(n);
    s[|s| - 2..]
  }

  /** The part after the minutes: nothing, whole seconds, or seconds and a fraction without trailing zeros. */
  function SecondsPart(seconds: nat, ns: nat): string {
    if ns != 0 then ":" + DatePart(seconds) + "." + Stripped(Padded(ns, 9))
    else if seconds != 0 then ":" + DatePart(seconds)
    else ""
  }

  function PrintOffset(e: int): string {
    var r := Abs(e);
    (if e < 0 then "-" else "+") + DatePart(r / 3_600_000_000_000) + ":" + DatePart(r / 60_000_000_000 % 60)
    + SecondsPart(r / 1_000_000_000 % 60, r % 1_000_000_000)
  }

  /** `FormatTimeZoneOffsetString`. */
  method FormatTimeZoneOffsetString(e: int) returns (s: string)
    ensures s == PrintOffset(e)
  {
    var sign := if e < 0 then "-" else "+";
    var r := Abs(e);
    var o := r % 1_000_000_000;
    var n := (r / 1_000_000_000) % 60;
    var a := (r / 60_000_000_000) % 60;
    var d := "";
    if o != 0 {
      var fraction := StripTrailingZeros(Padded(o, 9));
      d := ":" + DatePart(n) + "." + fraction;
    } else if n != 0 {
      d := ":" + DatePart(n);
    }
    return sign + DatePart(r / 3_600_000_000_000) + ":" + DatePart(a) + d;
  }

  // ---------- the round trip ----------

  lemma DatePartIsTwoDigits(n: nat)
    requires n < 100
    ensures DatePart(n) == [DigitChar(n / 10), DigitChar(n % 10)]
  {
    if n < 10 {
      assert Digits(n) == [DigitChar(n)];
    } else {
      assert Digits(n / 10) == [DigitChar(n / 10)];
      assert Digits(n) == [DigitChar(n / 10)] + [DigitChar(n % 10)];
    }
  }

  lemma FractionParses(ns: nat)
    requires 0 < ns < 1_000_000_000
    ensures ParseFraction("." + Stripped(Padded(ns, 9))) == Ok(ns)
  {
    Billion();
    PaddedIsFixed(ns, 9);
    PaddingUndoesStripping(Padded(ns, 9));
    StrippedIsEmpty(Padded(ns, 9));
    var z := Stripped(Padded(ns, 9));
    LeadingDigitsOf(z, "");
    assert z + "" == z;
    assert ("." + z)[1..] == z;
  }

  lemma SecondsParse(seconds: nat, ns: nat)
    requires seconds < 60 && ns < 1_000_000_000
    ensures ParseSeconds(SecondsPart(seconds, ns)) == Ok(1_000_000_000 * seconds + ns)
  {
    hide Stripped, Padded, DatePart, ParseFraction;
    DatePartIsTwoDigits(seconds);
    var rest := if ns != 0 then "." + Stripped(Padded(ns, 9)) else "";
    var s := SecondsPart(seconds, ns);
    if seconds != 0 || ns != 0 {
      assert s == ":" + DatePart(seconds) + rest;
      assert SkipColon(s) == DatePart(seconds) + rest && SkipColon(s)[2..] == rest;
      assert ParseFraction(rest) == Ok(ns) by {
        if ns != 0 {
          FractionParses(ns);
        } else {
          EmptyFraction();
        }
      }
    }
  }

  lemma EmptyFraction()
    ensures ParseFraction("") == Ok(0)
  {
  }

  lemma MinutesParse(minutes: nat, rest: string, ns: nat)
    requires minutes < 60 && ParseSeconds(rest) == Ok(ns)
    ensures ParseMinutes(":" + DatePart(minutes) + rest) == Ok(60_000_000_000 * minutes + ns)
  {
    hide ParseSeconds, DatePart;
    DatePartIsTwoDigits(minutes);
    var s := ":" + DatePart(minutes) + rest;
    assert SkipColon(s) == DatePart(minutes) + rest && SkipColon(s)[2..] == rest;
  }

  lemma OffsetParts(r: nat)
    requires r < DAY
    ensures r / 3_600_000_000_000 < 24
    ensures r == 3_600_000_000_000 * (r / 3_600_000_000_000) + 60_000_000_000 * (r / 60_000_000_000 % 60)
                 + 1_000_000_000 * (r / 1_000_000_000 % 60) + r % 1_000_000_000
  {
    var s := r / 1_000_000_000;
    var m := s / 60;
    assert m == r / 60_000_000_000 && m / 60 == r / 3_600_000_000_000;
  }

  lemma HourParses(hours: nat, s: string)
    requires hours < 24 && |s| >= 3 && s[1] == DigitChar(hours / 10) && s[2] == DigitChar(hours % 10)
    ensures IsHour(s[1..]) && TwoValue(s[1..]) == hours
  {
  }

  lemma PrefixParses(sign: char, hours: nat, rest: string, ns: nat)
    requires (sign == '-' || sign == '+') && hours < 24 && ParseMinutes(rest) == Ok(ns)
    ensures var magnitude := 3_600_000_000_000 * hours + ns;
            ParseOffset([sign] + DatePart(hours) + rest) == Ok(if sign == '-' then -magnitude else magnitude)
  {
    hide DatePart, ParseMinutes, IsHour, TwoValue;
    DatePartIsTwoDigits(hours);
    var s := [sign] + DatePart(hours) + rest;
    assert s[3..] == rest;
    HourParses(hours, s);
  }

  lemma PartsParse(sign: char, hours: nat, minutes: nat, seconds: nat, ns: nat)
    requires (sign == '-' || sign == '+') && hours < 24 && minutes < 60 && seconds < 60 && ns < 1_000_000_000
    ensures var magnitude := 3_600_000_000_000 * hours + 60_000_000_000 * minutes + 1_000_000_000 * seconds + ns;
            ParseOffset([sign] + DatePart(hours) + ":" + DatePart(minutes) + SecondsPart(seconds, ns))
            == Ok(if sign == '-' then -magnitude else magnitude)
  {
    hide DatePart, SecondsPart, ParseMinutes, ParseSeconds, ParseOffset;
    SecondsParse(seconds, ns);
    var tail := SecondsPart(seconds, ns);
    MinutesParse(minutes, tail, 1_000_000_000 * seconds + ns);
    var rest := ":" + DatePart(minutes) + tail;
    PrefixParses(sign, hours, rest, 60_000_000_000 * minutes + (1_000_000_000 * seconds + ns));
    assert [sign] + DatePart(hours) + ":" + DatePart(minutes) + tail == [sign] + DatePart(hours) + rest;
  }

  /** Every offset below a day is read back exactly from its printed form. */
  lemma PrintThenParse(e: int)
    requires -DAY < e < DAY
    ensures ParseOffset(PrintOffset(e)) == Ok(e)
  {
    hide DatePart, SecondsPart, ParseOffset;
    var r := Abs(e);
    OffsetParts(r);
    PartsParse(if e < 0 then '-' else '+', r / 3_600_000_000_000, r / 60_000_000_000 % 60, r / 1_000_000_000 % 60,
               r % 1_000_000_000);
  }

  /** Whatever is accepted is an offset of less than a day; so the canonical form of an offset is its own
  canonical form. */
  lemma ParsedIsBelowADay(s: string)
    requires ParseOffset(s).Ok?
    ensures var e := ParseOffset(s).value;
            -DAY < e < DAY && ParseOffset(PrintOffset(e)) == Ok(e)
  {
    MinutesBelowAnHour(s[3..]);
    hide ParseMinutes, PrintOffset;
    PrintThenParse(ParseOffset(s).value);
  }

  lemma MinutesBelowAnHour(s: string)
    requires ParseMinutes(s).Ok?
    ensures ParseMinutes(s).value < 3_600_000_000_000
  {
    if s != "" {
      var t := SkipColon(s)[2..];
      assert ParseSeconds(t).value < 60_000_000_000 by {
        if t != "" {
          var u := SkipColon(t)[2..];
          if u != "" {
            ValueBelow(RightPadded(u[1..]));
            Billion();
          }
        }
      }
    }
  }

  lemma {:induction false} ValueBelow(s: string)
    requires AllDigits(s)
    ensures Value(s) < Power10(|s|)
  {
    if s == "" {
    } else {
      ValueBelow(s[..|s| - 1]);
    }
  }
}
