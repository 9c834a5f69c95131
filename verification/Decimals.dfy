/** Decimal text: digits, padding, and the stripping of trailing zeros. */
module Decimals {

  /** The hyphen and the minus sign. */
  predicate IsMinus(c: char) {
    c == '-' || c == '\U{2212}'
  }

  predicate IsDigit(c: char) {
    '0' <= c <= '9'
  }

  function DigitValue(c: char): (d: nat)
    requires IsDigit(c)
    ensures d < 10
  {
    c as int - '0' as int
  }

  function DigitChar(d: nat): (c: char)
    requires d < 10
    ensures IsDigit(c) && DigitValue(c) == d && (c == '0' <==> d == 0)
  {
    ('0' as int + d) as char
  }

  predicate AllDigits(s: string) {
    forall c :: c in s ==> IsDigit(c)
  }

  /** The number that a text of digits stands for. */
  function Value(s: string): nat
    requires AllDigits(s)
  {
    if s == "" then 0 else 10 * Value(s[..|s| - 1]) + DigitValue(s[|s| - 1])
  }

  /** `toString` of a natural number. */
  function Digits(n: nat): (s: string)
    ensures |s| > 0 && AllDigits(s)
  {
    if n < 10 then [DigitChar(n)] else Digits(n / 10) + [DigitChar(n % 10)]
  }

  lemma {:induction false} ValueOfDigits(n: nat)
    ensures Value(Digits(n)) == n
  {
    if n >= 10 {
      ValueOfDigits(n / 10);
      assert Digits(n)[..|Digits(n)| - 1] == Digits(n / 10);
    } else {
      assert [DigitChar(n)][..0] == "";
    }
  }

  function Zeros(k: nat): (s: string)
    ensures |s| == k && AllDigits(s)
  {
    seq(k, _ => '0')
  }

  lemma {:induction false} ValueOfPadded(k: nat, s: string)
    requires AllDigits(s)
    ensures Value(Zeros(k) + s) == Value(s)
    decreases |s|, k
  {
    var t := Zeros(k) + s;
    if s == "" && k == 0 {
    } else if s != "" {
      assert t[..|t| - 1] == Zeros(k) + s[..|s| - 1];
      ValueOfPadded(k, s[..|s| - 1]);
    } else {
      assert t[..|t| - 1] == Zeros(k - 1) + s;
      ValueOfPadded(k - 1, s);
    }
  }

  function Power10(k: nat): nat {
    if k == 0 then 1 else 10 * Power10(k - 1)
  }

  lemma {:induction false} DigitsLength(n: nat, k: nat)
    requires k > 0 && n < Power10(k)
    ensures |Digits(n)| <= k
    decreases k
  {
    if n < 10 {
    } else {
      DigitsLength(n / 10, k - 1);
    }
  }

  lemma Billion()
    ensures Power10(2) == 100 && Power10(9) == 1_000_000_000
  {
    assert Power10(3) == 1000;
    assert Power10(6) == 1_000_000;
  }

  /** `padStart(k, "0")` of a number. */
  function Padded(n: nat, k: nat): (s: string)
    ensures AllDigits(s)
  {
    var d := Digits(n);
    if |d| >= k then d else Zeros(k - |d|) + d
  }

  lemma PaddedIsFixed(n: nat, k: nat)
    requires k > 0 && n < Power10(k)
    ensures |Padded(n, k)| == k && Value(Padded(n, k)) == n
  {
    DigitsLength(n, k);
    ValueOfDigits(n);
    ValueOfPadded(if |Digits(n)| >= k then 0 else k - |Digits(n)|, Digits(n));
  }

  /** What is left when all trailing zeros are taken away. */
  function Stripped(s: string): (r: string)
    ensures r <= s
  {
    if s != "" && s[|s| - 1] == '0' then Stripped(s[..|s| - 1]) else s
  }

  lemma {:induction false} StrippedZeros(s: string)
    ensures s == Stripped(s) + Zeros(|s| - |Stripped(s)|)
  {
    if s == "" || s[|s| - 1] != '0' {
    } else {
      var t := s[..|s| - 1];
      StrippedZeros(t);
      assert s == t + ['0'];
      assert Zeros(|s| - |Stripped(s)|) == Zeros(|t| - |Stripped(t)|) + ['0'];
    }
  }

  /** The loop that drops trailing zeros; the callers have a digit other than zero. */
  method StripTrailingZeros(text: string) returns (s: string)
    ensures s == Stripped(text)
  {
    s := text;
    while s != "" && s[|s| - 1] == '0'
      invariant Stripped(s) == Stripped(text)
      decreases |s|
    {
      s := s[..|s| - 1];
    }
  }

  /** `(s + "000000000").slice(0, 9)`. */
  function RightPadded(s: string): (r: string)
    requires AllDigits(s)
    ensures AllDigits(r) && |r| == 9
  {
    (s + Zeros(9))[..9]
  }

  /** Padding on the right undoes stripping. */
  lemma PaddingUndoesStripping(s: string)
    requires |s| == 9 && AllDigits(s)
    ensures AllDigits(Stripped(s)) && RightPadded(Stripped(s)) == s
  {
    StrippedZeros(s);
    var z := Stripped(s);
    assert Zeros(9)[..9 - |z|] == Zeros(9 - |z|);
    assert (z + Zeros(9))[..9] == z + Zeros(9)[..9 - |z|];
  }

  lemma StrippedIsEmpty(s: string)
    requires AllDigits(s)
    ensures Stripped(s) == "" <==> Value(s) == 0
    decreases |s|
  {
    if s != "" && s[|s| - 1] == '0' {
      StrippedIsEmpty(s[..|s| - 1]);
    }
  }

  // ---------- scanning ----------

  /** How many digits a text begins with. */
  function LeadingDigits(s: string): (n: nat)
    ensures n <= |s| && AllDigits(s[..n])
    ensures n < |s| ==> !IsDigit(s[n])
  {
    if s != "" && IsDigit(s[0]) then
      var n := 1 + LeadingDigits(s[1..]);
      assert s[..n] == [s[0]] + s[1..][..n - 1];
      n
    else 0
  }

  lemma {:induction false} LeadingDigitsOf(d: string, rest: string)
    requires AllDigits(d) && (rest == "" || !IsDigit(rest[0]))
    ensures LeadingDigits(d + rest) == |d| && (d + rest)[..|d|] == d && (d + rest)[|d|..] == rest
  {
    if d != "" {
      assert (d + rest)[1..] == d[1..] + rest;
      assert IsDigit(d[0]);
      LeadingDigitsOf(d[1..], rest);
    } else {
      assert d + rest == rest;
    }
  }
}
