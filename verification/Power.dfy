/** Exponentiation by two bits of the exponent at a time, on 64-bit words. */
module Power {
  import opened JsNumbers

  type Int64 = x: int | -0x8000_0000_0000_0000 <= x < 0x8000_0000_0000_0000

  function Pow(b: int, e: nat): int {
    if e == 0 then 1 else b * Pow(b, e - 1)
  }

  /** Two's complement: the 64-bit integer congruent to `x` modulo 2^64. */
  function Wrap(x: int): Int64 {
    (x + 0x8000_0000_0000_0000) % 0x1_0000_0000_0000_0000 - 0x8000_0000_0000_0000
  }

  /** A 64-bit integer read without its sign. */
  function Unsigned(x: Int64): nat {
    x % 0x1_0000_0000_0000_0000
  }

  lemma WrapShift(x: int, k: int)
    ensures Wrap(x + k * 0x1_0000_0000_0000_0000) == Wrap(x)
  {
    DivModShift(x + 0x8000_0000_0000_0000, 0x1_0000_0000_0000_0000, k);
  }

  lemma WrapIsCongruent(x: int) returns (k: int)
    ensures Wrap(x) == x - k * 0x1_0000_0000_0000_0000
  {
    k := (x + 0x8000_0000_0000_0000) / 0x1_0000_0000_0000_0000;
  }

  /** Products may be wrapped at any stage. */
  lemma WrapProduct(x: int, y: int)
    ensures Wrap(Wrap(x) * Wrap(y)) == Wrap(x * y)
  {
    var k := WrapIsCongruent(x);
    var l := WrapIsCongruent(y);
    hide Wrap;
    assert Wrap(x) * Wrap(y) == x * y + (-(k * y) - l * Wrap(x)) * 0x1_0000_0000_0000_0000;
    WrapShift(x * y, -(k * y) - l * Wrap(x));
  }

  lemma {:induction false} PowSum(b: int, m: nat, n: nat)
    ensures Pow(b, m + n) == Pow(b, m) * Pow(b, n)
  {
    if m == 0 {
    } else {
      PowSum(b, m - 1, n);
      assert b * (Pow(b, m - 1) * Pow(b, n)) == b * Pow(b, m - 1) * Pow(b, n);
    }
  }

  lemma SmallPowers(b: int)
    ensures Pow(b, 0) == 1 && Pow(b, 1) == b && Pow(b, 2) == b * b && Pow(b, 3) == b * b * b
            && Pow(b, 4) == b * (b * b * b)
  {
    assert Pow(b, 2) == b * Pow(b, 1);
    assert Pow(b, 3) == b * Pow(b, 2);
    assert Pow(b, 4) == b * Pow(b, 3);
  }

  lemma {:induction false} FourthPower(b: int, q: nat)
    ensures Pow(b, 4 * q) == Pow(b * (b * b * b), q)
  {
    if q == 0 {
    } else {
      FourthPower(b, q - 1);
      PowSum(b, 4, 4 * (q - 1));
      SmallPowers(b);
    }
  }

  /** One base-4 digit of the exponent. */
  lemma DigitStep(b: int, e: nat)
    ensures Pow(b, e) == Pow(b, e % 4) * Pow(b * (b * b * b), e / 4)
  {
    PowSum(b, e % 4, 4 * (e / 4));
    FourthPower(b, e / 4);
  }

  /** The product of two words. */
  function Mul(x: Int64, y: Int64): Int64 {
    Wrap(x as int * y as int)
  }

  /** The `mul` array after one pass of the loop. */
  function NextMul(mul: seq<Int64>): seq<Int64>
    requires |mul| == 4
  {
    var x1 := Mul(mul[1], mul[3]);
    var x2 := Mul(x1, x1);
    [mul[0], x1, x2, Mul(x2, x1)]
  }

  /** The exact values behind the words: the result so far, and the two factors of the base of the digits left. */
  datatype Exact = Exact(r: int, m1: int, m3: int)

  ghost function Next(x: Exact, e: nat): Exact {
    var b := x.m1 * x.m3;
    Exact(x.r * Digit(b, e % 4), b, b * b * b)
  }

  /** What the loops keep. */
  ghost predicate Invariant(mul: seq<Int64>, ret: Int64, x: Exact, e: nat, answer: int) {
    && |mul| == 4 && mul[0] == 1 && mul[1] == Wrap(x.m1) && mul[3] == Wrap(x.m3) && ret == Wrap(x.r)
    && x.r * Pow(x.m1 * x.m3, e) == answer
  }

  ghost function Digit(b: int, d: nat): int {
    if d == 0 then 1 else if d == 1 then b else if d == 2 then b * b else b * b * b
  }

  lemma DigitIsPower(b: int, d: nat)
    requires d < 4
    ensures Digit(b, d) == Pow(b, d)
  {
    SmallPowers(b);
  }

  lemma Step(mul: seq<Int64>, ret: Int64, x: Exact, e: nat, answer: int)
    requires Invariant(mul, ret, x, e, answer)
    ensures Invariant(NextMul(mul), Mul(ret, NextMul(mul)[e % 4]), Next(x, e), e / 4, answer)
  {
    hide Wrap, Pow;
    var b := x.m1 * x.m3;
    WrapProduct(x.m1, x.m3);
    WrapProduct(b, b);
    WrapProduct(b * b, b);
    SmallIsWrapped(1);
    WrapProduct(x.r, Digit(b, e % 4));
    DigitStep(b, e);
    DigitIsPower(b, e % 4);
    assert x.r * (Pow(b, e % 4) * Pow(b * (b * b * b), e / 4)) == x.r * Pow(b, e % 4) * Pow(b * (b * b * b), e / 4);
  }

  lemma SmallIsWrapped(x: Int64)
    ensures Wrap(x) == x
  {
  }

  lemma Start(mul: seq<Int64>, base: Int64, e: nat)
    requires |mul| == 4 && mul[0] == 1 && mul[1] == base && mul[3] == 1
    ensures Invariant(mul, 1, Exact(1, base, 1), e, Pow(base, e))
  {
    SmallIsWrapped(base);
    SmallIsWrapped(1);
    hide Pow, Wrap;
  }

  lemma Finish(mul: seq<Int64>, ret: Int64, x: Exact, answer: int)
    requires Invariant(mul, ret, x, 0, answer)
    ensures ret == Wrap(answer)
  {
  }

  /** `int_pow`, for the exponents that its callers let through. */
  method IntPow(base: Int64, exponent: Int64) returns (ret: Int64)
    requires exponent >= 0
    ensures ret == Wrap(Pow(base, exponent))
  {
    hide Wrap, Pow, Mul, Invariant, Next;
    ret := 1;
    var mul := new Int64[4];
    mul[0] := 1;
    mul[1] := base;
    mul[3] := 1;
    var e: int := exponent;
    ghost var x := Exact(1, base, 1);
    Start(mul[..], base, e);
    while e != 0
      invariant e >= 0
      invariant Invariant(mul[..], ret, x, e, Pow(base, exponent)) && mul.Length == 4
    {
      Step(mul[..], ret, x, e, Pow(base, exponent));
      ghost var next := NextMul(mul[..]);
      mul[1] := Mul(mul[1], mul[3]);
      mul[2] := Mul(mul[1], mul[1]);
      mul[3] := Mul(mul[2], mul[1]);
      assert mul[..] == next;
      ret := Mul(ret, mul[e % 4]);
      x := Next(x, e);
      e := e / 4;
    }
    Finish(mul[..], ret, x, Pow(base, exponent));
  }

  /** `Base_int_math_int64_pow_stub` of the JavaScript runtime: the shift is unsigned, so a negative exponent
  counts as 2^64 more. */
  method Int64PowStub(base: Int64, exponent: Int64) returns (res: Int64)
    ensures res == Wrap(Pow(base, Unsigned(exponent)))
  {
    hide Wrap, Pow, Mul, Invariant, Next;
    var one: Int64 := 1;
    var mul := new Int64[4];
    mul[0], mul[1], mul[2], mul[3] := one, base, one, one;
    res := one;
    var e: Int64 := exponent;
    ghost var x := Exact(1, base, 1);
    Start(mul[..], base, Unsigned(e));
    while e != 0
      invariant Invariant(mul[..], res, x, Unsigned(e), Pow(base, Unsigned(exponent))) && mul.Length == 4
      decreases Unsigned(e)
    {
      Step(mul[..], res, x, Unsigned(e), Pow(base, Unsigned(exponent)));
      ghost var next := NextMul(mul[..]);
      mul[1] := Mul(mul[1], mul[3]);
      mul[2] := Mul(mul[1], mul[1]);
      mul[3] := Mul(mul[2], mul[1]);
      assert mul[..] == next;
      res := Mul(res, mul[Unsigned(e) % 4]);
      x := Next(x, Unsigned(e));
      e := Unsigned(e) / 4;
    }
    Finish(mul[..], res, x, Pow(base, Unsigned(exponent)));
  }

  type Int63 = x: int | -0x4000_0000_0000_0000 <= x < 0x4000_0000_0000_0000

  /** An OCaml integer keeps the low 63 bits. */
  function Wrap63(x: int): Int63 {
    (x + 0x4000_0000_0000_0000) % 0x8000_0000_0000_0000 - 0x4000_0000_0000_0000
  }

  lemma WrapTwice(x: int)
    ensures Wrap63(Wrap(x)) == Wrap63(x)
  {
    var k := WrapIsCongruent(x);
    DivModShift(x + 0x4000_0000_0000_0000, 0x8000_0000_0000_0000, -2 * k);
  }

  /** `Base_int_math_int_pow_stub`: what OCaml code gets is the power modulo 2^63. */
  method IntPowStub(base: Int63, exponent: Int63) returns (r: Int63)
    requires exponent >= 0
    ensures r == Wrap63(Pow(base, exponent))
  {
    var p := IntPow(base, exponent);
    WrapTwice(Pow(base, exponent));
    r := Wrap63(p);
  }
}
