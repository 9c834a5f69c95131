/** Unsigned machine words as bounded integers, with exclusive or by binary digits. */
module MachineWords {
  import J = JsNumbers

  type Byte = x: int | 0 <= x < 0x100

  function ByteOr0(s: seq<Byte>, i: nat): Byte {
    if i < |s| then s[i] else 0
  }

  type Word32 = x: int | 0 <= x < 0x1_0000_0000

  type Word64 = x: int | 0 <= x < 0x1_0000_0000_0000_0000

  function Half(x: nat): (h: nat)
    ensures x == 0 ==> h == 0
    ensures x != 0 ==> h < x
  {
    x / 2
  }

  /** The digit that tells whether two last digits differ. */
  function Differ(x: nat, y: nat): nat {
    (x % 2 + y % 2) % 2
  }

  /** The exclusive or, digit by digit. */
  function Xor(x: nat, y: nat): nat
    decreases x + y
  {
    if x == 0 && y == 0 then 0 else 2 * Xor(Half(x), Half(y)) + Differ(x, y)
  }

  lemma XorDigit(x: nat, y: nat)
    ensures Half(Xor(x, y)) == Xor(Half(x), Half(y)) && Xor(x, y) % 2 == Differ(x, y)
  {
    hide Xor, Differ;
    XorUnfolds(x, y);
    DifferIsDigit(x, y);
    Halve(Xor(Half(x), Half(y)), Differ(x, y));
  }

  lemma XorUnfolds(x: nat, y: nat)
    ensures Xor(x, y) == 2 * Xor(Half(x), Half(y)) + Differ(x, y)
  {
    hide Half, Differ;
    DifferIsDigit(x, y);
  }

  lemma DifferIsDigit(x: nat, y: nat)
    ensures 0 <= Differ(x, y) < 2 && Differ(0, 0) == 0
  {
  }

  lemma Halve(q: int, d: int)
    requires 0 <= d < 2
    ensures (2 * q + d) / 2 == q && (2 * q + d) % 2 == d
  {
  }

  lemma DigitsTell(x: nat, y: nat)
    requires Half(x) == Half(y) && Differ(x, 0) == Differ(y, 0)
    ensures x == y
  {
  }

  lemma DifferOfXor(x: nat, y: nat, z: nat)
    ensures Differ(Xor(x, y), z) == (x % 2 + y % 2 + z % 2) % 2 == Differ(z, Xor(x, y))
  {
    XorDigit(x, y);
    hide Xor;
  }

  lemma {:induction false} XorTwice(x: nat, y: nat)
    ensures Xor(Xor(x, y), y) == x
    decreases x + y
  {
    if x == 0 && y == 0 {
    } else {
      hide Xor, Half, Differ;
      XorTwice(Half(x), Half(y));
      XorDigit(x, y);
      XorDigit(Xor(x, y), y);
      TwiceDigit(x, y);
      DigitsTell(Xor(Xor(x, y), y), x);
    }
  }

  lemma TwiceDigit(x: nat, y: nat)
    ensures Differ(Xor(Xor(x, y), y), 0) == Differ(x, 0)
  {
    hide Xor;
    DifferOfXor(Xor(x, y), y, 0);
    XorDigit(x, y);
  }

  lemma {:induction false} XorCommutes(x: nat, y: nat)
    ensures Xor(x, y) == Xor(y, x)
    decreases x + y
  {
    if x == 0 && y == 0 {
    } else {
      XorCommutes(Half(x), Half(y));
    }
  }

  lemma {:induction false} XorAssociates(x: nat, y: nat, z: nat)
    ensures Xor(Xor(x, y), z) == Xor(x, Xor(y, z))
    decreases x + y + z
  {
    if x == 0 && y == 0 && z == 0 {
    } else {
      hide Xor, Half, Differ;
      XorAssociates(Half(x), Half(y), Half(z));
      XorDigit(x, y);
      XorDigit(Xor(x, y), z);
      XorDigit(y, z);
      XorDigit(x, Xor(y, z));
      AssociateDigit(x, y, z);
      DigitsTell(Xor(Xor(x, y), z), Xor(x, Xor(y, z)));
    }
  }

  lemma AssociateDigit(x: nat, y: nat, z: nat)
    ensures Differ(Xor(Xor(x, y), z), 0) == Differ(Xor(x, Xor(y, z)), 0)
  {
    hide Xor;
    DifferOfXor(x, y, z);
    DifferOfXor(y, z, x);
    DifferOfXor(Xor(x, y), z, 0);
    DifferOfXor(x, Xor(y, z), 0);
  }

  lemma {:induction false} XorZero(x: nat)
    ensures Xor(x, 0) == x
  {
    if x == 0 {
    } else {
      XorZero(Half(x));
    }
  }

  /** `x` has at most `n` binary digits. */
  predicate Fits(x: nat, n: nat) {
    x == 0 || (n > 0 && Fits(Half(x), n - 1))
  }

  lemma {:induction false} XorFits(x: nat, y: nat, n: nat)
    requires Fits(x, n) && Fits(y, n)
    ensures Fits(Xor(x, y), n)
  {
    if n == 0 {
    } else {
      XorFits(Half(x), Half(y), n - 1);
    }
  }

  /** Sixteen digits more for every factor 65536. */
  lemma FitsWider(x: nat, n: nat)
    ensures Fits(x, n + 16) <==> Fits(x / 0x1_0000, n)
  {
    var y := x / 2 / 2 / 2 / 2;
    FitsFour(x, n + 12);
    FitsFour(y, n + 8);
    FitsFour(y / 2 / 2 / 2 / 2, n + 4);
    FitsFour(y / 2 / 2 / 2 / 2 / 2 / 2 / 2 / 2, n);
  }

  lemma FitsFour(x: nat, n: nat)
    ensures Fits(x, n + 4) <==> Fits(x / 2 / 2 / 2 / 2, n)
  {
    FitsTwo(x, n + 2);
    FitsTwo(x / 2 / 2, n);
  }

  lemma FitsTwo(x: nat, n: nat)
    ensures Fits(x, n + 2) <==> Fits(x / 2 / 2, n)
  {
    assert Fits(x, n + 2) <==> Fits(x / 2, n + 1);
    assert Fits(x / 2, n + 1) <==> Fits(x / 2 / 2, n);
  }

  lemma WordFits(x: nat)
    ensures Fits(x, 32) <==> x < 0x1_0000_0000
    ensures Fits(x, 64) <==> x < 0x1_0000_0000_0000_0000
  {
    FitsWider(x, 16);
    FitsWider(x / 0x1_0000, 0);
    FitsWider(x, 48);
    FitsWider(x / 0x1_0000, 32);
    FitsWider(x / 0x1_0000 / 0x1_0000, 16);
    FitsWider(x / 0x1_0000 / 0x1_0000 / 0x1_0000, 0);
  }

  function Xor32(x: Word32, y: Word32): (r: Word32)
    ensures r == Xor(x, y)
  {
    WordFits(x);
    WordFits(y);
    XorFits(x, y, 32);
    WordFits(Xor(x, y));
    Xor(x, y)
  }

  function Xor64(x: Word64, y: Word64): (r: Word64)
    ensures r == Xor(x, y)
  {
    WordFits(x);
    WordFits(y);
    XorFits(x, y, 64);
    WordFits(Xor(x, y));
    Xor(x, y)
  }

  /** `x` moved down by `n` binary digits. */
  function Shr(x: nat, n: nat): (r: nat)
    ensures r <= x
    decreases n
  {
    if n == 0 then x else Shr(Half(x), n - 1)
  }

  lemma {:induction false} ShrXor(x: nat, y: nat, n: nat)
    ensures Shr(Xor(x, y), n) == Xor(Shr(x, n), Shr(y, n))
    decreases n
  {
    if n == 0 {
    } else {
      XorDigit(x, y);
      ShrXor(Half(x), Half(y), n - 1);
    }
  }

  lemma {:induction false} ShrShr(x: nat, m: nat, n: nat)
    ensures Shr(Shr(x, m), n) == Shr(x, m + n)
    decreases m
  {
    if m == 0 {
    } else {
      ShrShr(Half(x), m - 1, n);
    }
  }

  lemma {:induction false} ShrAll(x: nat, m: nat, n: nat)
    requires Fits(x, m) && m <= n
    ensures Shr(x, n) == 0
    decreases n
  {
    if n == 0 {
    } else {
      ShrAll(Half(x), if m == 0 then 0 else m - 1, n - 1);
    }
  }

  /** The rotation of a word below `p * q` by the digits of `p`: the upper part moves down, the lower part up. */
  function Rotl(x: nat, p: nat, q: nat): nat
    requires p > 0 && q > 0
  {
    (x % q) * p + x / q
  }

  lemma PartsBelow(a: nat, b: nat, p: nat, q: nat)
    requires p > 0 && b < q && a * q + b < p * q
    ensures a < p
  {
    if a >= p {
      assert false;
    }
  }

  lemma PartsSwapped(a: nat, b: nat, p: nat, q: nat)
    requires a < p && b < q
    ensures b * p + a < p * q && (b * p + a) / p == b && (b * p + a) % p == a
  {
    J.DivModUnique(b * p + a, p, b, a);
    assert b * p + a < p * q by {
      J.MulAtLeast(q - b, p);
      assert (q - b) * p == p * q - b * p;
    }
  }

  lemma RotlInverse(x: nat, p: nat, q: nat)
    requires p > 0 && q > 0 && x < p * q
    ensures Rotl(x, p, q) < p * q && Rotl(Rotl(x, p, q), q, p) == x
  {
    var a, b := x / q, x % q;
    assert x == a * q + b;
    PartsBelow(a, b, p, q);
    PartsSwapped(a, b, p, q);
  }

  /** The lowest byte of a number can be told from the rest. */
  lemma LowByteTells(a: Byte, x: int, b: Byte, y: int)
    requires a + 0x100 * x == b + 0x100 * y
    ensures a == b && x == y
  {
  }
}
