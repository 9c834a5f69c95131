/** JavaScript's integer operators, stated on unbounded integers.

BigInt `/` and `%` truncate toward zero; Dafny's `/` and `%` are Euclidean, which for a
positive divisor is the same as flooring. */
module JsNumbers {

  /** `Math.abs`, and the BigInt `abs` helper. */
  function Abs(x: int): nat {
    if x < 0 then -x else x
  }

  /** `Math.sign`. */
  function Sign(x: int): int {
    if x < 0 then -1 else if x > 0 then 1 else 0
  }

  /** BigInt division: truncates toward zero. */
  function TruncDiv(a: int, b: int): int
    requires b > 0
  {
    if a < 0 then -((-a) / b) else a / b
  }

  /** BigInt remainder: takes the sign of the dividend. */
  function TruncMod(a: int, b: int): int
    requires b > 0
  {
    if a < 0 then -((-a) % b) else a % b
  }

  /** `divmod`. */
  function DivMod(t: int, r: int): (res: (int, int))
    requires r > 0
    ensures t == res.0 * r + res.1 && -r < res.1 < r
    ensures (res.0 == 0 || Sign(res.0) == Sign(t)) && (res.1 == 0 || Sign(res.1) == Sign(t))
  {
    DivNonNegative(Abs(t), r);
    (TruncDiv(t, r), TruncMod(t, r))
  }

  lemma DivNonNegative(a: nat, b: int)
    requires b > 0
    ensures a / b >= 0
  {
  }

  /** Truncated division is the only split of `a` whose remainder is smaller than the divisor
  and does not disagree in sign with the dividend. */
  lemma TruncDivUnique(a: int, b: int, q: int, r: int)
    requires b > 0
    requires a == q * b + r && Abs(r) < b && (r == 0 || Sign(r) == Sign(a))
    ensures q == TruncDiv(a, b) && r == TruncMod(a, b)
  {
    if a < 0 {
      DivModUnique(-a, b, -q, -r);
    } else {
      DivModUnique(a, b, q, r);
    }
  }

  /** The remainder that is never negative, from the truncated one. */
  lemma RemainderFromTruncated(a: int, b: int)
    requires b > 0
    ensures var m := TruncMod(a, b); -b < m < b && a % b == if m < 0 then m + b else m
    ensures a / b == if TruncMod(a, b) < 0 then TruncDiv(a, b) - 1 else TruncDiv(a, b)
  {
    var q, m := TruncDiv(a, b), TruncMod(a, b);
    assert a == q * b + m;
    if m < 0 {
      assert (q - 1) * b == q * b - b;
      DivModUnique(a, b, q - 1, m + b);
    } else {
      DivModUnique(a, b, q, m);
    }
  }

  /** Two splits with remainders below `n` that do not disagree in sign are the same. */
  lemma SplitUnique(q1: int, r1: int, q2: int, r2: int, n: int, s: int)
    requires n > 0 && n * q1 + r1 == n * q2 + r2
    requires Abs(r1) < n && Abs(r2) < n
    requires (r1 == 0 || Sign(r1) == s) && (r2 == 0 || Sign(r2) == s)
    ensures q1 == q2 && r1 == r2
  {
    assert n * (q1 - q2) == r2 - r1;
    if q1 > q2 {
      MulAtLeast(q1 - q2, n);
    } else if q2 > q1 {
      MulAtLeast(q2 - q1, n);
    }
  }

  lemma DivModUnique(a: int, b: int, q: int, r: int)
    requires b > 0 && 0 <= r < b && a == q * b + r
    ensures q == a / b && r == a % b
  {
    var k := q - a / b;
    assert k * b == a % b - r by {
      assert a == (a / b) * b + a % b;
      assert k * b == q * b - (a / b) * b;
    }
    if k >= 1 {
      MulAtLeast(k, b);
    } else if k <= -1 {
      MulAtLeast(-k, b);
    }
  }

  lemma DivModShift(x: int, b: int, k: int)
    requires b > 0
    ensures (x + k * b) / b == x / b + k && (x + k * b) % b == x % b
  {
    assert (x / b + k) * b == (x / b) * b + k * b;
    DivModUnique(x + k * b, b, x / b + k, x % b);
  }

  /** Rounding up moves to the next quotient just after a multiple of `b`. */
  lemma CeilStep(z: int, b: int)
    requires b > 0
    ensures (z + b) / b - (z + b - 1) / b == if z % b == 0 then 1 else 0
  {
    var q, r := z / b, z % b;
    assert (q + 1) * b == q * b + b;
    DivModUnique(z + b, b, q + 1, r);
    if r == 0 {
      DivModUnique(z + b - 1, b, q, b - 1);
    } else {
      DivModUnique(z + b - 1, b, q + 1, r - 1);
    }
  }

  lemma MulAtLeast(k: int, b: int)
    requires k >= 1 && b >= 0
    ensures k * b >= b
  {
    assert (k - 1) * b >= 0;
  }

  /** `NonNegativeBigIntDivmod`: truncated division repaired so that the remainder is never negative. */
  function NonNegativeBigIntDivmod(t: int, r: int): (res: (int, int))
    requires r > 0
    ensures res.0 * r + res.1 == t && 0 <= res.1 < r
    ensures res == (t / r, t % r)
  {
    var q, n := TruncDiv(t, r), TruncMod(t, r);
    assert q * r + n == t;
    assert n < 0 ==> (q - 1) * r + (n + r) == t by { assert (q - 1) * r == q * r - r; }
    var res := if n < 0 then (q - 1, n + r) else (q, n);
    DivModUnique(t, r, res.0, res.1);
    res
  }
}
