/** The SipHash state and the words that strings are folded into it with. */
module SipHash {
  import opened MachineWords

  type Text = s: seq<Byte> | |s| < 0x1_0000_0000_0000_0000

  datatype Sip = Sip(v0: Word64, v1: Word64, v2: Word64, v3: Word64)

  // ---------- the round ----------

  function Add(x: Word64, y: Word64): Word64 {
    (x + y) % 0x1_0000_0000_0000_0000
  }

  function Sub(x: Word64, y: Word64): Word64 {
    (x - y) % 0x1_0000_0000_0000_0000
  }

  lemma AddInverse(x: Word64, y: Word64)
    ensures Sub(Add(x, y), y) == x && Add(Sub(x, y), y) == x
  {
  }

  /** `ROTL` by `n` places, where `p` is 2^n and `q` is 2^(64-n). */
  function Rotate(x: Word64, p: nat, q: nat): Word64
    requires p * q == 0x1_0000_0000_0000_0000
  {
    RotlInverse(x, p, q);
    Rotl(x, p, q)
  }

  /** A quarter of the round: one lane is added to another, rotated, and mixed with the sum. */
  function Quarter(a: Word64, b: Word64, p: nat, q: nat): (Word64, Word64)
    requires p * q == 0x1_0000_0000_0000_0000
  {
    (Add(a, b), Xor64(Rotate(b, p, q), Add(a, b)))
  }

  function Unquarter(a: Word64, b: Word64, p: nat, q: nat): (Word64, Word64)
    requires p * q == 0x1_0000_0000_0000_0000
  {
    var before := Rotate(Xor64(b, a), q, p);
    (Sub(a, before), before)
  }

  lemma QuarterInverse(a: Word64, b: Word64, p: nat, q: nat)
    requires p * q == 0x1_0000_0000_0000_0000
    ensures var r := Quarter(a, b, p, q); Unquarter(r.0, r.1, p, q) == (a, b)
    ensures var r := Unquarter(a, b, p, q); Quarter(r.0, r.1, p, q) == (a, b)
  {
    hide Add, Sub, Rotl, Xor;
    XorTwice(Rotate(b, p, q), Add(a, b));
    RotlInverse(b, p, q);
    AddInverse(a, b);
    XorTwice(b, a);
    RotlInverse(Xor64(b, a), q, p);
    AddInverse(a, Rotate(Xor64(b, a), q, p));
  }

  function Swap(x: Word64): Word64 {
    Rotate(x, 0x1_0000_0000, 0x1_0000_0000)
  }

  /** `SIPROUND`. */
  function Round(s: Sip): Sip {
    var (a0, a1) := Quarter(s.v0, s.v1, 0x2000, 0x8_0000_0000_0000);
    var (a2, a3) := Quarter(s.v2, s.v3, 0x1_0000, 0x1_0000_0000_0000);
    var (b0, b3) := Quarter(Swap(a0), a3, 0x20_0000, 0x800_0000_0000);
    var (b2, b1) := Quarter(a2, a1, 0x2_0000, 0x8000_0000_0000);
    Sip(b0, b1, Swap(b2), b3)
  }

  function Unround(s: Sip): Sip {
    var (a2, a1) := Unquarter(Swap(s.v2), s.v1, 0x2_0000, 0x8000_0000_0000);
    var (a0, a3) := Unquarter(s.v0, s.v3, 0x20_0000, 0x800_0000_0000);
    var (c2, c3) := Unquarter(a2, a3, 0x1_0000, 0x1_0000_0000_0000);
    var (c0, c1) := Unquarter(Swap(a0), a1, 0x2000, 0x8_0000_0000_0000);
    Sip(c0, c1, c2, c3)
  }

  lemma SwapTwice(x: Word64)
    ensures Swap(Swap(x)) == x
  {
    RotlInverse(x, 0x1_0000_0000, 0x1_0000_0000);
  }

  lemma RoundUndone(s: Sip)
    ensures Unround(Round(s)) == s
  {
    hide Quarter, Unquarter, Swap;
    var (a0, a1) := Quarter(s.v0, s.v1, 0x2000, 0x8_0000_0000_0000);
    var (a2, a3) := Quarter(s.v2, s.v3, 0x1_0000, 0x1_0000_0000_0000);
    var (b2, b1) := Quarter(a2, a1, 0x2_0000, 0x8000_0000_0000);
    QuarterInverse(s.v0, s.v1, 0x2000, 0x8_0000_0000_0000);
    QuarterInverse(s.v2, s.v3, 0x1_0000, 0x1_0000_0000_0000);
    QuarterInverse(Swap(a0), a3, 0x20_0000, 0x800_0000_0000);
    QuarterInverse(a2, a1, 0x2_0000, 0x8000_0000_0000);
    SwapTwice(a0);
    SwapTwice(b2);
  }

  lemma UnroundUndone(s: Sip)
    ensures Round(Unround(s)) == s
  {
    hide Quarter, Unquarter, Swap;
    var (a2, a1) := Unquarter(Swap(s.v2), s.v1, 0x2_0000, 0x8000_0000_0000);
    var (a0, a3) := Unquarter(s.v0, s.v3, 0x20_0000, 0x800_0000_0000);
    QuarterInverse(Swap(s.v2), s.v1, 0x2_0000, 0x8000_0000_0000);
    QuarterInverse(s.v0, s.v3, 0x20_0000, 0x800_0000_0000);
    QuarterInverse(a2, a3, 0x1_0000, 0x1_0000_0000_0000);
    QuarterInverse(Swap(a0), a1, 0x2000, 0x8_0000_0000_0000);
    SwapTwice(a0);
    SwapTwice(s.v2);
  }

  // ---------- folding words ----------

  /** What `siphash_fold_uint64` makes of a state. */
  function Fold(s: Sip, i: Word64): Sip {
    var r := Round(s.(v3 := Xor64(s.v3, i)));
    r.(v0 := Xor64(r.v0, i))
  }

  function Unfold(s: Sip, i: Word64): Sip {
    var r := Unround(s.(v0 := Xor64(s.v0, i)));
    r.(v3 := Xor64(r.v3, i))
  }

  /** For a fixed word the fold is a permutation of the 256-bit states. */
  lemma FoldIsPermutation(s: Sip, i: Word64)
    ensures Unfold(Fold(s, i), i) == s && Fold(Unfold(s, i), i) == s
  {
    hide Round, Unround, Xor;
    var mixed, unmixed := s.(v3 := Xor64(s.v3, i)), s.(v0 := Xor64(s.v0, i));
    RoundUndone(mixed);
    UnroundUndone(unmixed);
    XorTwice(s.v3, i);
    XorTwice(s.v0, i);
    XorTwice(Round(mixed).v0, i);
    XorTwice(Unround(unmixed).v3, i);
  }

  function FoldAll(s: Sip, words: seq<Word64>): Sip
    decreases |words|
  {
    if words == [] then s else FoldAll(Fold(s, words[0]), words[1..])
  }

  function UnfoldAll(s: Sip, words: seq<Word64>): Sip
    decreases |words|
  {
    if words == [] then s else Unfold(UnfoldAll(s, words[1..]), words[0])
  }

  lemma {:induction false} FoldAllIsPermutation(s: Sip, words: seq<Word64>)
    ensures UnfoldAll(FoldAll(s, words), words) == s && FoldAll(UnfoldAll(s, words), words) == s
    decreases |words|
  {
    hide Fold, Unfold;
    if words == [] {
    } else {
      FoldIsPermutation(s, words[0]);
      FoldIsPermutation(UnfoldAll(s, words[1..]), words[0]);
      FoldAllIsPermutation(Fold(s, words[0]), words[1..]);
      FoldAllIsPermutation(s, words[1..]);
    }
  }

  lemma FoldAllStep(s: Sip, w: Word64, rest: seq<Word64>)
    ensures FoldAll(s, [w] + rest) == FoldAll(Fold(s, w), rest)
  {
    assert ([w] + rest)[1..] == rest;
  }

  // ---------- the words of a string ----------

  /** `U8TO64_LE`. */
  function Load(b0: Byte, b1: Byte, b2: Byte, b3: Byte, b4: Byte, b5: Byte, b6: Byte, b7: Byte): Word64 {
    b0 as int + 0x100 * (b1 as int + 0x100 * (b2 as int + 0x100 * (b3 as int
    + 0x100 * (b4 as int + 0x100 * (b5 as int + 0x100 * (b6 as int + 0x100 * (b7 as int)))))))
  }

  lemma LoadTells(a0: Byte, a1: Byte, a2: Byte, a3: Byte, a4: Byte, a5: Byte, a6: Byte, a7: Byte,
                  b0: Byte, b1: Byte, b2: Byte, b3: Byte, b4: Byte, b5: Byte, b6: Byte, b7: Byte)
    requires Load(a0, a1, a2, a3, a4, a5, a6, a7) == Load(b0, b1, b2, b3, b4, b5, b6, b7)
    ensures a0 == b0 && a1 == b1 && a2 == b2 && a3 == b3 && a4 == b4 && a5 == b5 && a6 == b6 && a7 == b7
  {
    var x6, y6 := a6 as int + 0x100 * (a7 as int), b6 as int + 0x100 * (b7 as int);
    var x5, y5 := a5 as int + 0x100 * x6, b5 as int + 0x100 * y6;
    var x4, y4 := a4 as int + 0x100 * x5, b4 as int + 0x100 * y5;
    var x3, y3 := a3 as int + 0x100 * x4, b3 as int + 0x100 * y4;
    var x2, y2 := a2 as int + 0x100 * x3, b2 as int + 0x100 * y3;
    var x1, y1 := a1 as int + 0x100 * x2, b1 as int + 0x100 * y2;
    LowByteTells(a0, x1, b0, y1);
    LowByteTells(a1, x2, b1, y2);
    LowByteTells(a2, x3, b2, y3);
    LowByteTells(a3, x4, b3, y4);
    LowByteTells(a4, x5, b4, y5);
    LowByteTells(a5, x6, b5, y6);
    LowByteTells(a6, a7, b6, b7);
  }

  function Block(s: seq<Byte>): Word64
    requires |s| >= 8
  {
    Load(s[0], s[1], s[2], s[3], s[4], s[5], s[6], s[7])
  }

  /** The last word: up to seven bytes, under the low byte of the length. */
  function Tail(s: seq<Byte>, len: nat): Word64
    requires |s| < 8
  {
    Load(ByteOr0(s, 0), ByteOr0(s, 1), ByteOr0(s, 2), ByteOr0(s, 3), ByteOr0(s, 4), ByteOr0(s, 5), ByteOr0(s, 6),
         len % 0x100)
  }

  /** The words after the length. */
  function Body(s: seq<Byte>, len: nat): (words: seq<Word64>)
    ensures |words| == |s| / 8 + 1
  {
    if |s| >= 8 then [Block(s)] + Body(s[8..], len) else [Tail(s, len)]
  }

  function Words(s: Text): seq<Word64> {
    [|s|] + Body(s, |s|)
  }

  lemma BlockTells(s: seq<Byte>, t: seq<Byte>)
    requires |s| >= 8 && |t| >= 8 && Block(s) == Block(t)
    ensures s[..8] == t[..8]
  {
    hide Load;
    LoadTells(s[0], s[1], s[2], s[3], s[4], s[5], s[6], s[7], t[0], t[1], t[2], t[3], t[4], t[5], t[6], t[7]);
  }

  lemma TailTells(s: seq<Byte>, t: seq<Byte>, len: nat)
    requires |s| == |t| < 8 && Tail(s, len) == Tail(t, len)
    ensures s == t
  {
    hide Load;
    LoadTells(ByteOr0(s, 0), ByteOr0(s, 1), ByteOr0(s, 2), ByteOr0(s, 3), ByteOr0(s, 4), ByteOr0(s, 5), ByteOr0(s, 6),
              len % 0x100,
              ByteOr0(t, 0), ByteOr0(t, 1), ByteOr0(t, 2), ByteOr0(t, 3), ByteOr0(t, 4), ByteOr0(t, 5), ByteOr0(t, 6),
              len % 0x100);
    forall i | 0 <= i < |s|
      ensures s[i] == t[i]
    {
      assert s[i] == ByteOr0(s, i) && t[i] == ByteOr0(t, i);
    }
  }

  lemma {:induction false} BodyTells(s: seq<Byte>, t: seq<Byte>, len: nat)
    requires |s| == |t| && Body(s, len) == Body(t, len)
    ensures s == t
  {
    hide Block, Tail;
    if |s| >= 8 {
      assert Body(s, len)[0] == Block(s) && Body(t, len)[0] == Block(t);
      assert Body(s, len)[1..] == Body(s[8..], len) && Body(t, len)[1..] == Body(t[8..], len);
      BlockTells(s, t);
      BodyTells(s[8..], t[8..], len);
      assert s == s[..8] + s[8..] && t == t[..8] + t[8..];
    } else {
      assert Body(s, len)[0] == Tail(s, len) && Body(t, len)[0] == Tail(t, len);
      TailTells(s, t, len);
    }
  }

  /** No string's words begin with the words of another string. */
  lemma WordsArePrefixFree(s: Text, t: Text)
    requires Words(s) <= Words(t)
    ensures s == t
  {
    hide Body;
    assert Words(s)[0] == |s| && Words(t)[0] == |t|;
    assert Words(s)[1..] == Body(s, |s|) && Words(t)[1..] == Body(t, |t|);
    BodyTells(s, t, |s|);
  }

  /** The words that a list of strings is folded in with. */
  function Stream(list: seq<Text>): seq<Word64> {
    if list == [] then [] else Words(list[0]) + Stream(list[1..])
  }

  /** A stream begins with another one only if the list does; so different lists give different streams. */
  lemma {:induction false} StreamsTell(a: seq<Text>, b: seq<Text>)
    requires Stream(a) <= Stream(b)
    ensures a <= b
  {
    hide Words, Body;
    if a == [] {
    } else {
      WordsNotEmpty(a[0]);
      assert b != [];
      var x, y := Words(a[0]), Words(b[0]);
      assert Stream(a) == x + Stream(a[1..]) && Stream(b) == y + Stream(b[1..]);
      OneIsPrefix(x, Stream(a[1..]), y, Stream(b[1..]));
      if x <= y {
        WordsArePrefixFree(a[0], b[0]);
      } else {
        WordsArePrefixFree(b[0], a[0]);
      }
      assert Stream(a)[|x|..] == Stream(a[1..]) && Stream(b)[|x|..] == Stream(b[1..]);
      StreamsTell(a[1..], b[1..]);
      assert a == [a[0]] + a[1..] && b == [b[0]] + b[1..];
    }
  }

  lemma WordsNotEmpty(s: Text)
    ensures Words(s) != []
  {
  }

  lemma OneIsPrefix(x: seq<Word64>, x1: seq<Word64>, y: seq<Word64>, y1: seq<Word64>)
    requires x + x1 <= y + y1
    ensures x <= y || y <= x
  {
    var whole := y + y1;
    assert x == (x + x1)[..|x|] == whole[..|x|];
    assert y == whole[..|y|];
    if |x| <= |y| {
      assert y[..|x|] == whole[..|x|];
    } else {
      assert x[..|y|] == whole[..|y|];
    }
  }

  // ---------- the state in place ----------

  class HashState {
    var v0: Word64
    var v1: Word64
    var v2: Word64
    var v3: Word64

    function State(): Sip
      reads this
    {
      Sip(v0, v1, v2, v3)
    }

    constructor (s: Sip)
      ensures State() == s
    {
      v0, v1, v2, v3 := s.v0, s.v1, s.v2, s.v3;
    }

    method SipRound()
      modifies this
      ensures State() == Round(old(State()))
    {
      hide Rotate, Add, Xor;
      v0 := Add(v0, v1);
      v1 := Rotate(v1, 0x2000, 0x8_0000_0000_0000);
      v1 := Xor64(v1, v0);
      v0 := Rotate(v0, 0x1_0000_0000, 0x1_0000_0000);
      v2 := Add(v2, v3);
      v3 := Rotate(v3, 0x1_0000, 0x1_0000_0000_0000);
      v3 := Xor64(v3, v2);
      v0 := Add(v0, v3);
      v3 := Rotate(v3, 0x20_0000, 0x800_0000_0000);
      v3 := Xor64(v3, v0);
      v2 := Add(v2, v1);
      v1 := Rotate(v1, 0x2_0000, 0x8000_0000_0000);
      v1 := Xor64(v1, v2);
      v2 := Rotate(v2, 0x1_0000_0000, 0x1_0000_0000);
    }

    /** `siphash_fold_uint64`, with one round. */
    method FoldUint64(i: Word64)
      modifies this
      ensures State() == Fold(old(State()), i)
    {
      hide Round, Xor;
      v3 := Xor64(v3, i);
      for round := 0 to 1
        invariant if round == 0 then State() == old(State()).(v3 := Xor64(old(v3), i))
                  else State() == Round(old(State()).(v3 := Xor64(old(v3), i)))
      {
        SipRound();
      }
      v0 := Xor64(v0, i);
    }

    /** `siphash_fold_string`. */
    method FoldString(s: Text)
      modifies this
      ensures State() == FoldAll(old(State()), Words(s))
    {
      hide Fold, Load;
      var len := |s|;
      var left := len % 8;
      FoldAllStep(State(), len, Body(s, len));
      FoldUint64(len);
      var i := 0;
      assert s[0..] == s;
      while i + 8 <= len
        invariant 0 <= i <= len && i % 8 == 0
        invariant FoldAll(State(), Body(s[i..], len)) == FoldAll(old(State()), Words(s))
      {
        var w := Load(s[i], s[i + 1], s[i + 2], s[i + 3], s[i + 4], s[i + 5], s[i + 6], s[i + 7]);
        NextBlock(s, i, len);
        FoldAllStep(State(), w, Body(s[i + 8..], len));
        FoldUint64(w);
        i := i + 8;
      }
      var w := TailOf(s[i..], len);
      FoldAllStep(State(), w, []);
      FoldUint64(w);
    }
  }

  lemma NextBlock(s: seq<Byte>, i: nat, len: nat)
    requires i + 8 <= |s|
    ensures Body(s[i..], len)
            == [Load(s[i], s[i + 1], s[i + 2], s[i + 3], s[i + 4], s[i + 5], s[i + 6], s[i + 7])]
               + Body(s[i + 8..], len)
  {
    hide Load;
    assert s[i..][8..] == s[i + 8..];
  }

  lemma TailIsSum(rest: seq<Byte>, len: nat)
    requires |rest| < 8
    ensures Tail(rest, len)
            == 0x100_0000_0000_0000 * (len % 0x100) + 0x1_0000_0000_0000 * ByteOr0(rest, 6)
               + 0x100_0000_0000 * ByteOr0(rest, 5) + 0x1_0000_0000 * ByteOr0(rest, 4) + 0x100_0000 * ByteOr0(rest, 3)
               + 0x1_0000 * ByteOr0(rest, 2) + 0x100 * ByteOr0(rest, 1) + ByteOr0(rest, 0)
  {
    hide ByteOr0;
  }

  /** The switch on the number of bytes left, each case falling through to the next. */
  method TailOf(rest: seq<Byte>, len: nat) returns (w: Word64)
    requires |rest| < 8
    ensures w == Tail(rest, len)
  {
    hide Tail;
    TailIsSum(rest, len);
    w := 0x100_0000_0000_0000 * (len % 0x100);
    if |rest| >= 7 {
      w := w + 0x1_0000_0000_0000 * (rest[6] as int);
    }
    if |rest| >= 6 {
      w := w + 0x100_0000_0000 * (rest[5] as int);
    }
    if |rest| >= 5 {
      w := w + 0x1_0000_0000 * (rest[4] as int);
    }
    if |rest| >= 4 {
      w := w + 0x100_0000 * (rest[3] as int);
    }
    if |rest| >= 3 {
      w := w + 0x1_0000 * (rest[2] as int);
    }
    if |rest| >= 2 {
      w := w + 0x100 * (rest[1] as int);
    }
    if |rest| >= 1 {
      w := w + rest[0];
    }
  }
}
