/** The Murmur-style fold of a blob into a 32-bit hash state, and the finalisation to a 30-bit hash value. */
module BlobHash {
  import opened MachineWords
  import opened JsNumbers

  type Blob = seq<Byte>

  // ---------- one word ----------

  /** Multiplication of 32-bit words. */
  function Times(x: Word32, c: Word32): Word32 {
    (x * c) % 0x1_0000_0000
  }

  function Plus(x: Word32, c: Word32): Word32 {
    (x + c) % 0x1_0000_0000
  }

  // Each of the odd multipliers has an inverse modulo 2^32.

  lemma TimesFirstInverse(x: Word32)
    ensures Times(Times(x, 0xcc9e2d51), 0xdee13bb1) == x && Times(Times(x, 0xdee13bb1), 0xcc9e2d51) == x
  {
    DivModUnique((x * 0xcc9e2d51) % 0x1_0000_0000 * 0xdee13bb1, 0x1_0000_0000,
                 2988782088 * x - (x * 0xcc9e2d51) / 0x1_0000_0000 * 0xdee13bb1, x);
    DivModUnique((x * 0xdee13bb1) % 0x1_0000_0000 * 0xcc9e2d51, 0x1_0000_0000,
                 2988782088 * x - (x * 0xdee13bb1) / 0x1_0000_0000 * 0xcc9e2d51, x);
  }

  lemma TimesSecondInverse(x: Word32)
    ensures Times(Times(x, 0x1b873593), 0x56ed309b) == x && Times(Times(x, 0x56ed309b), 0x1b873593) == x
  {
    DivModUnique((x * 0x1b873593) % 0x1_0000_0000 * 0x56ed309b, 0x1_0000_0000,
                 156822886 * x - (x * 0x1b873593) / 0x1_0000_0000 * 0x56ed309b, x);
    DivModUnique((x * 0x56ed309b) % 0x1_0000_0000 * 0x1b873593, 0x1_0000_0000,
                 156822886 * x - (x * 0x56ed309b) / 0x1_0000_0000 * 0x1b873593, x);
  }

  lemma TimesFiveInverse(x: Word32)
    ensures Times(Times(x, 5), 0xcccccccd) == x && Times(Times(x, 0xcccccccd), 5) == x
  {
    DivModUnique((x * 5) % 0x1_0000_0000 * 0xcccccccd, 0x1_0000_0000, 4 * x - (x * 5) / 0x1_0000_0000 * 0xcccccccd, x);
    DivModUnique((x * 0xcccccccd) % 0x1_0000_0000 * 5, 0x1_0000_0000, 4 * x - (x * 0xcccccccd) / 0x1_0000_0000 * 5, x);
  }

  lemma TimesThirdInverse(x: Word32)
    ensures Times(Times(x, 0x85ebca6b), 0xa5cb9243) == x && Times(Times(x, 0xa5cb9243), 0x85ebca6b) == x
  {
    DivModUnique((x * 0x85ebca6b) % 0x1_0000_0000 * 0xa5cb9243, 0x1_0000_0000,
                 1455126516 * x - (x * 0x85ebca6b) / 0x1_0000_0000 * 0xa5cb9243, x);
    DivModUnique((x * 0xa5cb9243) % 0x1_0000_0000 * 0x85ebca6b, 0x1_0000_0000,
                 1455126516 * x - (x * 0xa5cb9243) / 0x1_0000_0000 * 0x85ebca6b, x);
  }

  lemma TimesFourthInverse(x: Word32)
    ensures Times(Times(x, 0xc2b2ae35), 0x7ed1b41d) == x && Times(Times(x, 0x7ed1b41d), 0xc2b2ae35) == x
  {
    DivModUnique((x * 0xc2b2ae35) % 0x1_0000_0000 * 0x7ed1b41d, 0x1_0000_0000,
                 1618177690 * x - (x * 0xc2b2ae35) / 0x1_0000_0000 * 0x7ed1b41d, x);
    DivModUnique((x * 0x7ed1b41d) % 0x1_0000_0000 * 0xc2b2ae35, 0x1_0000_0000,
                 1618177690 * x - (x * 0x7ed1b41d) / 0x1_0000_0000 * 0xc2b2ae35, x);
  }

  /** `ROTL32` by 15 and by 13 places. */
  function Rotl15(x: Word32): Word32 {
    RotlInverse(x, 0x8000, 0x2_0000);
    Rotl(x, 0x8000, 0x2_0000)
  }

  function Rotl17(x: Word32): Word32 {
    RotlInverse(x, 0x2_0000, 0x8000);
    Rotl(x, 0x2_0000, 0x8000)
  }

  function Rotl13(x: Word32): Word32 {
    RotlInverse(x, 0x2000, 0x8_0000);
    Rotl(x, 0x2000, 0x8_0000)
  }

  function Rotl19(x: Word32): Word32 {
    RotlInverse(x, 0x8_0000, 0x2000);
    Rotl(x, 0x8_0000, 0x2000)
  }

  /** The part of `MIX` that prepares the word. */
  function Scramble(d: Word32): Word32 {
    Times(Rotl15(Times(d, 0xcc9e2d51)), 0x1b873593)
  }

  function Unscramble(d: Word32): Word32 {
    Times(Rotl17(Times(d, 0x56ed309b)), 0xdee13bb1)
  }

  /** The part of `MIX` that advances the state. */
  function Advance(h: Word32): Word32 {
    Plus(Times(Rotl13(h), 5), 0xe6546b64)
  }

  function Retreat(h: Word32): Word32 {
    Rotl19(Times(Plus(h, 0x19ab949c), 0xcccccccd))
  }

  /** `MIX`. */
  function Mix(h: Word32, d: Word32): Word32 {
    Advance(Xor32(h, Scramble(d)))
  }

  function Unmix(h: Word32, d: Word32): Word32 {
    Xor32(Retreat(h), Scramble(d))
  }

  lemma ScrambleInverse(d: Word32)
    ensures Unscramble(Scramble(d)) == d
  {
    hide Times, Rotl;
    TimesFirstInverse(d);
    RotlInverse(Times(d, 0xcc9e2d51), 0x8000, 0x2_0000);
    TimesSecondInverse(Rotl15(Times(d, 0xcc9e2d51)));
  }

  lemma AdvanceInverse(h: Word32)
    ensures Retreat(Advance(h)) == h && Advance(Retreat(h)) == h
  {
    hide Times, Rotl;
    TimesFiveInverse(Rotl13(h));
    RotlInverse(h, 0x2000, 0x8_0000);
    var r := Plus(h, 0x19ab949c);
    TimesFiveInverse(r);
    RotlInverse(Times(r, 0xcccccccd), 0x8_0000, 0x2000);
  }

  lemma XorTells(h: nat, x: nat, y: nat)
    ensures Xor(h, x) == Xor(h, y) ==> x == y
  {
    hide Xor;
    XorCommutes(h, x);
    XorCommutes(h, y);
    XorTwice(x, h);
    XorTwice(y, h);
  }

  /** For a fixed word `MIX` is a permutation of the states, and for a fixed state it tells all words apart. */
  lemma MixIsPermutation(h: Word32, d: Word32, e: Word32)
    ensures Unmix(Mix(h, d), d) == h && Mix(Unmix(h, d), d) == h
    ensures Mix(h, d) == Mix(h, e) ==> d == e
  {
    hide Advance, Retreat, Scramble, Unscramble, Xor;
    XorTwice(h, Scramble(d));
    XorTwice(Retreat(h), Scramble(d));
    XorTells(h, Scramble(d), Scramble(e));
    AdvanceInverse(Xor32(h, Scramble(d)));
    AdvanceInverse(Xor32(h, Scramble(e)));
    AdvanceInverse(h);
    ScrambleInverse(d);
    ScrambleInverse(e);
  }

  // ---------- one blob ----------

  /** A 32-bit word from four bytes, the first one lowest. */
  function Load(b0: Byte, b1: Byte, b2: Byte, b3: Byte): Word32 {
    b0 as int + 0x100 * (b1 as int + 0x100 * (b2 as int + 0x100 * (b3 as int)))
  }

  /** The words that are mixed: the aligned blocks of four bytes, then up to three bytes in a last word. */
  function Words(s: Blob): seq<Word32> {
    if |s| >= 4 then [Load(s[0], s[1], s[2], s[3])] + Words(s[4..])
    else if |s| == 0 then []
    else [Load(s[0], if |s| > 1 then s[1] else 0, if |s| > 2 then s[2] else 0, 0)]
  }

  function Fold(h: Word32, words: seq<Word32>): Word32
    decreases |words|
  {
    if words == [] then h else Fold(Mix(h, words[0]), words[1..])
  }

  /** The low 32 bits of a length. */
  function LengthWord(len: nat): Word32 {
    len % 0x1_0000_0000
  }

  function FoldBlob(h: Word32, s: Blob): Word32 {
    Xor32(Fold(h, Words(s)), LengthWord(|s|))
  }

  lemma {:induction false} WordsConcat(s: Blob, i: nat)
    requires i % 4 == 0 && i + 4 <= |s|
    ensures i <= |s| && Words(s[i..]) == [Load(s[i], s[i + 1], s[i + 2], s[i + 3])] + Words(s[i + 4..])
  {
    assert s[i..][4..] == s[i + 4..];
  }

  lemma {:induction false} FoldStep(h: Word32, w: Word32, rest: seq<Word32>)
    ensures Fold(h, [w] + rest) == Fold(Mix(h, w), rest)
  {
    assert ([w] + rest)[1..] == rest;
  }

  /** `Base_internalhash_fold_blob`. */
  method FoldBlobLoop(seed: Word32, s: Blob) returns (h: Word32)
    ensures h == FoldBlob(seed, s)
  {
    hide Mix, Load, Words, Fold, FoldBlob, Xor32, LengthWord;
    h := seed;
    var i := 0;
    assert s[0..] == s;
    while i + 4 <= |s|
      invariant 0 <= i <= |s| && i % 4 == 0
      invariant Fold(h, Words(s[i..])) == Fold(seed, Words(s))
    {
      WordsConcat(s, i);
      var w := Load(s[i], s[i + 1], s[i + 2], s[i + 3]);
      FoldStep(h, w, Words(s[i + 4..]));
      h := Mix(h, w);
      i := i + 4;
    }
    BytesLeft(|s|, i);
    var w: Word32 := 0;
    if |s| % 4 != 0 {
      if |s| % 4 == 3 {
        w := 0x1_0000 * (s[i + 2] as int);
      }
      if |s| % 4 >= 2 {
        w := w + 0x100 * (s[i + 1] as int);
      }
      w := w + s[i];
      TailWord(s, i, w);
      FoldStep(h, w, []);
      h := Mix(h, w);
    }
    TailFolded(s, i, h);
    h := Xor32(h, LengthWord(|s|));
    FoldBlobIs(seed, s);
  }

  lemma BytesLeft(len: nat, i: nat)
    requires i % 4 == 0 && i <= len < i + 4
    ensures len % 4 == len - i
  {
  }

  lemma FoldBlobIs(h: Word32, s: Blob)
    ensures FoldBlob(h, s) == Xor32(Fold(h, Words(s)), LengthWord(|s|))
  {
  }

  lemma TailFolded(s: Blob, i: nat, h: Word32)
    requires i <= |s|
    ensures i == |s| ==> Fold(h, Words(s[i..])) == h
    ensures Fold(h, []) == h
  {
  }

  lemma TailWord(s: Blob, i: nat, w: Word32)
    requires 1 <= |s| - i <= 3
    requires w == (if |s| - i == 3 then 0x1_0000 * (s[i + 2] as int) else 0)
             + (if |s| - i >= 2 then 0x100 * (s[i + 1] as int) else 0) + s[i]
    ensures Words(s[i..]) == [w] + []
  {
    var rest := s[i..];
    assert rest[0] == s[i];
  }

  // ---------- permutation and collisions ----------

  function Unfold(h: Word32, words: seq<Word32>): Word32
    decreases |words|
  {
    if words == [] then h else Unmix(Unfold(h, words[1..]), words[0])
  }

  lemma {:induction false} FoldIsPermutation(h: Word32, words: seq<Word32>)
    ensures Unfold(Fold(h, words), words) == h && Fold(Unfold(h, words), words) == h
    decreases |words|
  {
    hide Mix, Unmix;
    if words == [] {
    } else {
      MixIsPermutation(h, words[0], 0);
      MixIsPermutation(Unfold(h, words[1..]), words[0], 0);
      FoldIsPermutation(Mix(h, words[0]), words[1..]);
      FoldIsPermutation(h, words[1..]);
    }
  }

  /** The state before a blob, from the state after it. */
  function UnfoldBlob(h: Word32, s: Blob): Word32 {
    Unfold(Xor32(h, LengthWord(|s|)), Words(s))
  }

  /** For a fixed blob the fold is a permutation of the 32-bit states. */
  lemma BlobIsPermutation(h: Word32, s: Blob)
    ensures UnfoldBlob(FoldBlob(h, s), s) == h && FoldBlob(UnfoldBlob(h, s), s) == h
  {
    hide Fold, Unfold, Words, LengthWord, Xor;
    XorTwice(Fold(h, Words(s)), LengthWord(|s|));
    XorTwice(h, LengthWord(|s|));
    FoldIsPermutation(h, Words(s));
    FoldIsPermutation(Xor32(h, LengthWord(|s|)), Words(s));
  }

  /** Words that differ in exactly one place. */
  predicate DifferAt(a: seq<Word32>, b: seq<Word32>, k: nat) {
    |a| == |b| && k < |a| && a[k] != b[k] && a[..k] == b[..k] && a[k + 1..] == b[k + 1..]
  }

  lemma {:induction false} OneWordTells(h: Word32, a: seq<Word32>, b: seq<Word32>, k: nat)
    requires DifferAt(a, b, k)
    ensures Fold(h, a) != Fold(h, b)
    decreases k
  {
    hide Mix, Unmix;
    if k == 0 {
      MixIsPermutation(h, a[0], b[0]);
      FoldIsPermutation(Mix(h, a[0]), a[1..]);
      FoldIsPermutation(Mix(h, b[0]), b[1..]);
    } else {
      assert a[0] == a[..k][0] == b[..k][0] == b[0];
      assert a[1..][..k - 1] == a[..k][1..] && b[1..][..k - 1] == b[..k][1..];
      assert a[1..][k..] == a[k + 1..] && b[1..][k..] == b[k + 1..];
      OneWordTells(Mix(h, a[0]), a[1..], b[1..], k - 1);
    }
  }

  /** Two blobs of the same length that differ, but only within bytes 4k to 4k+3. */
  predicate DifferInBlock(s: Blob, t: Blob, k: nat) {
    |s| == |t| && s != t && 4 * k < |s| && s[..4 * k] == t[..4 * k]
    && (4 * k + 4 <= |s| ==> s[4 * k + 4..] == t[4 * k + 4..])
  }

  lemma LoadTells(a0: Byte, a1: Byte, a2: Byte, a3: Byte, b0: Byte, b1: Byte, b2: Byte, b3: Byte)
    requires Load(a0, a1, a2, a3) == Load(b0, b1, b2, b3)
    ensures a0 == b0 && a1 == b1 && a2 == b2 && a3 == b3
  {
    var a, b := a2 as int + 0x100 * (a3 as int), b2 as int + 0x100 * (b3 as int);
    LowByteTells(a0, a1 as int + 0x100 * a, b0, b1 as int + 0x100 * b);
    LowByteTells(a1, a, b1, b);
    LowByteTells(a2, a3, b2, b3);
  }

  lemma FirstWord(s: Blob)
    requires |s| > 0
    ensures |Words(s)| > 0 && Words(s)[0] == Load(s[0], ByteOr0(s, 1), ByteOr0(s, 2), ByteOr0(s, 3))
    ensures if |s| >= 4 then Words(s)[1..] == Words(s[4..]) else |Words(s)| == 1
  {
  }

  lemma FirstBlockTells(s: Blob, t: Blob)
    requires DifferInBlock(s, t, 0)
    ensures DifferAt(Words(s), Words(t), 0)
  {
    hide Words, Load;
    FirstWord(s);
    FirstWord(t);
    assert |s| >= 4 ==> s == [s[0], s[1], s[2], s[3]] + s[4..] && t == [t[0], t[1], t[2], t[3]] + t[4..];
    if Words(s)[0] == Words(t)[0] {
      LoadTells(s[0], ByteOr0(s, 1), ByteOr0(s, 2), ByteOr0(s, 3), t[0], ByteOr0(t, 1), ByteOr0(t, 2), ByteOr0(t, 3));
    }
  }

  lemma {:induction false} BlockTells(s: Blob, t: Blob, k: nat)
    requires DifferInBlock(s, t, k)
    ensures DifferAt(Words(s), Words(t), k)
    decreases k
  {
    hide Words, Load;
    if k == 0 {
      FirstBlockTells(s, t);
    } else {
      LaterBlock(s, t, k);
      BlockTells(s[4..], t[4..], k - 1);
      FirstWord(s);
      FirstWord(t);
      ShiftedDifference(Words(s), Words(t), k - 1);
    }
  }

  lemma ShiftedDifference(a: seq<Word32>, b: seq<Word32>, k: nat)
    requires |a| > 0 && |b| > 0 && a[0] == b[0] && DifferAt(a[1..], b[1..], k)
    ensures DifferAt(a, b, k + 1)
  {
    assert a[..k + 1] == [a[0]] + a[1..][..k] && b[..k + 1] == [b[0]] + b[1..][..k];
    assert a[1..][k + 1..] == a[k + 2..] && b[1..][k + 1..] == b[k + 2..];
  }

  lemma LaterBlock(s: Blob, t: Blob, k: nat)
    requires DifferInBlock(s, t, k) && k > 0
    ensures |s| >= 4 && s[0] == t[0] && s[1] == t[1] && s[2] == t[2] && s[3] == t[3]
    ensures DifferInBlock(s[4..], t[4..], k - 1)
  {
    var head := s[..4 * k];
    assert head[0] == s[0] && head[1] == s[1] && head[2] == s[2] && head[3] == s[3];
    assert t[..4 * k] == head;
    assert head[0] == t[0] && head[1] == t[1] && head[2] == t[2] && head[3] == t[3];
    assert s == [s[0], s[1], s[2], s[3]] + s[4..] && t == [t[0], t[1], t[2], t[3]] + t[4..];
    assert s[4..][..4 * (k - 1)] == head[4..] && t[4..][..4 * (k - 1)] == head[4..];
    assert 4 * k + 4 <= |s| ==> s[4..][4 * k..] == s[4 * k + 4..] && t[4..][4 * k..] == t[4 * k + 4..];
  }

  /** Blobs of equal length that differ in one aligned block, or in the tail, never fold to the same state. */
  lemma OneBlockTells(h: Word32, s: Blob, t: Blob, k: nat)
    requires DifferInBlock(s, t, k)
    ensures FoldBlob(h, s) != FoldBlob(h, t)
  {
    hide Words, Fold, LengthWord, Xor;
    BlockTells(s, t, k);
    OneWordTells(h, Words(s), Words(t), k);
    XorTwice(Fold(h, Words(s)), LengthWord(|s|));
    XorTwice(Fold(h, Words(t)), LengthWord(|t|));
  }

  // ---------- finalisation ----------

  /** `h ^= h >> n`. */
  function XorShift(h: Word32, n: nat): Word32 {
    Xor32(h, Shr(h, n))
  }

  /** Undoes a shift by 13: the top 13 bits are right at once, the next 13 after one step, the rest after two. */
  function Unshift13(h: Word32): Word32 {
    Xor32(Xor32(h, Shr(h, 13)), Shr(h, 26))
  }

  lemma XorShiftInverse16(h: Word32)
    ensures XorShift(XorShift(h, 16), 16) == h
  {
    hide Xor, Shr;
    WordFits(h);
    ShrXor(h, Shr(h, 16), 16);
    ShrShr(h, 16, 16);
    ShrAll(h, 32, 32);
    XorZero(Shr(h, 16));
    XorTwice(h, Shr(h, 16));
  }

  lemma XorShiftInverse13(h: Word32)
    ensures Unshift13(XorShift(h, 13)) == h && XorShift(Unshift13(h), 13) == h
  {
    hide Xor, Shr;
    var a, b := Shr(h, 13), Shr(h, 26);
    WordFits(h);
    ShrShr(h, 13, 13);
    ShrShr(h, 13, 26);
    ShrShr(h, 26, 13);
    ShrAll(h, 32, 39);
    XorZero(a);
    XorZero(b);
    XorZero(Xor(a, b));
    ShrXor(h, a, 13);
    ShrXor(h, a, 26);
    ShrXor(Xor(h, a), b, 13);
    XorAssociates(h, a, Xor(a, b));
    XorAssociates(h, a, b);
    XorAssociates(a, b, b);
    XorTwice(a, b);
    XorTwice(h, a);
    XorTwice(h, Xor(a, b));
    XorAssociates(Xor(h, a), Xor(a, b), b);
  }

  /** `FINAL_MIX`. */
  function FinalMix(h: Word32): Word32 {
    XorShift(Times(XorShift(Times(XorShift(h, 16), 0x85ebca6b), 13), 0xc2b2ae35), 16)
  }

  function FinalUnmix(h: Word32): Word32 {
    XorShift(Times(Unshift13(Times(XorShift(h, 16), 0x7ed1b41d)), 0xa5cb9243), 16)
  }

  /** Finalisation loses nothing. */
  lemma FinalMixIsPermutation(h: Word32)
    ensures FinalUnmix(FinalMix(h)) == h && FinalMix(FinalUnmix(h)) == h
  {
    hide XorShift, Times, Unshift13;
    XorShiftInverse16(h);
    var h1 := Times(XorShift(h, 16), 0x85ebca6b);
    TimesThirdInverse(XorShift(h, 16));
    XorShiftInverse13(h1);
    TimesFourthInverse(XorShift(h1, 13));
    XorShiftInverse16(Times(XorShift(h1, 13), 0xc2b2ae35));
    var r2 := Times(XorShift(h, 16), 0x7ed1b41d);
    TimesFourthInverse(XorShift(h, 16));
    XorShiftInverse13(r2);
    TimesThirdInverse(Unshift13(r2));
    XorShiftInverse16(Times(Unshift13(r2), 0xa5cb9243));
  }

  /** `Base_internalhash_get_hash_value`: the low 30 bits. */
  function HashValue(h: Word32): Word32 {
    FinalMix(h) % 0x4000_0000
  }

  /** The states with a given hash value are the four that the mask identifies. */
  lemma HashValueCollisions(h: Word32, v: Word32)
    requires v < 0x4000_0000
    ensures HashValue(h) == v <==>
            h == FinalUnmix(v) || h == FinalUnmix(v + 0x4000_0000) || h == FinalUnmix(v + 0x8000_0000)
                || h == FinalUnmix(v + 0xC000_0000)
  {
    hide FinalMix, FinalUnmix;
    FinalMixIsPermutation(h);
    FinalMixIsPermutation(v);
    FinalMixIsPermutation(v + 0x4000_0000);
    FinalMixIsPermutation(v + 0x8000_0000);
    FinalMixIsPermutation(v + 0xC000_0000);
    TopBits(FinalMix(h), v);
  }

  lemma TopBits(x: Word32, v: Word32)
    requires v < 0x4000_0000
    ensures x % 0x4000_0000 == v <==> x == v || x == v + 0x4000_0000 || x == v + 0x8000_0000 || x == v + 0xC000_0000
  {
  }
}
