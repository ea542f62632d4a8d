/** The 16-bit CRC of CD-Text packs and Q subchannel frames (core/src/cdtext.rs). */
module Crc16 {

  function Xor(a: bv16, b: bv16): bv16 {
    a ^ b
  }

  /** One shift of the register, generator x^16 + x^12 + x^5 + 1. */
  function Step(c: bv16): bv16 {
    if c & 0x8000 != 0 then (c << 1) ^ 0x1021 else c << 1
  }

  function Steps(c: bv16, n: nat): bv16
    decreases n
  {
    if n == 0 then c else Steps(Step(c), n - 1)
  }

  /** The register after the top n bits of x were fed to it, most significant first. */
  function FeedBits(c: bv16, x: bv16, n: nat): bv16
    decreases n
  {
    if n == 0 then c else FeedBits(Step(Xor(c, x & 0x8000)), x << 1, n - 1)
  }

  /** A byte in the upper half of a word. */
  function Upper(b: bv8): bv16 {
    (b as bv16) << 8
  }

  function Word(high: bv8, low: bv8): bv16 {
    Upper(high) | low as bv16
  }

  /** The bit-serial CRC: the register fed with every byte in order, one bit at a time. */
  function Feed(c: bv16, data: seq<bv8>): bv16
    decreases |data|
  {
    if |data| == 0 then c else FeedBits(Feed(c, data[..|data| - 1]), Upper(data[|data| - 1]), 8)
  }

  function SerialCrc(data: seq<bv8>): bv16 {
    Feed(0, data)
  }

  // ---- the register -----------------------------------------------------------

  /** The shift without a branch. */
  function Fold(c: bv16): bv16 {
    (c << 1) ^ ((c >> 15) * 0x1021)
  }

  lemma StepIsFold(c: bv16)
    ensures Step(c) == Fold(c)
  {
    if c & 0x8000 != 0 {
      assert c >> 15 == 1;
    } else {
      assert c >> 15 == 0;
    }
  }

  lemma FoldXor(a: bv16, b: bv16)
    ensures Fold(a ^ b) == Fold(a) ^ Fold(b)
  {
  }

  lemma FoldXorFunction(a: bv16, b: bv16)
    ensures Fold(Xor(a, b)) == Xor(Fold(a), Fold(b))
  {
    FoldXor(a, b);
  }

  lemma StepXor(a: bv16, b: bv16)
    ensures Step(Xor(a, b)) == Xor(Step(a), Step(b))
  {
    hide *;
    FoldXorFunction(a, b);
    StepIsFold(a);
    StepIsFold(b);
    StepIsFold(Xor(a, b));
  }

  lemma StepInjective(a: bv16, b: bv16)
    requires Step(a) == Step(b)
    ensures a == b
  {
    hide *;
    StepUndone(a);
    StepUndone(b);
  }

  /** The generator is odd, so the low bit tells which branch was taken. */
  function Unstep(c: bv16): bv16 {
    if c & 1 != 0 then ((c ^ 0x1021) >> 1) | 0x8000 else c >> 1
  }

  lemma StepUndone(c: bv16)
    ensures Unstep(Step(c)) == c
  {
    if c & 0x8000 != 0 {
      TakenUndone(c, (c << 1) ^ 0x1021);
    } else {
      SkippedUndone(c, c << 1);
    }
  }

  lemma TakenUndone(c: bv16, d: bv16)
    requires c & 0x8000 != 0 && d == (c << 1) ^ 0x1021
    ensures d & 1 != 0 && ((d ^ 0x1021) >> 1) | 0x8000 == c
  {
  }

  lemma SkippedUndone(c: bv16, d: bv16)
    requires c & 0x8000 == 0 && d == c << 1
    ensures d & 1 == 0 && d >> 1 == c
  {
  }

  lemma {:induction false} StepsInjective(a: bv16, b: bv16, n: nat)
    requires Steps(a, n) == Steps(b, n)
    ensures a == b
    decreases n
  {
    hide Step;
    if n > 0 {
      StepsInjective(Step(a), Step(b), n - 1);
      StepInjective(a, b);
    }
  }

  lemma {:induction false} StepsXor(a: bv16, b: bv16, n: nat)
    ensures Steps(Xor(a, b), n) == Xor(Steps(a, n), Steps(b, n))
    decreases n
  {
    hide Step, Xor;
    if n > 0 {
      StepXor(a, b);
      StepsXor(Step(a), Step(b), n - 1);
    }
  }

  lemma {:induction false} StepsAdd(c: bv16, m: nat, n: nat)
    ensures Steps(c, m + n) == Steps(Steps(c, m), n)
    decreases m
  {
    hide Step;
    if m > 0 {
      StepsAdd(Step(c), m - 1, n);
    }
  }

  lemma XorAssociative(a: bv16, b: bv16, c: bv16)
    ensures Xor(Xor(a, b), c) == Xor(a, Xor(b, c))
  {
    assert (a ^ b) ^ c == a ^ (b ^ c);
  }

  lemma XorLaws(a: bv16, b: bv16)
    ensures Xor(a, 0) == a && Xor(a, b) == Xor(b, a) && Xor(Xor(a, b), b) == a
  {
  }

  /** Only the top bit of x reaches the feedback; the rest moves up unchanged. */
  lemma StepAbsorbs(c: bv16, x: bv16)
    ensures Step(Xor(c, x)) == Xor(Step(Xor(c, x & 0x8000)), x << 1)
  {
    TopBitClear(x & 0x7FFF, x);
    hide *;
    XorAssociative(c, x & 0x8000, x & 0x7FFF);
    StepXor(Xor(c, x & 0x8000), x & 0x7FFF);
  }

  lemma TopBitClear(y: bv16, x: bv16)
    requires y == x & 0x7FFF
    ensures Step(y) == x << 1 && Xor(x & 0x8000, y) == x
  {
  }

  function ShiftUp(x: bv16, n: nat): bv16
    decreases n
  {
    if n == 0 then x else ShiftUp(x << 1, n - 1)
  }

  /** Feeding n bits is n shifts of the register with those bits folded in beforehand. */
  lemma {:induction false} FeedBitsIsSteps(c: bv16, x: bv16, n: nat)
    ensures Steps(Xor(c, x), n) == Xor(FeedBits(c, x, n), ShiftUp(x, n))
    decreases n
  {
    hide Step, Xor;
    if n > 0 {
      StepAbsorbs(c, x);
      FeedBitsIsSteps(Step(Xor(c, x & 0x8000)), x << 1, n - 1);
    }
  }

  /** Feeding one byte is eight shifts with the byte folded into the upper half. */
  lemma FeedByteIsSteps(c: bv16, b: bv8)
    ensures FeedBits(c, Upper(b), 8) == Steps(Xor(c, Upper(b)), 8)
  {
    assert ShiftUp(Upper(b), 8) == 0;
    hide *;
    FeedBitsIsSteps(c, Upper(b), 8);
    XorLaws(FeedBits(c, Upper(b), 8), 0);
  }

  lemma {:induction false} FeedAppend(c: bv16, p: seq<bv8>, q: seq<bv8>)
    ensures Feed(c, p + q) == Feed(Feed(c, p), q)
    decreases |q|
  {
    hide FeedBits, Upper;
    if |q| == 0 {
      assert p + q == p;
    } else {
      assert (p + q)[..|p + q| - 1] == p + q[..|q| - 1];
      FeedAppend(c, p, q[..|q| - 1]);
    }
  }

  lemma FeedOne(c: bv16, b: bv8)
    ensures Feed(c, [b]) == FeedBits(c, Upper(b), 8)
  {
    hide FeedBits, Upper;
    assert [b][..0] == [];
  }

  lemma LowByteMovesUp(b: bv8)
    ensures Steps(b as bv16, 8) == Upper(b)
  {
  }

  lemma WordIsXor(high: bv8, low: bv8)
    ensures Word(high, low) == Xor(Upper(high), low as bv16)
  {
  }

  /** Feeding two bytes is 16 shifts with the word folded in. */
  lemma FeedWord(c: bv16, high: bv8, low: bv8)
    ensures Feed(c, [high, low]) == Steps(Xor(c, Word(high, low)), 16)
  {
    hide *;
    var l := low as bv16;
    FeedAppend(c, [high], [low]);
    assert [high, low] == [high] + [low];
    FeedOne(c, high);
    FeedByteIsSteps(c, high);
    var c1 := Steps(Xor(c, Upper(high)), 8);
    FeedOne(c1, low);
    FeedByteIsSteps(c1, low);
    LowByteMovesUp(low);
    StepsXor(Xor(c, Upper(high)), l, 8);
    XorAssociative(c, Upper(high), l);
    WordIsXor(high, low);
    StepsAdd(Xor(c, Word(high, low)), 8, 8);
  }

  // ---- the CRC ------------------------------------------------------------------

  method Crc16Ccitt(data: seq<bv8>) returns (crc: bv16)
    ensures crc == SerialCrc(data)
  {
    crc := 0;
    for k := 0 to |data|
      invariant crc == SerialCrc(data[..k])
    {
      ghost var before := crc;
      crc := Xor(crc, Upper(data[k]));
      ghost var start := crc;
      for i := 0 to 8
        invariant Steps(crc, 8 - i) == Steps(start, 8)
      {
        crc := if crc & 0x8000 != 0 then (crc << 1) ^ 0x1021 else crc << 1;
      }
      hide *;
      StepsNone(crc);
      FeedByteIsSteps(before, data[k]);
      FeedOne(before, data[k]);
      FeedAppend(0, data[..k], [data[k]]);
      assert data[..k + 1] == data[..k] + [data[k]];
    }
    assert data[..|data|] == data;
  }

  lemma StepsNone(c: bv16)
    ensures Steps(c, 0) == c
  {
  }

  lemma {:induction false} FeedInjective(c: bv16, d: bv16, data: seq<bv8>)
    requires Feed(c, data) == Feed(d, data)
    ensures c == d
    decreases |data|
  {
    hide FeedBits, Upper;
    if |data| > 0 {
      var b := data[|data| - 1];
      FeedByteInjective(Feed(c, data[..|data| - 1]), Feed(d, data[..|data| - 1]), b);
      FeedInjective(c, d, data[..|data| - 1]);
    }
  }

  lemma FeedByteInjective(c: bv16, d: bv16, b: bv8)
    requires FeedBits(c, Upper(b), 8) == FeedBits(d, Upper(b), 8)
    ensures c == d
  {
    hide *;
    FeedByteIsSteps(c, b);
    FeedByteIsSteps(d, b);
    StepsInjective(Xor(c, Upper(b)), Xor(d, Upper(b)), 8);
    XorLaws(c, Upper(b));
    XorLaws(d, Upper(b));
  }

  /** Inputs of equal length that differ only inside two consecutive bytes have different CRCs. */
  lemma BurstDetected(a: seq<bv8>, b: seq<bv8>, i: nat)
    requires |a| == |b| && a != b && i + 2 <= |a|
    requires forall k :: 0 <= k < |a| && !(i <= k < i + 2) ==> a[k] == b[k]
    ensures SerialCrc(a) != SerialCrc(b)
  {
    hide Feed, Steps, Xor, Word;
    var p, q, x, y := a[..i], a[i + 2..], [a[i], a[i + 1]], [b[i], b[i + 1]];
    assert a == p + x + q;
    assert b == p + y + q;
    FeedAppend(0, p + x, q);
    FeedAppend(0, p + y, q);
    FeedAppend(0, p, x);
    FeedAppend(0, p, y);
    var c := Feed(0, p);
    FeedWord(c, x[0], x[1]);
    FeedWord(c, y[0], y[1]);
    var u, w := Word(x[0], x[1]), Word(y[0], y[1]);
    if SerialCrc(a) == SerialCrc(b) {
      FeedInjective(Steps(Xor(c, u), 16), Steps(Xor(c, w), 16), q);
      StepsInjective(Xor(c, u), Xor(c, w), 16);
      XorLaws(u, c);
      XorLaws(w, c);
      WordInjective(x[0], x[1], y[0], y[1]);
    }
  }

  lemma WordInjective(a: bv8, b: bv8, c: bv8, d: bv8)
    requires Word(a, b) == Word(c, d)
    ensures a == c && b == d
  {
  }
}
