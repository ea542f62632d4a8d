/** The 32-bit error detection code of a CD sector (core/src/sector.rs). */
module Edc {

  function Xor(a: bv32, b: bv32): bv32 {
    a ^ b
  }

  /** One shift of the register, generator 0xD8018001 in reflected form. */
  function Step(e: bv32): bv32 {
    if e & 1 != 0 then (e >> 1) ^ 0xD801_8001 else e >> 1
  }

  function Low(x: bv32): (l: bv32)
    ensures l < 256
  {
    x & 0xFF
  }

  function High(x: bv32): bv32 {
    x >> 8
  }

  function Steps(e: bv32, n: nat): bv32
    decreases n
  {
    if n == 0 then e else Steps(Step(e), n - 1)
  }

  /** The register after the low n bits of x were fed to it, least significant first. */
  function FeedBits(e: bv32, x: bv32, n: nat): bv32
    decreases n
  {
    if n == 0 then e else FeedBits(Step(Xor(e, x & 1)), x >> 1, n - 1)
  }

  /** The bit-serial code: the register fed with every byte in order, one bit at a time. */
  function Feed(e: bv32, data: seq<bv8>): bv32
    decreases |data|
  {
    if |data| == 0 then e else FeedBits(Feed(e, data[..|data| - 1]), data[|data| - 1] as bv32, 8)
  }

  function SerialEdc(data: seq<bv8>): bv32 {
    Feed(0, data)
  }

  /** The low n bytes of x, least significant first. */
  function Bytes(x: bv32, n: nat): (b: seq<bv8>)
    ensures |b| == n
    decreases n
  {
    if n == 0 then [] else [Low(x) as bv8] + Bytes(High(x), n - 1)
  }

  function LittleEndian(x: bv32): (b: seq<bv8>) {
    Bytes(x, 4)
  }

  // ---- the register -----------------------------------------------------------

  /** The shift without a branch. */
  function Fold(e: bv32): bv32 {
    (e >> 1) ^ ((e & 1) * 0xD801_8001)
  }

  lemma StepIsFold(e: bv32)
    ensures Step(e) == Fold(e)
  {
    if e & 1 != 0 {
      assert e & 1 == 1;
    } else {
      assert (e & 1) * 0xD801_8001 == 0;
    }
  }

  lemma FoldXor(a: bv32, b: bv32)
    ensures Fold(a ^ b) == Fold(a) ^ Fold(b)
  {
  }

  lemma FoldXorFunction(a: bv32, b: bv32)
    ensures Fold(Xor(a, b)) == Xor(Fold(a), Fold(b))
  {
    FoldXor(a, b);
  }

  lemma StepXor(a: bv32, b: bv32)
    ensures Step(Xor(a, b)) == Xor(Step(a), Step(b))
  {
    hide *;
    FoldXorFunction(a, b);
    StepIsFold(a);
    StepIsFold(b);
    StepIsFold(Xor(a, b));
  }

  lemma StepInjective(a: bv32, b: bv32)
    requires Step(a) == Step(b)
    ensures a == b
  {
  }

  lemma {:induction false} StepsInjective(a: bv32, b: bv32, n: nat)
    requires Steps(a, n) == Steps(b, n)
    ensures a == b
    decreases n
  {
    hide Step;
    if n > 0 {
      StepsInjective(Step(a), Step(b), n - 1);
      StepInjective(a, b);
    }
  }

  lemma {:induction false} StepsXor(a: bv32, b: bv32, n: nat)
    ensures Steps(Xor(a, b), n) == Xor(Steps(a, n), Steps(b, n))
    decreases n
  {
    hide Step, Xor;
    if n > 0 {
      StepXor(a, b);
      StepsXor(Step(a), Step(b), n - 1);
    }
  }

  lemma {:induction false} StepsAdd(e: bv32, m: nat, n: nat)
    ensures Steps(e, m + n) == Steps(Steps(e, m), n)
    decreases m
  {
    hide Step;
    if m > 0 {
      StepsAdd(Step(e), m - 1, n);
    }
  }

  lemma StepsNone(e: bv32)
    ensures Steps(e, 0) == e
  {
  }

  lemma {:induction false} StepsZero(n: nat)
    ensures Steps(0, n) == 0
  {
    if n > 0 {
      StepsZero(n - 1);
    }
  }

  lemma XorAssociative(a: bv32, b: bv32, c: bv32)
    ensures Xor(Xor(a, b), c) == Xor(a, Xor(b, c))
  {
    assert (a ^ b) ^ c == a ^ (b ^ c);
  }

  lemma XorZero(a: bv32)
    ensures Xor(a, 0) == a == Xor(0, a)
  {
  }

  lemma XorSelf(a: bv32, b: bv32)
    ensures Xor(Xor(a, b), b) == a
  {
  }

  lemma XorEqual(a: bv32, b: bv32)
    ensures Xor(a, b) == 0 <==> a == b
  {
    assert a ^ b == 0 <==> a == b;
  }

  lemma XorCancels(a: bv32, b: bv32)
    ensures Xor(a, 0) == a == Xor(0, a) && Xor(Xor(a, b), b) == a
    ensures Xor(a, b) == 0 <==> a == b
  {
    hide *;
    XorZero(a);
    XorSelf(a, b);
    XorEqual(a, b);
  }

  function ShiftDown(x: bv32, n: nat): bv32
    decreases n
  {
    if n == 0 then x else ShiftDown(x >> 1, n - 1)
  }

  /** Only the low bit of x reaches the feedback; the rest moves down unchanged. */
  lemma StepAbsorbs(e: bv32, x: bv32)
    ensures Step(Xor(e, x)) == Xor(Step(Xor(e, x & 1)), x >> 1)
  {
    LowBitClear(x & 0xFFFF_FFFE, x);
    hide *;
    XorAssociative(e, x & 1, x & 0xFFFF_FFFE);
    StepXor(Xor(e, x & 1), x & 0xFFFF_FFFE);
  }

  lemma LowBitClear(y: bv32, x: bv32)
    requires y == x & 0xFFFF_FFFE
    ensures Step(y) == x >> 1 && Xor(x & 1, y) == x
  {
  }

  /** Feeding n bits is n shifts of the register with those bits folded in beforehand. */
  lemma {:induction false} FeedBitsIsSteps(e: bv32, x: bv32, n: nat)
    ensures Steps(Xor(e, x), n) == Xor(FeedBits(e, x, n), ShiftDown(x, n))
    decreases n
  {
    hide Step, Xor;
    if n > 0 {
      StepAbsorbs(e, x);
      FeedBitsIsSteps(Step(Xor(e, x & 1)), x >> 1, n - 1);
    }
  }

  lemma ShiftDownEight(x: bv32)
    ensures ShiftDown(x, 8) == x >> 8
  {
    assert ShiftDown(x, 8) == x >> 1 >> 1 >> 1 >> 1 >> 1 >> 1 >> 1 >> 1;
  }

  /** Feeding one byte is eight shifts with the byte folded in. */
  lemma FeedByteIsSteps(e: bv32, b: bv8)
    ensures FeedBits(e, b as bv32, 8) == Steps(Xor(e, b as bv32), 8)
  {
    var x := b as bv32;
    assert x >> 8 == 0;
    hide *;
    FeedBitsIsSteps(e, x, 8);
    ShiftDownEight(x);
    XorCancels(FeedBits(e, x, 8), 0);
  }

  /** A word whose low byte is clear moves down eight places unchanged. */
  lemma ClearByteShifts(x: bv32)
    requires x & 0xFF == 0
    ensures Steps(x, 8) == x >> 8
  {
  }

  lemma SplitLowByte(x: bv32, b: bv8)
    ensures Xor(Low(x), x & 0xFFFF_FF00) == x
    ensures x & 0xFFFF_FF00 & 0xFF == 0 && (x & 0xFFFF_FF00) >> 8 == High(x)
    ensures High(Xor(x, b as bv32)) == High(x)
  {
  }

  /** Eight shifts, by the table: the low byte selects the feedback, the rest moves down. */
  lemma StepsByTable(x: bv32)
    ensures Steps(x, 8) == Xor(Steps(Low(x), 8), High(x))
  {
    hide *;
    SplitLowByte(x, 0);
    ClearByteShifts(x & 0xFFFF_FF00);
    StepsXor(Low(x), x & 0xFFFF_FF00, 8);
  }

  lemma {:induction false} FeedAppend(e: bv32, p: seq<bv8>, q: seq<bv8>)
    ensures Feed(e, p + q) == Feed(Feed(e, p), q)
    decreases |q|
  {
    hide FeedBits;
    if |q| == 0 {
      assert p + q == p;
    } else {
      assert (p + q)[..|p + q| - 1] == p + q[..|q| - 1];
      FeedAppend(e, p, q[..|q| - 1]);
    }
  }

  lemma FeedOne(e: bv32, b: bv8)
    ensures Feed(e, [b]) == FeedBits(e, b as bv32, 8)
  {
    hide FeedBits;
    assert [b][..0] == [];
  }

  lemma TableStep(e: bv32, b: bv8)
    ensures Xor(Steps(Low(Xor(e, b as bv32)), 8), High(e)) == Feed(e, [b])
  {
    hide *;
    StepsByTable(Xor(e, b as bv32));
    SplitLowByte(e, b);
    FeedByteIsSteps(e, b);
    FeedOne(e, b);
  }

  // ---- the code -------------------------------------------------------------------

  function Index(x: bv32): (i: int)
    requires x < 256
    ensures 0 <= i < 256
  {
    x as int
  }

  predicate Below(x: bv32, n: bv32) {
    x < n
  }

  lemma IndexInjective(x: bv32, y: bv32)
    requires x < 256 && y < 256 && Index(x) == Index(y)
    ensures x == y
  {
  }

  lemma BelowStep(x: bv32, i: bv32)
    requires i < 256
    ensures Below(x, i + 1) <==> Below(x, i) || x == i
  {
  }

  /** Entry x < n of the table is the register after x was shifted out. */
  ghost predicate IsTable(table: array<bv32>, n: bv32)
    reads table
  {
    table.Length == 256 && n <= 256 && forall x: bv32 :: Below(x, n) ==> table[Index(x)] == Steps(x, 8)
  }

  method EdcTable() returns (t: array<bv32>)
    ensures fresh(t) && IsTable(t, 256)
  {
    t := new bv32[256];
    var i: bv32 := 0;
    while i < 256
      invariant IsTable(t, i)
      decreases 256 - i
    {
      var e := i;
      var bit := 0;
      while bit < 8
        invariant 0 <= bit <= 8
        invariant Steps(e, 8 - bit) == Steps(i, 8)
      {
        e := if e & 1 != 0 then (e >> 1) ^ 0xD801_8001 else e >> 1;
        bit := bit + 1;
      }
      StoreEntry(t, i, e);
      i := i + 1;
    }
  }

  method StoreEntry(t: array<bv32>, i: bv32, e: bv32)
    requires i < 256 && IsTable(t, i) && e == Steps(i, 8)
    modifies t
    ensures IsTable(t, i + 1)
  {
    hide Steps, Below;
    forall x: bv32
      ensures Below(x, i + 1) <==> Below(x, i) || x == i
      ensures x < 256 && Index(x) == Index(i) ==> x == i
    {
      BelowStep(x, i);
      if x < 256 && Index(x) == Index(i) {
        IndexInjective(x, i);
      }
    }
    t[Index(i)] := e;
  }

  lemma TableEntry(table: array<bv32>, x: bv32)
    requires IsTable(table, 256) && x < 256
    ensures table.Length == 256 && table[Index(x)] == Steps(x, 8)
  {
    assert Below(x, 256);
  }

  /** The table-driven code computes the bit-serial one. */
  method CdEdc(data: seq<bv8>) returns (edc: bv32)
    ensures edc == SerialEdc(data)
  {
    var table := EdcTable();
    edc := 0;
    for k := 0 to |data|
      invariant IsTable(table, 256)
      invariant edc == Feed(0, data[..k])
    {
      hide *;
      TableStep(edc, data[k]);
      FeedAppend(0, data[..k], [data[k]]);
      assert data[..k + 1] == data[..k] + [data[k]];
      TableEntry(table, Low(Xor(edc, data[k] as bv32)));
      edc := Xor(table[Index(Low(Xor(edc, data[k] as bv32)))], High(edc));
    }
    assert data[..|data|] == data;
  }

  // ---- what the code detects --------------------------------------------------------

  lemma {:induction false} FeedInjective(e: bv32, f: bv32, data: seq<bv8>)
    requires Feed(e, data) == Feed(f, data)
    ensures e == f
    decreases |data|
  {
    hide FeedBits;
    if |data| > 0 {
      var b := data[|data| - 1];
      FeedByteInjective(Feed(e, data[..|data| - 1]), Feed(f, data[..|data| - 1]), b);
      FeedInjective(e, f, data[..|data| - 1]);
    }
  }

  lemma FeedByteInjective(e: bv32, f: bv32, b: bv8)
    requires FeedBits(e, b as bv32, 8) == FeedBits(f, b as bv32, 8)
    ensures e == f
  {
    hide *;
    FeedByteIsSteps(e, b);
    FeedByteIsSteps(f, b);
    StepsInjective(Xor(e, b as bv32), Xor(f, b as bv32), 8);
    XorCancels(e, b as bv32);
    XorCancels(f, b as bv32);
  }

  /** Feeding the low byte of x is eight shifts with the whole of x folded in, except that
      the rest of x is still to come. */
  lemma AbsorbWord(e: bv32, x: bv32, b: bv8)
    requires b as bv32 == Low(x)
    ensures Feed(Xor(e, x), [b]) == Xor(Steps(e, 8), High(x))
  {
    SplitLowByte(x, 0);
    ClearByteShifts(x & 0xFFFF_FF00);
    var h := x & 0xFFFF_FF00;
    hide *;
    FeedOne(Xor(e, x), b);
    FeedByteIsSteps(Xor(e, x), b);
    XorAssociative(e, x, Low(x));
    XorCommutes(Low(x), h);
    XorCancels(h, Low(x));
    StepsXor(e, h, 8);
  }

  lemma XorCommutes(a: bv32, b: bv32)
    ensures Xor(a, b) == Xor(b, a)
  {
  }

  function Highs(x: bv32, n: nat): bv32
    decreases n
  {
    if n == 0 then x else Highs(High(x), n - 1)
  }

  /** Feeding n bytes of a word is 8n shifts with the word folded in, less what is still to come. */
  lemma {:induction false} FeedBytes(s: bv32, k: nat, e: bv32, x: bv32, n: nat)
    requires e == Xor(Steps(s, k), x)
    ensures Feed(e, Bytes(x, n)) == Xor(Steps(s, k + 8 * n), Highs(x, n))
    decreases n
  {
    hide Steps, Feed, Low, High, Xor;
    if n == 0 {
      FeedNone(e);
    } else {
      var f := AbsorbLow(s, k, x, e);
      FeedBytes(s, k + 8, f, High(x), n - 1);
      FeedAppend(e, [Low(x) as bv8], Bytes(High(x), n - 1));
    }
  }

  lemma FeedNone(e: bv32)
    ensures Feed(e, []) == e
  {
  }

  lemma AbsorbLow(s: bv32, n: nat, x: bv32, e: bv32) returns (f: bv32)
    requires e == Xor(Steps(s, n), x)
    ensures f == Feed(e, [Low(x) as bv8]) == Xor(Steps(s, n + 8), High(x))
  {
    f := Feed(e, [Low(x) as bv8]);
    LowFits(x);
    hide *;
    AbsorbWord(Steps(s, n), x, Low(x) as bv8);
    StepsAdd(s, n, 8);
  }

  /** Feeding a word's four bytes is 32 shifts with the word folded in. */
  lemma FeedWord(e: bv32, x: bv32)
    ensures Feed(e, LittleEndian(x)) == Steps(Xor(e, x), 32)
  {
    hide Steps, Feed, Low, High, Xor, Bytes, Highs;
    var s := Xor(e, x);
    XorCancels(e, x);
    StepsNone(s);
    FeedBytes(s, 0, e, x, 4);
    HighFour(x);
    XorCancels(Steps(s, 32), 0);
  }

  lemma LowFits(x: bv32)
    ensures (Low(x) as bv8) as bv32 == Low(x)
  {
  }

  lemma HighFour(x: bv32)
    ensures Highs(x, 4) == 0
  {
    assert Highs(x, 4) == x >> 8 >> 8 >> 8 >> 8;
  }

  /** Appending four bytes makes the code zero exactly when they are the code, little-endian. */
  lemma ResidueZero(data: seq<bv8>, x: bv32)
    ensures SerialEdc(data + LittleEndian(x)) == 0 <==> x == SerialEdc(data)
  {
    hide Feed, LittleEndian, Steps, Xor;
    var e := SerialEdc(data);
    FeedAppend(0, data, LittleEndian(x));
    FeedWord(e, x);
    XorCancels(e, x);
    StepsZero(32);
    if Steps(Xor(e, x), 32) == 0 {
      StepsInjective(Xor(e, x), 0, 32);
    }
  }

  lemma FourBytesAreAWord(d: seq<bv8>) returns (x: bv32)
    requires |d| == 4
    ensures LittleEndian(x) == d
  {
    x := (d[0] as bv32) | ((d[1] as bv32) << 8) | ((d[2] as bv32) << 16) | ((d[3] as bv32) << 24);
  }

  /** Inputs of equal length that differ only inside four consecutive bytes have different codes. */
  lemma BurstDetected(a: seq<bv8>, b: seq<bv8>, i: nat)
    requires |a| == |b| && a != b
    requires forall k :: 0 <= k < |a| && !(i <= k < i + 4) ==> a[k] == b[k]
    ensures SerialEdc(a) != SerialEdc(b)
  {
    hide Feed;
    if |a| < i + 4 {
      PadZeros(a);
      PadZeros(b);
      var c, d := [0, 0, 0, 0] + a, [0, 0, 0, 0] + b;
      assert c[4..] == a && d[4..] == b;
      WindowDetected(c, d, |a|);
    } else {
      WindowDetected(a, b, i);
    }
  }

  lemma PadZeros(a: seq<bv8>)
    ensures SerialEdc([0, 0, 0, 0] + a) == SerialEdc(a)
  {
    hide Feed;
    FeedAppend(0, [0, 0, 0, 0], a);
    FeedWord(0, 0);
    assert LittleEndian(0) == [0, 0, 0, 0];
    XorCancels(0, 0);
    StepsZero(32);
  }

  lemma WindowDetected(a: seq<bv8>, b: seq<bv8>, i: nat)
    requires |a| == |b| && i + 4 <= |a| && a != b
    requires forall k :: 0 <= k < |a| && !(i <= k < i + 4) ==> a[k] == b[k]
    ensures SerialEdc(a) != SerialEdc(b)
  {
    hide Feed, Steps, Xor, LittleEndian;
    var p, q := a[..i], a[i + 4..];
    var x := FourBytesAreAWord(a[i..i + 4]);
    var y := FourBytesAreAWord(b[i..i + 4]);
    assert a == p + LittleEndian(x) + q;
    assert b == p + LittleEndian(y) + q;
    FeedAppend(0, p + LittleEndian(x), q);
    FeedAppend(0, p + LittleEndian(y), q);
    FeedAppend(0, p, LittleEndian(x));
    FeedAppend(0, p, LittleEndian(y));
    var e := Feed(0, p);
    FeedWord(e, x);
    FeedWord(e, y);
    if SerialEdc(a) == SerialEdc(b) {
      FeedInjective(Steps(Xor(e, x), 32), Steps(Xor(e, y), 32), q);
      StepsInjective(Xor(e, x), Xor(e, y), 32);
      XorCommutes(e, x);
      XorCommutes(e, y);
      XorCancels(x, e);
      XorCancels(y, e);
    }
  }
}
