/** The CRC of CD-Text packs and Q frames as the standards define it: the remainder of a polynomial over
    GF(2) by x^16 + x^12 + x^5 + 1. */
module CrcPolynomial {
  import opened Crc16

  /** x^n modulo the generator; bit k of the register is the coefficient of x^k. */
  function Power(n: nat): bv16 {
    if n == 0 then 1 else Step(Power(n - 1))
  }

  lemma PowerOn(n: nat)
    ensures Power(n + 1) == Step(Power(n))
  {
  }

  lemma LowPowers()
    ensures Power(0) == 0x0001 && Power(1) == 0x0002 && Power(2) == 0x0004 && Power(3) == 0x0008
    ensures Power(4) == 0x0010 && Power(5) == 0x0020 && Power(6) == 0x0040 && Power(7) == 0x0080
  {
  }

  lemma HighPowers()
    ensures Power(8) == 0x0100 && Power(9) == 0x0200 && Power(10) == 0x0400 && Power(11) == 0x0800
    ensures Power(12) == 0x1000 && Power(13) == 0x2000 && Power(14) == 0x4000 && Power(15) == 0x8000
  {
    LowPowers();
    PowerOn(7);
    PowerOn(8);
    PowerOn(9);
    PowerOn(10);
    PowerOn(11);
    PowerOn(12);
    PowerOn(13);
    PowerOn(14);
    hide Power;
  }

  /** Below degree 16 a power of x is a single coefficient, and x^16 is x^12 + x^5 + 1. */
  lemma GeneratorTerms()
    ensures forall k: nat :: k < 16 ==> Power(k) == [0x0001, 0x0002, 0x0004, 0x0008, 0x0010, 0x0020, 0x0040, 0x0080,
      0x0100, 0x0200, 0x0400, 0x0800, 0x1000, 0x2000, 0x4000, 0x8000][k]
    ensures Power(16) == Xor(Power(12), Xor(Power(5), Power(0)))
  {
    LowPowers();
    HighPowers();
    PowerOn(15);
    hide Power;
  }

  /** The bits of a byte in the order of the CRC, most significant first. */
  function ByteBits(b: bv8): seq<bool> {
    [b & 0x80 != 0, b & 0x40 != 0, b & 0x20 != 0, b & 0x10 != 0,
     b & 0x08 != 0, b & 0x04 != 0, b & 0x02 != 0, b & 0x01 != 0]
  }

  function BitsOf(data: seq<bv8>): seq<bool> {
    if |data| == 0 then [] else BitsOf(data[..|data| - 1]) + ByteBits(data[|data| - 1])
  }

  /** The remainder of x^16 times the polynomial whose coefficients the bits are, highest first. */
  function Remainder(bits: seq<bool>): bv16 {
    if |bits| == 0 then 0
    else Xor(if bits[0] then Power(15 + |bits|) else 0, Remainder(bits[1..]))
  }

  function OfBit(b: bool): bv16 {
    if b then 0x8000 else 0
  }

  lemma {:induction false} OneMoreBit(bits: seq<bool>, b: bool)
    ensures Remainder(bits + [b]) == Step(Xor(Remainder(bits), OfBit(b)))
  {
    hide Step, Xor;
    if |bits| == 0 {
      assert bits + [b] == [b] && [b][1..] == [];
      LastBit(b);
    } else {
      var head := if bits[0] then Power(15 + |bits|) else 0;
      OneMoreBit(bits[1..], b);
      assert (bits + [b])[1..] == bits[1..] + [b];
      XorAssociative(head, Remainder(bits[1..]), OfBit(b));
      StepXor(head, Xor(Remainder(bits[1..]), OfBit(b)));
      StepZero();
    }
  }

  lemma StepZero()
    ensures Step(0) == 0
  {
  }

  lemma LastBit(b: bool)
    ensures Xor(if b then Power(16) else 0, 0) == Step(Xor(0, OfBit(b)))
  {
    HighPowers();
    PowerOn(15);
    hide Power;
  }

  predicate TopBit(x: bv16) {
    x & 0x8000 != 0
  }

  function Up(x: bv16): bv16 {
    x << 1
  }

  /** The top n bits of x, most significant first. */
  function TopBits(x: bv16, n: nat): seq<bool>
    decreases n
  {
    if n == 0 then [] else [TopBit(x)] + TopBits(Up(x), n - 1)
  }

  lemma FedBit(c: bv16, x: bv16, n: nat)
    ensures FeedBits(c, x, n + 1) == FeedBits(Step(Xor(c, OfBit(TopBit(x)))), Up(x), n)
  {
    assert OfBit(TopBit(x)) == x & 0x8000;
    hide Step, Xor, OfBit;
  }

  lemma {:induction false} FedBits(bits: seq<bool>, x: bv16, n: nat)
    ensures FeedBits(Remainder(bits), x, n) == Remainder(bits + TopBits(x, n))
    decreases n
  {
    hide Step, Xor, Remainder, OfBit, TopBit, Up;
    if n == 0 {
      assert bits + TopBits(x, n) == bits;
    } else {
      var b := TopBit(x);
      FedBit(Remainder(bits), x, n - 1);
      OneMoreBit(bits, b);
      FedBits(bits + [b], Up(x), n - 1);
      assert bits + [b] + TopBits(Up(x), n - 1) == bits + TopBits(x, n);
    }
  }

  lemma FourBits(x: bv16, n: nat)
    ensures TopBits(x, n + 4) ==
      [TopBit(x), TopBit(Up(x)), TopBit(Up(Up(x))), TopBit(Up(Up(Up(x))))] + TopBits(Up(Up(Up(Up(x)))), n)
  {
    hide TopBit, Up, TopBits;
    OneBit(x, n + 3);
    OneBit(Up(x), n + 2);
    OneBit(Up(Up(x)), n + 1);
    OneBit(Up(Up(Up(x))), n);
    FourInFront(TopBit(x), TopBit(Up(x)), TopBit(Up(Up(x))), TopBit(Up(Up(Up(x)))), TopBits(Up(Up(Up(Up(x)))), n));
  }

  lemma FourInFront(a: bool, b: bool, c: bool, d: bool, rest: seq<bool>)
    ensures [a] + ([b] + ([c] + ([d] + rest))) == [a, b, c, d] + rest
  {
  }

  lemma OneBit(x: bv16, n: nat)
    ensures TopBits(x, n + 1) == [TopBit(x)] + TopBits(Up(x), n)
  {
  }

  lemma NoTopBits(x: bv16)
    ensures TopBits(x, 0) == []
  {
  }

  lemma BitsOfByte(b: bv8)
    ensures TopBits(Upper(b), 8) == ByteBits(b)
  {
    hide TopBit, Up, TopBits, ByteBits, Upper;
    var x := Upper(b);
    var y := Up(Up(Up(Up(x))));
    FourBits(x, 4);
    FourBits(y, 0);
    NoTopBits(Up(Up(Up(Up(y)))));
    InTwoHalves(b);
  }

  lemma InTwoHalves(b: bv8)
    ensures var x := Upper(b);
      var y := Up(Up(Up(Up(x))));
      ByteBits(b) == [TopBit(x), TopBit(Up(x)), TopBit(Up(Up(x))), TopBit(Up(Up(Up(x))))] +
        ([TopBit(y), TopBit(Up(y)), TopBit(Up(Up(y))), TopBit(Up(Up(Up(y))))] + [])
  {
    FirstBits(b);
    LastBits(b);
    hide TopBit, Up, Upper;
  }

  lemma FirstBits(b: bv8)
    ensures var x := Upper(b);
      && (TopBit(x) <==> b & 0x80 != 0) && (TopBit(Up(x)) <==> b & 0x40 != 0)
      && (TopBit(Up(Up(x))) <==> b & 0x20 != 0) && (TopBit(Up(Up(Up(x)))) <==> b & 0x10 != 0)
  {
  }

  lemma LastBits(b: bv8)
    ensures var x := Up(Up(Up(Up(Upper(b)))));
      && (TopBit(x) <==> b & 0x08 != 0) && (TopBit(Up(x)) <==> b & 0x04 != 0)
      && (TopBit(Up(Up(x))) <==> b & 0x02 != 0) && (TopBit(Up(Up(Up(x)))) <==> b & 0x01 != 0)
  {
  }

  /** The CRC of any data is the remainder of the polynomial of its bits, each byte most significant bit
      first, times x^16. */
  lemma {:induction false} CrcIsRemainder(data: seq<bv8>)
    ensures SerialCrc(data) == Remainder(BitsOf(data))
  {
    hide FeedBits, Remainder, ByteBits, Upper;
    if |data| == 0 {
      NoBits();
    } else {
      var front, b := data[..|data| - 1], data[|data| - 1];
      CrcIsRemainder(front);
      FedBits(BitsOf(front), Upper(b), 8);
      BitsOfByte(b);
    }
  }

  lemma NoBits()
    ensures Remainder([]) == 0
  {
  }
}
