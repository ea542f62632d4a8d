/** The sector EDC as section 14.3 of ECMA-130 defines it: the remainder of a polynomial over GF(2). */
module EdcPolynomial {
  import opened Edc

  /** x^n modulo the generator; bit 31 - k of the register is the coefficient of x^k. */
  function Power(n: nat): bv32 {
    if n == 0 then 0x8000_0000 else Step(Power(n - 1))
  }

  const ONE: bv32 := 0x8000_0000

  lemma ShiftOnce(k: bv32)
    requires k < 31
    ensures Step(ONE >> k) == ONE >> (k + 1)
  {
  }

  lemma CountDown(k: bv32)
    requires 0 < k < 32
    ensures (k - 1) as nat == k as nat - 1
  {
  }

  /** Below degree 32 a power of x is a single coefficient. */
  lemma {:induction false} LowPower(k: bv32)
    requires k < 32
    ensures Power(k as nat) == ONE >> k
    decreases k as nat
  {
    if k > 0 {
      CountDown(k);
      LowPower(k - 1);
      ShiftOnce(k - 1);
      PowerOn(k as nat - 1);
    } else {
      assert k as nat == 0;
    }
  }

  lemma PowerOn(n: nat)
    ensures Power(n + 1) == Step(Power(n))
  {
  }

  /** x^k times a polynomial, given by its exponents. */
  function Shifted(k: nat, ns: seq<nat>): bv32 {
    if |ns| == 0 then 0 else Xor(Power(k + ns[0]), Shifted(k, ns[1..]))
  }

  /** The product of two polynomials, given by their exponents, modulo the generator. */
  function Product(ms: seq<nat>, ns: seq<nat>): bv32 {
    if |ms| == 0 then 0 else Xor(Shifted(ms[0], ns), Product(ms[1..], ns))
  }

  lemma Powers()
    ensures Power(0) == 0x8000_0000 && Power(1) == 0x4000_0000 && Power(2) == 0x2000_0000
    ensures Power(3) == 0x1000_0000 && Power(4) == 0x0800_0000
    ensures Power(15) == 0x0001_0000 && Power(16) == 0x8000 && Power(17) == 0x4000 && Power(18) == 0x2000
    ensures Power(31) == 1 && Power(32) == 0xD801_8001
  {
    LowPower(0);
    LowPower(1);
    LowPower(2);
    LowPower(3);
    LowPower(4);
    LowPower(15);
    LowPower(16);
    LowPower(17);
    LowPower(18);
    LowPower(31);
    PowerOn(31);
    hide Power;
  }

  lemma ShiftedCons(k: nat, ns: seq<nat>, i: nat)
    requires i < |ns|
    ensures Shifted(k, ns[i..]) == Xor(Power(k + ns[i]), Shifted(k, ns[i + 1..]))
  {
    hide Power, Xor;
    assert ns[i..][1..] == ns[i + 1..];
  }

  lemma ProductCons(ms: seq<nat>, ns: seq<nat>, i: nat)
    requires i < |ms|
    ensures Product(ms[i..], ns) == Xor(Shifted(ms[i], ns), Product(ms[i + 1..], ns))
  {
    hide Shifted, Xor;
    assert ms[i..][1..] == ms[i + 1..];
  }

  lemma FourTerms(k: nat, ns: seq<nat>)
    requires |ns| == 4
    ensures Shifted(k, ns) ==
      Xor(Power(k + ns[0]), Xor(Power(k + ns[1]), Xor(Power(k + ns[2]), Xor(Power(k + ns[3]), 0))))
  {
    hide Power, Xor;
    ShiftedCons(k, ns, 0);
    ShiftedCons(k, ns, 1);
    ShiftedCons(k, ns, 2);
    ShiftedCons(k, ns, 3);
    assert ns[0..] == ns;
  }

  lemma FourFactors(ms: seq<nat>, ns: seq<nat>)
    requires |ms| == 4
    ensures Product(ms, ns) ==
      Xor(Shifted(ms[0], ns), Xor(Shifted(ms[1], ns), Xor(Shifted(ms[2], ns), Xor(Shifted(ms[3], ns), 0))))
  {
    hide Shifted, Xor;
    ProductCons(ms, ns, 0);
    ProductCons(ms, ns, 1);
    ProductCons(ms, ns, 2);
    ProductCons(ms, ns, 3);
    assert ms[0..] == ms;
  }

  /** The generator is (x^16 + x^15 + x^2 + 1)(x^16 + x^2 + x + 1): modulo it the product is zero. */
  lemma GeneratorIsProduct()
    ensures Product([16, 15, 2, 0], [16, 2, 1, 0]) == 0
  {
    hide Power, Shifted, Product;
    var ns: seq<nat> := [16, 2, 1, 0];
    FourFactors([16, 15, 2, 0], ns);
    FourTerms(16, ns);
    FourTerms(15, ns);
    FourTerms(2, ns);
    FourTerms(0, ns);
    Powers();
  }

  // ---- the code is a remainder --------------------------------------------------------------

  /** The bits of a byte in the order of transmission, least significant first. */
  function ByteBits(b: bv8): seq<bool> {
    [b & 0x01 != 0, b & 0x02 != 0, b & 0x04 != 0, b & 0x08 != 0,
     b & 0x10 != 0, b & 0x20 != 0, b & 0x40 != 0, b & 0x80 != 0]
  }

  function BitsOf(data: seq<bv8>): seq<bool> {
    if |data| == 0 then [] else BitsOf(data[..|data| - 1]) + ByteBits(data[|data| - 1])
  }

  /** The remainder of x^32 times the polynomial whose coefficients the bits are, highest first. */
  function Remainder(bits: seq<bool>): bv32 {
    if |bits| == 0 then 0
    else Xor(if bits[0] then Power(31 + |bits|) else 0, Remainder(bits[1..]))
  }

  function OfBit(b: bool): bv32 {
    if b then 1 else 0
  }

  lemma {:induction false} OneMoreBit(bits: seq<bool>, b: bool)
    ensures Remainder(bits + [b]) == Step(Xor(Remainder(bits), OfBit(b)))
  {
    hide Step, Xor;
    if |bits| == 0 {
      assert bits + [b] == [b] && [b][1..] == [];
      LastBit(b);
    } else {
      var head := if bits[0] then Power(31 + |bits|) else 0;
      var rest := Remainder(bits[1..]);
      OneMoreBit(bits[1..], b);
      assert (bits + [b])[1..] == bits[1..] + [b];
      XorAssociative(head, rest, OfBit(b));
      StepXor(head, Xor(rest, OfBit(b)));
      StepZero();
    }
  }

  lemma StepZero()
    ensures Step(0) == 0
  {
  }

  lemma LastBit(b: bool)
    ensures Xor(if b then Power(32) else 0, 0) == Step(Xor(0, OfBit(b)))
  {
    hide Power;
    Powers();
  }

  predicate LowBit(x: bv32) {
    x & 1 != 0
  }

  function Down(x: bv32): bv32 {
    x >> 1
  }

  /** The low n bits of x, least significant first. */
  function LowBits(x: bv32, n: nat): seq<bool>
    decreases n
  {
    if n == 0 then [] else [LowBit(x)] + LowBits(Down(x), n - 1)
  }

  lemma FedBit(e: bv32, x: bv32, n: nat)
    ensures FeedBits(e, x, n + 1) == FeedBits(Step(Xor(e, OfBit(LowBit(x)))), Down(x), n)
  {
    assert OfBit(LowBit(x)) == x & 1;
    hide Step, Xor, OfBit;
  }

  lemma {:induction false} FedBits(bits: seq<bool>, x: bv32, n: nat)
    ensures FeedBits(Remainder(bits), x, n) == Remainder(bits + LowBits(x, n))
    decreases n
  {
    hide Step, Xor, Remainder, OfBit, LowBit, Down;
    if n == 0 {
      assert bits + LowBits(x, n) == bits;
    } else {
      var b := LowBit(x);
      FedBit(Remainder(bits), x, n - 1);
      OneMoreBit(bits, b);
      FedBits(bits + [b], Down(x), n - 1);
      assert bits + [b] + LowBits(Down(x), n - 1) == bits + LowBits(x, n);
    }
  }

  lemma FourBits(x: bv32, n: nat)
    ensures LowBits(x, n + 4) ==
      [LowBit(x), LowBit(Down(x)), LowBit(Down(Down(x))), LowBit(Down(Down(Down(x))))] +
      LowBits(Down(Down(Down(Down(x)))), n)
  {
    hide LowBit, Down, LowBits;
    OneBit(x, n + 3);
    OneBit(Down(x), n + 2);
    OneBit(Down(Down(x)), n + 1);
    OneBit(Down(Down(Down(x))), n);
    FourInFront(LowBit(x), LowBit(Down(x)), LowBit(Down(Down(x))), LowBit(Down(Down(Down(x)))),
      LowBits(Down(Down(Down(Down(x)))), n));
  }

  lemma FourInFront(a: bool, b: bool, c: bool, d: bool, rest: seq<bool>)
    ensures [a] + ([b] + ([c] + ([d] + rest))) == [a, b, c, d] + rest
  {
  }

  lemma OneBit(x: bv32, n: nat)
    ensures LowBits(x, n + 1) == [LowBit(x)] + LowBits(Down(x), n)
  {
  }

  lemma NoLowBits(x: bv32)
    ensures LowBits(x, 0) == []
  {
  }

  lemma BitsOfByte(b: bv8)
    ensures LowBits(b as bv32, 8) == ByteBits(b)
  {
    hide LowBit, Down, LowBits, ByteBits;
    var x := b as bv32;
    var y := Down(Down(Down(Down(x))));
    FourBits(x, 4);
    FourBits(y, 0);
    NoLowBits(Down(Down(Down(Down(y)))));
    InTwoHalves(b);
  }

  lemma InTwoHalves(b: bv8)
    ensures var x := b as bv32;
      var y := Down(Down(Down(Down(x))));
      ByteBits(b) == [LowBit(x), LowBit(Down(x)), LowBit(Down(Down(x))), LowBit(Down(Down(Down(x))))] +
        ([LowBit(y), LowBit(Down(y)), LowBit(Down(Down(y))), LowBit(Down(Down(Down(y))))] + [])
  {
    FirstBits(b);
    LastBits(b);
    hide LowBit, Down;
  }

  lemma FirstBits(b: bv8)
    ensures var x := b as bv32;
      && (LowBit(x) <==> b & 0x01 != 0) && (LowBit(Down(x)) <==> b & 0x02 != 0)
      && (LowBit(Down(Down(x))) <==> b & 0x04 != 0) && (LowBit(Down(Down(Down(x)))) <==> b & 0x08 != 0)
  {
  }

  lemma LastBits(b: bv8)
    ensures var x := Down(Down(Down(Down(b as bv32))));
      && (LowBit(x) <==> b & 0x10 != 0) && (LowBit(Down(x)) <==> b & 0x20 != 0)
      && (LowBit(Down(Down(x))) <==> b & 0x40 != 0) && (LowBit(Down(Down(Down(x)))) <==> b & 0x80 != 0)
  {
  }

  /** The EDC of any data is the remainder of the polynomial of its bits, each byte least significant
      bit first, times x^32: for no data it is zero, and every bit adds its own power. */
  lemma {:induction false} EdcIsRemainder(data: seq<bv8>)
    ensures SerialEdc(data) == Remainder(BitsOf(data))
  {
    hide FeedBits, Remainder, ByteBits;
    if |data| == 0 {
      NoBits();
    } else {
      var front, b := data[..|data| - 1], data[|data| - 1];
      EdcIsRemainder(front);
      FedBits(BitsOf(front), b as bv32, 8);
      BitsOfByte(b);
    }
  }

  lemma NoBits()
    ensures Remainder([]) == 0
  {
  }
}
