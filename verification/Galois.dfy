/** The field GF(2^8) of the CD-ROM error correcting code, and vectors over it. */
module Galois {

  /** Addition in the field: exclusive or. */
  function Add(a: bv8, b: bv8): bv8 {
    a ^ b
  }

  /** Multiplication by the primitive element alpha, modulo x^8 + x^4 + x^3 + x^2 + 1. */
  function Double(x: bv8): bv8 {
    (x << 1) ^ (if x & 0x80 != 0 then 0x1D else 0)
  }

  /** alpha^k * x. */
  function Times(x: bv8, k: nat): bv8 {
    if k == 0 then x else Double(Times(x, k - 1))
  }

  function Sum(v: seq<bv8>): bv8 {
    if |v| == 0 then 0 else Add(Sum(v[..|v| - 1]), v[|v| - 1])
  }

  function AddSeq(v: seq<bv8>, w: seq<bv8>): (d: seq<bv8>)
    requires |v| == |w|
  {
    seq(|v|, i requires 0 <= i < |v| => Add(v[i], w[i]))
  }

  /** Component i of a vector of n bytes, multiplied by alpha^(n-1-i). */
  function Weighted(v: seq<bv8>): (w: seq<bv8>) {
    seq(|v|, i requires 0 <= i < |v| => Times(v[i], |v| - 1 - i))
  }

  /** The two check equations of Annex A of ECMA-130 for one P or Q vector: the plain
      sum and the weighted sum of its bytes are both zero. */
  ghost predicate Checks(v: seq<bv8>) {
    Sum(v) == 0 && Sum(Weighted(v)) == 0
  }

  /** The weighted sum as an encoder accumulates it, from the left. */
  function Horner(v: seq<bv8>): bv8 {
    if |v| == 0 then 0 else Add(Double(Horner(v[..|v| - 1])), v[|v| - 1])
  }

  // ---- field laws ------------------------------------------------------------

  lemma AddSwap(a: bv8, b: bv8, c: bv8, d: bv8)
    ensures Add(Add(a, b), Add(c, d)) == Add(Add(a, c), Add(b, d))
  {
    assert (a ^ b) ^ (c ^ d) == (a ^ c) ^ (b ^ d);
  }

  lemma AddZero(a: bv8, b: bv8)
    ensures Add(a, 0) == a == Add(0, a)
    ensures Add(a, b) == 0 <==> a == b
  {
  }

  lemma DoubleAdd(a: bv8, b: bv8)
    ensures Double(Add(a, b)) == Add(Double(a), Double(b))
  {
    if a & 0x80 != 0 {
      if b & 0x80 != 0 {} else {}
    } else {
      if b & 0x80 != 0 {} else {}
    }
  }

  /** alpha is a root of x^8 + x^4 + x^3 + x^2 + 1, and below the eighth power of alpha
      the element 1 only moves up. */
  lemma RootOfGenerator(x: bv8)
    ensures Times(x, 8) == Add(Add(Times(x, 4), Times(x, 3)), Add(Times(x, 2), x))
    ensures Times(1, 1) == 0x02 && Times(1, 2) == 0x04 && Times(1, 3) == 0x08 && Times(1, 4) == 0x10
    ensures Times(1, 5) == 0x20 && Times(1, 6) == 0x40 && Times(1, 7) == 0x80
  {
    UpToEight(x);
    UpToEight(1);
    Eight(x);
  }

  lemma UpToEight(x: bv8)
    ensures Times(x, 1) == Double(x) && Times(x, 2) == Double(Times(x, 1))
    ensures Times(x, 3) == Double(Times(x, 2)) && Times(x, 4) == Double(Times(x, 3))
    ensures Times(x, 5) == Double(Times(x, 4)) && Times(x, 6) == Double(Times(x, 5))
    ensures Times(x, 7) == Double(Times(x, 6)) && Times(x, 8) == Double(Times(x, 7))
  {
    hide Double;
  }

  lemma Eight(x: bv8)
    ensures Double(Double(Double(Double(Double(Double(Double(Double(x)))))))) ==
      Add(Add(Double(Double(Double(Double(x)))), Double(Double(Double(x)))), Add(Double(Double(x)), x))
  {
  }

  lemma DoubleInjective(a: bv8, b: bv8)
    requires Double(a) == Double(b)
    ensures a == b
  {
  }

  /** 1 + alpha is invertible, so the finalising table of the encoder is well defined. */
  lemma OnePlusAlphaInjective(a: bv8, b: bv8)
    requires Add(a, Double(a)) == Add(b, Double(b))
    ensures a == b
  {
  }

  /** ... and every byte is of the form x + alpha * x. */
  lemma OnePlusAlphaSurjective(y: bv8) returns (x: bv8)
    ensures Add(x, Double(x)) == y
  {
    x := PrefixParity(y);
    if x & 0x80 != 0 {
      x := PrefixParity(y ^ 0x1D);
    }
  }

  /** Bit k of the result is the parity of bits 0..k. */
  function PrefixParity(y: bv8): bv8 {
    var y1 := y ^ (y << 1);
    var y2 := y1 ^ (y1 << 2);
    y2 ^ (y2 << 4)
  }

  lemma {:induction false} TimesAdd(a: bv8, b: bv8, k: nat)
    ensures Times(Add(a, b), k) == Add(Times(a, k), Times(b, k))
    decreases k
  {
    hide Add, Double;
    if k > 0 {
      TimesAdd(a, b, k - 1);
      DoubleAdd(Times(a, k - 1), Times(b, k - 1));
    }
  }

  lemma {:induction false} TimesInjective(a: bv8, b: bv8, k: nat)
    requires Times(a, k) == Times(b, k)
    ensures a == b
    decreases k
  {
    hide Double;
    if k > 0 {
      DoubleInjective(Times(a, k - 1), Times(b, k - 1));
      TimesInjective(a, b, k - 1);
    }
  }

  lemma {:induction false} TimesTimes(x: bv8, j: nat, k: nat)
    ensures Times(x, j + k) == Times(Times(x, j), k)
    decreases k
  {
    hide Double;
    if k > 0 {
      TimesTimes(x, j, k - 1);
    }
  }

  lemma {:induction false} TimesZero(k: nat)
    ensures Times(0, k) == 0
  {
    if k > 0 {
      TimesZero(k - 1);
    }
  }

  // ---- sums ------------------------------------------------------------------

  lemma {:induction false} SumAdd(v: seq<bv8>, w: seq<bv8>)
    requires |v| == |w|
    ensures Sum(AddSeq(v, w)) == Add(Sum(v), Sum(w))
  {
    hide Add;
    var n := |v|;
    if n == 0 {
      AddZero(0, 0);
    } else {
      SumAdd(v[..n - 1], w[..n - 1]);
      assert AddSeq(v, w)[..n - 1] == AddSeq(v[..n - 1], w[..n - 1]);
      AddSwap(Sum(v[..n - 1]), Sum(w[..n - 1]), v[n - 1], w[n - 1]);
    }
  }

  lemma WeightedAdd(v: seq<bv8>, w: seq<bv8>)
    requires |v| == |w|
    ensures Weighted(AddSeq(v, w)) == AddSeq(Weighted(v), Weighted(w))
  {
    hide Add, Times;
    forall i | 0 <= i < |v|
      ensures Weighted(AddSeq(v, w))[i] == AddSeq(Weighted(v), Weighted(w))[i]
    {
      TimesAdd(v[i], w[i], |v| - 1 - i);
    }
  }

  lemma {:induction false} SumDouble(v: seq<bv8>, w: seq<bv8>)
    requires |v| == |w|
    requires forall i :: 0 <= i < |v| ==> w[i] == Double(v[i])
    ensures Sum(w) == Double(Sum(v))
  {
    hide Add, Double;
    var n := |v|;
    if n == 0 {
      TimesZero(1);
    } else {
      SumDouble(v[..n - 1], w[..n - 1]);
      DoubleAdd(Sum(v[..n - 1]), v[n - 1]);
    }
  }

  /** Accumulating from the left computes the weighted sum. */
  lemma {:induction false} HornerIsWeightedSum(v: seq<bv8>)
    ensures Horner(v) == Sum(Weighted(v))
  {
    hide Add, Double;
    var n := |v|;
    if n > 0 {
      HornerIsWeightedSum(v[..n - 1]);
      SumDouble(Weighted(v[..n - 1]), Weighted(v)[..n - 1]);
    }
  }

  /** A vector that is zero except at i and j sums to the bytes at those places. */
  lemma {:induction false} SumTwo(v: seq<bv8>, i: nat, j: nat)
    requires i < j < |v|
    requires forall k :: 0 <= k < |v| && k != i && k != j ==> v[k] == 0
    ensures Sum(v) == Add(v[i], v[j])
  {
    hide Add;
    var n := |v|;
    if j < n - 1 {
      SumTwo(v[..n - 1], i, j);
      AddZero(Sum(v[..n - 1]), 0);
    } else {
      SumOne(v[..n - 1], i);
    }
  }

  lemma {:induction false} SumOne(v: seq<bv8>, i: nat)
    requires i < |v|
    requires forall k :: 0 <= k < |v| && k != i ==> v[k] == 0
    ensures Sum(v) == v[i]
  {
    hide Add;
    var n := |v|;
    AddZero(v[i], 0);
    if i < n - 1 {
      SumOne(v[..n - 1], i);
    } else {
      SumZero(v[..n - 1]);
    }
  }

  lemma {:induction false} SumZero(v: seq<bv8>)
    requires forall k :: 0 <= k < |v| ==> v[k] == 0
    ensures Sum(v) == 0
  {
    if |v| > 0 {
      SumZero(v[..|v| - 1]);
    }
  }

  // ---- parity and distance -------------------------------------------------

  /** What two bytes must satisfy to complete `v` to a vector that checks. */
  lemma ParityChecks(v: seq<bv8>, p0: bv8, p1: bv8)
    ensures Checks(v + [p0, p1]) <==>
            Add(p0, Double(p0)) == Add(Double(Double(Horner(v))), Sum(v)) && p1 == Add(p0, Sum(v))
  {
    hide Add, Double;
    var c := v + [p0, p1];
    var h, s := Horner(v), Sum(v);
    assert c[..|c| - 1] == v + [p0] && (v + [p0])[..|v|] == v;
    HornerIsWeightedSum(c);
    assert Horner(c) == Add(Double(Add(Double(h), p0)), p1);
    DoubleAdd(Double(h), p0);
    assert Sum(c) == Add(Add(s, p0), p1);
    ParityAlgebra(Double(Double(h)), s, p0, Double(p0), p1);
  }

  lemma ParityAlgebra(h: bv8, s: bv8, p: bv8, q: bv8, r: bv8)
    ensures Add(Add(s, p), r) == 0 && Add(Add(h, q), r) == 0 <==> Add(p, q) == Add(h, s) && r == Add(p, s)
  {
    AddCross(h, q, p, s);
    hide Add;
    AddZero(Add(s, p), r);
    AddZero(Add(h, q), r);
  }

  lemma AddCross(h: bv8, q: bv8, p: bv8, s: bv8)
    ensures Add(s, p) == Add(p, s)
    ensures Add(h, q) == Add(p, s) <==> Add(p, q) == Add(h, s)
  {
    hide Add;
    AddCommutes(s, p);
    AddCommutes(h, p);
    AddSwap(h, q, p, s);
    AddSwap(p, q, h, s);
    AddZero(Add(h, q), Add(p, s));
    AddZero(Add(p, q), Add(h, s));
  }

  lemma AddCommutes(a: bv8, b: bv8)
    ensures Add(a, b) == Add(b, a)
  {
  }

  /** Two parity bytes are determined by the bytes they protect. */
  lemma ParityUnique(v: seq<bv8>, p0: bv8, p1: bv8, q0: bv8, q1: bv8)
    requires Checks(v + [p0, p1]) && Checks(v + [q0, q1])
    ensures p0 == q0 && p1 == q1
  {
    hide Add, Double;
    ParityChecks(v, p0, p1);
    ParityChecks(v, q0, q1);
    OnePlusAlphaInjective(p0, q0);
  }

  /** alpha^4 * x, unrolled. */
  function Four(x: bv8): bv8 {
    var y := (x << 1) ^ (if x & 0x80 != 0 then 0x1D else 0);
    var z := (y << 1) ^ (if y & 0x80 != 0 then 0x1D else 0);
    var w := (z << 1) ^ (if z & 0x80 != 0 then 0x1D else 0);
    (w << 1) ^ (if w & 0x80 != 0 then 0x1D else 0)
  }

  lemma FourTimes(x: bv8, k: nat)
    ensures Times(x, k + 4) == Four(Times(x, k))
  {
    var y := Times(x, k);
    assert Four(y) == Double(Double(Double(Double(y))));
    hide Four, Double;
    assert Times(x, k + 1) == Double(y);
    assert Times(x, k + 2) == Double(Times(x, k + 1));
    assert Times(x, k + 3) == Double(Times(x, k + 2));
  }

  predicate Avoids(y: bv8, x: bv8, x1: bv8, x2: bv8, x3: bv8) {
    y != x && y != x1 && y != x2 && y != x3
  }

  /** alpha^24, alpha^28 .. alpha^44 differ from 1, alpha, alpha^2 and alpha^3 on every
      non-zero element. */
  lemma GiantSteps(x: bv8, x1: bv8, x2: bv8, x3: bv8)
    requires x != 0 && x1 == Double(x) && x2 == Double(x1) && x3 == Double(x2)
    ensures var x24 := Four(Four(Four(Four(Four(Four(x))))));
      var x28 := Four(x24);
      var x32 := Four(x28);
      var x36 := Four(x32);
      var x40 := Four(x36);
      Avoids(x24, x, x1, x2, x3) && Avoids(x28, x, x1, x2, x3) && Avoids(x32, x, x1, x2, x3)
      && Avoids(x36, x, x1, x2, x3) && Avoids(x40, x, x1, x2, x3) && Avoids(Four(x40), x, x1, x2, x3)
  {
  }

  lemma GiantStepPowers(x: bv8, k: nat, r: nat)
    requires x != 0 && k in {24, 28, 32, 36, 40, 44} && r < 4
    ensures Times(x, k) != Times(x, r)
  {
    var x1, x2, x3 := Times(x, 1), Times(x, 2), Times(x, 3);
    assert Times(x, 0) == x && x1 == Double(x) && x2 == Double(x1) && x3 == Double(x2);
    GiantSteps(x, x1, x2, x3);
    hide Four, Double, Times;
    FourTimes(x, 0);
    FourTimes(x, 4);
    FourTimes(x, 8);
    FourTimes(x, 12);
    FourTimes(x, 16);
    FourTimes(x, 20);
    FourTimes(x, 24);
    FourTimes(x, 28);
    FourTimes(x, 32);
    FourTimes(x, 36);
    FourTimes(x, 40);
    assert Avoids(Times(x, k), x, x1, x2, x3);
  }

  /** No power alpha^k with 0 < k < 45 fixes a non-zero element. */
  lemma {:induction false} NoFixedPoint(x: bv8, k: nat)
    requires x != 0 && 0 < k < 45
    ensures Times(x, k) != x
    decreases 45 - k
  {
    hide Times;
    if k <= 22 {
      NoFixedPoint(x, 2 * k);
      TimesTimes(x, k, k);
    } else {
      var r := (4 - k % 4) % 4;
      GiantStepPowers(x, k + r, r);
      TimesTimes(x, k, r);
    }
  }

  /** Two vectors of at most 45 bytes that both check and agree outside two places are
      equal: distinct ones differ in at least three. */
  lemma MinimumDistance(v: seq<bv8>, w: seq<bv8>, i: nat, j: nat)
    requires |v| == |w| <= 45
    requires Checks(v) && Checks(w)
    requires i < j < |v|
    requires forall k :: 0 <= k < |v| && k != i && k != j ==> v[k] == w[k]
    ensures v == w
  {
    hide Add, Double, Sum;
    var d := AddSeq(v, w);
    forall k | 0 <= k < |v|
      ensures d[k] == 0 <==> v[k] == w[k]
    {
      AddZero(v[k], w[k]);
    }
    SumAdd(v, w);
    WeightedAdd(v, w);
    SumAdd(Weighted(v), Weighted(w));
    AddZero(0, 0);
    SumTwo(d, i, j);
    AddZero(d[i], d[j]);
    var e, m := d[i], |v| - 1 - j;
    forall k | 0 <= k < |v| && k != i && k != j
      ensures Weighted(d)[k] == 0
    {
      TimesZero(|v| - 1 - k);
    }
    SumTwo(Weighted(d), i, j);
    AddZero(Times(e, |v| - 1 - i), Times(e, m));
    TimesTimes(e, j - i, m);
    TimesInjective(Times(e, j - i), e, m);
    if e != 0 {
      NoFixedPoint(e, j - i);
    }
  }
}
