/** The P/Q error correction code of a Mode-1 CD sector (core/src/sector.rs). */
module Ecc {
  import opened Galois

  /** The index pattern of one parity block: `majors` vectors of `minors` data bytes. */
  datatype Shape = Shape(majors: nat, minors: nat, majorMult: nat, minorInc: nat) {
    function Size(): nat { majors * minors }
  }

  const P: Shape := Shape(86, 24, 2, 86)
  const Q: Shape := Shape(52, 43, 86, 88)

  function Start(shape: Shape, major: nat): nat {
    (major / 2) * shape.majorMult + major % 2
  }

  /** The walk of one vector stays inside the covered area and can wrap by one subtraction. */
  predicate WellShaped(shape: Shape) {
    && shape.Size() > 0
    && 0 < shape.minorInc <= shape.Size()
    && forall m: nat :: m < shape.majors ==> Start(shape, m) < shape.Size()
  }

  /** Sector offset of byte k of vector m: data bytes first, then the two parity bytes. */
  function Offset(shape: Shape, m: nat, k: nat): nat
    requires WellShaped(shape)
  {
    if k < shape.minors then 12 + (Start(shape, m) + k * shape.minorInc) % shape.Size()
    else 12 + shape.Size() + (k - shape.minors) * shape.majors + m
  }

  function DataOf(s: seq<bv8>, shape: Shape, m: nat): (v: seq<bv8>)
    requires WellShaped(shape) && 12 + shape.Size() <= |s|
  {
    seq(shape.minors, k requires 0 <= k < shape.minors => s[Offset(shape, m, k)])
  }

  /** p0 and p1 are parity for vector m: with them the vector satisfies the check equations. */
  ghost predicate IsParity(s: seq<bv8>, shape: Shape, m: nat, p0: bv8, p1: bv8)
    requires WellShaped(shape) && 12 + shape.Size() <= |s|
  {
    Checks(DataOf(s, shape, m) + [p0, p1])
  }

  /** One P or Q vector of the sector, data and parity. */
  function VectorOf(s: seq<bv8>, shape: Shape, m: nat): (v: seq<bv8>)
    requires WellShaped(shape) && m < shape.majors && 12 + shape.Size() + 2 * shape.majors <= |s|
  {
    DataOf(s, shape, m) + [s[12 + shape.Size() + m], s[12 + shape.Size() + shape.majors + m]]
  }

  /** A sector whose every P and Q vector satisfies the check equations. */
  ghost predicate EccValid(s: seq<bv8>) {
    && |s| >= 2352
    && (forall m: nat :: m < 86 ==> Checks(VectorOf(s, P, m)))
    && (forall m: nat :: m < 52 ==> Checks(VectorOf(s, Q, m)))
  }

  // ---- lookup tables --------------------------------------------------------

  /** The table index a byte selects. */
  function Index(x: bv8): (i: int)
    ensures 0 <= i < 256
  {
    x as int
  }

  predicate Below(x: bv8, i: bv16) {
    x as bv16 < i
  }

  lemma IndexInjective(x: bv8, y: bv8)
    requires Index(x) == Index(y)
    ensures x == y
  {
  }

  lemma BelowStep(x: bv8, i: bv16)
    requires i < 256
    ensures Index(i as bv8) == i as int
    ensures Below(x, i + 1) <==> Below(x, i) || x == i as bv8
  {
  }

  lemma AllBelow(x: bv8)
    ensures Below(x, 256) && !Below(x, 0)
  {
  }

  /** One pass of the table loop, in 16-bit arithmetic. */
  lemma TableEntry(i: bv16, j: bv16)
    requires i < 256
    requires j == (i << 1) ^ (if i & 0x80 != 0 then 0x11D else 0)
    ensures (j & 0xFF) as bv8 == Double(i as bv8)
    ensures ((i ^ j) & 0xFF) as bv8 == Add(i as bv8, Double(i as bv8))
  {
  }

  /** `f` multiplies by alpha. */
  ghost predicate IsAlphaTable(f: array<bv8>)
    reads f
  {
    f.Length == 256 && forall x: bv8 :: f[Index(x)] == Double(x)
  }

  /** `b` undoes x -> x + alpha * x. */
  ghost predicate IsFinalTable(b: array<bv8>)
    reads b
  {
    b.Length == 256 && forall x: bv8 :: b[Index(Add(x, Double(x)))] == x
  }

  method EccLuts() returns (f: array<bv8>, b: array<bv8>)
    ensures fresh(f) && fresh(b)
    ensures IsAlphaTable(f) && IsFinalTable(b)
  {
    f, b := new bv8[256], new bv8[256];
    var i: bv16 := 0;
    assert forall x: bv8 :: !Below(x, 0);
    while i < 256
      invariant i <= 256
      invariant forall x: bv8 :: Below(x, i) ==> f[Index(x)] == Double(x)
      invariant forall x: bv8 :: Below(x, i) ==> b[Index(Add(x, Double(x)))] == x
      decreases 256 - i
    {
      var j := (i << 1) ^ (if i & 0x80 != 0 then 0x11D else 0);
      TableEntry(i, j);
      BelowStep(0, i);
      StoreEntry(f, b, i, i as bv8, (j & 0xFF) as bv8, ((i ^ j) & 0xFF) as bv8);
      i := i + 1;
    }
    forall x: bv8
      ensures Below(x, i)
    {
      AllBelow(x);
    }
  }

  /** The two writes of one pass. */
  method StoreEntry(f: array<bv8>, b: array<bv8>, ghost i: bv16, x: bv8, fx: bv8, bx: bv8)
    requires f.Length == 256 && b.Length == 256 && f != b
    requires i < 256 && x == i as bv8
    requires fx == Double(x) && bx == Add(x, Double(x))
    requires forall y: bv8 :: Below(y, i) ==> f[Index(y)] == Double(y)
    requires forall y: bv8 :: Below(y, i) ==> b[Index(Add(y, Double(y)))] == y
    modifies f, b
    ensures forall y: bv8 :: Below(y, i + 1) ==> f[Index(y)] == Double(y)
    ensures forall y: bv8 :: Below(y, i + 1) ==> b[Index(Add(y, Double(y)))] == y
  {
    hide *;
    forall y: bv8
      ensures Below(y, i + 1) <==> Below(y, i) || x == y
      ensures Index(y) == Index(x) ==> x == y
      ensures Index(Add(y, Double(y))) == Index(bx) ==> x == y
    {
      BelowStep(y, i);
      if Index(y) == Index(x) {
        IndexInjective(x, y);
      }
      if Index(Add(y, Double(y))) == Index(bx) {
        IndexInjective(Add(y, Double(y)), bx);
        OnePlusAlphaInjective(x, y);
      }
    }
    f[Index(x)] := fx;
    b[Index(bx)] := x;
  }

  // ---- one parity block ---------------------------------------------------------

  lemma WrapStep(start: nat, k: nat, inc: nat, size: nat, index: nat)
    requires 0 < inc <= size && index == (start + k * inc) % size
    ensures (start + (k + 1) * inc) % size == if index + inc >= size then index + inc - size else index + inc
  {
    var a := start + k * inc;
    assert start + (k + 1) * inc == a + inc;
    ModStep(a, inc, size);
  }

  lemma ModStep(a: nat, inc: nat, size: nat)
    requires 0 < inc <= size
    ensures (a + inc) % size == if a % size + inc >= size then a % size + inc - size else a % size + inc
  {
    var q, r := a / size, a % size;
    assert a == size * q + r;
    if r + inc >= size {
      ModUnique(a + inc, size, q + 1, r + inc - size);
    } else {
      ModUnique(a + inc, size, q, r + inc);
    }
  }

  lemma ModUnique(a: nat, size: nat, q: nat, r: nat)
    requires r < size && a == size * q + r
    ensures a % size == r
  {
    var q' := a / size;
    if q < q' {
      MulMonotone(size, q + 1, q');
    } else if q' < q {
      MulMonotone(size, q' + 1, q);
    }
  }

  lemma SmallMod(a: nat, size: nat)
    requires a < size
    ensures a % size == a
  {
  }

  lemma MulMonotone(size: nat, a: nat, b: nat)
    requires a <= b
    ensures size * a <= size * b
  {
  }

  /** The two sums over the data bytes of one vector. */
  method Accumulate(sector: seq<bv8>, shape: Shape, major: nat, f: array<bv8>) returns (eccA: bv8, eccB: bv8)
    requires WellShaped(shape) && 12 + shape.Size() <= |sector| && major < shape.majors
    requires IsAlphaTable(f)
    ensures eccA == Double(Horner(DataOf(sector, shape, major)))
    ensures eccB == Sum(DataOf(sector, shape, major))
  {
    hide Add, Double, Index;
    var size := shape.Size();
    var index := (major / 2) * shape.majorMult + major % 2;
    ghost var data := DataOf(sector, shape, major);
    eccA, eccB := 0, 0;
    TimesZero(1);
    assert index == Start(shape, major) && index < size;
    SmallMod(index, size);
    for k := 0 to shape.minors
      invariant index == (Start(shape, major) + k * shape.minorInc) % size
      invariant eccA == Double(Horner(data[..k]))
      invariant eccB == Sum(data[..k])
    {
      var temp := sector[12 + index];
      assert temp == data[k];
      assert data[..k + 1][..k] == data[..k];
      WrapStep(Start(shape, major), k, shape.minorInc, size, index);
      index := index + shape.minorInc;
      if index >= size {
        index := index - size;
      }
      eccA := Add(eccA, temp);
      eccB := Add(eccB, temp);
      eccA := f[Index(eccA)];
    }
    assert data[..shape.minors] == data;
  }

  /** The first parity byte, from the two sums. */
  method FinalByte(eccA: bv8, eccB: bv8, f: array<bv8>, b: array<bv8>) returns (p: bv8)
    requires IsAlphaTable(f) && IsFinalTable(b)
    ensures Add(p, Double(p)) == Add(Double(eccA), eccB)
  {
    hide Add, Double, Index;
    p := b[Index(Add(f[Index(eccA)], eccB))];
    ghost var x := OnePlusAlphaSurjective(Add(Double(eccA), eccB));
  }

  /** The parity bytes of every vector of one block: with them each vector checks. */
  method EccBlock(sector: seq<bv8>, shape: Shape, f: array<bv8>, b: array<bv8>) returns (dest: array<bv8>)
    requires WellShaped(shape) && 12 + shape.Size() <= |sector|
    requires IsAlphaTable(f) && IsFinalTable(b)
    ensures fresh(dest) && dest.Length == 2 * shape.majors
    ensures forall m: nat :: m < shape.majors ==>
              IsParity(sector, shape, m, dest[m], dest[m + shape.majors])
  {
    hide *;
    dest := new bv8[shape.majors * 2](_ => 0);
    for major := 0 to shape.majors
      invariant forall m: nat :: m < major ==>
                  IsParity(sector, shape, m, dest[m], dest[m + shape.majors])
    {
      var eccA, eccB := Accumulate(sector, shape, major, f);
      eccA := FinalByte(eccA, eccB, f, b);
      CompletesVector(sector, shape, major, eccA, Add(eccA, eccB));
      dest[major] := eccA;
      dest[major + shape.majors] := Add(eccA, eccB);
    }
  }

  lemma CompletesVector(s: seq<bv8>, shape: Shape, m: nat, p0: bv8, p1: bv8)
    requires WellShaped(shape) && 12 + shape.Size() <= |s|
    ensures var v := DataOf(s, shape, m);
      IsParity(s, shape, m, p0, p1) <==>
      Add(p0, Double(p0)) == Add(Double(Double(Horner(v))), Sum(v)) && p1 == Add(p0, Sum(v))
  {
    ParityChecks(DataOf(s, shape, m), p0, p1);
  }

  // ---- validating and stamping ---------------------------------------------------

  lemma Shapes()
    ensures WellShaped(P) && P.Size() == 2064
    ensures WellShaped(Q) && Q.Size() == 2236
  {
  }

  /** The parity bytes stored behind the covered area are `dest` exactly when every vector
      of the block checks. */
  lemma StoredParity(s: seq<bv8>, shape: Shape, dest: seq<bv8>)
    requires WellShaped(shape) && 12 + shape.Size() + 2 * shape.majors <= |s|
    requires |dest| == 2 * shape.majors
    requires forall m: nat :: m < shape.majors ==> IsParity(s, shape, m, dest[m], dest[m + shape.majors])
    ensures s[12 + shape.Size()..12 + shape.Size() + 2 * shape.majors] == dest
       <==> forall m: nat :: m < shape.majors ==> Checks(VectorOf(s, shape, m))
  {
    hide Checks, VectorOf, IsParity, StoredAt;
    StoredPairs(s, 12 + shape.Size(), shape.majors, dest);
    if forall m: nat :: m < shape.majors ==> Checks(VectorOf(s, shape, m)) {
      forall m: nat | m < shape.majors
        ensures StoredAt(s, 12 + shape.Size(), shape.majors, m, dest[m], dest[m + shape.majors])
      {
        VectorStored(s, shape, m, dest[m], dest[m + shape.majors]);
      }
    }
    if forall m: nat :: m < shape.majors ==>
         StoredAt(s, 12 + shape.Size(), shape.majors, m, dest[m], dest[m + shape.majors]) {
      forall m: nat | m < shape.majors
        ensures Checks(VectorOf(s, shape, m))
      {
        VectorStored(s, shape, m, dest[m], dest[m + shape.majors]);
      }
    }
  }

  lemma StoredPairs(s: seq<bv8>, base: nat, n: nat, dest: seq<bv8>)
    requires base + 2 * n <= |s| && |dest| == 2 * n
    ensures s[base..base + 2 * n] == dest
       <==> forall m: nat :: m < n ==> StoredAt(s, base, n, m, dest[m], dest[m + n])
  {
    var stored := s[base..base + 2 * n];
    if forall m: nat :: m < n ==> StoredAt(s, base, n, m, dest[m], dest[m + n]) {
      forall i | 0 <= i < 2 * n
        ensures stored[i] == dest[i]
      {
        var m := if i < n then i else i - n;
        assert StoredAt(s, base, n, m, dest[m], dest[m + n]);
      }
    }
    if stored == dest {
      forall m: nat | m < n
        ensures StoredAt(s, base, n, m, dest[m], dest[m + n])
      {
        assert stored[m] == s[base + m] && stored[n + m] == s[base + n + m];
      }
    }
  }

  predicate StoredAt(s: seq<bv8>, base: nat, n: nat, m: nat, p0: bv8, p1: bv8)
    requires m < n && base + 2 * n <= |s|
  {
    s[base + m] == p0 && s[base + n + m] == p1
  }

  lemma VectorStored(s: seq<bv8>, shape: Shape, m: nat, p0: bv8, p1: bv8)
    requires WellShaped(shape) && 12 + shape.Size() + 2 * shape.majors <= |s| && m < shape.majors
    requires IsParity(s, shape, m, p0, p1)
    ensures Checks(VectorOf(s, shape, m)) <==> StoredAt(s, 12 + shape.Size(), shape.majors, m, p0, p1)
  {
    hide Checks, DataOf;
    if Checks(VectorOf(s, shape, m)) {
      var at := 12 + shape.Size() + m;
      ParityUnique(DataOf(s, shape, m), s[at], s[at + shape.majors], p0, p1);
    }
  }

  /** Whether the stored P and Q parity is what the sector's bytes demand. */
  method Mode1EccValid(sector: seq<bv8>) returns (valid: bool)
    ensures valid <==> EccValid(sector)
  {
    if |sector| < 2352 {
      return false;
    }
    Shapes();
    var f, b := EccLuts();
    var p := EccBlock(sector, P, f, b);
    StoredParity(sector, P, p[..]);
    if sector[2076..2248] != p[..] {
      return false;
    }
    var q := EccBlock(sector, Q, f, b);
    StoredParity(sector, Q, q[..]);
    valid := sector[2248..2352] == q[..];
  }

  /** The vectors of a block depend only on bytes 12.. up to the end of its parity. */
  lemma SameVectors(s: seq<bv8>, t: seq<bv8>, shape: Shape)
    requires WellShaped(shape) && 12 + shape.Size() + 2 * shape.majors <= |s| && |s| == |t|
    requires forall i :: 12 <= i < 12 + shape.Size() + 2 * shape.majors ==> s[i] == t[i]
    ensures forall m: nat :: m < shape.majors ==> VectorOf(s, shape, m) == VectorOf(t, shape, m)
  {
    forall m: nat | m < shape.majors
      ensures VectorOf(s, shape, m) == VectorOf(t, shape, m)
    {
      assert DataOf(s, shape, m) == DataOf(t, shape, m);
    }
  }

  /** Likewise the parity a block demands depends only on its covered bytes. */
  lemma SameParity(s: seq<bv8>, t: seq<bv8>, shape: Shape)
    requires WellShaped(shape) && 12 + shape.Size() <= |s| && |s| == |t|
    requires forall i :: 12 <= i < 12 + shape.Size() ==> s[i] == t[i]
    ensures forall m: nat, p0, p1 :: m < shape.majors && IsParity(s, shape, m, p0, p1) ==> IsParity(t, shape, m, p0, p1)
  {
    forall m: nat | m < shape.majors
      ensures DataOf(s, shape, m) == DataOf(t, shape, m)
    {
    }
  }

  /** The parity of a valid sector is determined by its other bytes. */
  lemma ParityDetermined(s: seq<bv8>, t: seq<bv8>)
    requires |s| == |t| && EccValid(s) && EccValid(t)
    requires forall i :: 12 <= i < 2076 ==> s[i] == t[i]
    ensures forall i :: 12 <= i < 2352 ==> s[i] == t[i]
  {
    Shapes();
    BlockDetermined(s, t, P);
    BlockDetermined(s, t, Q);
  }

  lemma BlockDetermined(s: seq<bv8>, t: seq<bv8>, shape: Shape)
    requires WellShaped(shape) && 12 + shape.Size() + 2 * shape.majors <= |s| && |s| == |t|
    requires forall m: nat :: m < shape.majors ==> Checks(VectorOf(s, shape, m)) && Checks(VectorOf(t, shape, m))
    requires forall i :: 12 <= i < 12 + shape.Size() ==> s[i] == t[i]
    ensures forall i :: 12 + shape.Size() <= i < 12 + shape.Size() + 2 * shape.majors ==> s[i] == t[i]
  {
    var base, n := 12 + shape.Size(), shape.majors;
    forall i | base <= i < base + 2 * n
      ensures s[i] == t[i]
    {
      VectorDetermined(s, t, shape, if i < base + n then i - base else i - base - n);
    }
  }

  lemma VectorDetermined(s: seq<bv8>, t: seq<bv8>, shape: Shape, m: nat)
    requires WellShaped(shape) && 12 + shape.Size() + 2 * shape.majors <= |s| && |s| == |t|
    requires m < shape.majors && Checks(VectorOf(s, shape, m)) && Checks(VectorOf(t, shape, m))
    requires forall i :: 12 <= i < 12 + shape.Size() ==> s[i] == t[i]
    ensures var at := 12 + shape.Size() + m;
      s[at] == t[at] && s[at + shape.majors] == t[at + shape.majors]
  {
    var at := 12 + shape.Size() + m;
    assert DataOf(s, shape, m) == DataOf(t, shape, m);
    ParityUnique(DataOf(s, shape, m), s[at], s[at + shape.majors], t[at], t[at + shape.majors]);
  }

  /** Writes the parity that makes the sector valid, and nothing else. */
  method CdEccStamp(sector: array<bv8>)
    requires sector.Length >= 2352
    modifies sector
    ensures EccValid(sector[..])
    ensures forall i :: 0 <= i < sector.Length && !(2076 <= i < 2352) ==> sector[i] == old(sector[i])
    ensures EccValid(old(sector[..])) ==> sector[..] == old(sector[..])
  {
    Shapes();
    hide Checks, DataOf, VectorOf, IsParity, IsAlphaTable, IsFinalTable;
    ghost var s0 := sector[..];
    var f, b := EccLuts();
    var p := EccBlock(sector[..], P, f, b);
    forall i | 0 <= i < 172 {
      sector[2076 + i] := p[i];
    }
    ghost var s1 := sector[..];
    var q := EccBlock(sector[..], Q, f, b);
    forall i | 0 <= i < 104 {
      sector[2248 + i] := q[i];
    }
    ghost var s2 := sector[..];
    StampedBlock(s0, s1, P, p[..]);
    StampedBlock(s1, s2, Q, q[..]);
    SameVectors(s1, s2, P);
    if EccValid(s0) {
      ParityDetermined(s0, s2);
    }
  }

  lemma StampedBlock(s: seq<bv8>, t: seq<bv8>, shape: Shape, dest: seq<bv8>)
    requires WellShaped(shape) && 12 + shape.Size() + 2 * shape.majors <= |s| && |s| == |t|
    requires |dest| == 2 * shape.majors
    requires forall m: nat :: m < shape.majors ==> IsParity(s, shape, m, dest[m], dest[m + shape.majors])
    requires forall i :: 12 <= i < 12 + shape.Size() ==> s[i] == t[i]
    requires t[12 + shape.Size()..12 + shape.Size() + 2 * shape.majors] == dest
    ensures forall m: nat :: m < shape.majors ==> Checks(VectorOf(t, shape, m))
  {
    SameParity(s, t, shape);
    StoredParity(t, shape, dest);
  }

  // ---- coverage and distance -------------------------------------------------------

  /** P vectors are columns of the sector taken 86 bytes wide. */
  lemma POffset(m: nat, k: nat)
    requires WellShaped(P) && m < 86 && k < 26
    ensures Offset(P, m, k) == 12 + m + 86 * k
  {
    assert Start(P, m) == m;
    if k < 24 {
      SmallMod(m + k * 86, 2064);
    }
  }

  /** Q vectors are the diagonals of Annex A of ECMA-130: the words 44 k + 43 n modulo 1118, low bytes for
      even m and high bytes for odd m. */
  lemma QOffset(m: nat, k: nat)
    requires WellShaped(Q) && m < 52 && k < 43
    ensures Offset(Q, m, k) == 12 + 2 * ((44 * k + 43 * (m / 2)) % 1118) + m % 2
  {
    var w := 44 * k + 43 * (m / 2);
    assert Start(Q, m) + k * Q.minorInc == 2 * w + m % 2;
    ModUnique(2 * w + m % 2, 2236, w / 1118, 2 * (w % 1118) + m % 2);
  }

  /** The wrapping diagonal walk of the Q vectors visits every covered byte exactly once. */
  lemma QVisitsOnce(o: nat) returns (m: nat, k: nat)
    requires WellShaped(Q) && o < 2236
    ensures m < 52 && k < 43 && Offset(Q, m, k) == 12 + o
    ensures forall m': nat, k': nat :: m' < 52 && k' < 43 && Offset(Q, m', k') == 12 + o ==> m' == m && k' == k
  {
    k := o / 2 % 43;
    m := 2 * ((o / 2 - 44 * k) / 43 % 26) + o % 2;
    forall m': nat, k': nat | m' < 52 && k' < 43
      ensures Offset(Q, m', k') == 12 + o <==> m' == m && k' == k
    {
      QWord(m', k', o);
    }
  }

  lemma QWord(m: nat, k: nat, o: nat)
    requires WellShaped(Q) && m < 52 && k < 43 && o < 2236
    ensures Offset(Q, m, k) == 12 + o
       <==> k == o / 2 % 43 && m == 2 * ((o / 2 - 44 * k) / 43 % 26) + o % 2
  {
    var v := 86 * (m / 2) + m % 2 + k * 88;
    assert v == Start(Q, m) + k * Q.minorInc;
    if v % 2236 == o {
      QWordForward(m / 2, m % 2, k, o, v / 2236);
    }
    if k == o / 2 % 43 && m == 2 * ((o / 2 - 44 * k) / 43 % 26) + o % 2 {
      QWordBack(m / 2, m % 2, k, o);
    }
  }

  lemma QWordForward(n: nat, b: nat, k: nat, o: nat, c: nat)
    requires n < 26 && b < 2 && k < 43 && 86 * n + b + 88 * k == o + 2236 * c
    ensures o % 2 == b && o / 2 % 43 == k && (o / 2 - 44 * k) / 43 % 26 == n
  {
    var t := n + k - 26 * c;
    assert o == 2 * (43 * t + k) + b;
    assert o / 2 == 43 * t + k;
    assert o / 2 - 44 * k == 43 * (n - 26 * c);
    assert (o / 2 - 44 * k) / 43 == n - 26 * c;
  }

  lemma QWordBack(n: nat, b: nat, k: nat, o: nat)
    requires n < 26 && b < 2 && k < 43 && o < 2236
    requires b == o % 2 && k == o / 2 % 43 && n == (o / 2 - 44 * k) / 43 % 26
    ensures (86 * n + b + 88 * k) % 2236 == o
  {
    var u := o / 2 / 43;
    assert o / 2 == 43 * u + k;
    assert (o / 2 - 44 * k) / 43 == u - k;
    var c := (n - (u - k)) / 26;
    assert n == u - k + 26 * c;
    ModUnique(86 * n + b + 88 * k, 2236, c, o);
  }

  lemma VectorBytes(s: seq<bv8>, shape: Shape, m: nat)
    requires WellShaped(shape) && m < shape.majors && 12 + shape.Size() + 2 * shape.majors <= |s|
    ensures forall k: nat :: k < shape.minors + 2 ==>
              Offset(shape, m, k) < |s| && VectorOf(s, shape, m)[k] == s[Offset(shape, m, k)]
  {
    forall k: nat | k < shape.minors + 2
      ensures Offset(shape, m, k) < |s| && VectorOf(s, shape, m)[k] == s[Offset(shape, m, k)]
    {
      if k >= shape.minors {
        assert (k - shape.minors) * shape.majors == if k == shape.minors then 0 else shape.majors;
      }
    }
  }

  /** Two valid sectors differ nowhere in a P or Q vector, or in at least three of its bytes. */
  lemma VectorDistance(s: seq<bv8>, t: seq<bv8>, shape: Shape, m: nat, i: nat, j: nat)
    requires EccValid(s) && EccValid(t) && shape in {P, Q} && WellShaped(shape)
    requires m < shape.majors && i < j < shape.minors + 2
    requires forall k: nat :: k < shape.minors + 2 ==> Offset(shape, m, k) < |s| && Offset(shape, m, k) < |t|
    requires forall k: nat :: k < shape.minors + 2 && k != i && k != j ==>
               s[Offset(shape, m, k)] == t[Offset(shape, m, k)]
    ensures forall k: nat :: k < shape.minors + 2 ==> s[Offset(shape, m, k)] == t[Offset(shape, m, k)]
  {
    Shapes();
    hide Checks, Offset, VectorOf;
    VectorBytes(s, shape, m);
    VectorBytes(t, shape, m);
    var v, w := VectorOf(s, shape, m), VectorOf(t, shape, m);
    VectorLength(s, shape, m);
    VectorLength(t, shape, m);
    MinimumDistance(v, w, i, j);
  }

  lemma VectorLength(s: seq<bv8>, shape: Shape, m: nat)
    requires WellShaped(shape) && m < shape.majors && 12 + shape.Size() + 2 * shape.majors <= |s|
    ensures |VectorOf(s, shape, m)| == shape.minors + 2
  {
  }

  /** Any change of one or two bytes among offsets 12..2351 of a valid sector is rejected. */
  lemma SmallChangeRejected(s: seq<bv8>, t: seq<bv8>, i: nat, j: nat)
    requires EccValid(s) && |t| == |s|
    requires 12 <= i < 2352 && s[i] != t[i]
    requires forall x :: 12 <= x < 2352 && x != i && x != j ==> s[x] == t[x]
    ensures !EccValid(t)
  {
    if EccValid(t) {
      if i < 2248 {
        PByteKept(s, t, i, j);
      } else {
        QByteKept(s, t, i, j);
      }
    }
  }

  /** The place of P vector m that lies at offset j, if that is another place than k. */
  lemma PPartner(j: nat, m: nat, k: nat) returns (k': nat)
    requires WellShaped(P) && m < 86 && k < 26
    ensures k' < 26 && k' != k
    ensures forall l: nat :: l < 26 && l != k && l != k' ==> Offset(P, m, l) != j
    ensures Offset(P, m, k) == 12 + m + 86 * k
    ensures forall l: nat :: l < 26 ==> 12 <= Offset(P, m, l) < 2352
    ensures forall l: nat :: l < 26 && l != k ==> Offset(P, m, l) != Offset(P, m, k)
  {
    k' := if 12 <= j < 2248 && (j - 12) % 86 == m && (j - 12) / 86 != k then (j - 12) / 86 else if k == 0 then 1 else 0;
    forall l: nat | l < 26
      ensures Offset(P, m, l) == 12 + m + 86 * l
      ensures Offset(P, m, l) == j ==> 12 <= j < 2248 && (j - 12) % 86 == m && (j - 12) / 86 == l
    {
      POffset(m, l);
      PlaceOf(j, m, l);
    }
    hide Offset;
  }

  lemma PlaceOf(j: nat, m: nat, l: nat)
    requires m < 86 && l < 26
    ensures j == 12 + m + 86 * l ==> 12 <= j < 2248 && (j - 12) % 86 == m && (j - 12) / 86 == l
  {
  }

  lemma PByteKept(s: seq<bv8>, t: seq<bv8>, i: nat, j: nat)
    requires EccValid(s) && EccValid(t) && |t| == |s|
    requires 12 <= i < 2248
    requires forall x :: 12 <= x < 2352 && x != i && x != j ==> s[x] == t[x]
    ensures s[i] == t[i]
  {
    Shapes();
    var m, k := (i - 12) % 86, (i - 12) / 86;
    hide EccValid, Offset;
    var k' := PPartner(j, m, k);
    assert Offset(P, m, k) == i;
    VectorDistance(s, t, P, m, if k < k' then k else k', if k < k' then k' else k);
  }

  lemma QByteKept(s: seq<bv8>, t: seq<bv8>, i: nat, j: nat)
    requires EccValid(s) && EccValid(t) && |t| == |s|
    requires 2248 <= i < 2352
    requires forall x :: 12 <= x < 2352 && x != i && x != j ==> s[x] == t[x]
    ensures s[i] == t[i]
  {
    Shapes();
    var m, k := (i - 2248) % 52, 43 + (i - 2248) / 52;
    var k' := QPartner(j, m, k);
    QOffsetRange(m);
    assert Offset(Q, m, k) == i;
    hide EccValid, Offset;
    assert forall l: nat :: l < 45 && l != k && l != k' ==> s[Offset(Q, m, l)] == t[Offset(Q, m, l)];
    VectorDistance(s, t, Q, m, if k < k' then k else k', if k < k' then k' else k);
  }

  lemma QOffsetRange(m: nat)
    requires WellShaped(Q) && m < 52
    ensures Offset(Q, m, 43) == 2248 + m && Offset(Q, m, 44) == 2300 + m
    ensures forall l: nat :: l < 43 ==> 12 <= Offset(Q, m, l) < 2248
  {
  }

  /** The one place of Q vector m, other than its parity place k, that can lie at offset j. */
  lemma QPartner(j: nat, m: nat, k: nat) returns (k': nat)
    requires WellShaped(Q) && m < 52 && 43 <= k < 45
    ensures k' < 45 && k' != k
    ensures forall l: nat :: l < 45 && l != k && l != k' ==>
              12 <= Offset(Q, m, l) < 2352 && Offset(Q, m, l) != Offset(Q, m, k) && Offset(Q, m, l) != j
  {
    QOffsetRange(m);
    var k0: nat := 43;
    if 12 <= j < 2248 {
      var m1, k1 := QVisitsOnce(j - 12);
      k0 := if m1 == m then k1 else 43;
      hide Offset;
      assert forall l: nat :: l < 43 && l != k0 ==> Offset(Q, m, l) != j;
    }
    k' := if k0 < 43 then k0 else if k == 43 then 44 else 43;
    forall l: nat | l < 45 && l != k && l != k'
      ensures 12 <= Offset(Q, m, l) < 2352 && Offset(Q, m, l) != Offset(Q, m, k) && Offset(Q, m, l) != j
    {
      hide Offset;
      assert l < 43 || l == 43 || l == 44;
    }
  }
}
