/** The Q subchannel of a CD sector (core/src/subq.rs). */
module Subchannel {
  import opened Wrappers
  import opened Crc16

  /** The bit of a byte at place i, counted from the most significant. */
  function Mask(i: nat): bv8
    requires i < 8
  {
    1 << (7 - i)
  }

  predicate BitAt(b: bv8, i: nat)
    requires i < 8
  {
    b & Mask(i) != 0
  }

  /** Bit 6 of the first 96 subcode bytes spells out the frame, most significant bit first. */
  ghost predicate Carries(sub: seq<bv8>, frame: seq<bv8>) {
    && |sub| >= 96 && |frame| == 12
    && forall k: nat :: k < 96 ==> (sub[k] & 0x40 != 0 <==> BitAt(frame[k / 8], k % 8))
  }

  /** 96 subcode bytes that carry `frame` in bit 6 and `other` in the remaining seven bits. */
  function Interleave(frame: seq<bv8>, other: seq<bv8>): (sub: seq<bv8>)
    requires |frame| == 12 && |other| == 96
  {
    seq(96, k requires 0 <= k < 96 => (other[k] & 0xBF) | (if BitAt(frame[k / 8], k % 8) then 0x40 else 0))
  }

  lemma MaskTable(i: nat)
    requires i < 8
    ensures Mask(i) == [0x80, 0x40, 0x20, 0x10, 0x08, 0x04, 0x02, 0x01][i]
  {
  }

  /** Setting a clear bit sets that bit and no other. */
  lemma SetBit(b: bv8, i: nat)
    requires i < 8
    ensures BitAt(b | Mask(i), i)
    ensures forall j: nat :: j < 8 && j != i ==> (BitAt(b | Mask(i), j) <==> BitAt(b, j))
  {
    MaskTable(i);
    forall j: nat | j < 8 && j != i
      ensures BitAt(b | Mask(i), j) <==> BitAt(b, j)
    {
      MaskTable(j);
    }
  }

  lemma SameBits(b: bv8, c: bv8)
    requires forall i: nat :: i < 8 ==> (BitAt(b, i) <==> BitAt(c, i))
    ensures b == c
  {
    forall i: nat | i < 8
      ensures Mask(i) == [0x80, 0x40, 0x20, 0x10, 0x08, 0x04, 0x02, 0x01][i]
    {
      MaskTable(i);
    }
    assert BitAt(b, 0) == BitAt(c, 0);
    assert BitAt(b, 1) == BitAt(c, 1);
    assert BitAt(b, 2) == BitAt(c, 2);
    assert BitAt(b, 3) == BitAt(c, 3);
    assert BitAt(b, 4) == BitAt(c, 4);
    assert BitAt(b, 5) == BitAt(c, 5);
    assert BitAt(b, 6) == BitAt(c, 6);
    assert BitAt(b, 7) == BitAt(c, 7);
  }

  /** The Q frame of a block of interleaved subcode. */
  method ExtractQ(subchannel: seq<bv8>) returns (frame: Option<seq<bv8>>)
    ensures frame.None? <==> |subchannel| < 96
    ensures frame.Some? ==> Carries(subchannel, frame.value)
  {
    if |subchannel| < 96 {
      return None;
    }
    var q := new bv8[12](_ => 0);
    SpelledNone(subchannel, q[..]);
    for bit := 0 to 96
      invariant Spelled(subchannel, q[..], bit)
    {
      hide *;
      SpellStep(subchannel, q[..], bit);
      if subchannel[bit] & 0x40 != 0 {
        ghost var before := q[..];
        q[bit / 8] := q[bit / 8] | Mask(bit % 8);
        assert q[..] == before[bit / 8 := before[bit / 8] | Mask(bit % 8)];
      }
    }
    frame := Some(q[..]);
  }

  /** The first n subcode bytes are in the frame, and its other bits are clear. */
  ghost predicate Spelled(sub: seq<bv8>, q: seq<bv8>, n: nat) {
    && n <= 96 <= |sub| && |q| == 12
    && forall k: nat :: k < 96 ==> (BitAt(q[k / 8], k % 8) <==> k < n && sub[k] & 0x40 != 0)
  }

  lemma SpelledNone(sub: seq<bv8>, q: seq<bv8>)
    requires 96 <= |sub| && |q| == 12 && forall j :: 0 <= j < 12 ==> q[j] == 0
    ensures Spelled(sub, q, 0)
  {
  }

  function Spell(q: seq<bv8>, n: nat, on: bool): (r: seq<bv8>)
    requires n < 96 && |q| == 12
    ensures |r| == 12
  {
    if on then q[n / 8 := q[n / 8] | Mask(n % 8)] else q
  }

  lemma SpellBit(q: seq<bv8>, n: nat, on: bool, k: nat)
    requires n < 96 && |q| == 12 && k < 96
    ensures BitAt(Spell(q, n, on)[k / 8], k % 8) <==> (k == n && on) || BitAt(q[k / 8], k % 8)
  {
    SetBit(q[n / 8], n % 8);
    hide BitAt, Mask;
    if k / 8 == n / 8 && k != n {
      assert k % 8 != n % 8;
    }
  }

  lemma SpellStep(sub: seq<bv8>, q: seq<bv8>, n: nat)
    requires n < 96 && Spelled(sub, q, n)
    ensures Spelled(sub, if sub[n] & 0x40 != 0 then q[n / 8 := q[n / 8] | Mask(n % 8)] else q, n + 1)
  {
    var on := sub[n] & 0x40 != 0;
    forall k: nat | k < 96
      ensures BitAt(Spell(q, n, on)[k / 8], k % 8) <==> k < n + 1 && sub[k] & 0x40 != 0
    {
      SpellBit(q, n, on, k);
    }
  }

  /** A block carries one frame only. */
  lemma CarriedFrameUnique(sub: seq<bv8>, f: seq<bv8>, g: seq<bv8>)
    requires Carries(sub, f) && Carries(sub, g)
    ensures f == g
  {
    forall j | 0 <= j < 12
      ensures f[j] == g[j]
    {
      forall i: nat | i < 8
        ensures BitAt(f[j], i) <==> BitAt(g[j], i)
      {
        var k := 8 * j + i;
        assert k / 8 == j && k % 8 == i;
      }
      SameBits(f[j], g[j]);
    }
  }

  lemma MergedBit(other: bv8, bit: bool)
    ensures ((other & 0xBF) | (if bit then 0x40 else 0)) & 0x40 != 0 <==> bit
  {
  }

  /** Whatever the other seven channels and any trailing bytes hold, what is extracted from
      an interleaved frame is that frame. */
  lemma InterleavedFrameExtracted(frame: seq<bv8>, other: seq<bv8>, tail: seq<bv8>, q: seq<bv8>)
    requires |frame| == 12 && |other| == 96
    requires Carries(Interleave(frame, other) + tail, q)
    ensures q == frame
  {
    var sub := Interleave(frame, other) + tail;
    forall k: nat | k < 96
      ensures sub[k] & 0x40 != 0 <==> BitAt(frame[k / 8], k % 8)
    {
      MergedBit(other[k], BitAt(frame[k / 8], k % 8));
    }
    CarriedFrameUnique(sub, q, frame);
  }

  // ---- frame check ----------------------------------------------------------------

  /** The residue every intact frame leaves: the CRC of its 12 bytes, stored CRC included. */
  const RESIDUE: bv16 := 0x1D0F

  ghost predicate IntactFrame(frame: seq<bv8>) {
    |frame| >= 12 && SerialCrc(frame[..12]) == RESIDUE
  }

  lemma StoredCrc(crc: bv16, high: bv8, low: bv8)
    ensures crc ^ 0xFFFF == Word(high, low) <==> Feed(crc, [high, low]) == RESIDUE
  {
    var w := Word(high, low);
    ResidueOfOnes();
    InvertedEqual(crc, w);
    hide *;
    FeedWord(crc, high, low);
    if Steps(Xor(crc, w), 16) == Steps(0xFFFF, 16) {
      StepsInjective(Xor(crc, w), 0xFFFF, 16);
    }
  }

  lemma ResidueOfOnes()
    ensures Steps(0xFFFF, 16) == RESIDUE
  {
    StepsAdd(0xFFFF, 8, 8);
    assert Steps(0xFFFF, 8) == 0xE1F0;
    assert Steps(0xE1F0, 8) == 0x1D0F;
  }

  lemma InvertedEqual(c: bv16, w: bv16)
    ensures c ^ 0xFFFF == w <==> Xor(c, w) == 0xFFFF
  {
    assert c ^ 0xFFFF == Xor(c, 0xFFFF);
    hide Xor;
    XorLaws(c, w);
    XorLaws(w, c);
    XorLaws(c, 0xFFFF);
    XorLaws(0xFFFF, c);
  }

  /** The stored CRC is right exactly when the whole frame leaves the fixed residue. */
  method QCrcValid(frame: seq<bv8>) returns (valid: bool)
    ensures valid <==> IntactFrame(frame)
  {
    if |frame| < 12 {
      return false;
    }
    var computed := Crc16Ccitt(frame[0..10]);
    StoredCrc(computed, frame[10], frame[11]);
    FeedAppend(0, frame[..10], [frame[10], frame[11]]);
    assert frame[..12] == frame[..10] + [frame[10], frame[11]];
    assert frame[0..10] == frame[..10];
    computed := computed ^ 0xFFFF;
    var stored := Word(frame[10], frame[11]);
    valid := computed == stored;
  }

  /** Altering one byte, or two adjacent ones, of an intact frame is always noticed. */
  lemma AlteredFrameRejected(frame: seq<bv8>, altered: seq<bv8>, i: nat)
    requires IntactFrame(frame) && |altered| == |frame| && i + 2 <= 12
    requires frame[..12] != altered[..12]
    requires forall k :: 0 <= k < 12 && !(i <= k < i + 2) ==> frame[k] == altered[k]
    ensures !IntactFrame(altered)
  {
    BurstDetected(frame[..12], altered[..12], i);
  }
}
