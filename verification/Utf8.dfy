/** Well-formed UTF-8 byte strings are the encodings of sequences of Unicode scalar values. */
module Utf8 {
  import opened Bytes

  predicate IsScalar(c: nat) {
    c < 0x11_0000 && !(0xD800 <= c < 0xE000)
  }

  predicate AllScalars(cs: seq<nat>) {
    forall i :: 0 <= i < |cs| ==> IsScalar(cs[i])
  }

  /** The UTF-8 form of one character (section 3 of RFC 3629). */
  function EncodeChar(c: nat): seq<u8>
    requires IsScalar(c)
  {
    if c < 0x80 then [c]
    else if c < 0x800 then [0xC0 + c / 64, 0x80 + c % 64]
    else if c < 0x1_0000 then [0xE0 + c / 4096, 0x80 + c / 64 % 64, 0x80 + c % 64]
    else [0xF0 + c / 0x4_0000, 0x80 + c / 4096 % 64, 0x80 + c / 64 % 64, 0x80 + c % 64]
  }

  function EncodeText(cs: seq<nat>): seq<u8>
    requires AllScalars(cs)
  {
    if |cs| == 0 then [] else EncodeChar(cs[0]) + EncodeText(cs[1..])
  }

  lemma CharThenText(c: nat, b: seq<u8>)
    requires IsScalar(c) && IsUtf8(b)
    ensures IsUtf8(EncodeChar(c) + b)
  {
    var e, n := EncodeChar(c), |EncodeChar(c)|;
    assert (e + b)[n..] == b;
    assert forall i :: 0 <= i < n ==> (e + b)[i] == e[i];
  }

  lemma TwoBytes(x: nat, y: nat)
    requires 2 <= x < 32 && y < 64
    ensures IsScalar(64 * x + y) && EncodeChar(64 * x + y) == [0xC0 + x, 0x80 + y]
  {
    Digits(x, y);
  }

  lemma ThreeBytes(x: nat, y: nat, z: nat)
    requires x < 16 && y < 64 && z < 64 && (x == 0 ==> y >= 32) && (x == 13 ==> y < 32)
    ensures IsScalar(4096 * x + 64 * y + z) && EncodeChar(4096 * x + 64 * y + z) == [0xE0 + x, 0x80 + y, 0x80 + z]
  {
    Digits(64 * x + y, z);
    Digits(x, y);
  }

  lemma FourBytes(x: nat, y: nat, z: nat, w: nat)
    requires x <= 4 && y < 64 && z < 64 && w < 64 && (x == 0 ==> y >= 16) && (x == 4 ==> y < 16)
    ensures var c := 0x4_0000 * x + 4096 * y + 64 * z + w;
      IsScalar(c) && EncodeChar(c) == [0xF0 + x, 0x80 + y, 0x80 + z, 0x80 + w]
  {
    Digits(4096 * x + 64 * y + z, w);
    Digits(64 * x + y, z);
    Digits(x, y);
  }

  lemma Digits(x: nat, y: nat)
    requires y < 64
    ensures (64 * x + y) / 64 == x && (64 * x + y) % 64 == y
  {
  }

  /** The character that starts a well-formed string. */
  lemma FirstChar(b: seq<u8>) returns (c: nat, rest: seq<u8>)
    requires IsUtf8(b) && |b| > 0
    ensures IsScalar(c) && b == EncodeChar(c) + rest && IsUtf8(rest) && |rest| < |b|
  {
    var b0: nat := b[0];
    if b0 < 0x80 {
      c, rest := b0, b[1..];
    } else {
      hide EncodeChar, IsScalar;
      var b1: nat := b[1];
      if b0 < 0xE0 {
        c, rest := 64 * (b0 - 0xC0) + (b1 - 0x80), b[2..];
        TwoBytes(b0 - 0xC0, b1 - 0x80);
      } else {
        var b2: nat := b[2];
        if b0 < 0xF0 {
          c, rest := 4096 * (b0 - 0xE0) + 64 * (b1 - 0x80) + (b2 - 0x80), b[3..];
          ThreeBytes(b0 - 0xE0, b1 - 0x80, b2 - 0x80);
        } else {
          var b3: nat := b[3];
          c, rest := 0x4_0000 * (b0 - 0xF0) + 4096 * (b1 - 0x80) + 64 * (b2 - 0x80) + (b3 - 0x80), b[4..];
          FourBytes(b0 - 0xF0, b1 - 0x80, b2 - 0x80, b3 - 0x80);
        }
      }
    }
  }

  lemma {:induction false} EncodedIsUtf8(cs: seq<nat>)
    requires AllScalars(cs)
    ensures IsUtf8(EncodeText(cs))
  {
    hide IsUtf8, EncodeChar;
    if |cs| == 0 {
      EmptyIsUtf8();
    } else {
      EncodedIsUtf8(cs[1..]);
      CharThenText(cs[0], EncodeText(cs[1..]));
    }
  }

  lemma EmptyIsUtf8()
    ensures IsUtf8([])
  {
  }

  lemma {:induction false} Utf8IsEncoded(b: seq<u8>) returns (cs: seq<nat>)
    requires IsUtf8(b)
    ensures AllScalars(cs) && EncodeText(cs) == b
    decreases |b|
  {
    hide IsUtf8, EncodeChar;
    if |b| == 0 {
      cs := [];
    } else {
      var c, rest := FirstChar(b);
      var more := Utf8IsEncoded(rest);
      cs := [c] + more;
      assert cs[1..] == more;
    }
  }

  /** A byte string is UTF-8 exactly when it encodes some characters. */
  lemma Utf8Iff(b: seq<u8>)
    ensures IsUtf8(b) <==> exists cs :: AllScalars(cs) && EncodeText(cs) == b
  {
    hide IsUtf8, EncodeChar;
    if IsUtf8(b) {
      var cs := Utf8IsEncoded(b);
    }
    if cs :| AllScalars(cs) && EncodeText(cs) == b {
      EncodedIsUtf8(cs);
    }
  }
}
