/** Bytes as numbers, byte strings, and little-endian integers. */
module Bytes {
  type u8 = x: int | 0 <= x < 256
  type u32 = x: int | 0 <= x < 0x1_0000_0000

  const SLASH: u8 := 47

  function Min(a: int, b: int): int {
    if a < b then a else b
  }

  /** The low byte of a number. */
  function Byte(x: nat): (b: u8) {
    x % 0x100
  }

  function Le32(x: u32): (b: seq<u8>)
    ensures |b| == 4
  {
    [Byte(x), Byte(x / 0x100), Byte(x / 0x1_0000), Byte(x / 0x100_0000)]
  }

  function ReadLe32(b: seq<u8>, i: nat): (x: u32)
    requires i + 4 <= |b|
  {
    var b0: nat, b1: nat, b2: nat, b3: nat := b[i], b[i + 1], b[i + 2], b[i + 3];
    b0 + 0x100 * b1 + 0x1_0000 * b2 + 0x100_0000 * b3
  }

  lemma ReadsWhatWasWritten(b: seq<u8>, i: nat, x: u32)
    requires i + 4 <= |b| && b[i..i + 4] == Le32(x)
    ensures ReadLe32(b, i) == x
  {
    var w := Le32(x);
    assert b[i..i + 4][0] == b[i] && b[i..i + 4][1] == b[i + 1];
    assert b[i..i + 4][2] == b[i + 2] && b[i..i + 4][3] == b[i + 3];
    assert x == x % 0x100 + 0x100 * (x / 0x100);
    assert x / 0x100 / 0x100 == x / 0x1_0000 && x / 0x1_0000 / 0x100 == x / 0x100_0000;
  }

  /** Four bytes are the little-endian form of the number read from them. */
  lemma WritesWhatWasRead(b: seq<u8>, i: nat)
    requires i + 4 <= |b|
    ensures Le32(ReadLe32(b, i)) == b[i..i + 4]
  {
    var b0: nat, b1: nat, b2: nat, b3: nat := b[i], b[i + 1], b[i + 2], b[i + 3];
    var x: nat := ReadLe32(b, i);
    assert x / 0x100 == b1 + 0x100 * b2 + 0x1_0000 * b3;
    assert x / 0x1_0000 == b2 + 0x100 * b3;
    assert x / 0x100_0000 == b3;
  }

  predicate Continues(b: u8) {
    0x80 <= b <= 0xBF
  }

  /** Well-formed UTF-8, by the byte ranges of table 3-7 of the Unicode Standard. */
  predicate IsUtf8(b: seq<u8>)
    decreases |b|
  {
    if |b| == 0 then true
    else if b[0] < 0x80 then IsUtf8(b[1..])
    else if 0xC2 <= b[0] <= 0xDF then |b| >= 2 && Continues(b[1]) && IsUtf8(b[2..])
    else if 0xE0 <= b[0] <= 0xEF then
      && |b| >= 3 && Continues(b[1]) && Continues(b[2])
      && (b[0] == 0xE0 ==> b[1] >= 0xA0) && (b[0] == 0xED ==> b[1] <= 0x9F)
      && IsUtf8(b[3..])
    else
      && 0xF0 <= b[0] <= 0xF4 && |b| >= 4
      && Continues(b[1]) && Continues(b[2]) && Continues(b[3])
      && (b[0] == 0xF0 ==> b[1] >= 0x90) && (b[0] == 0xF4 ==> b[1] <= 0x8F)
      && IsUtf8(b[4..])
  }

  /** The bytes of a string slice, or the empty string when they are not UTF-8. */
  function Utf8OrEmpty(b: seq<u8>): (s: seq<u8>) {
    if IsUtf8(b) then b else []
  }

  predicate IsAscii(b: seq<u8>) {
    forall i :: 0 <= i < |b| ==> b[i] < 0x80
  }

  lemma {:induction false} AsciiIsUtf8(b: seq<u8>)
    requires IsAscii(b)
    ensures IsUtf8(b)
    decreases |b|
  {
    if |b| > 0 {
      AsciiIsUtf8(b[1..]);
    }
  }
}
