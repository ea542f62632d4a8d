/** Positioned byte streams and sector addressing (core/src/offset.rs, core/src/sector.rs). */
module Streams {
  import opened Wrappers
  import opened Bytes

  datatype SeekFrom = FromStart(n: nat) | FromCurrent(d: int) | FromEnd(d: int)

  datatype StreamError = UnexpectedEof | InvalidInput

  /** An unsigned 64-bit number reinterpreted as a signed one. */
  function AsI64(n: nat): int {
    if n < 0x8000_0000_0000_0000 then n else n - 0x1_0000_0000_0000_0000
  }

  predicate FitsI64(n: int) {
    -0x8000_0000_0000_0000 <= n < 0x8000_0000_0000_0000
  }

  /** How sectors are stored in the image file. */
  datatype SectorMode = Iso2048 | Raw2352 | Raw2352Mode2 | Raw2448 | Raw2448Mode2 | Mode2_2336
  {
    function PhysicalSectorSize(): nat {
      match this
      case Iso2048 => 2048
      case Raw2352 => 2352
      case Raw2352Mode2 => 2352
      case Raw2448 => 2448
      case Raw2448Mode2 => 2448
      case Mode2_2336 => 2336
    }

    function DataOffset(): nat {
      match this
      case Iso2048 => 0
      case Raw2352 => 16
      case Raw2448 => 16
      case Raw2352Mode2 => 24
      case Raw2448Mode2 => 24
      case Mode2_2336 => 8
    }

    function UserDataPos(lba: nat): nat {
      lba * PhysicalSectorSize() + DataOffset()
    }
  }

  /** User data lies inside its sector, and sectors do not overlap. */
  lemma SectorsApart(mode: SectorMode, a: nat, b: nat)
    requires a < b
    ensures mode.DataOffset() + 2048 <= mode.PhysicalSectorSize()
    ensures mode.UserDataPos(a) + 2048 <= mode.UserDataPos(b)
  {
  }

  /** A window of `len` bytes from `base` on over a container, addressed from 0.  The inner
      stream is the container's bytes with a position. */
  class OffsetReader {
    const container: seq<u8>
    const base: nat
    const len: nat
    var innerPos: nat
    var pos: nat

    ghost predicate Valid()
      reads this
    {
      innerPos == base + pos
    }

    /** The bytes the window shows: those of the container that lie inside it. */
    ghost function View(): seq<u8> {
      if base >= |container| then [] else container[base..Min(base + len, |container|)]
    }

    constructor (container: seq<u8>, base: nat, len: nat)
      ensures Valid() && pos == 0
      ensures this.container == container && this.base == base && this.len == len
    {
      this.container, this.base, this.len := container, base, len;
      innerPos, pos := base, 0;
    }

    /** The inner stream's read into the first `cap` bytes of the buffer from `at` on. */
    method InnerRead(buf: array<u8>, at: nat, cap: nat) returns (n: nat)
      requires at + cap <= buf.Length
      modifies this`innerPos, buf
      ensures n == if old(innerPos) >= |container| then 0 else Min(cap, |container| - old(innerPos))
      ensures innerPos == old(innerPos) + n
      ensures forall k :: at <= k < at + n ==> buf[k] == container[old(innerPos) + (k - at)]
      ensures forall i :: 0 <= i < buf.Length && !(at <= i < at + n) ==> buf[i] == old(buf[i])
    {
      n := if innerPos >= |container| then 0 else Min(cap, |container| - innerPos);
      forall i | 0 <= i < n {
        buf[at + i] := container[innerPos + i];
      }
      innerPos := innerPos + n;
    }

    /** Reads into the buffer from `at` on, no further than the end of the window. */
    method Read(buf: array<u8>, at: nat) returns (n: nat)
      requires Valid() && at <= buf.Length
      modifies this, buf
      ensures Valid() && pos == old(pos) + n
      ensures n == if old(pos) >= |View()| then 0 else Min(buf.Length - at, |View()| - old(pos))
      ensures forall k :: at <= k < at + n ==> buf[k] == View()[old(pos) + (k - at)]
      ensures forall i :: 0 <= i < buf.Length && !(at <= i < at + n) ==> buf[i] == old(buf[i])
    {
      var remaining := if pos < len then len - pos else 0;
      if remaining == 0 {
        return 0;
      }
      var cap := Min(remaining, buf.Length - at);
      n := InnerRead(buf, at, cap);
      pos := pos + n;
    }

    /** Where a seek to `to` lands, before the check that it is not negative. */
    function Target(to: SeekFrom): int
      reads this
    {
      match to
      case FromStart(n) => AsI64(n)
      case FromCurrent(d) => AsI64(pos) + d
      case FromEnd(d) => AsI64(len) + d
    }

    method Seek(to: SeekFrom) returns (r: Result<nat, StreamError>)
      requires Valid()
      modifies this
      ensures Valid()
      ensures old(Target(to)) < 0 ==> r == Err(InvalidInput) && pos == old(pos)
      ensures old(Target(to)) >= 0 ==> r == Ok(old(Target(to))) && pos == old(Target(to))
      ensures to.FromStart? && to.n < 0x8000_0000_0000_0000 ==> r == Ok(to.n)
      ensures to.FromStart? && 0x8000_0000_0000_0000 <= to.n < 0x1_0000_0000_0000_0000 ==> r.Err?
      ensures to.FromCurrent? && old(pos) < 0x8000_0000_0000_0000 ==>
        (if old(pos) + to.d < 0 then r.Err? else r == Ok(old(pos) + to.d))
      ensures to.FromEnd? && len < 0x8000_0000_0000_0000 ==>
        (if len + to.d < 0 then r.Err? else r == Ok(len + to.d))
      ensures r.Ok? ==> pos == r.value
    {
      var target := Target(to);
      if target < 0 {
        return Err(InvalidInput);
      }
      innerPos := base + target;
      pos := target;
      return Ok(target);
    }

    /** Fills the buffer, or reports the end of the stream. */
    method ReadExact(buf: array<u8>) returns (r: Result<(), StreamError>)
      requires Valid()
      modifies this, buf
      ensures Valid()
      ensures r.Ok? <==> buf.Length == 0 || old(pos) + buf.Length <= |View()|
      ensures r.Ok? && buf.Length > 0 ==> buf[..] == View()[old(pos)..old(pos) + buf.Length]
      ensures r.Err? ==> r.error == UnexpectedEof
    {
      var at := 0;
      ghost var v, start := View(), pos;
      while at < buf.Length
        invariant Valid() && 0 <= at <= buf.Length && pos == start + at
        invariant at > 0 ==> pos <= |v|
        invariant forall i :: 0 <= i < at ==> buf[i] == v[start + i]
      {
        var n := Read(buf, at);
        if n == 0 {
          break;
        }
        at := at + n;
      }
      return if at < buf.Length then Err(UnexpectedEof) else Ok(());
    }

    /** The user data of logical sector `lba`. */
    method ReadSectorData(mode: SectorMode, lba: nat, buf: array<u8>) returns (r: Result<(), StreamError>)
      requires Valid() && buf.Length == 2048 && mode.UserDataPos(lba) < 0x8000_0000_0000_0000
      modifies this, buf
      ensures Valid()
      ensures r.Ok? <==> mode.UserDataPos(lba) + 2048 <= |View()|
      ensures r.Ok? ==> buf[..] == View()[mode.UserDataPos(lba)..mode.UserDataPos(lba) + 2048]
      ensures r.Err? ==> r.error == UnexpectedEof
    {
      var at := Seek(FromStart(mode.UserDataPos(lba)));
      r := ReadExact(buf);
    }
  }
}
