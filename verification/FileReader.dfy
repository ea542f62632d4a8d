/** The streaming reader of one file (core/src/file_reader.rs): a cursor over the concatenation
    of the file's extents, with one sector cached. */
module FileReader {
  import opened Wrappers
  import opened Bytes
  import opened Streams
  import opened IsoErrors
  import opened Directory
  import opened MultiExtent
  import opened FileContent

  /** The value of `bufStart` that says no sector is cached. */
  const NOTHING_CACHED: nat := 0xFFFF_FFFF

  function Clamp(x: int, high: nat): nat {
    if x < 0 then 0 else Min(x, high)
  }

  /** Where a seek puts a cursor at `pos` in a file of `total` bytes. */
  function Landing(total: nat, pos: nat, to: SeekFrom): nat {
    match to
    case FromStart(n) => Clamp(AsI64(n), total)
    case FromEnd(d) => Clamp(total + d, total)
    case FromCurrent(d) => Clamp(pos + d, total)
  }

  /** The signed 64-bit sums of the seek do not overflow. */
  predicate SeekFits(total: nat, pos: nat, to: SeekFrom) {
    match to
    case FromStart(n) => n < 0x1_0000_0000_0000_0000
    case FromEnd(d) => FitsI64(total + d)
    case FromCurrent(d) => FitsI64(pos + d)
  }

  /** A seek from the start goes through a signed number, so it lands on the nearest position
      in the file exactly when the offset is below 2^63 or the file is empty. */
  lemma SeekFromStartExact(total: nat, pos: nat, n: nat)
    requires total < 0x1_0000_0000 && n < 0x1_0000_0000_0000_0000
    ensures Landing(total, pos, FromStart(n)) == Min(n, total) <==> n < 0x8000_0000_0000_0000 || total == 0
    ensures n >= 0x8000_0000_0000_0000 ==> Landing(total, pos, FromStart(n)) == 0
  {
    assert AsI64(n) < 0 <==> n >= 0x8000_0000_0000_0000;
  }

  function Distance(a: int, b: int): nat {
    if a < b then b - a else a - b
  }

  /** The position a seek asks for. */
  function Asked(total: nat, pos: nat, to: SeekFrom): int {
    match to
    case FromStart(n) => n
    case FromEnd(d) => total + d
    case FromCurrent(d) => pos + d
  }

  /** A seek lands on the position in the file nearest to the one asked for. */
  lemma LandsNearest(total: nat, pos: nat, to: SeekFrom, q: nat)
    requires SeekFits(total, pos, to) && (to.FromStart? ==> to.n < 0x8000_0000_0000_0000)
    ensures Landing(total, pos, to) <= total
    ensures q <= total && q != Landing(total, pos, to) ==>
      Distance(Landing(total, pos, to), Asked(total, pos, to)) < Distance(q, Asked(total, pos, to))
  {
    match to
    case FromStart(_) => assert AsI64(to.n) == to.n;
    case FromEnd(_) =>
    case FromCurrent(_) =>
  }

  class IsoFileReader {
    const inner: OffsetReader
    const mode: SectorMode
    const extents: seq<Extent>
    const total: nat
    const sectorBuf: array<u8>
    var extIdx: nat
    var extPos: nat
    var bufStart: nat
    var bufValid: nat
    var bufPos: nat

    /** When the cached sector is the one the cursor is in, it holds that sector's bytes. */
    ghost predicate CacheCurrent()
      reads this, sectorBuf
      requires extIdx < |extents|
    {
      var (lba, size) := extents[extIdx];
      bufStart == extPos / 2048 * 2048 ==>
        && Holds(inner.View(), mode, extents[extIdx], extPos / 2048)
        && (var at := mode.UserDataPos(lba + extPos / 2048); sectorBuf[..] == inner.View()[at..at + 2048])
        && bufValid == Min(size - bufStart, 2048)
        && bufPos == extPos - bufStart
    }

    ghost predicate Valid()
      reads this, inner, sectorBuf
    {
      && inner.Valid()
      && sectorBuf.Length == 2048
      && |extents| > 0 && total == Total(extents) < 0x1_0000_0000
      && extIdx <= |extents|
      && (extIdx == |extents| ==> extPos == 0)
      && (extIdx < |extents| ==> extPos <= extents[extIdx].1 && CacheCurrent())
    }

    /** The position in the file. */
    ghost function Pos(): nat
      reads this
      requires extIdx <= |extents|
    {
      Total(extents[..extIdx]) + extPos
    }

    constructor (inner: OffsetReader, mode: SectorMode, primaryLba: u32, primarySize: u32, extraExtents: seq<Extent>)
      requires inner.Valid()
      requires Total([(primaryLba, primarySize)] + extraExtents) < 0x1_0000_0000
      ensures Valid() && Pos() == 0 && fresh(sectorBuf)
      ensures this.inner == inner && this.mode == mode
      ensures extents == [(primaryLba, primarySize)] + extraExtents
    {
      this.inner, this.mode := inner, mode;
      extents := [(primaryLba, primarySize)] + extraExtents;
      total := Total([(primaryLba, primarySize)] + extraExtents);
      sectorBuf := new u8[2048](_ => 0);
      extIdx, extPos, bufStart, bufValid, bufPos := 0, 0, NOTHING_CACHED, 0, 0;
    }

    /** Loads the sector the cursor is in, unless it is the one cached. */
    method EnsureBuf() returns (r: Result<(), IsoError>)
      requires Valid()
      modifies this`bufStart, this`bufValid, this`bufPos, inner, sectorBuf
      ensures Valid()
      ensures extIdx == |extents| || extents[extIdx].1 == 0 ==> r.Ok?
      ensures extIdx < |extents| && extents[extIdx].1 > 0 ==>
        && (r.Ok? <==> Holds(inner.View(), mode, extents[extIdx], extPos / 2048))
        && (r.Ok? ==> bufStart == extPos / 2048 * 2048)
      ensures r.Err? ==> r.error == IsoError.UnexpectedEof
    {
      hide SectorMode.UserDataPos, Total;
      if extIdx >= |extents| {
        return Ok(());
      }
      var (lba, size) := extents[extIdx];
      if size == 0 {
        return Ok(());
      }
      var sectorStart := extPos / 2048 * 2048;
      if bufStart == sectorStart {
        return Ok(());
      }
      var sectorIdx := sectorStart / 2048;
      PositionFits(mode, lba + sectorIdx);
      var read := inner.ReadSectorData(mode, lba + sectorIdx, sectorBuf);
      if read.Err? {
        return Err(IsoError.UnexpectedEof);
      }
      bufValid := Min(size - sectorStart, 2048);
      bufStart := sectorStart;
      bufPos := extPos - sectorStart;
      return Ok(());
    }

    /** Copies what the cached sector has of the next bytes, as far as the buffer takes them. */
    method CopyBuffered(buf: array<u8>, written: nat, ghost start: nat) returns (n: nat)
      requires Valid() && buf != sectorBuf && extIdx < |extents| && extPos < extents[extIdx].1
      requires bufStart == extPos / 2048 * 2048
      requires written < buf.Length && Pos() == start + written
      requires FileHolds(inner.View(), mode, extents, start, buf[..written])
      modifies this`extPos, this`bufPos, buf
      ensures Valid() && n > 0 && written + n <= buf.Length && Pos() == start + written + n
      ensures FileHolds(inner.View(), mode, extents, start, buf[..written + n])
      ensures forall k :: written + n <= k < buf.Length ==> buf[k] == old(buf[k])
    {
      hide SectorMode.UserDataPos, Total, FileHolds, Holds;
      n := Min(bufValid - bufPos, buf.Length - written);
      HeldFurther(inner.View(), mode, extents, start, buf[..written], extIdx, extPos, sectorBuf[..], n);
      Paste(buf, written, sectorBuf[bufPos..bufPos + n]);
      bufPos := bufPos + n;
      extPos := extPos + n;
    }

    lemma PosInside()
      requires Valid()
      ensures Pos() <= total
      ensures extIdx == |extents| ==> Pos() == total
    {
      hide Total;
      if extIdx < |extents| {
        TotalUpTo(extents, extIdx);
      } else {
        assert extents[..extIdx] == extents;
      }
    }

    /** The next bytes of the file, as many as the buffer takes and the file still has. */
    method Read(buf: array<u8>) returns (r: Result<nat, IsoError>)
      requires Valid() && buf != sectorBuf
      modifies this`extIdx, this`extPos, this`bufStart, this`bufValid, this`bufPos, inner, sectorBuf, buf
      ensures Valid()
      ensures r.Ok? ==> r.value == ReadLength(total, old(Pos()), buf.Length) && Pos() == old(Pos()) + r.value
      ensures r.Ok? ==> FileHolds(inner.View(), mode, extents, old(Pos()), buf[..r.value])
      ensures r.Ok? ==> forall k :: r.value <= k < buf.Length ==> buf[k] == old(buf[k])
      ensures r.Err? ==> r.error == IsoError.UnexpectedEof
      ensures r.Err? ==>
        extIdx < |extents| && extPos < extents[extIdx].1 && !Holds(inner.View(), mode, extents[extIdx], extPos / 2048)
    {
      hide SectorMode.UserDataPos, Total, FileHolds, Holds;
      ghost var view, start := inner.View(), Pos();
      var written: nat := 0;
      NothingHeld(view, mode, extents, start);
      if buf.Length == 0 {
        return Ok(0);
      }
      while written < buf.Length
        invariant Valid() && written <= buf.Length
        invariant Pos() == start + written
        invariant FileHolds(view, mode, extents, start, buf[..written])
        invariant forall k :: written <= k < buf.Length ==> buf[k] == old(buf[k])
        decreases |extents| - extIdx, buf.Length - written
      {
        if extIdx >= |extents| {
          break;
        }
        var (_, size) := extents[extIdx];
        if extPos >= size {
          TotalStep(extents, extIdx);
          extIdx := extIdx + 1;
          extPos := 0;
          bufStart := NOTHING_CACHED;
          continue;
        }
        var loaded := EnsureBuf();
        if loaded.Err? {
          return Err(loaded.error);
        }
        var available := bufValid - bufPos;
        if available == 0 {
          break;
        }
        var n := CopyBuffered(buf, written, start);
        written := written + n;
      }
      PosInside();
      return Ok(written);
    }

    /** Moves the cursor to the nearest position in the file. */
    method Seek(to: SeekFrom) returns (at: nat)
      requires Valid() && SeekFits(total, Pos(), to)
      modifies this`extIdx, this`extPos, this`bufStart, this`bufValid, this`bufPos
      ensures Valid()
      ensures at == Landing(total, old(Pos()), to) && Pos() == at
    {
      hide SectorMode.UserDataPos, Total, Holds;
      var currentAbs := Total(extents[..extIdx]) + extPos;
      var newAbs := Landing(total, currentAbs, to);
      var remaining: nat := newAbs;
      var newIdx: nat := |extents|;
      var newPos: nat := 0;
      NoneBefore(extents);
      for i := 0 to |extents|
        invariant newIdx == |extents| && newPos == 0
        invariant remaining + Total(extents[..i]) == newAbs
        invariant i == |extents| ==> remaining == 0
      {
        var (_, size) := extents[i];
        TotalStep(extents, i);
        TotalUpTo(extents, i);
        if remaining < size || (remaining == size && i + 1 == |extents|) {
          newIdx := i;
          newPos := remaining;
          break;
        }
        remaining := remaining - size;
        assert extents[..|extents|] == extents;
      }
      extIdx, extPos := newIdx, newPos;
      bufStart, bufValid, bufPos := NOTHING_CACHED, 0, 0;
      return newAbs;
    }
  }
}
