/** The bytes of a file as its extents define them, and the two readers of the library that
    return them directly (core/src/lib.rs, core/src/vfs.rs). */
module FileContent {
  import opened Wrappers
  import opened Bytes
  import opened Streams
  import opened IsoErrors
  import opened Directory
  import opened MultiExtent

  type Extent = (u32, u32)

  // ---- what the content is --------------------------------------------------------

  /** Byte `off` of the extent that starts at sector `lba`. */
  function ByteAt(view: seq<u8>, mode: SectorMode, lba: nat, off: nat): u8 {
    var p := mode.UserDataPos(lba + off / 2048) + off % 2048;
    if p < |view| then view[p] else 0
  }

  function ExtentBytes(view: seq<u8>, mode: SectorMode, e: Extent): (b: seq<u8>)
    ensures |b| == e.1
  {
    seq(e.1, i requires 0 <= i < e.1 => ByteAt(view, mode, e.0, i))
  }

  function FileBytes(view: seq<u8>, mode: SectorMode, es: seq<Extent>): (b: seq<u8>) {
    if |es| == 0 then [] else ExtentBytes(view, mode, es[0]) + FileBytes(view, mode, es[1..])
  }

  function Total(es: seq<Extent>): (t: nat) {
    if |es| == 0 then 0 else es[0].1 + Total(es[1..])
  }

  lemma {:induction false} FileLength(view: seq<u8>, mode: SectorMode, es: seq<Extent>)
    ensures |FileBytes(view, mode, es)| == Total(es)
  {
    if |es| > 0 {
      FileLength(view, mode, es[1..]);
    }
  }

  predicate SectorPresent(view: seq<u8>, mode: SectorMode, lba: nat) {
    mode.UserDataPos(lba) + 2048 <= |view|
  }

  /** The image holds the whole of sector k of the extent. */
  predicate Holds(view: seq<u8>, mode: SectorMode, e: Extent, k: nat) {
    SectorPresent(view, mode, e.0 + k)
  }

  /** The image holds every sector of the extent, the last one in full. */
  ghost predicate ExtentPresent(view: seq<u8>, mode: SectorMode, e: Extent) {
    forall k: nat :: 2048 * k < e.1 ==> Holds(view, mode, e, k)
  }

  ghost predicate AllPresent(view: seq<u8>, mode: SectorMode, es: seq<Extent>) {
    forall i :: 0 <= i < |es| ==> ExtentPresent(view, mode, es[i])
  }

  /** A sector read from the image holds the extent's bytes from its place on. */
  lemma SectorBytes(view: seq<u8>, mode: SectorMode, e: Extent, k: nat, sector: seq<u8>, n: nat)
    requires Holds(view, mode, e, k)
    requires sector == view[mode.UserDataPos(e.0 + k)..mode.UserDataPos(e.0 + k) + 2048]
    requires n <= 2048 && 2048 * k + n <= e.1
    ensures sector[..n] == ExtentBytes(view, mode, e)[2048 * k..2048 * k + n]
  {
    hide SectorMode.UserDataPos;
    forall i | 0 <= i < n
      ensures sector[i] == ExtentBytes(view, mode, e)[2048 * k + i]
    {
      assert (2048 * k + i) / 2048 == k && (2048 * k + i) % 2048 == i;
    }
  }

  lemma PositionFits(mode: SectorMode, lba: nat)
    requires lba < 0x2_0000_0000
    ensures mode.UserDataPos(lba) < 0x8000_0000_0000_0000
  {
  }

  // ---- reading it whole, and by range -----------------------------------------------

  class IsoReader {
    const inner: OffsetReader
    const mode: SectorMode

    constructor (inner: OffsetReader, mode: SectorMode)
      ensures this.inner == inner && this.mode == mode
    {
      this.inner, this.mode := inner, mode;
    }

    /** The 2048 user bytes of a logical sector. */
    method ReadSectorRaw(lba: nat) returns (r: Result<seq<u8>, IsoError>)
      requires inner.Valid() && lba < 0x2_0000_0000
      modifies inner
      ensures inner.Valid()
      ensures r.Ok? <==> SectorPresent(inner.View(), mode, lba)
      ensures r.Ok? ==> |r.value| == 2048
      ensures r.Ok? ==> r.value == inner.View()[mode.UserDataPos(lba)..mode.UserDataPos(lba) + 2048]
      ensures r.Err? ==> r.error == IsoError.UnexpectedEof
    {
      var buf := new u8[2048](_ => 0);
      PositionFits(mode, lba);
      var read := inner.ReadSectorData(mode, lba, buf);
      return if read.Err? then Err(IsoError.UnexpectedEof) else Ok(buf[..]);
    }

    /** Appends the bytes of one extent, sector by sector. */
    method AppendExtent(e: Extent, out: seq<u8>) returns (r: Result<seq<u8>, IsoError>)
      requires inner.Valid()
      modifies inner
      ensures inner.Valid()
      ensures r.Ok? <==> ExtentPresent(inner.View(), mode, e)
      ensures r.Ok? ==> r.value == out + ExtentBytes(inner.View(), mode, e)
      ensures r.Err? ==> r.error == IsoError.UnexpectedEof
    {
      hide ByteAt, ExtentBytes, SectorMode.UserDataPos;
      var (lba, size) := e;
      var sectors := (size + 2047) / 2048;
      var data := out;
      ghost var view, bytes := inner.View(), ExtentBytes(inner.View(), mode, e);
      for i := 0 to sectors
        invariant inner.Valid()
        invariant forall k: nat :: k < i ==> Holds(view, mode, e, k)
        invariant data == out + bytes[..Min(2048 * i, size)]
      {
        var offset := i * 2048;
        var end := Min(offset + 2048, size);
        var sector := ReadSectorRaw(lba + i);
        if sector.Err? {
          assert !Holds(view, mode, e, i);
          return Err(IsoError.UnexpectedEof);
        }
        SectorBytes(view, mode, e, i, sector.value, end - offset);
        Grow(out, bytes, offset, end);
        data := data + sector.value[..end - offset];
      }
      return Ok(data);
    }

    /** The whole content of a file entry; a directory is refused. */
    method ReadFileEntry(entry: DirRecord) returns (r: Result<seq<u8>, IsoError>)
      requires inner.Valid()
      modifies inner
      ensures inner.Valid()
      ensures entry.IsDir() ==> r == Err(NotFound)
      ensures !entry.IsDir() && AllPresent(inner.View(), mode, Extents(entry)) ==>
        r == Ok(FileBytes(inner.View(), mode, Extents(entry)))
      ensures !entry.IsDir() && !AllPresent(inner.View(), mode, Extents(entry)) ==> r == Err(IsoError.UnexpectedEof)
    {
      hide ExtentBytes;
      if entry.IsDir() {
        return Err(NotFound);
      }
      ghost var view, es := inner.View(), Extents(entry);
      r := AppendExtent((entry.lba, entry.size), []);
      if r.Err? {
        assert !ExtentPresent(view, mode, es[0]);
        return;
      }
      var data := r.value;
      FileBytesStep(view, mode, es, 0);
      for i := 0 to |entry.extraExtents|
        invariant inner.Valid()
        invariant forall k :: 0 <= k < i + 1 ==> ExtentPresent(view, mode, es[k])
        invariant data == FileBytes(view, mode, es[..i + 1])
      {
        r := AppendExtent(entry.extraExtents[i], data);
        if r.Err? {
          assert !ExtentPresent(view, mode, es[i + 1]);
          return;
        }
        data := r.value;
        FileBytesStep(view, mode, es, i + 1);
      }
      assert es[..|es|] == es;
      return Ok(data);
    }

    /** The bytes of a file from `off` on, as many as the buffer takes: its first `done` bytes. */
    method ReadExtents(es: seq<Extent>, off: nat, buf: array<u8>) returns (r: Result<nat, IsoError>)
      requires inner.Valid()
      modifies inner, buf
      ensures inner.Valid()
      ensures r.Ok? ==> r.value == ReadLength(Total(es), off, buf.Length)
      ensures r.Ok? ==> r.value <= buf.Length && FileHolds(inner.View(), mode, es, off, buf[..r.value])
      ensures r.Ok? ==> forall k :: r.value <= k < buf.Length ==> buf[k] == old(buf[k])
      ensures r.Ok? <==> RangePresent(inner.View(), mode, es, off, buf.Length)
      ensures AllPresent(inner.View(), mode, es) ==> r.Ok?
      ensures r.Err? ==> r.error == IsoError.UnexpectedEof
    {
      hide ByteAt, ExtentBytes, FileBytes, SectorMode.UserDataPos, FileHolds, ExtentPresent, RangePresent, Total;
      var want := buf.Length;
      var done: nat := 0;
      var cursor: nat := off;
      ghost var view := inner.View();
      NothingHeld(view, mode, es, off);
      NoneBefore(es);
      for i := 0 to |es|
        invariant inner.Valid() && done <= want
        invariant cursor > 0 ==> done == 0
        invariant Total(es[..i]) + cursor == off + done
        invariant FileHolds(view, mode, es, off, buf[..done])
        invariant RangePresent(view, mode, es, off, done)
        invariant forall k :: done <= k < want ==> buf[k] == old(buf[k])
      {
        var (lba, size) := es[i];
        TotalStep(es, i);
        if cursor >= size {
          cursor := cursor - size;
          continue;
        }
        var pos: nat := cursor;
        cursor := 0;
        while pos < size && done < want
          invariant inner.Valid() && done <= want && pos <= size
          invariant Total(es[..i]) + pos == off + done
          invariant FileHolds(view, mode, es, off, buf[..done])
          invariant RangePresent(view, mode, es, off, done)
          invariant forall k :: done <= k < want ==> buf[k] == old(buf[k])
        {
          var sectorIdx, within := pos / 2048, pos % 2048;
          var sector := ReadSectorRaw(lba + sectorIdx);
          if sector.Err? {
            RangeMissing(view, mode, es, off, want, i, pos);
            return Err(IsoError.UnexpectedEof);
          }
          var n := Min(Min(size - 2048 * sectorIdx, 2048) - within, want - done);
          HeldFurther(view, mode, es, off, buf[..done], i, pos, sector.value, n);
          RangeGrows(view, mode, es, off, done, i, pos, n);
          Paste(buf, done, sector.value[within..within + n]);
          done := done + n;
          pos := pos + n;
        }
        if done >= want {
          HeldInside(view, mode, es, off, buf[..done]);
          return Ok(done);
        }
      }
      assert es[..|es|] == es;
      RangeEnds(view, mode, es, off, done, want);
      return Ok(done);
    }
  }

  /** Copies `src` into the buffer at `at`. */
  method Paste(buf: array<u8>, at: nat, src: seq<u8>)
    requires at + |src| <= buf.Length
    modifies buf
    ensures buf[..at + |src|] == old(buf[..at]) + src
    ensures forall k :: at + |src| <= k < buf.Length ==> buf[k] == old(buf[k])
  {
    forall k | at <= k < at + |src| {
      buf[k] := src[k - at];
    }
  }

  /** How many bytes a read of `want` bytes at `off` gives in a file of `total` bytes. */
  function ReadLength(total: nat, off: nat, want: nat): nat {
    if off >= total then 0 else Min(want, total - off)
  }

  /** The place in the file of byte j of extent i. */
  function Place(es: seq<Extent>, i: nat, j: nat): nat
    requires i < |es|
  {
    Total(es[..i]) + j
  }

  /** The image holds the sector of byte j of extent i. */
  predicate ByteHeld(view: seq<u8>, mode: SectorMode, es: seq<Extent>, i: nat, j: nat)
    requires i < |es|
  {
    Holds(view, mode, es[i], j / 2048)
  }

  /** The image holds the sectors of all bytes of the file that lie in the range of n from `off` on. */
  ghost predicate RangePresent(view: seq<u8>, mode: SectorMode, es: seq<Extent>, off: nat, n: nat) {
    forall i: nat, j: nat :: i < |es| && j < es[i].1 && off <= Place(es, i, j) < off + n ==>
      ByteHeld(view, mode, es, i, j)
  }

  lemma NoneBefore(es: seq<Extent>)
    ensures Total(es[..0]) == 0
  {
  }

  lemma {:induction false} TotalMonotone(es: seq<Extent>, a: nat, b: nat)
    requires a <= b <= |es|
    ensures Total(es[..a]) <= Total(es[..b])
    decreases b
  {
    hide Total;
    if a < b {
      TotalMonotone(es, a, b - 1);
      TotalStep(es, b - 1);
    }
  }

  /** Each place in the file is that of one byte of one extent. */
  lemma OnePlace(es: seq<Extent>, i: nat, j: nat, i': nat, j': nat)
    requires i < |es| && j < es[i].1 && i' < |es| && j' < es[i'].1
    requires Place(es, i, j) == Place(es, i', j')
    ensures i == i' && j == j'
  {
    hide Total;
    if i < i' {
      TotalStep(es, i);
      TotalMonotone(es, i + 1, i');
    } else if i' < i {
      TotalStep(es, i');
      TotalMonotone(es, i' + 1, i);
    }
  }

  lemma RangeMissing(view: seq<u8>, mode: SectorMode, es: seq<Extent>, off: nat, n: nat, i: nat, pos: nat)
    requires i < |es| && pos < es[i].1 && !Holds(view, mode, es[i], pos / 2048)
    requires off <= Total(es[..i]) + pos < off + n
    ensures !RangePresent(view, mode, es, off, n) && !AllPresent(view, mode, es)
  {
    hide Total, SectorMode.UserDataPos;
    assert off <= Place(es, i, pos) < off + n && !ByteHeld(view, mode, es, i, pos);
    SectorMissing(view, mode, es, i, pos / 2048);
  }

  lemma RangeGrows(view: seq<u8>, mode: SectorMode, es: seq<Extent>, off: nat, done: nat, i: nat, pos: nat, n: nat)
    requires RangePresent(view, mode, es, off, done)
    requires i < |es| && pos + n <= es[i].1 && pos % 2048 + n <= 2048
    requires Total(es[..i]) + pos == off + done
    requires Holds(view, mode, es[i], pos / 2048)
    ensures RangePresent(view, mode, es, off, done + n)
  {
    hide Total, SectorMode.UserDataPos, Holds;
    forall i': nat, j: nat | i' < |es| && j < es[i'].1 && off <= Place(es, i', j) < off + done + n
      ensures ByteHeld(view, mode, es, i', j)
    {
      if Place(es, i', j) >= off + done {
        var t := Place(es, i', j) - (off + done);
        OnePlace(es, i', j, i, pos + t);
        assert (pos + t) / 2048 == pos / 2048;
      }
    }
  }

  /** A range that is present up to `done` bytes is present as a whole, if it ends there or the file does. */
  lemma RangeEnds(view: seq<u8>, mode: SectorMode, es: seq<Extent>, off: nat, done: nat, want: nat)
    requires RangePresent(view, mode, es, off, done)
    requires done >= want || Total(es) <= off + done
    ensures RangePresent(view, mode, es, off, want)
  {
    hide Total, Holds;
    forall i: nat, j: nat | i < |es| && j < es[i].1 && off <= Place(es, i, j) < off + want
      ensures ByteHeld(view, mode, es, i, j)
    {
      TotalUpTo(es, i);
    }
  }

  /** `out` is the file's bytes from `off` on. */
  ghost predicate FileHolds(view: seq<u8>, mode: SectorMode, es: seq<Extent>, off: nat, out: seq<u8>) {
    && (|out| > 0 ==> off + |out| <= |FileBytes(view, mode, es)|)
    && forall k :: 0 <= k < |out| ==> out[k] == FileBytes(view, mode, es)[off + k]
  }

  lemma NothingHeld(view: seq<u8>, mode: SectorMode, es: seq<Extent>, off: nat)
    ensures FileHolds(view, mode, es, off, []) && RangePresent(view, mode, es, off, 0)
  {
  }

  lemma HeldInside(view: seq<u8>, mode: SectorMode, es: seq<Extent>, off: nat, out: seq<u8>)
    requires FileHolds(view, mode, es, off, out)
    ensures |out| > 0 ==> off + |out| <= Total(es)
  {
    hide FileBytes, Total;
    FileLength(view, mode, es);
  }

  /** A piece of the sector that holds the next byte continues the file. */
  lemma HeldFurther(view: seq<u8>, mode: SectorMode, es: seq<Extent>, off: nat, out: seq<u8>,
      i: nat, pos: nat, sector: seq<u8>, n: nat)
    requires FileHolds(view, mode, es, off, out)
    requires i < |es| && pos + n <= es[i].1 && pos % 2048 + n <= 2048
    requires Total(es[..i]) + pos == off + |out|
    requires Holds(view, mode, es[i], pos / 2048) && |sector| == 2048
    requires sector == view[mode.UserDataPos(es[i].0 + pos / 2048)..mode.UserDataPos(es[i].0 + pos / 2048) + 2048]
    ensures FileHolds(view, mode, es, off, out + sector[pos % 2048..pos % 2048 + n])
  {
    hide FileBytes, Total, ByteAt, ExtentBytes, SectorMode.UserDataPos;
    FileLength(view, mode, es);
    if n > 0 {
      TotalUpTo(es, i);
    }
    var next := out + sector[pos % 2048..pos % 2048 + n];
    forall k | 0 <= k < |next|
      ensures off + k < |FileBytes(view, mode, es)| && next[k] == FileBytes(view, mode, es)[off + k]
    {
      if k >= |out| {
        ByteOfFile(view, mode, es, i, pos + (k - |out|));
        ByteOfSector(view, mode, es[i], pos, k - |out|, sector);
      }
    }
  }

  /** A byte of an extent is found in the file after the bytes of the extents before it. */
  lemma ByteOfFile(view: seq<u8>, mode: SectorMode, es: seq<Extent>, i: nat, j: nat)
    requires i < |es| && j < es[i].1
    ensures Total(es[..i]) + j < |FileBytes(view, mode, es)|
    ensures FileBytes(view, mode, es)[Total(es[..i]) + j] == ByteAt(view, mode, es[i].0, j)
  {
    hide FileBytes, Total, ByteAt;
    FileBytesStep(view, mode, es, i);
    FileBytesAppend(view, mode, es[..i + 1], es[i + 1..]);
    FileLength(view, mode, es[..i]);
    assert es == es[..i + 1] + es[i + 1..];
  }

  lemma ByteOfSector(view: seq<u8>, mode: SectorMode, e: Extent, pos: nat, j: nat, sector: seq<u8>)
    requires pos % 2048 + j < 2048
    requires Holds(view, mode, e, pos / 2048)
    requires sector == view[mode.UserDataPos(e.0 + pos / 2048)..mode.UserDataPos(e.0 + pos / 2048) + 2048]
    ensures sector[pos % 2048 + j] == ByteAt(view, mode, e.0, pos + j)
  {
    hide SectorMode.UserDataPos;
    assert (pos + j) / 2048 == pos / 2048 && (pos + j) % 2048 == pos % 2048 + j;
  }

  lemma SectorMissing(view: seq<u8>, mode: SectorMode, es: seq<Extent>, i: nat, k: nat)
    requires i < |es| && 2048 * k < es[i].1 && !Holds(view, mode, es[i], k)
    ensures !AllPresent(view, mode, es)
  {
    assert !ExtentPresent(view, mode, es[i]);
  }

  lemma TotalStep(es: seq<Extent>, i: nat)
    requires i < |es|
    ensures Total(es[..i + 1]) == Total(es[..i]) + es[i].1
  {
    TotalAppend(es[..i], [es[i]]);
    assert es[..i + 1] == es[..i] + [es[i]];
  }

  lemma TotalUpTo(es: seq<Extent>, i: nat)
    requires i < |es|
    ensures Total(es[..i]) + es[i].1 <= Total(es)
  {
    TotalStep(es, i);
    TotalAppend(es[..i + 1], es[i + 1..]);
    assert es == es[..i + 1] + es[i + 1..];
  }

  lemma FileBytesStep(view: seq<u8>, mode: SectorMode, es: seq<Extent>, i: nat)
    requires i < |es|
    ensures FileBytes(view, mode, es[..i + 1]) == FileBytes(view, mode, es[..i]) + ExtentBytes(view, mode, es[i])
  {
    hide ExtentBytes;
    FileBytesAppend(view, mode, es[..i], [es[i]]);
    assert es[..i + 1] == es[..i] + [es[i]];
    assert FileBytes(view, mode, [es[i]]) == ExtentBytes(view, mode, es[i]);
  }

  lemma {:induction false} FileBytesAppend(view: seq<u8>, mode: SectorMode, es: seq<Extent>, fs: seq<Extent>)
    ensures FileBytes(view, mode, es + fs) == FileBytes(view, mode, es) + FileBytes(view, mode, fs)
  {
    hide ExtentBytes;
    if |es| == 0 {
      assert es + fs == fs;
    } else {
      FileBytesAppend(view, mode, es[1..], fs);
      assert (es + fs)[1..] == es[1..] + fs;
      Joined(ExtentBytes(view, mode, es[0]), FileBytes(view, mode, es[1..]), FileBytes(view, mode, fs));
    }
  }

  lemma Joined(a: seq<u8>, b: seq<u8>, c: seq<u8>)
    ensures a + (b + c) == a + b + c
  {
  }

  lemma {:induction false} TotalAppend(es: seq<Extent>, fs: seq<Extent>)
    ensures Total(es + fs) == Total(es) + Total(fs)
  {
    if |es| == 0 {
      assert es + fs == fs;
    } else {
      TotalAppend(es[1..], fs);
      assert (es + fs)[1..] == es[1..] + fs;
    }
  }

  lemma Grow(out: seq<u8>, bytes: seq<u8>, offset: nat, end: nat)
    requires offset <= end <= |bytes|
    ensures out + bytes[..offset] + bytes[offset..end] == out + bytes[..end]
  {
  }
}
