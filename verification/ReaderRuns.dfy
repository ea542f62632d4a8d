/** Whole runs of the streaming reader, and the agreement of the three ways to read a file. */
module ReaderRuns {
  import opened Wrappers
  import opened Bytes
  import opened Streams
  import opened IsoErrors
  import opened Directory
  import opened MultiExtent
  import opened FileContent
  import opened FileReader

  /** One call on a reader, and what the caller sees of it. */
  datatype Call = ReadCall(n: nat) | SeekCall(to: SeekFrom)
  datatype Seen = Got(bytes: seq<u8>) | At(pos: nat)

  /** Where a call leaves a plain cursor at `pos` in `total` bytes. */
  function After(total: nat, pos: nat, call: Call): (p: nat)
    requires pos <= total
    ensures p <= total
  {
    match call
    case ReadCall(n) => Min(pos + n, total)
    case SeekCall(to) => Landing(total, pos, to)
  }

  /** What the caller sees of it. */
  function Sight(bytes: seq<u8>, pos: nat, call: Call): Seen
    requires pos <= |bytes|
  {
    var after := After(|bytes|, pos, call);
    if call.ReadCall? then Got(bytes[pos..after]) else At(after)
  }

  function Replay(bytes: seq<u8>, pos: nat, calls: seq<Call>): seq<Seen>
    requires pos <= |bytes|
    decreases calls
  {
    if |calls| == 0 then []
    else [Sight(bytes, pos, calls[0])] + Replay(bytes, After(|bytes|, pos, calls[0]), calls[1..])
  }

  /** No seek of the run overflows its signed 64-bit sum. */
  predicate SeeksFit(total: nat, pos: nat, calls: seq<Call>)
    requires pos <= total
    decreases calls
  {
    |calls| > 0 ==>
      && (calls[0].SeekCall? ==> SeekFits(total, pos, calls[0].to))
      && SeeksFit(total, After(total, pos, calls[0]), calls[1..])
  }

  lemma SlicesOf(view: seq<u8>, mode: SectorMode, es: seq<Extent>, off: nat, out: seq<u8>, want: nat)
    requires FileHolds(view, mode, es, off, out) && |out| == ReadLength(Total(es), off, want) && off <= Total(es)
    ensures |FileBytes(view, mode, es)| == Total(es)
    ensures out == FileBytes(view, mode, es)[off..Min(off + want, Total(es))]
  {
    hide FileBytes, Total;
    FileLength(view, mode, es);
  }

  method Step(reader: IsoFileReader, call: Call) returns (seen: Seen)
    requires reader.Valid() && AllPresent(reader.inner.View(), reader.mode, reader.extents)
    requires reader.Pos() <= |FileBytes(reader.inner.View(), reader.mode, reader.extents)| == reader.total
    requires call.SeekCall? ==> SeekFits(reader.total, reader.Pos(), call.to)
    modifies reader, reader.inner, reader.sectorBuf
    ensures reader.Valid() && reader.Pos() == After(reader.total, old(reader.Pos()), call)
    ensures seen == Sight(FileBytes(reader.inner.View(), reader.mode, reader.extents), old(reader.Pos()), call)
  {
    hide SectorMode.UserDataPos, Total, FileHolds, Holds, FileBytes, AllPresent, Landing;
    ghost var view, pos := reader.inner.View(), reader.Pos();
    match call {
      case ReadCall(n) =>
        var buf := new u8[n](_ => 0);
        var r := reader.Read(buf);
        if r.Err? {
          SectorMissing(view, reader.mode, reader.extents, reader.extIdx, reader.extPos / 2048);
          assert false;
          return;
        }
        SlicesOf(view, reader.mode, reader.extents, pos, buf[..r.value], n);
        return Got(buf[..r.value]);
      case SeekCall(to) =>
        var at := reader.Seek(to);
        return At(at);
    }
  }

  /** Any run of reads and seeks over an image that holds the file is a run of a plain cursor
      over the file's bytes: extents, sectors and the cache cannot be seen. */
  method Run(reader: IsoFileReader, calls: seq<Call>) returns (seen: seq<Seen>)
    requires reader.Valid() && AllPresent(reader.inner.View(), reader.mode, reader.extents)
    requires reader.Pos() <= reader.total && SeeksFit(reader.total, reader.Pos(), calls)
    modifies reader, reader.inner, reader.sectorBuf
    ensures reader.Valid()
    ensures old(reader.Pos()) <= |FileBytes(reader.inner.View(), reader.mode, reader.extents)|
    ensures seen == Replay(FileBytes(reader.inner.View(), reader.mode, reader.extents), old(reader.Pos()), calls)
  {
    hide SectorMode.UserDataPos, Total, FileHolds, Holds, FileBytes, AllPresent, Landing, Sight, After, SeekFits;
    hide IsoFileReader.CacheCurrent, IsoFileReader.Pos;
    seen := [];
    ghost var bytes := FileBytes(reader.inner.View(), reader.mode, reader.extents);
    ghost var start := reader.Pos();
    LengthIsTotal(reader);
    for i := 0 to |calls|
      invariant reader.Valid() && reader.Pos() <= reader.total
      invariant SeeksFit(reader.total, reader.Pos(), calls[i..])
      invariant seen + Replay(bytes, reader.Pos(), calls[i..]) == Replay(bytes, start, calls)
    {
      assert calls[i..][1..] == calls[i + 1..];
      var s := Step(reader, calls[i]);
      seen := seen + [s];
    }
  }

  lemma LengthIsTotal(reader: IsoFileReader)
    requires reader.Valid()
    ensures |FileBytes(reader.inner.View(), reader.mode, reader.extents)| == reader.total
  {
    FileLength(reader.inner.View(), reader.mode, reader.extents);
  }

  /** Reading to the end in pieces of `chunk` bytes gives the rest of the file. */
  method Drain(reader: IsoFileReader, chunk: nat) returns (r: Result<seq<u8>, IsoError>)
    requires reader.Valid() && chunk > 0
    modifies reader, reader.inner, reader.sectorBuf
    ensures reader.Valid()
    ensures AllPresent(reader.inner.View(), reader.mode, reader.extents) ==> r.Ok?
    ensures r.Ok? ==> old(reader.Pos()) <= |FileBytes(reader.inner.View(), reader.mode, reader.extents)|
    ensures r.Ok? ==> r.value == FileBytes(reader.inner.View(), reader.mode, reader.extents)[old(reader.Pos())..]
  {
    hide SectorMode.UserDataPos, Total, FileHolds, Holds, FileBytes, AllPresent;
    hide IsoFileReader.CacheCurrent, IsoFileReader.Pos;
    var out := [];
    ghost var view := reader.inner.View();
    ghost var bytes := FileBytes(view, reader.mode, reader.extents);
    ghost var start := reader.Pos();
    reader.PosInside();
    FileLength(view, reader.mode, reader.extents);
    while true
      invariant reader.Valid() && start <= reader.Pos() <= |bytes|
      invariant out == bytes[start..reader.Pos()]
      decreases |bytes| - reader.Pos()
    {
      ghost var pos := reader.Pos();
      var buf := new u8[chunk](_ => 0);
      var n := reader.Read(buf);
      if n.Err? {
        SectorMissing(view, reader.mode, reader.extents, reader.extIdx, reader.extPos / 2048);
        return Err(n.error);
      }
      SlicesOf(view, reader.mode, reader.extents, pos, buf[..n.value], chunk);
      reader.PosInside();
      if n.value == 0 {
        return Ok(out);
      }
      out := out + buf[..n.value];
    }
  }

  /** A window over a container shows exactly the bytes it was put over. */
  lemma WindowShows(r: OffsetReader, pre: seq<u8>, img: seq<u8>, post: seq<u8>)
    requires r.container == pre + img + post && r.base == |pre| && r.len == |img|
    ensures r.View() == img
  {
  }

  /** The three readers of a file agree on every image, entry, range and chunk size, with the
      image itself or a window over a container underneath. */
  method ReadersAgree(pre: seq<u8>, img: seq<u8>, post: seq<u8>, mode: SectorMode, entry: DirRecord,
      off: nat, want: nat, chunk: nat)
    returns (whole: Result<seq<u8>, IsoError>, ranged: Result<seq<u8>, IsoError>, drained: Result<seq<u8>, IsoError>)
    requires !entry.IsDir() && Total(Extents(entry)) < 0x1_0000_0000 && chunk > 0
    ensures whole.Ok? <==> AllPresent(img, mode, Extents(entry))
    ensures whole.Ok? ==> whole.value == FileBytes(img, mode, Extents(entry))
    ensures whole.Ok? ==> drained == whole
    ensures whole.Ok? ==> ranged == Ok(if off >= |whole.value| then []
                                       else whole.value[off..Min(off + want, |whole.value|)])
  {
    hide SectorMode.UserDataPos, Total, FileHolds, Holds, FileBytes, AllPresent;
    ghost var es := Extents(entry);
    NoneBefore(es);
    var direct := new OffsetReader(img, 0, |img|);
    WindowShows(direct, [], img, []);
    var iso := new IsoReader(direct, mode);
    whole := iso.ReadFileEntry(entry);

    var window := new OffsetReader(pre + img + post, |pre|, |img|);
    WindowShows(window, pre, img, post);
    var file := new IsoFileReader(window, mode, entry.lba, entry.size, entry.extraExtents);
    drained := Drain(file, chunk);

    var window' := new OffsetReader(pre + img + post, |pre|, |img|);
    WindowShows(window', pre, img, post);
    var iso' := new IsoReader(window', mode);
    var buf := new u8[want](_ => 0);
    var n := iso'.ReadExtents([(entry.lba, entry.size)] + entry.extraExtents, off, buf);
    if n.Err? {
      return whole, Err(n.error), drained;
    }
    ranged := Ok(buf[..n.value]);
    FileLength(img, mode, es);
    if off <= Total(es) {
      SlicesOf(img, mode, es, off, buf[..n.value], want);
    }
  }
}
