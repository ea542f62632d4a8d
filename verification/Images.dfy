/** Disc images as they are written: stored sectors one after the other, and what a reader of logical
    sectors sees of them (core/src/sector.rs, sections 14 and 20 of ECMA-130 for the sector layouts). */
module Images {
  import opened Bytes
  import opened Streams
  import opened FileContent

  /** One sector of an image, by its parts. */
  datatype Stored = Stored(sync: seq<u8>, header: seq<u8>, subheader: seq<u8>, data: seq<u8>,
                           check: seq<u8>, subcode: seq<u8>)
  {
    function Written(): seq<u8> {
      sync + header + subheader + data + check + subcode
    }

    predicate Sizes(s: nat, h: nat, sh: nat, c: nat, sub: nat) {
      |sync| == s && |header| == h && |subheader| == sh && |data| == 2048 && |check| == c && |subcode| == sub
    }

    /** The parts have the sizes the mode gives them. */
    predicate StoredAs(mode: SectorMode) {
      match mode
      case Iso2048 => Sizes(0, 0, 0, 0, 0)
      case Raw2352 => Sizes(12, 4, 0, 288, 0)
      case Raw2352Mode2 => Sizes(12, 4, 8, 280, 0)
      case Raw2448 => Sizes(12, 4, 0, 288, 96)
      case Raw2448Mode2 => Sizes(12, 4, 8, 280, 96)
      case Mode2_2336 => Sizes(0, 0, 8, 280, 0)
    }
  }

  function Image(sectors: seq<Stored>): seq<u8> {
    if |sectors| == 0 then [] else Image(sectors[..|sectors| - 1]) + sectors[|sectors| - 1].Written()
  }

  /** The logical data of the disc: the user data of its sectors in order. */
  function UserData(sectors: seq<Stored>): seq<u8> {
    if |sectors| == 0 then [] else UserData(sectors[..|sectors| - 1]) + sectors[|sectors| - 1].data
  }

  ghost predicate AllStored(sectors: seq<Stored>, mode: SectorMode) {
    forall k :: 0 <= k < |sectors| ==> sectors[k].StoredAs(mode)
  }

  lemma WrittenSector(s: Stored, mode: SectorMode)
    requires s.StoredAs(mode)
    ensures |s.Written()| == mode.PhysicalSectorSize() && mode.DataOffset() + 2048 <= |s.Written()|
    ensures s.Written()[mode.DataOffset()..mode.DataOffset() + 2048] == s.data
  {
    assert s.Written() == (s.sync + s.header + s.subheader) + s.data + (s.check + s.subcode);
  }

  lemma SlicePrefix(a: seq<u8>, b: seq<u8>, i: nat, j: nat)
    requires i <= j <= |a|
    ensures (a + b)[i..j] == a[i..j]
  {
  }

  lemma SliceSuffix(a: seq<u8>, b: seq<u8>, i: nat, j: nat)
    requires i <= j <= |b|
    ensures (a + b)[|a| + i..|a| + j] == b[i..j]
  {
  }

  lemma SliceAt(a: seq<u8>, i: nat, r: nat)
    requires i + 2048 <= |a| && r < 2048
    ensures a[i..i + 2048][r] == a[i + r]
  {
  }

  lemma {:induction false} ImageLength(sectors: seq<Stored>, mode: SectorMode)
    requires AllStored(sectors, mode)
    ensures |Image(sectors)| == |sectors| * mode.PhysicalSectorSize() && |UserData(sectors)| == 2048 * |sectors|
  {
    hide Stored.Written, SectorMode.PhysicalSectorSize, Stored.StoredAs;
    if |sectors| > 0 {
      ImageLength(sectors[..|sectors| - 1], mode);
      WrittenSector(sectors[|sectors| - 1], mode);
      SectorData(sectors[|sectors| - 1], mode);
    }
  }

  lemma SectorData(s: Stored, mode: SectorMode)
    requires s.StoredAs(mode)
    ensures |s.data| == 2048
  {
  }

  /** A logical sector is present exactly when the image has it, and then reading it gives its user data. */
  lemma {:induction false} SectorReadsBack(sectors: seq<Stored>, mode: SectorMode, lba: nat)
    requires AllStored(sectors, mode)
    ensures SectorPresent(Image(sectors), mode, lba) <==> lba < |sectors|
    ensures lba < |sectors| ==>
      Image(sectors)[mode.UserDataPos(lba)..mode.UserDataPos(lba) + 2048] == sectors[lba].data
  {
    ImageLength(sectors, mode);
    PresentIff(mode, |sectors|, lba);
    if lba < |sectors| {
      SectorSlice(sectors, mode, lba);
    }
  }

  lemma PresentIff(mode: SectorMode, n: nat, lba: nat)
    ensures mode.UserDataPos(lba) + 2048 <= n * mode.PhysicalSectorSize() <==> lba < n
  {
  }

  lemma {:induction false} SectorSlice(sectors: seq<Stored>, mode: SectorMode, lba: nat)
    requires AllStored(sectors, mode) && lba < |sectors|
    ensures mode.UserDataPos(lba) + 2048 <= |Image(sectors)|
    ensures Image(sectors)[mode.UserDataPos(lba)..mode.UserDataPos(lba) + 2048] == sectors[lba].data
  {
    hide Stored.Written, Stored.StoredAs, SectorMode.UserDataPos, SectorMode.PhysicalSectorSize, SectorMode.DataOffset;
    var front, last := sectors[..|sectors| - 1], sectors[|sectors| - 1];
    var at, size := mode.UserDataPos(lba), mode.PhysicalSectorSize();
    ImageLength(front, mode);
    WrittenSector(last, mode);
    if lba < |front| {
      SectorSlice(front, mode, lba);
      SlicePrefix(Image(front), last.Written(), at, at + 2048);
    } else {
      PositionOf(mode, lba);
      SliceSuffix(Image(front), last.Written(), mode.DataOffset(), mode.DataOffset() + 2048);
    }
  }

  lemma PositionOf(mode: SectorMode, lba: nat)
    ensures mode.UserDataPos(lba) == lba * mode.PhysicalSectorSize() + mode.DataOffset()
  {
  }

  lemma {:induction false} UserDataAt(sectors: seq<Stored>, mode: SectorMode, k: nat)
    requires AllStored(sectors, mode) && k < |sectors|
    ensures |UserData(sectors)| == 2048 * |sectors|
    ensures UserData(sectors)[2048 * k..2048 * k + 2048] == sectors[k].data
  {
    var front, last := sectors[..|sectors| - 1], sectors[|sectors| - 1];
    ImageLength(sectors, mode);
    hide Stored.Written, Stored.StoredAs, SectorMode.PhysicalSectorSize;
    ImageLength(front, mode);
    SectorData(last, mode);
    if k < |front| {
      UserDataAt(front, mode, k);
      SlicePrefix(UserData(front), last.data, 2048 * k, 2048 * k + 2048);
    } else {
      SliceSuffix(UserData(front), last.data, 0, 2048);
    }
  }

  /** An extent inside the disc is present and is the run of logical data it names. */
  lemma ExtentIsUserData(sectors: seq<Stored>, mode: SectorMode, e: Extent)
    requires AllStored(sectors, mode) && 2048 * e.0 + e.1 <= 2048 * |sectors|
    ensures |UserData(sectors)| == 2048 * |sectors| && ExtentPresent(Image(sectors), mode, e)
    ensures ExtentBytes(Image(sectors), mode, e) == UserData(sectors)[2048 * e.0..2048 * e.0 + e.1]
  {
    ImageLength(sectors, mode);
    hide Stored.StoredAs, Stored.Written, SectorMode.PhysicalSectorSize, Image, UserData, ByteAt;
    forall k: nat | 2048 * k < e.1
      ensures Holds(Image(sectors), mode, e, k)
    {
      SectorReadsBack(sectors, mode, e.0 + k);
    }
    forall i | 0 <= i < e.1
      ensures ExtentBytes(Image(sectors), mode, e)[i] == UserData(sectors)[2048 * e.0 + i]
    {
      ByteIsUserData(sectors, mode, e.0, i);
    }
  }

  lemma ByteIsUserData(sectors: seq<Stored>, mode: SectorMode, lba: nat, off: nat)
    requires AllStored(sectors, mode) && 2048 * lba + off < 2048 * |sectors|
    ensures |UserData(sectors)| == 2048 * |sectors|
    ensures ByteAt(Image(sectors), mode, lba, off) == UserData(sectors)[2048 * lba + off]
  {
    hide *;
    var k, r := lba + off / 2048, off % 2048;
    WholeSectors(lba, off, |sectors|);
    SectorSlice(sectors, mode, k);
    UserDataAt(sectors, mode, k);
    SliceAt(Image(sectors), mode.UserDataPos(k), r);
    SliceAt(UserData(sectors), 2048 * k, r);
    ByteInSector(Image(sectors), mode, lba, off);
  }

  lemma WholeSectors(lba: nat, off: nat, n: nat)
    requires 2048 * lba + off < 2048 * n
    ensures lba + off / 2048 < n && 2048 * (lba + off / 2048) + off % 2048 == 2048 * lba + off
  {
  }

  lemma ByteInSector(view: seq<u8>, mode: SectorMode, lba: nat, off: nat)
    requires mode.UserDataPos(lba + off / 2048) + 2048 <= |view|
    ensures ByteAt(view, mode, lba, off) == view[mode.UserDataPos(lba + off / 2048) + off % 2048]
  {
    hide SectorMode.UserDataPos;
  }

  /** The content of a file grows by the run of logical data each further extent names. */
  lemma {:induction false} FileIsUserData(sectors: seq<Stored>, mode: SectorMode, es: seq<Extent>, e: Extent)
    requires AllStored(sectors, mode) && 2048 * e.0 + e.1 <= 2048 * |sectors|
    ensures FileBytes(Image(sectors), mode, []) == [] && |UserData(sectors)| == 2048 * |sectors|
    ensures FileBytes(Image(sectors), mode, es + [e]) ==
      FileBytes(Image(sectors), mode, es) + UserData(sectors)[2048 * e.0..2048 * e.0 + e.1]
  {
    ExtentIsUserData(sectors, mode, e);
    hide ExtentBytes, Image, UserData, AllStored;
    if |es| == 0 {
      assert (es + [e])[1..] == [];
    } else {
      FileIsUserData(sectors, mode, es[1..], e);
      assert (es + [e])[1..] == es[1..] + [e];
    }
  }
}
