/** Reading one directory from an image (core/src/lib.rs): its extent, the records in it, the
    System Use padding, continuation areas and multi-extent chains. */
module ReadDirectory {
  import opened Wrappers
  import opened Bytes
  import opened Streams
  import opened IsoErrors
  import opened Names
  import NameCap
  import RockRidge
  import SystemUse
  import opened Directory
  import opened MultiExtent
  import opened FileContent

  const MAX_DIR_SIZE: u32 := 64 * 1024 * 1024

  /** The user data of the image's sectors. */
  function Sectors(view: seq<u8>, mode: SectorMode): nat -> Option<seq<u8>> {
    (lba: nat) => SectorAt(view, mode, lba)
  }

  function SectorAt(view: seq<u8>, mode: SectorMode, lba: nat): (s: Option<seq<u8>>)
    ensures s.Some? ==> |s.value| == 2048
  {
    if SectorPresent(view, mode, lba) then Some(view[mode.UserDataPos(lba)..mode.UserDataPos(lba) + 2048]) else None
  }

  /** The record without the bytes that stand before its System Use entries. */
  function Trimmed(rec: DirRecord, skip: nat): DirRecord {
    rec.(systemUse := rec.systemUse[Min(skip, |rec.systemUse|)..])
  }

  function TrimAll(recs: seq<DirRecord>, skip: nat): (t: seq<DirRecord>)
    ensures |t| == |recs|
  {
    seq(|recs|, i requires 0 <= i < |recs| => Trimmed(recs[i], skip))
  }

  /** Every record with its continuation area appended. */
  function FollowAll(view: seq<u8>, mode: SectorMode, recs: seq<DirRecord>): Result<seq<DirRecord>, IsoError> {
    if |recs| == 0 then Ok([])
    else match RockRidge.Followed(recs[0].systemUse, Sectors(view, mode))
      case Err(e) => Err(e)
      case Ok(su) => Prepend([recs[0].(systemUse := su)], FollowAll(view, mode, recs[1..]))
  }

  function FollowedAndMerged(view: seq<u8>, mode: SectorMode, recs: seq<DirRecord>): Result<seq<DirRecord>, IsoError> {
    match FollowAll(view, mode, recs)
    case Err(e) => Err(e)
    case Ok(followed) => Ok(Merged(followed))
  }

  /** The scan of the directory's extent ends. */
  ghost predicate Scannable(view: seq<u8>, mode: SectorMode, lba: u32, size: u32) {
    size <= MAX_DIR_SIZE && ExtentPresent(view, mode, (lba, size)) ==> Advances(ExtentBytes(view, mode, (lba, size)), 0)
  }

  /** What reading the directory gives. */
  ghost function Listing(view: seq<u8>, mode: SectorMode, skip: nat, lba: u32, size: u32)
    : Result<seq<DirRecord>, IsoError>
    requires Scannable(view, mode, lba, size)
  {
    if size > MAX_DIR_SIZE then Err(ResourceLimit)
    else if !ExtentPresent(view, mode, (lba, size)) then Err(IsoError.UnexpectedEof)
    else match RecordsFrom(ExtentBytes(view, mode, (lba, size)), 0)
      case Err(e) => Err(e)
      case Ok(recs) => FollowedAndMerged(view, mode, TrimAll(recs, skip))
  }

  method ReadExtent(reader: IsoReader, lba: u32, size: u32) returns (r: Result<seq<u8>, IsoError>)
    requires reader.inner.Valid()
    modifies reader.inner
    ensures reader.inner.Valid()
    ensures r.Ok? <==> ExtentPresent(reader.inner.View(), reader.mode, (lba, size))
    ensures r.Ok? ==> r.value == ExtentBytes(reader.inner.View(), reader.mode, (lba, size))
    ensures r.Err? ==> r.error == IsoError.UnexpectedEof
  {
    hide ByteAt, ExtentBytes, SectorMode.UserDataPos;
    var data := new u8[size](_ => 0);
    var sectors := (size + 2047) / 2048;
    ghost var view, bytes := reader.inner.View(), ExtentBytes(reader.inner.View(), reader.mode, (lba, size));
    for i := 0 to sectors
      invariant reader.inner.Valid()
      invariant forall k: nat :: k < i ==> Holds(view, reader.mode, (lba, size), k)
      invariant data[..Min(2048 * i, size)] == bytes[..Min(2048 * i, size)]
    {
      var offset := i * 2048;
      var end := Min(offset + 2048, size);
      var sector := reader.ReadSectorRaw(lba + i);
      if sector.Err? {
        assert !Holds(view, reader.mode, (lba, size), i);
        return Err(IsoError.UnexpectedEof);
      }
      SectorBytes(view, reader.mode, (lba, size), i, sector.value, end - offset);
      assert bytes[..end] == bytes[..offset] + bytes[offset..end];
      Paste(data, offset, sector.value[..end - offset]);
    }
    return Ok(data[..]);
  }

  method SkipPadding(records: seq<DirRecord>, skip: nat) returns (trimmed: seq<DirRecord>)
    ensures trimmed == TrimAll(records, skip)
  {
    trimmed := records;
    if skip > 0 {
      for i := 0 to |records|
        invariant |trimmed| == |records|
        invariant forall k :: 0 <= k < i ==> trimmed[k] == Trimmed(records[k], skip)
        invariant forall k :: i <= k < |records| ==> trimmed[k] == records[k]
      {
        trimmed := trimmed[i := Trimmed(trimmed[i], skip)];
      }
    } else {
      forall i | 0 <= i < |records|
        ensures Trimmed(records[i], 0) == records[i]
      {
        assert records[i].systemUse[0..] == records[i].systemUse;
      }
    }
  }

  method FollowContinuations(reader: IsoReader, records: seq<DirRecord>) returns (r: Result<seq<DirRecord>, IsoError>)
    requires reader.inner.Valid()
    modifies reader.inner
    ensures reader.inner.Valid()
    ensures r == FollowAll(reader.inner.View(), reader.mode, records)
  {
    hide SectorMode.UserDataPos, RockRidge.ContinuationAt, FollowAll;
    var out: seq<DirRecord> := [];
    ghost var view := reader.inner.View();
    PrependNone(FollowAll(view, reader.mode, records));
    for i := 0 to |records|
      invariant reader.inner.Valid()
      invariant Prepend(out, FollowAll(view, reader.mode, records[i..])) == FollowAll(view, reader.mode, records)
    {
      var rec := records[i];
      FollowStep(view, reader.mode, records, i);
      var ce := RockRidge.Continuation(rec.systemUse);
      if ce.Some? {
        var start := ce.value.offset;
        var end := start + ce.value.len;
        if end <= 2048 {
          var sector := reader.ReadSectorRaw(ce.value.lba);
          if sector.Err? {
            return Err(IsoError.UnexpectedEof);
          }
          rec := rec.(systemUse := rec.systemUse + sector.value[start..end]);
        }
      }
      assert Ok(rec.systemUse) == RockRidge.Followed(records[i].systemUse, Sectors(view, reader.mode));
      PrependMore(out, [rec], FollowAll(view, reader.mode, records[i + 1..]));
      out := out + [rec];
    }
    FollowNone(view, reader.mode, records[|records|..]);
    assert out + [] == out;
    return Ok(out);
  }

  lemma FollowStep(view: seq<u8>, mode: SectorMode, recs: seq<DirRecord>, i: nat)
    requires i < |recs|
    ensures FollowAll(view, mode, recs[i..]) ==
      match RockRidge.Followed(recs[i].systemUse, Sectors(view, mode))
      case Err(e) => Err(e)
      case Ok(su) => Prepend([recs[i].(systemUse := su)], FollowAll(view, mode, recs[i + 1..]))
  {
    assert recs[i..][1..] == recs[i + 1..];
  }

  lemma FollowNone(view: seq<u8>, mode: SectorMode, recs: seq<DirRecord>)
    requires |recs| == 0
    ensures FollowAll(view, mode, recs) == Ok([])
  {
  }

  /** Reads a directory.  It is the one function of the image, the extent and the size that
      walks and lookups rest on. */
  method ReadDir(reader: IsoReader, skip: nat, lba: u32, size: u32) returns (r: Result<seq<DirRecord>, IsoError>)
    requires reader.inner.Valid() && Scannable(reader.inner.View(), reader.mode, lba, size)
    modifies reader.inner
    ensures reader.inner.Valid()
    ensures r == Listing(reader.inner.View(), reader.mode, skip, lba, size)
  {
    hide ExtentBytes, RecordsFrom, Advances, FollowAll, Merged, ExtentPresent;
    if size > MAX_DIR_SIZE {
      return Err(ResourceLimit);
    }
    var data := ReadExtent(reader, lba, size);
    if data.Err? {
      return Err(data.error);
    }
    var parsed := ParseDirRecords(data.value);
    if parsed.Err? {
      return Err(parsed.error);
    }
    var trimmed := SkipPadding(parsed.value, skip);
    var followed := FollowContinuations(reader, trimmed);
    if followed.Err? {
      return Err(followed.error);
    }
    var merged := MergeExtents(followed.value);
    return Ok(merged);
  }

  // ---- names can be decoded from every record read -----------------------------------------------

  lemma {:induction false} FollowedShort(view: seq<u8>, mode: SectorMode, recs: seq<DirRecord>, n: nat)
    requires forall i :: 0 <= i < |recs| ==> |recs[i].systemUse| <= n
    requires FollowAll(view, mode, recs).Ok?
    ensures forall rec :: rec in FollowAll(view, mode, recs).value ==> |rec.systemUse| <= n + 2048
  {
    hide RockRidge.ContinuationAt, SectorMode.UserDataPos;
    if |recs| > 0 {
      RockRidge.FollowingAppends(recs[0].systemUse, Sectors(view, mode));
      FollowedShort(view, mode, recs[1..], n);
    }
  }

  /** No record of a directory has more than 2270 bytes of System Use entries, so the cap on names
      is not reached and no name makes the decoding panic. */
  lemma ListedNamesReturn(view: seq<u8>, mode: SectorMode, skip: nat, lba: u32, size: u32, rec: DirRecord)
    requires Scannable(view, mode, lba, size) && Listing(view, mode, skip, lba, size).Ok?
    requires rec in Listing(view, mode, skip, lba, size).value
    ensures |rec.systemUse| <= 2270 && RockRidge.AlternateName(rec.systemUse).Returned?
  {
    hide ExtentBytes, RecordsFrom, Advances, FollowAll, ExtentPresent, RockRidge.AlternateName;
    var data := ExtentBytes(view, mode, (lba, size));
    var recs := RecordsFrom(data, 0).value;
    RecordsShort(data, 0);
    var trimmed := TrimAll(recs, skip);
    forall i | 0 <= i < |trimmed|
      ensures |trimmed[i].systemUse| <= 222
    {
      assert recs[i] in recs;
    }
    FollowedShort(view, mode, trimmed, 222);
    var followed := FollowAll(view, mode, trimmed).value;
    MergeKeepsUse(followed, 0);
    var k :| 0 <= k < |followed| && followed[k].systemUse == rec.systemUse;
    assert followed[k] in followed;
    NameCap.ShortNeverPanics(rec.systemUse);
  }

  // ---- a directory written is the directory read ---------------------------------------------------

  /** The System Use entries of a record: those it stores and those of its continuation area. */
  datatype Use = Use(stored: seq<seq<u8>>, area: seq<seq<u8>>)

  predicate NoCe(es: seq<seq<u8>>)
    requires RockRidge.AllEntries(es)
  {
    forall i :: 0 <= i < |es| ==> !RockRidge.IsCe(es[i])
  }

  /** The first CE entry stored, number k, points at the area. */
  predicate PointsAt(view: seq<u8>, mode: SectorMode, use: Use, k: nat, ce: RockRidge.ContinuationArea,
      be: seq<seq<u8>>)
    requires RockRidge.AllEntries(use.stored)
  {
    && |be| == 3 && |be[0]| == 4 && |be[1]| == 4 && |be[2]| == 4
    && k < |use.stored| && use.stored[k] == RockRidge.CeEntry(ce, be) && NoCe(use.stored[..k])
    && ce.offset + ce.len <= 2048
    && SectorAt(view, mode, ce.lba).Some?
    && SectorAt(view, mode, ce.lba).value[ce.offset..ce.offset + ce.len] == RockRidge.Concat(use.area)
  }

  /** The record stores the entries after `skip` bytes, and has either no continuation or one whose
      area the image holds. */
  ghost predicate Written(view: seq<u8>, mode: SectorMode, skip: nat, rec: DirRecord, use: Use) {
    && RockRidge.AllEntries(use.stored) && RockRidge.AllEntries(use.area)
    && rec.systemUse[Min(skip, |rec.systemUse|)..] == RockRidge.Concat(use.stored)
    && ((NoCe(use.stored) && use.area == []) || exists k: nat, ce, be :: PointsAt(view, mode, use, k, ce, be))
  }

  ghost predicate AllWritten(view: seq<u8>, mode: SectorMode, skip: nat, recs: seq<DirRecord>, uses: seq<Use>) {
    |uses| == |recs| && forall i :: 0 <= i < |recs| ==> Written(view, mode, skip, recs[i], uses[i])
  }

  /** The records with all their entries. */
  function Joined(recs: seq<DirRecord>, uses: seq<Use>): (js: seq<DirRecord>)
    requires |uses| == |recs|
    ensures |js| == |recs|
  {
    seq(|recs|, i requires 0 <= i < |recs| =>
      recs[i].(systemUse := RockRidge.Concat(uses[i].stored + uses[i].area)))
  }

  lemma {:induction false} NoCeFound(su: seq<u8>, off: nat, es: seq<seq<u8>>)
    requires off <= |su| && RockRidge.AllEntries(es) && su[off..] == RockRidge.Concat(es) && NoCe(es)
    ensures RockRidge.ContinuationAt(su, off).None?
    decreases |es|
  {
    hide RockRidge.ContinuationAt;
    if |es| > 0 {
      RockRidge.TiledStep(su, off, es);
      RockRidge.CeStep(su, off, es[0]);
      NoCeFound(su, off + |es[0]|, es[1..]);
    } else {
      NothingAtEnd(su, off);
    }
  }

  lemma NothingAtEnd(su: seq<u8>, off: nat)
    requires off <= |su| && su[off..] == []
    ensures RockRidge.ContinuationAt(su, off).None?
  {
    assert |su[off..]| == |su| - off;
  }

  lemma WrittenIsFollowed(view: seq<u8>, mode: SectorMode, skip: nat, rec: DirRecord, use: Use)
    requires Written(view, mode, skip, rec, use)
    ensures RockRidge.Followed(Trimmed(rec, skip).systemUse, Sectors(view, mode)) ==
      Ok(RockRidge.Concat(use.stored + use.area))
  {
    hide SectorMode.UserDataPos, RockRidge.Concat, RockRidge.CeEntry, RockRidge.ContinuationAt;
    var su := RockRidge.Concat(use.stored);
    if k: nat, ce, be :| PointsAt(view, mode, use, k, ce, be) {
      forall i | 0 <= i < k
        ensures !RockRidge.IsCe(use.stored[i])
      {
        assert use.stored[..k][i] == use.stored[i];
      }
      RockRidge.ContinuedAreaReadsOn(use.stored, use.area, k, ce, be, Sectors(view, mode));
    } else {
      assert su[0..] == su && use.stored + use.area == use.stored;
      NoCeFound(su, 0, use.stored);
    }
  }

  lemma {:induction false} WrittenAreFollowed(view: seq<u8>, mode: SectorMode, skip: nat, recs: seq<DirRecord>,
      uses: seq<Use>)
    requires AllWritten(view, mode, skip, recs, uses)
    ensures FollowAll(view, mode, TrimAll(recs, skip)) == Ok(Joined(recs, uses))
  {
    hide Written, RockRidge.Followed;
    if |recs| > 0 {
      assert Written(view, mode, skip, recs[0], uses[0]);
      WrittenIsFollowed(view, mode, skip, recs[0], uses[0]);
      assert TrimAll(recs, skip)[1..] == TrimAll(recs[1..], skip);
      WrittenAreFollowed(view, mode, skip, recs[1..], uses[1..]);
      assert Joined(recs, uses) == [Joined(recs, uses)[0]] + Joined(recs[1..], uses[1..]);
    }
  }

  lemma {:induction false} JoinedExtents(recs: seq<DirRecord>, uses: seq<Use>)
    requires |uses| == |recs|
    ensures AllExtents(Joined(recs, uses)) == AllExtents(recs)
  {
    if |recs| > 0 {
      JoinedExtents(recs[1..], uses[1..]);
      assert Joined(recs, uses)[1..] == Joined(recs[1..], uses[1..]);
    }
  }

  /** An image that holds packed records at a directory's extent, with System Use entries after the
      padding and in continuation areas, lists those records with all their entries and their
      multi-extent chains merged: no record and no extent is lost or added. */
  lemma PackedDirectoryIsListed(view: seq<u8>, mode: SectorMode, skip: nat, lba: u32, size: u32,
      layout: seq<seq<RawRecord>>, uses: seq<Use>)
    requires size <= MAX_DIR_SIZE && ExtentPresent(view, mode, (lba, size))
    requires FitsSectors(layout) && ExtentBytes(view, mode, (lba, size)) == Pack(layout)
    requires AllWritten(view, mode, skip, AllListed(layout), uses)
    ensures Scannable(view, mode, lba, size)
    ensures var joined := Joined(AllListed(layout), uses);
      && Listing(view, mode, skip, lba, size) == Ok(Merged(joined))
      && AllExtents(Merged(joined)) == AllExtents(AllListed(layout))
      && (NoChain(AllListed(layout)) ==> Merged(joined) == joined)
  {
    hide ExtentBytes, RecordsFrom, Advances, FollowAll, Merged, ExtentPresent, Pack, AllListed, AllExtents, Written;
    var recs := AllListed(layout);
    var joined := Joined(recs, uses);
    PackedRoundTrip(layout);
    WrittenAreFollowed(view, mode, skip, recs, uses);
    ListedSingle(layout);
    MergeConservesExtents(joined);
    JoinedExtents(recs, uses);
    if NoChain(recs) {
      UnchainedKept(joined);
    }
  }

  lemma UnchainedKept(rs: seq<DirRecord>)
    requires NoChain(rs)
    ensures Merged(rs) == rs
  {
    NothingToMerge(rs, 0);
    assert rs[0..] == rs;
  }

  /** A record is listed under the name its NM entries spell, wherever they stand. */
  lemma WrittenNameIsListed(recs: seq<DirRecord>, uses: seq<Use>, i: nat, name: Name)
    requires |uses| == |recs| && i < |recs|
    requires RockRidge.AllEntries(uses[i].stored + uses[i].area)
    requires RockRidge.Spells(uses[i].stored + uses[i].area, name)
    requires IsAscii(name) && 0 < |name| <= RockRidge.MAX_NM_LEN
    ensures NameOf(Joined(recs, uses)[i]) == name
  {
    RockRidge.NameRoundTrip(uses[i].stored + uses[i].area, name);
  }

  // ---- what reading any directory gives -------------------------------------------------------------

  /** The System Use entries of a record, after the bytes to skip. */
  function UseOf(rec: DirRecord, skip: nat): seq<u8> {
    if skip <= |rec.systemUse| then rec.systemUse[skip..] else []
  }

  /** The area a CE entry names lies in one sector; only then it is read. */
  predicate Reads(ce: Option<RockRidge.ContinuationArea>) {
    ce.Some? && ce.value.offset + ce.value.len <= 2048
  }

  predicate AreaMissing(view: seq<u8>, mode: SectorMode, use: seq<u8>) {
    var ce := RockRidge.ContinuationAt(use, 0);
    Reads(ce) && |view| < mode.UserDataPos(ce.value.lba) + 2048
  }

  /** The record as it stands, or with the bytes of its continuation area appended. */
  predicate IsFollowed(view: seq<u8>, mode: SectorMode, rec: DirRecord, use: seq<u8>, f: DirRecord) {
    var ce := RockRidge.ContinuationAt(use, 0);
    if Reads(ce) then
      var at := mode.UserDataPos(ce.value.lba);
      && at + 2048 <= |view|
      && f == rec.(systemUse := use + view[at..at + 2048][ce.value.offset..ce.value.offset + ce.value.len])
    else f == rec.(systemUse := use)
  }

  lemma FollowedOne(view: seq<u8>, mode: SectorMode, rec: DirRecord)
    ensures match RockRidge.Followed(rec.systemUse, Sectors(view, mode))
      case Err(e) => e == IsoError.UnexpectedEof && AreaMissing(view, mode, rec.systemUse)
      case Ok(su) => IsFollowed(view, mode, rec, rec.systemUse, rec.(systemUse := su))
  {
    hide RockRidge.ContinuationAt, SectorMode.UserDataPos;
  }

  lemma {:induction false} FollowedEach(view: seq<u8>, mode: SectorMode, recs: seq<DirRecord>)
    ensures match FollowAll(view, mode, recs)
      case Err(e) =>
        && e == IsoError.UnexpectedEof
        && exists i :: 0 <= i < |recs| && AreaMissing(view, mode, recs[i].systemUse)
      case Ok(fs) =>
        && |fs| == |recs|
        && forall i :: 0 <= i < |recs| ==> IsFollowed(view, mode, recs[i], recs[i].systemUse, fs[i])
  {
    hide RockRidge.ContinuationAt, SectorMode.UserDataPos, RockRidge.Followed, AreaMissing, IsFollowed;
    if |recs| > 0 {
      FollowedOne(view, mode, recs[0]);
      FollowedEach(view, mode, recs[1..]);
      match FollowAll(view, mode, recs[1..])
      case Err(_) =>
        if FollowAll(view, mode, recs[1..]).Err? {
          var i :| 0 <= i < |recs[1..]| && AreaMissing(view, mode, recs[1..][i].systemUse);
          assert AreaMissing(view, mode, recs[i + 1].systemUse);
        }
      case Ok(_) =>
    }
  }

  /** The records of a directory whose extent the image holds, in the order of the extent, each with its
      continuation area; then its chains merged.  Reading fails when the directory is larger than
      64 MiB, a sector is missing, a record is cut off or too short for its name, or a continuation
      area lies in a missing sector, and only then. */
  lemma ListingOutcome(view: seq<u8>, mode: SectorMode, skip: nat, lba: u32, size: u32)
      returns (os: seq<nat>, fs: seq<DirRecord>, cuts: seq<nat>)
    requires Scannable(view, mode, lba, size)
    ensures size > 67_108_864 ==> Listing(view, mode, skip, lba, size) == Err(ResourceLimit)
    ensures size <= 67_108_864 && !ExtentPresent(view, mode, (lba, size)) ==>
      Listing(view, mode, skip, lba, size) == Err(IsoError.UnexpectedEof)
    ensures size <= 67_108_864 && ExtentPresent(view, mode, (lba, size)) ==>
      IsListing(view, mode, skip, ExtentBytes(view, mode, (lba, size)), os, fs, cuts,
        Listing(view, mode, skip, lba, size))
  {
    os, fs, cuts := [0], [], [];
    hide ExtentBytes, RecordsFrom, Advances, FollowAll, Merged, ExtentPresent, IsListing;
    if size <= 67_108_864 && ExtentPresent(view, mode, (lba, size)) {
      var data := ExtentBytes(view, mode, (lba, size));
      os := ScanOutcome(data);
      if RecordsFrom(data, 0).Ok? {
        fs, cuts := RecordsOutcome(view, mode, skip, data, os, RecordsFrom(data, 0).value);
      } else {
        BadOutcome(view, mode, skip, data, os);
      }
    }
  }

  ghost predicate Scanned(data: seq<u8>, os: seq<nat>) {
    && ScanSteps(data, os) && os[0] == 0
    && forall i :: 0 <= i < |os| - 1 ==> Passed(data, os[i])
  }

  lemma BadOutcome(view: seq<u8>, mode: SectorMode, skip: nat, data: seq<u8>, os: seq<nat>)
    requires Scanned(data, os)
    requires var end := os[|os| - 1];
      end < |data| && data[end] != 0 && !WholeRecord(data, end)
    ensures IsListing(view, mode, skip, data, os, [], [], Err(BadDirRecord))
  {
    hide WholeRecord;
  }

  lemma RecordsOutcome(view: seq<u8>, mode: SectorMode, skip: nat, data: seq<u8>, os: seq<nat>, recs: seq<DirRecord>)
      returns (fs: seq<DirRecord>, cuts: seq<nat>)
    requires Scanned(data, os) && os[|os| - 1] >= |data| && recs == RecordsAt(data, os[..|os| - 1])
    ensures IsListing(view, mode, skip, data, os, fs, cuts, FollowedAndMerged(view, mode, TrimAll(recs, skip)))
  {
    hide RecordsAt, FollowAll, Merged, AreaMissing, IsFollowed, WholeRecord, AreChains, ScanSteps;
    fs, cuts := [], [];
    var trimmed := TrimAll(recs, skip);
    FollowedEach(view, mode, trimmed);
    if FollowAll(view, mode, trimmed).Ok? {
      fs := FollowAll(view, mode, trimmed).value;
      EachFollowed(view, mode, skip, recs, fs);
      cuts := MergesChains(fs);
    } else {
      OneMissing(view, mode, skip, recs);
    }
  }

  lemma TrimsUse(recs: seq<DirRecord>, skip: nat)
    ensures forall i :: 0 <= i < |recs| ==> TrimAll(recs, skip)[i] == recs[i].(systemUse := UseOf(recs[i], skip))
  {
  }

  lemma EachFollowed(view: seq<u8>, mode: SectorMode, skip: nat, recs: seq<DirRecord>, fs: seq<DirRecord>)
    requires |fs| == |recs|
    requires var ts := TrimAll(recs, skip);
      forall i :: 0 <= i < |recs| ==> IsFollowed(view, mode, ts[i], ts[i].systemUse, fs[i])
    ensures forall i :: 0 <= i < |recs| ==> IsFollowed(view, mode, recs[i], UseOf(recs[i], skip), fs[i])
  {
    hide RockRidge.ContinuationAt, SectorMode.UserDataPos;
    TrimsUse(recs, skip);
    var ts := TrimAll(recs, skip);
    forall i | 0 <= i < |recs|
      ensures IsFollowed(view, mode, recs[i], UseOf(recs[i], skip), fs[i])
    {
      assert IsFollowed(view, mode, ts[i], ts[i].systemUse, fs[i]);
    }
  }

  lemma OneMissing(view: seq<u8>, mode: SectorMode, skip: nat, recs: seq<DirRecord>)
    requires var ts := TrimAll(recs, skip);
      exists i :: 0 <= i < |ts| && AreaMissing(view, mode, ts[i].systemUse)
    ensures exists i :: 0 <= i < |recs| && AreaMissing(view, mode, UseOf(recs[i], skip))
  {
    hide AreaMissing;
    TrimsUse(recs, skip);
    var i :| 0 <= i < |recs| && AreaMissing(view, mode, TrimAll(recs, skip)[i].systemUse);
    assert AreaMissing(view, mode, UseOf(recs[i], skip));
  }

  /** `listing` is what the bytes of an extent give: `os` are the offsets the scan comes to, `fs` the records
      there with their continuation areas, `cuts` the places where the chains among them begin. */
  ghost predicate IsListing(view: seq<u8>, mode: SectorMode, skip: nat, data: seq<u8>, os: seq<nat>,
      fs: seq<DirRecord>, cuts: seq<nat>, listing: Result<seq<DirRecord>, IsoError>)
  {
    && Scanned(data, os)
    && var end := os[|os| - 1];
       if end < |data| then listing == Err(BadDirRecord) && data[end] != 0 && !WholeRecord(data, end)
       else
         var recs := RecordsAt(data, os[..|os| - 1]);
         match listing
         case Err(e) =>
           && e == IsoError.UnexpectedEof
           && exists i :: 0 <= i < |recs| && AreaMissing(view, mode, UseOf(recs[i], skip))
         case Ok(merged) =>
           && |fs| == |recs|
           && (forall i :: 0 <= i < |recs| ==> IsFollowed(view, mode, recs[i], UseOf(recs[i], skip), fs[i]))
           && AreChains(fs, 0, cuts, merged)
  }

  lemma {:induction false} PiecesShort(es: seq<seq<u8>>, n: nat)
    requires RockRidge.AllEntries(es) && n <= |es|
    ensures |NameCap.Pieces(es[..n])| <= |RockRidge.Concat(es)|
    decreases |es|
  {
    hide IsUtf8;
    if n > 0 {
      assert es[..n][1..] == es[1..][..n - 1];
      PiecesShort(es[1..], n - 1);
    }
  }

  /** A record is listed under the texts of its NM entries, up to the first that does not go on, and under
      its ISO name when they are empty. */
  lemma ListedName(view: seq<u8>, mode: SectorMode, skip: nat, lba: u32, size: u32, rec: DirRecord,
      es: seq<seq<u8>>, rest: seq<u8>, k: nat)
    requires Scannable(view, mode, lba, size) && Listing(view, mode, skip, lba, size).Ok?
    requires rec in Listing(view, mode, skip, lba, size).value
    requires RockRidge.AllEntries(es) && SystemUse.NoEntry(rest) && SystemUse.NameRunsTo(es, k)
    requires rec.systemUse == RockRidge.Concat(es) + rest
    ensures var text := NameCap.Pieces(es[..Min(k + 1, |es|)]);
      NameOf(rec) == if text == [] then IsoName(rec.nameBytes) else text
  {
    ListedNamesReturn(view, mode, skip, lba, size, rec);
    hide Listing, Scannable, NameCap.Pieces, RockRidge.Concat, RockRidge.AlternateName, IsoName;
    SystemUse.NameIsPieces(es, rest, k);
    PiecesShort(es, Min(k + 1, |es|));
    var text := NameCap.Pieces(es[..Min(k + 1, |es|)]);
    assert SystemUse.Capped(text) == text;
  }

  lemma {:induction false} ListedSingle(layout: seq<seq<RawRecord>>)
    requires FitsSectors(layout)
    ensures SingleExtents(AllListed(layout))
  {
    if |layout| > 0 {
      assert FitsSector(layout[0]);
      SectorSingle(layout[0]);
      ListedSingle(layout[1..]);
    }
  }

  lemma {:induction false} SectorSingle(rs: seq<RawRecord>)
    requires forall i :: 0 <= i < |rs| ==> rs[i].Valid()
    ensures SingleExtents(Listed(rs))
  {
    hide RecordingTime, RawRecord.Valid;
    if |rs| > 0 {
      SectorSingle(rs[1..]);
    }
  }
}
