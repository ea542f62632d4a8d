/** Directory records packed into 2048-byte sectors (core/src/dir.rs). */
module Directory {
  import opened Wrappers
  import opened Bytes
  import opened IsoErrors
  import opened Calendar

  datatype DirRecord = DirRecord(
    lba: u32, size: u32, nameBytes: seq<u8>, flags: u8, recorded: Option<IsoDateTime>,
    systemUse: seq<u8>, extraExtents: seq<(u32, u32)>)
  {
    predicate IsDir() { flags / 2 % 2 == 1 }

    predicate IsMultiExtent() { flags >= 0x80 }

    predicate IsDot() { nameBytes == [0] || nameBytes == [1] }
  }

  function Bit(b: bool): nat {
    if b then 1 else 0
  }

  /** Bit 1 of the flags marks a directory, bit 7 a record that is continued. */
  lemma FlagBits(rec: DirRecord, b: seq<bool>)
    requires |b| == 8
    requires rec.flags == Bit(b[0]) + 2 * Bit(b[1]) + 4 * Bit(b[2]) + 8 * Bit(b[3])
      + 16 * Bit(b[4]) + 32 * Bit(b[5]) + 64 * Bit(b[6]) + 128 * Bit(b[7])
    ensures rec.IsDir() <==> b[1]
    ensures rec.IsMultiExtent() <==> b[7]
  {
  }

  /** A signed byte. */
  function Signed8(b: u8): int {
    var n: int := b;
    if n < 0x80 then n else n - 0x100
  }

  function RecordingTime(b: seq<u8>): Option<IsoDateTime>
    requires |b| == 7
  {
    if forall i :: 0 <= i < 6 ==> b[i] == 0 then None
    else
      var years: nat := b[0];
      Some(IsoDateTime(1900 + years, b[1], b[2], b[3], b[4], b[5], 0, Signed8(b[6])))
  }

  /** A stored date and time that exist. */
  predicate InRange(b: seq<u8>)
    requires |b| == 7
  {
    var years: nat := b[0];
    ValidDate(1900 + years, b[1], b[2]) && ValidTime(b[3], b[4], b[5])
  }

  /** The recording time is not checked against the calendar: a value is given only for a date and
      time in range exactly when the field is unset or holds one. */
  lemma RecordingTimeUnchecked(b: seq<u8>)
    requires |b| == 7
    ensures (RecordingTime(b).Some? ==> InRange(b)) <==> (forall i :: 0 <= i < 6 ==> b[i] == 0) || InRange(b)
  {
  }

  /** Day 40 of month 13 at 25:61:61 is given as a value. */
  lemma OutOfRangeAccepted()
    ensures var b: seq<u8> := [100, 13, 40, 25, 61, 61, 0];
      RecordingTime(b) == Some(IsoDateTime(2000, 13, 40, 25, 61, 61, 0, 0)) && !InRange(b)
  {
    var b: seq<u8> := [100, 13, 40, 25, 61, 61, 0];
    assert b[0] != 0;
  }

  /** The fields of one record, given exactly its bytes. */
  function Fields(rec: seq<u8>): Result<DirRecord, IsoError>
    requires |rec| >= 33
  {
    var nameLen: nat := rec[32];
    if 33 + nameLen > |rec| then Err(BadDirRecord)
    else
      var suStart := 33 + nameLen + (if nameLen % 2 == 0 then 1 else 0);
      var su := if suStart < |rec| then rec[suStart..] else [];
      Ok(DirRecord(ReadLe32(rec, 2), ReadLe32(rec, 10), rec[33..33 + nameLen], rec[25],
                   RecordingTime(rec[18..25]), su, []))
  }

  /** The record at `offset`, with its length; no record where the length byte is zero. */
  function Parse(data: seq<u8>, offset: nat): (r: Result<Option<(DirRecord, nat)>, IsoError>)
    ensures r.Ok? && r.value.Some? ==> r.value.value.1 >= 33
  {
    if offset >= |data| then Ok(None)
    else
      var len: nat := data[offset];
      if len == 0 then Ok(None)
      else if offset + len > |data| || len < 33 then Err(BadDirRecord)
      else match Fields(data[offset..offset + len])
        case Err(e) => Err(e)
        case Ok(rec) => Ok(Some((rec, len)))
  }

  /** A record leaves at most 222 bytes for System Use entries. */
  lemma ParsedShort(data: seq<u8>, offset: nat)
    requires Parse(data, offset).Ok? && Parse(data, offset).value.Some?
    ensures |Parse(data, offset).value.value.0.systemUse| <= 222
  {
  }

  /** Rounded up to the next sector start; a sector start itself is left where it is. */
  function RoundUp(offset: nat): nat {
    (offset + 2047) / 2048 * 2048
  }

  // ---- the scan -----------------------------------------------------------------

  /** The scan makes no progress here: a zero byte at the very start of a sector. */
  predicate Stuck(data: seq<u8>, offset: nat) {
    offset < |data| && data[offset] == 0 && offset % 2048 == 0
  }

  /** Where one pass of the loop leaves the offset; None when the loop is left. */
  function Pass(data: seq<u8>, offset: nat): Option<nat> {
    if offset >= |data| then None
    else if data[offset] == 0 then Some(RoundUp(offset))
    else match Parse(data, offset)
      case Ok(Some((_, len))) => Some(offset + len)
      case _ => None
  }

  /** The scan from `offset` never comes to a place where it is stuck. */
  predicate Advances(data: seq<u8>, offset: nat)
    decreases |data| - offset
  {
    if offset >= |data| then true
    else if data[offset] == 0 then offset % 2048 != 0 && Advances(data, RoundUp(offset))
    else match Parse(data, offset)
      case Ok(Some((_, len))) => Advances(data, offset + len)
      case _ => true
  }

  function Prepend(records: seq<DirRecord>, r: Result<seq<DirRecord>, IsoError>): Result<seq<DirRecord>, IsoError> {
    match r
    case Ok(rest) => Ok(records + rest)
    case Err(e) => Err(e)
  }

  /** The records of a buffer from `offset` on, without the dot entries. */
  function RecordsFrom(data: seq<u8>, offset: nat): Result<seq<DirRecord>, IsoError>
    requires Advances(data, offset)
    decreases |data| - offset
  {
    hide Parse;
    if offset >= |data| then Ok([])
    else if data[offset] == 0 then RecordsFrom(data, RoundUp(offset))
    else match Parse(data, offset)
      case Err(e) => Err(e)
      case Ok(None) => Ok([])
      case Ok(Some((rec, len))) =>
        Prepend(if rec.IsDot() then [] else [rec], RecordsFrom(data, offset + len))
  }

  lemma PrependMore(records: seq<DirRecord>, rec: seq<DirRecord>, r: Result<seq<DirRecord>, IsoError>)
    ensures Prepend(records, Prepend(rec, r)) == Prepend(records + rec, r)
  {
    if r.Ok? {
      assert records + (rec + r.value) == records + rec + r.value;
    }
  }

  lemma PrependNone(r: Result<seq<DirRecord>, IsoError>)
    ensures Prepend([], r) == r
  {
    if r.Ok? {
      assert [] + r.value == r.value;
    }
  }

  /** The scan goes on at `next`, with these records in front. */
  predicate ScansOn(data: seq<u8>, offset: nat, next: nat, front: seq<DirRecord>) {
    && (Advances(data, offset) <==> Advances(data, next))
    && (Advances(data, offset) ==> RecordsFrom(data, offset) == Prepend(front, RecordsFrom(data, next)))
  }

  lemma ScanGoesOn(data: seq<u8>, offset: nat, next: nat, front: seq<DirRecord>)
    requires ScansOn(data, offset, next, front)
    ensures Advances(data, offset) <==> Advances(data, next)
    ensures Advances(data, offset) && Advances(data, next) ==>
      RecordsFrom(data, offset) == Prepend(front, RecordsFrom(data, next))
  {
  }

  lemma ScanRecord(data: seq<u8>, offset: nat, rec: DirRecord, len: nat)
    requires offset < |data| && data[offset] != 0 && Parse(data, offset) == Ok(Some((rec, len)))
    ensures ScansOn(data, offset, offset + len, if rec.IsDot() then [] else [rec])
  {
    hide Parse;
  }

  lemma ScanPadding(data: seq<u8>, offset: nat)
    requires offset < |data| && data[offset] == 0 && offset % 2048 != 0
    ensures offset < RoundUp(offset)
    ensures Advances(data, offset) <==> Advances(data, RoundUp(offset))
    ensures Advances(data, offset) && Advances(data, RoundUp(offset)) ==>
      RecordsFrom(data, offset) == RecordsFrom(data, RoundUp(offset))
  {
    hide Parse;
  }

  lemma ScanStops(data: seq<u8>, offset: nat)
    ensures offset >= |data| ==> Advances(data, offset) && RecordsFrom(data, offset) == Ok([])
    ensures offset < |data| && data[offset] == 0 && Advances(data, offset) ==> offset % 2048 != 0
    ensures offset < |data| && data[offset] != 0 && Advances(data, offset) && Parse(data, offset).Err? ==>
      RecordsFrom(data, offset) == Err(Parse(data, offset).error)
    ensures offset < |data| && data[offset] != 0 && Advances(data, offset) && Parse(data, offset) == Ok(None) ==>
      RecordsFrom(data, offset) == Ok([])
  {
    hide Parse;
  }

  lemma {:induction false} RecordsShort(data: seq<u8>, offset: nat)
    requires Advances(data, offset) && RecordsFrom(data, offset).Ok?
    ensures forall rec :: rec in RecordsFrom(data, offset).value ==> |rec.systemUse| <= 222
    decreases |data| - offset
  {
    hide Parse, RoundUp, Advances, RecordsFrom;
    ScanStops(data, offset);
    if offset < |data| {
      if data[offset] == 0 {
        ScanPadding(data, offset);
        RecordsShort(data, RoundUp(offset));
      } else if Parse(data, offset).Ok? && Parse(data, offset).value.Some? {
        var (rec, len) := Parse(data, offset).value.value;
        ScanRecord(data, offset, rec, len);
        ParsedShort(data, offset);
        RecordsShort(data, offset + len);
      }
    }
  }

  /** The loop of the source, on every buffer on which it ends. */
  method ParseDirRecords(data: seq<u8>) returns (r: Result<seq<DirRecord>, IsoError>)
    requires Advances(data, 0)
    ensures r == RecordsFrom(data, 0)
  {
    hide RecordsFrom, Advances, Parse, RoundUp;
    var records: seq<DirRecord> := [];
    var offset := 0;
    PrependNone(RecordsFrom(data, 0));
    while offset < |data|
      invariant Advances(data, offset)
      invariant Prepend(records, RecordsFrom(data, offset)) == RecordsFrom(data, 0)
      decreases |data| - offset
    {
      ScanStops(data, offset);
      if data[offset] == 0 {
        ScanPadding(data, offset);
        offset := RoundUp(offset);
        continue;
      }
      var parsed := Parse(data, offset);
      match parsed {
        case Err(e) => return Err(e);
        case Ok(None) => break;
        case Ok(Some((rec, advance))) =>
          ScanRecord(data, offset, rec, advance);
          PrependMore(records, if rec.IsDot() then [] else [rec], RecordsFrom(data, offset + advance));
          if !rec.IsDot() {
            records := records + [rec];
          } else {
            assert records + [] == records;
          }
          offset := offset + advance;
      }
    }
    ScanStops(data, offset);
    assert records + [] == records;
    return Ok(records);
  }

  // ---- what the scan does -----------------------------------------------------------

  /** A record stands at the offset, whole and with its name inside it. */
  predicate WholeRecord(data: seq<u8>, o: nat) {
    && o < |data| && 33 <= data[o] && o + data[o] <= |data|
    && NameEnd(data, o) <= o + data[o]
  }

  /** Where the name of the record at the offset ends. */
  function NameEnd(data: seq<u8>, o: nat): nat
    requires o + 33 <= |data|
  {
    var nameLen: nat := data[o + 32];
    o + 33 + nameLen
  }

  function NameBytes(data: seq<u8>, o: nat): seq<u8>
    requires WholeRecord(data, o)
  {
    data[o + 33..NameEnd(data, o)]
  }

  /** From one offset to the next: past a record, or from a zero byte to the next sector. */
  predicate ScanStep(data: seq<u8>, o: nat, next: nat) {
    o < |data| && if data[o] == 0 then next % 2048 == 0 && o <= next < o + 2048
                  else WholeRecord(data, o) && next == o + data[o]
  }

  predicate ScanSteps(data: seq<u8>, os: seq<nat>) {
    |os| > 0 && forall i :: 0 < i < |os| ==> ScanStep(data, os[i - 1], os[i])
  }

  /** A zero byte or a whole record stands at the offset. */
  predicate Passed(data: seq<u8>, o: nat) {
    o < |data| && (data[o] == 0 || WholeRecord(data, o))
  }

  /** The records at those offsets, leaving out zero bytes and the entries named 0 and 1. */
  function RecordsAt(data: seq<u8>, os: seq<nat>): seq<DirRecord>
    requires forall i :: 0 <= i < |os| ==> Passed(data, os[i])
  {
    if |os| == 0 then []
    else
      var o := os[0];
      assert Passed(data, os[0]);
      var rest := RecordsAt(data, os[1..]);
      if data[o] == 0 then rest
      else
        assert WholeRecord(data, o);
        var name := NameBytes(data, o);
        ParseIffWhole(data, o);
        (if name == [0] || name == [1] then [] else [Parse(data, o).value.value.0]) + rest
  }

  lemma SliceOfSlice(data: seq<u8>, o: nat, len: nat, a: nat, b: nat)
    requires o + len <= |data| && a <= b <= len
    ensures data[o..o + len][a..b] == data[o + a..o + b]
  {
    var rec, part := data[o..o + len], data[o..o + len][a..b];
    forall i | 0 <= i < b - a
      ensures part[i] == data[o + a..o + b][i]
    {
      assert part[i] == rec[a + i] == data[o + a + i];
    }
  }

  /** Exactly a whole record is parsed; its length is its first byte. */
  lemma ParseIffWhole(data: seq<u8>, o: nat)
    requires o < |data| && data[o] != 0
    ensures WholeRecord(data, o) <==> Parse(data, o).Ok?
    ensures Parse(data, o).Err? ==> Parse(data, o) == Err(BadDirRecord)
    ensures Parse(data, o).Ok? ==>
      && Parse(data, o).value.Some? && WholeRecord(data, o)
      && Parse(data, o).value.value.1 == data[o]
      && Parse(data, o).value.value.0.nameBytes == NameBytes(data, o)
  {
    hide Fields;
    var len: nat := data[o];
    if len >= 33 && o + len <= |data| {
      var rec := data[o..o + len];
      assert rec[32] == data[o + 32];
      FieldsIff(rec);
      if NameEnd(data, o) <= o + len {
        SliceOfSlice(data, o, len, 33, NameEnd(data, o) - o);
      }
    }
  }

  lemma FieldsIff(rec: seq<u8>)
    requires |rec| >= 33
    ensures 33 + rec[32] as nat > |rec| ==> Fields(rec) == Err(BadDirRecord)
    ensures 33 + rec[32] as nat <= |rec| ==>
      Fields(rec).Ok? && Fields(rec).value.nameBytes == rec[33..33 + rec[32] as nat]
  {
    hide RecordingTime, ReadLe32;
  }

  /** Where the System Use field of the record at the offset begins: after the name, at an even place. */
  function UseStart(data: seq<u8>, o: nat): nat
    requires o + 33 <= |data|
  {
    if (NameEnd(data, o) - o) % 2 == 0 then NameEnd(data, o) else NameEnd(data, o) + 1
  }

  /** The fields of any whole record, padded or not, as they stand in the buffer. */
  lemma RecordStored(data: seq<u8>, o: nat)
    requires WholeRecord(data, o)
    ensures Parse(data, o).Ok? && Parse(data, o).value.Some?
    ensures var rec := Parse(data, o).value.value.0;
      && Le32(rec.lba) == data[o + 2..o + 6] && Le32(rec.size) == data[o + 10..o + 14]
      && rec.flags == data[o + 25] && rec.nameBytes == NameBytes(data, o)
      && rec.recorded == RecordingTime(data[o + 18..o + 25]) && rec.extraExtents == []
      && rec.systemUse == if UseStart(data, o) < o + data[o] then data[UseStart(data, o)..o + data[o]] else []
  {
    hide RecordingTime, Le32, Fields, Parse;
    var len: nat := data[o];
    var rec := data[o..o + len];
    assert rec[32] == data[o + 32] && rec[25] == data[o + 25];
    StoredFields(rec);
    ParsesFields(data, o);
    FixedSlices(data, o, len);
    TailSlices(data, o);
  }

  lemma FixedSlices(data: seq<u8>, o: nat, len: nat)
    requires 33 <= len && o + len <= |data|
    ensures var rec := data[o..o + len];
      rec[2..6] == data[o + 2..o + 6] && rec[10..14] == data[o + 10..o + 14] && rec[18..25] == data[o + 18..o + 25]
  {
    SliceOfSlice(data, o, len, 2, 6);
    SliceOfSlice(data, o, len, 10, 14);
    SliceOfSlice(data, o, len, 18, 25);
  }

  lemma TailSlices(data: seq<u8>, o: nat)
    requires WholeRecord(data, o)
    ensures var rec, end, start := data[o..o + data[o]], NameEnd(data, o) - o, UseStart(data, o) - o;
      && rec[33..end] == NameBytes(data, o)
      && (start < |rec| ==> rec[start..|rec|] == data[o + start..o + data[o]])
  {
    var len: nat := data[o];
    SliceOfSlice(data, o, len, 33, NameEnd(data, o) - o);
    if UseStart(data, o) < o + len {
      SliceOfSlice(data, o, len, UseStart(data, o) - o, len);
    }
  }

  lemma ParsesFields(data: seq<u8>, o: nat)
    requires WholeRecord(data, o) && Fields(data[o..o + data[o]]).Ok?
    ensures Parse(data, o) == Ok(Some((Fields(data[o..o + data[o]]).value, data[o])))
  {
    hide Fields;
  }

  lemma StoredFields(rec: seq<u8>)
    requires |rec| >= 33 && 33 + rec[32] as nat <= |rec|
    ensures Fields(rec).Ok?
    ensures var r, end := Fields(rec).value, 33 + rec[32] as nat;
      && Le32(r.lba) == rec[2..6] && Le32(r.size) == rec[10..14] && r.flags == rec[25]
      && r.nameBytes == rec[33..end] && r.recorded == RecordingTime(rec[18..25]) && r.extraExtents == []
      && var start := if end % 2 == 0 then end else end + 1;
         r.systemUse == if start < |rec| then rec[start..|rec|] else []
  {
    hide RecordingTime, ReadLe32, Le32;
    WritesWhatWasRead(rec, 2);
    WritesWhatWasRead(rec, 10);
  }

  /** Where the scan gets to from an offset, step by step. */
  lemma {:induction false} ScanTraced(data: seq<u8>, offset: nat) returns (os: seq<nat>)
    requires Advances(data, offset)
    ensures ScanSteps(data, os) && os[0] == offset
    ensures forall i :: 0 <= i < |os| - 1 ==> Passed(data, os[i])
    ensures var end := os[|os| - 1];
      match RecordsFrom(data, offset)
      case Ok(recs) => end >= |data| && recs == RecordsAt(data, os[..|os| - 1])
      case Err(e) => e == BadDirRecord && end < |data| && data[end] != 0 && !WholeRecord(data, end)
    decreases |data| - offset
  {
    hide Parse, Advances, RecordsFrom, RecordsAt, WholeRecord, ScanStep;
    ScanStops(data, offset);
    os := [offset];
    NothingAt(data, offset);
    if offset < |data| && data[offset] == 0 {
      var next := RoundUp(offset);
      ScanPadding(data, offset);
      var more := ScanTraced(data, next);
      StepsOverPadding(data, offset);
      TraceGrows(data, offset, more);
      os := [offset] + more;
      PrependNone(RecordsFrom(data, next));
    } else if offset < |data| {
      ParseIffWhole(data, offset);
      if Parse(data, offset).Ok? {
        var (rec, len) := Parse(data, offset).value.value;
        ScanRecord(data, offset, rec, len);
        var more := ScanTraced(data, offset + len);
        StepsOverRecord(data, offset);
        TraceGrows(data, offset, more);
        os := [offset] + more;
      }
    }
  }

  lemma NothingAt(data: seq<u8>, o: nat)
    ensures [o][..0] == [] && RecordsAt(data, []) == []
  {
  }

  lemma StepsOverPadding(data: seq<u8>, o: nat)
    requires o < |data| && data[o] == 0
    ensures ScanStep(data, o, RoundUp(o)) && RecordsAt(data, [o]) == []
  {
    assert [o][1..] == [];
  }

  lemma StepsOverRecord(data: seq<u8>, o: nat)
    requires o < |data| && data[o] != 0 && Parse(data, o).Ok?
    ensures WholeRecord(data, o) && Parse(data, o).value.Some? && ScanStep(data, o, o + Parse(data, o).value.value.1)
    ensures var rec := Parse(data, o).value.value.0;
      RecordsAt(data, [o]) == if rec.IsDot() then [] else [rec]
  {
    hide Parse, WholeRecord;
    ParseIffWhole(data, o);
    assert [o][1..] == [];
  }

  lemma TraceGrows(data: seq<u8>, o: nat, more: seq<nat>)
    requires ScanSteps(data, more) && ScanStep(data, o, more[0]) && Passed(data, o)
    requires forall i :: 0 <= i < |more| - 1 ==> Passed(data, more[i])
    ensures ScanSteps(data, [o] + more)
    ensures var os := [o] + more;
      && (forall i :: 0 <= i < |os| - 1 ==> Passed(data, os[i]))
      && RecordsAt(data, os[..|os| - 1]) == RecordsAt(data, [o]) + RecordsAt(data, more[..|more| - 1])
  {
    hide Passed, ScanStep, RecordsAt;
    var os := [o] + more;
    forall i | 0 < i < |os|
      ensures ScanStep(data, os[i - 1], os[i])
    {
      if i > 1 {
        assert ScanStep(data, more[i - 2], more[i - 1]);
      }
    }
    forall i | 0 <= i < |os| - 1
      ensures Passed(data, os[i])
    {
      if i > 0 {
        assert Passed(data, more[i - 1]);
      }
    }
    assert os[..|os| - 1] == [o] + more[..|more| - 1];
    RecordsGrow(data, o, more[..|more| - 1]);
  }

  lemma RecordsGrow(data: seq<u8>, o: nat, rest: seq<nat>)
    requires Passed(data, o) && forall i :: 0 <= i < |rest| ==> Passed(data, rest[i])
    ensures forall i :: 0 <= i < |[o] + rest| ==> Passed(data, ([o] + rest)[i])
    ensures RecordsAt(data, [o] + rest) == RecordsAt(data, [o]) + RecordsAt(data, rest)
  {
    hide Parse, WholeRecord, NameBytes;
    assert ([o] + rest)[1..] == rest && [o][1..] == [];
  }

  /** What the scan of a buffer gives, when it ends: the records it comes to, without the dot entries,
      if it gets to the end of the buffer, and otherwise the error of the first record that is cut off
      or too short for its name. */
  lemma ScanOutcome(data: seq<u8>) returns (os: seq<nat>)
    requires Advances(data, 0)
    ensures ScanSteps(data, os) && os[0] == 0
    ensures forall i :: 0 <= i < |os| - 1 ==> Passed(data, os[i])
    ensures var end := os[|os| - 1];
      match RecordsFrom(data, 0)
      case Ok(recs) => end >= |data| && recs == RecordsAt(data, os[..|os| - 1])
      case Err(e) => e == BadDirRecord && end < |data| && data[end] != 0 && !WholeRecord(data, end)
  {
    os := ScanTraced(data, 0);
  }

  // ---- when the scan ends ------------------------------------------------------------

  /** The offset after n passes of the loop; None when the loop was left before. */
  function OffsetAfter(data: seq<u8>, n: nat): Option<nat> {
    if n == 0 then Some(0)
    else match OffsetAfter(data, n - 1)
      case None => None
      case Some(o) => Pass(data, o)
  }

  lemma PassMovesOn(data: seq<u8>, offset: nat)
    requires Pass(data, offset).Some?
    ensures offset < |data|
    ensures Stuck(data, offset) <==> Pass(data, offset).value == offset
    ensures Pass(data, offset).value >= offset
  {
    hide Parse;
  }

  /** Advances, in terms of passes of the loop. */
  lemma AdvancesByPass(data: seq<u8>, offset: nat)
    ensures Advances(data, offset) <==>
            !Stuck(data, offset) && (Pass(data, offset).Some? ==> Advances(data, Pass(data, offset).value))
  {
    hide Parse;
  }

  lemma {:induction false} EndsFrom(data: seq<u8>, k: nat, offset: nat) returns (n: nat)
    requires OffsetAfter(data, k) == Some(offset) && Advances(data, offset)
    ensures OffsetAfter(data, n) == None
    decreases |data| - offset
  {
    hide Pass, Stuck, Advances;
    n := k + 1;
    AdvancesByPass(data, offset);
    if Pass(data, offset).Some? {
      PassMovesOn(data, offset);
      n := EndsFrom(data, k + 1, Pass(data, offset).value);
    }
  }

  lemma {:induction false} NeverEnds(data: seq<u8>, n: nat)
    requires !Advances(data, 0)
    ensures OffsetAfter(data, n).Some? && !Advances(data, OffsetAfter(data, n).value)
  {
    hide Pass, Stuck, Advances;
    if n > 0 {
      NeverEnds(data, n - 1);
      StaysUnending(data, OffsetAfter(data, n - 1).value);
    }
  }

  lemma StaysUnending(data: seq<u8>, offset: nat)
    requires !Advances(data, offset)
    ensures Pass(data, offset).Some? && !Advances(data, Pass(data, offset).value)
  {
    AdvancesByPass(data, offset);
    hide Advances, Parse;
    if Pass(data, offset).Some? {
      PassMovesOn(data, offset);
    }
  }

  /** The scan ends exactly when it never meets a zero byte at the start of a sector. */
  lemma ScanEndsIff(data: seq<u8>)
    ensures Advances(data, 0) <==> exists n: nat :: OffsetAfter(data, n) == None
    ensures Advances(data, 0) <==>
      forall n: nat :: OffsetAfter(data, n).Some? ==> !Stuck(data, OffsetAfter(data, n).value)
  {
    hide Pass, Stuck, Advances;
    if Advances(data, 0) {
      var n := EndsFrom(data, 0, 0);
      forall n: nat | OffsetAfter(data, n).Some?
        ensures !Stuck(data, OffsetAfter(data, n).value)
      {
        NeverStuck(data, n);
      }
    } else {
      forall n: nat
        ensures OffsetAfter(data, n) != None
      {
        NeverEnds(data, n);
      }
      var n := MeetsStuck(data, 0, 0);
    }
  }

  /** In particular a buffer that begins with a zero byte is scanned for ever. */
  lemma {:induction false} ZeroStartNeverEnds(data: seq<u8>, n: nat)
    requires |data| > 0 && data[0] == 0
    ensures OffsetAfter(data, n) == Some(0)
  {
    hide Parse;
    if n > 0 {
      ZeroStartNeverEnds(data, n - 1);
    }
  }

  lemma {:induction false} NeverStuck(data: seq<u8>, n: nat)
    requires Advances(data, 0) && OffsetAfter(data, n).Some?
    ensures Advances(data, OffsetAfter(data, n).value) && !Stuck(data, OffsetAfter(data, n).value)
  {
    hide Advances, Pass, Stuck;
    if n > 0 {
      NeverStuck(data, n - 1);
      AdvancesByPass(data, OffsetAfter(data, n - 1).value);
    }
    AdvancesByPass(data, OffsetAfter(data, n).value);
  }

  lemma {:induction false} MeetsStuck(data: seq<u8>, k: nat, offset: nat) returns (n: nat)
    requires OffsetAfter(data, k) == Some(offset) && !Advances(data, offset)
    ensures OffsetAfter(data, n).Some? && Stuck(data, OffsetAfter(data, n).value)
    decreases |data| - offset
  {
    hide Advances, Pass, Stuck;
    n := k;
    if !Stuck(data, offset) {
      StaysUnending(data, offset);
      PassMovesOn(data, offset);
      n := MeetsStuck(data, k + 1, Pass(data, offset).value);
    }
  }

  // ---- packing ----------------------------------------------------------------------

  /** Everything a directory record stores, including what the reader skips. */
  datatype RawRecord = RawRecord(
    xattr: u8, lba: u32, lbaBe: seq<u8>, size: u32, sizeBe: seq<u8>, time: seq<u8>, flags: u8,
    volume: seq<u8>, name: seq<u8>, pad: u8, systemUse: seq<u8>)
  {
    function Padding(): seq<u8> { if |name| % 2 == 0 then [pad] else [] }

    function Length(): nat { 33 + |name| + |Padding()| + |systemUse| }

    predicate Valid() {
      |lbaBe| == 4 && |sizeBe| == 4 && |time| == 7 && |volume| == 6 && Length() < 256
    }

    function Fixed(): (b: seq<u8>)
      requires Valid()
      ensures |b| == 33
    {
      [Length(), xattr] + Le32(lba) + lbaBe + Le32(size) + sizeBe + time + [flags] + volume + [|name|]
    }

    function Encode(): (b: seq<u8>)
      requires Valid()
      ensures |b| == Length()
    {
      Fixed() + name + Padding() + systemUse
    }

    /** What the record says, field by field. */
    function Meaning(): DirRecord
      requires Valid()
    {
      DirRecord(lba, size, name, flags, RecordingTime(time), systemUse, [])
    }
  }

  lemma FixedFields(r: RawRecord)
    requires r.Valid()
    ensures var f := r.Fixed();
      && f[0] == r.Length() && ReadLe32(f, 2) == r.lba && ReadLe32(f, 10) == r.size
      && f[18..25] == r.time && f[25] == r.flags && f[32] == |r.name|
  {
    var f := r.Fixed();
    assert f[2..6] == Le32(r.lba) && f[10..14] == Le32(r.size);
    assert f[18..25] == r.time && f[25] == r.flags && f[32] == |r.name|;
    hide Le32, ReadLe32;
    ReadsWhatWasWritten(f, 2, r.lba);
    ReadsWhatWasWritten(f, 10, r.size);
  }

  /** A record written at `offset` is parsed back, field by field. */
  lemma ParseEncoded(data: seq<u8>, offset: nat, r: RawRecord)
    requires r.Valid() && offset + r.Length() <= |data|
    requires data[offset..offset + r.Length()] == r.Encode()
    ensures data[offset] != 0
    ensures Parse(data, offset) == Ok(Some((r.Meaning(), r.Length())))
    ensures var (rec, len) := Parse(data, offset).value.value;
      && rec.lba == r.lba && rec.size == r.size && rec.nameBytes == r.name && rec.flags == r.flags
      && rec.systemUse == r.systemUse && rec.extraExtents == []
      && len == |r.Encode()|
  {
    EncodedFields(r);
    hide *;
    ParseIsFields(data, offset, r.Encode());
  }

  /** The seven bytes of a recording time (section 9.1.5 of ECMA-119). */
  function TimeField(year: nat, month: u8, day: u8, hour: u8, minute: u8, second: u8, zone: int): (b: seq<u8>)
    requires 1900 <= year <= 2155 && -128 <= zone <= 127
    ensures |b| == 7
  {
    [year - 1900, month, day, hour, minute, second, if zone < 0 then zone + 256 else zone]
  }

  /** A stored time is parsed back, field by field, with its zone; six zero bytes stand for no time. */
  lemma TimeParsed(data: seq<u8>, offset: nat, r: RawRecord,
      year: nat, month: u8, day: u8, hour: u8, minute: u8, second: u8, zone: int)
    requires r.Valid() && offset + r.Length() <= |data|
    requires data[offset..offset + r.Length()] == r.Encode()
    requires 1900 <= year <= 2155 && -128 <= zone <= 127
    requires r.time == TimeField(year, month, day, hour, minute, second, zone)
    ensures Parse(data, offset).Ok? && Parse(data, offset).value.Some?
    ensures Parse(data, offset).value.value.0.recorded ==
      if year == 1900 && month == 0 && day == 0 && hour == 0 && minute == 0 && second == 0 then None
      else Some(IsoDateTime(year, month, day, hour, minute, second, 0, zone))
  {
    hide RawRecord.Encode, RawRecord.Length, Parse;
    ParseEncoded(data, offset, r);
    assert r.Meaning().recorded == RecordingTime(r.time);
    TimeRead(year, month, day, hour, minute, second, zone);
  }

  lemma TimeRead(year: nat, month: u8, day: u8, hour: u8, minute: u8, second: u8, zone: int)
    requires 1900 <= year <= 2155 && -128 <= zone <= 127
    ensures RecordingTime(TimeField(year, month, day, hour, minute, second, zone)) ==
      if year == 1900 && month == 0 && day == 0 && hour == 0 && minute == 0 && second == 0 then None
      else Some(IsoDateTime(year, month, day, hour, minute, second, 0, zone))
  {
    var b := TimeField(year, month, day, hour, minute, second, zone);
    assert b[0] == year - 1900 && b[1] == month && b[2] == day && b[3] == hour && b[4] == minute && b[5] == second;
  }

  lemma ParseIsFields(data: seq<u8>, offset: nat, e: seq<u8>)
    requires 33 <= |e| == e[0] && offset + |e| <= |data| && data[offset..offset + |e|] == e
    requires Fields(e).Ok?
    ensures data[offset] != 0 && Parse(data, offset) == Ok(Some((Fields(e).value, |e|)))
  {
    hide Fields;
    assert data[offset] == data[offset..offset + |e|][0];
  }

  lemma EncodedFields(r: RawRecord)
    requires r.Valid()
    ensures |r.Encode()| == r.Length() == r.Encode()[0] && r.Length() >= 33
    ensures Fields(r.Encode()) == Ok(r.Meaning())
  {
    var e, f := r.Encode(), r.Fixed();
    assert e == f + (r.name + r.Padding() + r.systemUse);
    assert e[..33] == f;
    hide RawRecord.Encode, RawRecord.Fixed, RecordingTime;
    FixedFields(r);
    EncodedTail(r);
    SamePrefix(e, f);
  }

  lemma SamePrefix(e: seq<u8>, f: seq<u8>)
    requires |e| >= 33 == |f| && e[..33] == f
    ensures ReadLe32(e, 2) == ReadLe32(f, 2) && ReadLe32(e, 10) == ReadLe32(f, 10)
    ensures e[18..25] == f[18..25] && e[25] == f[25] && e[32] == f[32] && e[0] == f[0]
  {
    assert forall i :: 0 <= i < 33 ==> e[i] == f[i];
  }

  lemma EncodedTail(r: RawRecord)
    requires r.Valid()
    ensures var su := 33 + |r.name| + (if |r.name| % 2 == 0 then 1 else 0);
      && r.Encode()[33..33 + |r.name|] == r.name
      && (if su < r.Length() then r.Encode()[su..r.Length()] else []) == r.systemUse
  {
    hide RawRecord.Fixed;
    var e := r.Encode();
    assert e[33..33 + |r.name|] == r.name;
    assert e[33 + |r.name| + |r.Padding()|..] == r.systemUse;
  }

  function Bodies(rs: seq<RawRecord>): (b: seq<u8>)
    requires forall i :: 0 <= i < |rs| ==> rs[i].Valid()
  {
    if |rs| == 0 then [] else rs[0].Encode() + Bodies(rs[1..])
  }

  function Zeros(n: nat): (b: seq<u8>)
    ensures |b| == n && forall i :: 0 <= i < n ==> b[i] == 0
  {
    seq(n, _ => 0)
  }

  /** Records that fill a sector from its start without crossing its end. */
  predicate FitsSector(rs: seq<RawRecord>) {
    && |rs| > 0
    && (forall i :: 0 <= i < |rs| ==> rs[i].Valid())
    && |Bodies(rs)| <= 2048
  }

  predicate FitsSectors(layout: seq<seq<RawRecord>>) {
    forall i :: 0 <= i < |layout| ==> FitsSector(layout[i])
  }

  /** The sectors of a directory extent, each filled up with zeros. */
  function Pack(layout: seq<seq<RawRecord>>): (b: seq<u8>)
    requires FitsSectors(layout)
  {
    if |layout| == 0 then []
    else Bodies(layout[0]) + (Zeros(2048 - |Bodies(layout[0])|) + Pack(layout[1..]))
  }

  /** What the records say, without the dot entries. */
  function Listed(rs: seq<RawRecord>): seq<DirRecord>
    requires forall i :: 0 <= i < |rs| ==> rs[i].Valid()
  {
    if |rs| == 0 then []
    else (if rs[0].Meaning().IsDot() then [] else [rs[0].Meaning()]) + Listed(rs[1..])
  }

  function AllListed(layout: seq<seq<RawRecord>>): seq<DirRecord>
    requires FitsSectors(layout)
  {
    if |layout| == 0 then [] else Listed(layout[0]) + AllListed(layout[1..])
  }

  /** From `offset` on the buffer holds the rest of a sector, `rs` and k zeros, and then the
      sectors of `more`. */
  ghost predicate Laid(data: seq<u8>, offset: nat, rs: seq<RawRecord>, k: nat, more: seq<seq<RawRecord>>) {
    && (forall i :: 0 <= i < |rs| ==> rs[i].Valid())
    && FitsSectors(more)
    && offset <= |data| && data[offset..] == Bodies(rs) + (Zeros(k) + Pack(more))
    && (offset + |Bodies(rs)| + k) % 2048 == 0 && k < 2048
  }

  lemma {:induction false} PackedFrom(data: seq<u8>, offset: nat, rs: seq<RawRecord>, k: nat, more: seq<seq<RawRecord>>)
    requires Laid(data, offset, rs, k, more)
    requires (forall i :: 0 <= i < |rs| ==> rs[i].Valid()) && FitsSectors(more)
    ensures Advances(data, offset)
    ensures RecordsFrom(data, offset) == Ok(Listed(rs) + AllListed(more))
    decreases |more|, |rs|, k
  {
    hide *;
    if |rs| > 0 {
      RecordLaid(data, offset, rs, k, more);
      ParseEncoded(data, offset, rs[0]);
      var len := rs[0].Length();
      PackedFrom(data, offset + len, rs[1..], k, more);
      ScanRecord(data, offset, rs[0].Meaning(), len);
      ScanGoesOn(data, offset, offset + len, if rs[0].Meaning().IsDot() then [] else [rs[0].Meaning()]);
      ListedStep(rs, AllListed(more));
    } else if k > 0 {
      assert rs == [];
      PaddingLaid(data, offset, k, more);
      PackedFrom(data, offset + k, [], 0, more);
      ScanPadding(data, offset);
    } else if |more| > 0 {
      assert rs == [];
      SectorLaid(data, offset, more);
      ListedSector(more);
      PackedFrom(data, offset, more[0], 2048 - |Bodies(more[0])|, more[1..]);
    } else {
      assert rs == [] && more == [];
      EndLaid(data, offset);
    }
  }

  lemma RecordLaid(data: seq<u8>, offset: nat, rs: seq<RawRecord>, k: nat, more: seq<seq<RawRecord>>)
    requires Laid(data, offset, rs, k, more) && |rs| > 0
    ensures var len := rs[0].Length();
      && rs[0].Valid() && len > 0 && offset + len <= |data| && data[offset..offset + len] == rs[0].Encode()
      && Laid(data, offset + len, rs[1..], k, more)
  {
    hide RawRecord.Encode, RawRecord.Valid, Pack, Zeros, FitsSectors;
    var e, bodies, tail := rs[0].Encode(), Bodies(rs[1..]), Zeros(k) + Pack(more);
    Associate(e, bodies, tail);
    FrontTaken(data, offset, e, bodies + tail);
    assert rs[0].Length() == |e| && |Bodies(rs)| == |e| + |bodies|;
  }

  lemma FrontTaken(data: seq<u8>, offset: nat, e: seq<u8>, tail: seq<u8>)
    requires offset <= |data| && data[offset..] == e + tail
    ensures offset + |e| <= |data| && data[offset..offset + |e|] == e && data[offset + |e|..] == tail
  {
    var rest := data[offset..];
    assert rest[..|e|] == e && rest[|e|..] == tail;
  }

  lemma ListedStep(rs: seq<RawRecord>, others: seq<DirRecord>)
    requires |rs| > 0 && forall i :: 0 <= i < |rs| ==> rs[i].Valid()
    ensures Prepend(if rs[0].Meaning().IsDot() then [] else [rs[0].Meaning()], Ok(Listed(rs[1..]) + others))
         == Ok(Listed(rs) + others)
  {
    var first := if rs[0].Meaning().IsDot() then [] else [rs[0].Meaning()];
    var rest := Listed(rs[1..]);
    assert Listed(rs) == first + rest;
    hide *;
    Associate(first, rest, others);
    PrependIs(first, rest + others);
  }

  lemma PrependIs(records: seq<DirRecord>, rest: seq<DirRecord>)
    ensures Prepend(records, Ok(rest)) == Ok(records + rest)
  {
  }

  lemma Associate<T>(a: seq<T>, b: seq<T>, c: seq<T>)
    ensures a + (b + c) == a + b + c
    ensures [] + a == a
  {
  }

  lemma PaddingLaid(data: seq<u8>, offset: nat, k: nat, more: seq<seq<RawRecord>>)
    requires Laid(data, offset, [], k, more) && k > 0
    ensures offset < |data| && data[offset] == 0 && offset + k <= |data| && k < 2048
    ensures offset % 2048 != 0 && RoundUp(offset) == offset + k && Laid(data, offset + k, [], 0, more)
  {
    hide Pack, Zeros, FitsSectors;
    assert Bodies([]) + (Zeros(k) + Pack(more)) == Zeros(k) + Pack(more);
    FrontTaken(data, offset, Zeros(k), Pack(more));
    assert data[offset] == data[offset..offset + k][0];
    NoZeros(Pack(more));
  }

  lemma NoZeros(b: seq<u8>)
    ensures Bodies([]) + (Zeros(0) + b) == b
  {
  }

  lemma SectorLaid(data: seq<u8>, offset: nat, more: seq<seq<RawRecord>>)
    requires Laid(data, offset, [], 0, more) && |more| > 0
    ensures FitsSectors(more[1..]) && FitsSector(more[0]) && |Bodies(more[0])| <= 2048
    ensures forall i :: 0 <= i < |more[0]| ==> more[0][i].Valid()
    ensures Laid(data, offset, more[0], 2048 - |Bodies(more[0])|, more[1..])
  {
    PackStep(more);
    EmptyHead(data, offset, more);
    BodiesNonEmpty(more[0]);
    hide Bodies, Zeros, Pack;
  }

  lemma EmptyHead(data: seq<u8>, offset: nat, more: seq<seq<RawRecord>>)
    requires Laid(data, offset, [], 0, more)
    ensures offset % 2048 == 0 && data[offset..] == Pack(more)
  {
    hide Pack;
    assert [] + (Zeros(0) + Pack(more)) == Pack(more);
  }

  lemma PackStep(more: seq<seq<RawRecord>>)
    requires FitsSectors(more) && |more| > 0
    ensures Pack(more) == Bodies(more[0]) + (Zeros(2048 - |Bodies(more[0])|) + Pack(more[1..]))
  {
    hide Bodies, Zeros;
  }

  lemma ListedSector(more: seq<seq<RawRecord>>)
    requires FitsSectors(more) && |more| > 0
    ensures Listed([]) + AllListed(more) == Listed(more[0]) + AllListed(more[1..])
  {
    Associate(AllListed(more), [], []);
  }

  lemma BodiesNonEmpty(rs: seq<RawRecord>)
    requires |rs| > 0 && forall i :: 0 <= i < |rs| ==> rs[i].Valid()
    ensures |Bodies(rs)| > 0
  {
  }

  lemma EndLaid(data: seq<u8>, offset: nat)
    requires Laid(data, offset, [], 0, [])
    ensures Advances(data, offset) && RecordsFrom(data, offset) == Ok(Listed([]) + AllListed([]))
  {
    assert data[offset..] == [];
  }

  /** Packing any list of records into sectors and parsing gives back the records. */
  lemma PackedRoundTrip(layout: seq<seq<RawRecord>>)
    requires FitsSectors(layout)
    ensures Advances(Pack(layout), 0)
    ensures RecordsFrom(Pack(layout), 0) == Ok(AllListed(layout))
  {
    var data := Pack(layout);
    assert data[0..] == Bodies([]) + (Zeros(0) + Pack(layout));
    assert Laid(data, 0, [], 0, layout);
    hide *;
    PackedFrom(data, 0, [], 0, layout);
    ListedNone(layout);
  }

  lemma ListedNone(layout: seq<seq<RawRecord>>)
    requires FitsSectors(layout)
    ensures Listed([]) + AllListed(layout) == AllListed(layout)
  {
  }
}
