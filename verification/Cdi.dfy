/** The DiscJuggler descriptor (core/src/cdi.rs): a self-delimiting table of sessions and tracks. */
module Cdi {
  import opened Wrappers
  import opened Bytes

  datatype TrackKind = Audio | Mode1 | Mode2Formless

  datatype CdiTrack = CdiTrack(
    session: nat, sequence: nat, kind: TrackKind, startSector: u32, lengthSectors: u32,
    bytesPerSector: nat, rawBytesPerSector: nat)

  // ---- the parser as functions ------------------------------------------------------------

  /** The fifteen bytes of a session header; byte 1 is the number of tracks. */
  function SessionHeader(tracks: u8): seq<u8> {
    [0, tracks, 0, 0, 0, 0, 0, 0, 0, 1, 0, 0, 0, 0xFF, 0xFF]
  }

  predicate IsSessionHeader(d: seq<u8>, p: nat) {
    p + 15 <= |d| && d[p..p + 15] == SessionHeader(d[p + 1])
  }

  function ReadLe16(d: seq<u8>, p: nat): nat
    requires p + 2 <= |d|
  {
    var lo: nat, hi: nat := d[p], d[p + 1];
    lo + 0x100 * hi
  }

  function RdU16(d: seq<u8>, p: nat): Option<nat> {
    if p + 2 <= |d| then Some(ReadLe16(d, p)) else None
  }

  function RdU32(d: seq<u8>, p: nat): Option<u32> {
    if p + 4 <= |d| then Some(ReadLe32(d, p)) else None
  }

  function SaturatingSub(a: u32, b: u32): u32 {
    if a >= b then a - b else 0
  }

  /** Kind, logical sector size and stored sector size of the accepted mode pairs. */
  function DecodeMode(trackMode: u32, readMode: u32): Option<(TrackKind, nat, nat)> {
    match trackMode
    case 0 =>
      if 2 <= readMode <= 4 then Some((Audio, 2352, 2352)) else None
    case 1 =>
      if readMode == 0 then Some((Mode1, 2048, 2048))
      else if 2 <= readMode <= 4 then Some((Mode1, 2048, 2352)) else None
    case 2 =>
      if readMode == 1 then Some((Mode2Formless, 2336, 2336))
      else if 2 <= readMode <= 4 then Some((Mode2Formless, 2336, 2352)) else None
    case _ => None
  }

  /** The first track's pregap is counted from sector 0: the start is moved back, or the length
      cut where the start is 0. */
  function Normalised(start: u32, len: u32): (u32, u32) {
    if start == 0 then (0, SaturatingSub(len, 150)) else (SaturatingSub(start, 150), len)
  }

  /** Either way the end of the track moves back by the 150 sectors of the pregap. */
  lemma EndMovesBack(start: u32, len: u32)
    requires start >= 150 || (start == 0 && len >= 150)
    ensures var (s, l) := Normalised(start, len); s + l + 150 == start + len
  {
  }

  /** A start of 0 stays and the length is cut; any other start is moved back and the length stays;
      neither goes below 0. */
  lemma PregapTaken(start: u32, len: u32)
    ensures var (s, l) := Normalised(start, len);
      && (start == 0 ==> s == 0 && l == Max(len - 150, 0))
      && (start > 0 ==> s == Max(start - 150, 0) && l == len)
  {
  }

  function Max(a: int, b: int): int {
    if a < b then b else a
  }

  /** What the accepted mode pairs stand for: kind, logical and stored sector size. */
  const MODES: map<(nat, nat), (TrackKind, nat, nat)> := map[
    (0, 2) := (Audio, 2352, 2352), (0, 3) := (Audio, 2352, 2352), (0, 4) := (Audio, 2352, 2352),
    (1, 0) := (Mode1, 2048, 2048),
    (1, 2) := (Mode1, 2048, 2352), (1, 3) := (Mode1, 2048, 2352), (1, 4) := (Mode1, 2048, 2352),
    (2, 1) := (Mode2Formless, 2336, 2336),
    (2, 2) := (Mode2Formless, 2336, 2352), (2, 3) := (Mode2Formless, 2336, 2352), (2, 4) := (Mode2Formless, 2336, 2352)
  ]

  /** Exactly the mode pairs of the table are accepted, with its meanings. */
  lemma ModesAccepted(trackMode: u32, readMode: u32)
    ensures DecodeMode(trackMode, readMode) ==
      if (trackMode, readMode) in MODES then Some(MODES[(trackMode, readMode)]) else None
  {
  }

  /** The fifteen bytes of a session header, byte by byte. */
  lemma HeaderBytes(d: seq<u8>, p: nat)
    ensures IsSessionHeader(d, p) <==>
      && p + 15 <= |d|
      && d[p] == 0 && d[p + 2] == 0 && d[p + 3] == 0 && d[p + 4] == 0 && d[p + 5] == 0 && d[p + 6] == 0
      && d[p + 7] == 0 && d[p + 8] == 0 && d[p + 9] == 1 && d[p + 10] == 0 && d[p + 11] == 0 && d[p + 12] == 0
      && d[p + 13] == 0xFF && d[p + 14] == 0xFF
  {
    if p + 15 <= |d| {
      var h, w := SessionHeader(d[p + 1]), d[p..p + 15];
      assert w == [d[p], d[p + 1], d[p + 2], d[p + 3], d[p + 4], d[p + 5], d[p + 6], d[p + 7], d[p + 8],
                   d[p + 9], d[p + 10], d[p + 11], d[p + 12], d[p + 13], d[p + 14]];
    }
  }

  /** The position after n length-prefixed blocks. */
  function SkipBlocks(d: seq<u8>, p: nat, n: nat): Option<nat>
    decreases n
  {
    if n == 0 then Some(p)
    else if p >= |d| then None
    else SkipBlocks(d, p + 1 + d[p], n - 1)
  }

  const TAIL: nat := 174

  /** The fixed part of a track record, from after the CD-Text on. */
  function TailAt(d: seq<u8>, p: nat, session: nat, sequence: nat): Option<(CdiTrack, nat)> {
    if p + TAIL > |d| then None
    else
      var (start, len) := Normalised(ReadLe32(d, p + 18), ReadLe32(d, p + 22));
      match DecodeMode(ReadLe32(d, p + 2), ReadLe32(d, p + 42))
      case None => None
      case Some(m) => Some((CdiTrack(session, sequence, m.0, start, len, m.1, m.2), p + TAIL))
  }

  /** The track record at `p`, and the position after it. */
  function TrackAt(d: seq<u8>, p: nat, session: nat, sequence: nat): Option<(CdiTrack, nat)> {
    if p + 16 >= |d| then None
    else
      var named := p + 17 + d[p + 16] + 31;
      if named + 2 > |d| then None
      else
        var indexed := named + 2 + 4 * ReadLe16(d, named);
        if indexed + 4 > |d| then None
        else match SkipBlocks(d, indexed + 4, 18 * ReadLe32(d, indexed))
          case None => None
          case Some(tail) => TailAt(d, tail, session, sequence)
  }

  /** The n track records of a session from `p` on, added to the tracks so far. */
  function TracksFrom(d: seq<u8>, p: nat, n: nat, session: nat, tracks: seq<CdiTrack>): Option<(seq<CdiTrack>, nat)>
    decreases n
  {
    if n == 0 then Some((tracks, p))
    else match TrackAt(d, p, session, |tracks| + 1)
      case None => None
      case Some(t) => TracksFrom(d, t.1, n - 1, session, tracks + [t.0])
  }

  /** The sessions from `p` on, at most n of them. */
  function SessionsFrom(d: seq<u8>, p: nat, n: nat, session: nat, tracks: seq<CdiTrack>): Option<seq<CdiTrack>>
    decreases n
  {
    if n == 0 || !IsSessionHeader(d, p) then Some(tracks)
    else if d[p + 1] > 99 then None
    else match TracksFrom(d, p + 15, d[p + 1], session + 1, tracks)
      case None => None
      case Some(t) => SessionsFrom(d, t.1, n - 1, session + 1, t.0)
  }

  /** The track table of a descriptor. */
  function TrackTable(d: seq<u8>): Option<seq<CdiTrack>> {
    if |d| == 0 || d[0] == 0 || d[0] > 99 then None
    else match SessionsFrom(d, 1, d[0] as nat + 1, 0, [])
      case None => None
      case Some(tracks) => if |tracks| == 0 then None else Some(tracks)
  }

  // ---- the parser ----------------------------------------------------------------------------

  /** Skips n groups of eighteen length-prefixed blocks. */
  method SkipGroups(d: seq<u8>, from: nat, groups: nat) returns (r: Option<nat>)
    ensures r == SkipBlocks(d, from, 18 * groups)
  {
    var p: nat := from;
    for c := 0 to groups
      invariant SkipBlocks(d, from, 18 * groups) == SkipBlocks(d, p, 18 * (groups - c))
    {
      for b := 0 to 18
        invariant SkipBlocks(d, from, 18 * groups) == SkipBlocks(d, p, 18 * (groups - c) - b)
      {
        if p >= |d| {
          return None;
        }
        var len: nat := d[p];
        p := p + 1;
        if len > 0 {
          p := p + len;
        }
      }
    }
    return Some(p);
  }

  /** One track record, read field by field. */
  method ParseTrack(d: seq<u8>, pos: nat, session: nat, sequence: nat) returns (r: Option<(CdiTrack, nat)>)
    ensures r == TrackAt(d, pos, session, sequence)
  {
    hide SkipBlocks, ReadLe32, ReadLe16, SaturatingSub, DecodeMode;
    var p: nat := pos + 16;
    if p >= |d| {
      return None;
    }
    var flen: nat := d[p];
    p := p + 1 + flen + 29;
    var mediumType := RdU16(d, p);
    if mediumType.None? {
      return None;
    }
    p := p + 2;
    var maxI := RdU16(d, p);
    if maxI.None? {
      return None;
    }
    p := p + 2 + maxI.value * 4;
    var maxC := RdU32(d, p);
    if maxC.None? {
      return None;
    }
    var skipped := SkipGroups(d, p + 4, maxC.value);
    if skipped.None? {
      return None;
    }
    r := ParseTail(d, skipped.value, session, sequence);
  }

  method ParseTail(d: seq<u8>, tail: nat, session: nat, sequence: nat) returns (r: Option<(CdiTrack, nat)>)
    ensures r == TailAt(d, tail, session, sequence)
  {
    hide ReadLe32, SaturatingSub, DecodeMode;
    var p: nat := tail + 2;
    var trackMode := RdU32(d, p);
    p := p + 4 + 4;
    var sessionSeq := RdU32(d, p);
    p := p + 4;
    var trackSeq := RdU32(d, p);
    p := p + 4;
    var startField := RdU32(d, p);
    p := p + 4;
    var lenField := RdU32(d, p);
    if trackMode.None? || sessionSeq.None? || trackSeq.None? || startField.None? || lenField.None? {
      return None;
    }
    var startSector, trackLen := startField.value, lenField.value;
    if startSector == 0 {
      trackLen := SaturatingSub(trackLen, 150);
    } else {
      startSector := SaturatingSub(startSector, 150);
    }
    p := p + 4 + 16;
    var readMode := RdU32(d, p);
    p := p + 4;
    var trackCtl := RdU32(d, p);
    p := p + 4 + 9 + 12;
    var isrcValid := RdU32(d, p);
    p := p + 4 + 87;
    if readMode.None? || trackCtl.None? || isrcValid.None? || p >= |d| {
      return None;
    }
    p := p + 1 + 5;
    if p >= |d| {
      return None;
    }
    p := p + 2;
    var endAddress := RdU32(d, p);
    if endAddress.None? {
      return None;
    }
    p := p + 4;
    var mode := DecodeMode(trackMode.value, readMode.value);
    if mode.None? {
      return None;
    }
    var (kind, bytes, raw) := mode.value;
    return Some((CdiTrack(session, sequence, kind, startSector, trackLen, bytes, raw), p));
  }

  /** The track table of a descriptor, session by session. */
  method ParseDescriptor(d: seq<u8>) returns (r: Option<seq<CdiTrack>>)
    ensures r == TrackTable(d)
  {
    hide TrackAt, IsSessionHeader;
    if |d| == 0 {
      return None;
    }
    var maxS: nat := d[0];
    if maxS == 0 || maxS > 99 {
      return None;
    }
    var pos: nat := 1;
    var tracks: seq<CdiTrack> := [];
    var sessionNo: nat := 0;
    ghost var whole := SessionsFrom(d, 1, maxS + 1, 0, []);
    var s: nat := 0;
    while s < maxS + 1
      invariant s <= maxS + 1
      invariant SessionsFrom(d, pos, maxS + 1 - s, sessionNo, tracks) == whole
    {
      if !IsSessionHeader(d, pos) {
        // The scan for a later header only tells whether one is there: either way the walk ends.
        var found := false;
        while pos + 16 < |d|
          invariant whole == Some(tracks)
        {
          if IsSessionHeader(d, pos) {
            found := true;
            break;
          }
          pos := pos + 1;
        }
        return if |tracks| == 0 then None else Some(tracks);
      }
      HeaderFits(d, pos);
      var maxT: nat := d[pos + 1];
      if maxT > 99 {
        return None;
      }
      sessionNo := sessionNo + 1;
      pos := pos + 15;
      ghost var session := TracksFrom(d, pos, maxT, sessionNo, tracks);
      for t := 0 to maxT
        invariant TracksFrom(d, pos, maxT - t, sessionNo, tracks) == session
      {
        var track := ParseTrack(d, pos, sessionNo, |tracks| + 1);
        if track.None? {
          return None;
        }
        tracks := tracks + [track.value.0];
        pos := track.value.1;
      }
      s := s + 1;
    }
    return if |tracks| == 0 then None else Some(tracks);
  }

  lemma HeaderFits(d: seq<u8>, p: nat)
    requires IsSessionHeader(d, p)
    ensures p + 15 <= |d|
  {
  }

  // ---- the encoder ----------------------------------------------------------------------------

  function Le16(x: nat): seq<u8>
    requires x < 0x1_0000
  {
    [Byte(x), Byte(x / 0x100)]
  }

  /** A track record: the fields the parser takes something from, and the bytes it skips. */
  datatype RawTrack = RawTrack(
    lead: seq<u8>, name: seq<u8>, gap: seq<u8>, indexes: seq<u8>, texts: seq<seq<u8>>,
    a: seq<u8>, trackMode: u32, b: seq<u8>, start: u32, len: u32, c: seq<u8>, readMode: u32, e: seq<u8>)
  {
    predicate WellFormed() {
      && |lead| == 16 && |name| < 0x100 && |gap| == 31
      && |indexes| % 4 == 0 && |indexes| / 4 < 0x1_0000
      && |texts| % 18 == 0 && |texts| / 18 < 0x1_0000_0000
      && (forall i :: 0 <= i < |texts| ==> |texts[i]| < 0x100)
      && |a| == 2 && |b| == 12 && |c| == 16 && |e| == 128
    }

    /** The mode pair is one of the accepted ones. */
    predicate Accepted() {
      DecodeMode(trackMode, readMode).Some?
    }

    function Tail(): (t: seq<u8>)
      requires WellFormed()
      ensures |t| == TAIL
    {
      a + (Le32(trackMode) + (b + (Le32(start) + (Le32(len) + (c + (Le32(readMode) + e))))))
    }

    function Encode(): seq<u8>
      requires WellFormed()
    {
      lead + ([|name| as u8] + (name + (gap + Counted())))
    }

    /** From the index count on. */
    function Counted(): seq<u8>
      requires WellFormed()
    {
      Le16(|indexes| / 4) + (indexes + (Le32(|texts| / 18) + (EncodeBlocks(texts) + Tail())))
    }

    function Meaning(session: nat, sequence: nat): CdiTrack
      requires WellFormed() && Accepted()
    {
      var (start', len') := Normalised(start, len);
      var m := DecodeMode(trackMode, readMode).value;
      CdiTrack(session, sequence, m.0, start', len', m.1, m.2)
    }
  }

  function EncodeBlocks(blocks: seq<seq<u8>>): seq<u8>
    requires forall i :: 0 <= i < |blocks| ==> |blocks[i]| < 0x100
  {
    if |blocks| == 0 then []
    else ([|blocks[0]| as u8] + blocks[0]) + EncodeBlocks(blocks[1..])
  }

  /** The bytes `x` stand at `p`. */
  predicate Stands(d: seq<u8>, p: nat, x: seq<u8>) {
    p + |x| <= |d| && d[p..p + |x|] == x
  }

  lemma Parts(d: seq<u8>, p: nat, x: seq<u8>, y: seq<u8>)
    requires Stands(d, p, x + y)
    ensures Stands(d, p, x) && Stands(d, p + |x|, y)
  {
    var w := d[p..p + |x| + |y|];
    assert d[p..p + |x|] == w[..|x|] == x;
    assert d[p + |x|..p + |x| + |y|] == w[|x|..] == y;
  }

  lemma StandsLe32(d: seq<u8>, p: nat, x: u32)
    requires Stands(d, p, Le32(x))
    ensures ReadLe32(d, p) == x
  {
    hide Le32, ReadLe32;
    ReadsWhatWasWritten(d, p, x);
  }

  lemma StandsLe16(d: seq<u8>, p: nat, x: nat)
    requires x < 0x1_0000 && Stands(d, p, Le16(x))
    ensures ReadLe16(d, p) == x
  {
    assert d[p..p + 2][0] == d[p] && d[p..p + 2][1] == d[p + 1];
    assert x == x % 0x100 + 0x100 * (x / 0x100);
  }

  lemma {:induction false} BlocksSkipped(d: seq<u8>, p: nat, blocks: seq<seq<u8>>)
    requires forall i :: 0 <= i < |blocks| ==> |blocks[i]| < 0x100
    requires Stands(d, p, EncodeBlocks(blocks))
    ensures SkipBlocks(d, p, |blocks|) == Some(p + |EncodeBlocks(blocks)|)
    decreases |blocks|
  {
    hide Stands;
    if |blocks| > 0 {
      var head := [|blocks[0]| as u8];
      Parts(d, p, head + blocks[0], EncodeBlocks(blocks[1..]));
      Parts(d, p, head, blocks[0]);
      FirstByte(d, p, |blocks[0]| as u8);
      BlocksSkipped(d, p + 1 + |blocks[0]|, blocks[1..]);
    }
  }

  lemma FirstByte(d: seq<u8>, p: nat, b: u8)
    requires Stands(d, p, [b])
    ensures p < |d| && d[p] == b
  {
    assert d[p..p + 1][0] == d[p];
  }

  lemma TailParsed(d: seq<u8>, p: nat, t: RawTrack, session: nat, sequence: nat)
    requires t.WellFormed() && Stands(d, p, t.Tail())
    ensures TailAt(d, p, session, sequence) ==
      if t.Accepted() then Some((t.Meaning(session, sequence), p + TAIL)) else None
  {
    hide ReadLe32, Le32, DecodeMode, SaturatingSub;
    assert p + TAIL <= |d|;
    hide Stands;
    var g := Le32(t.readMode) + t.e;
    var f := t.c + g;
    var e := Le32(t.len) + f;
    var c := Le32(t.start) + e;
    var b := t.b + c;
    var a := Le32(t.trackMode) + b;
    Parts(d, p, t.a, a);
    Parts(d, p + 2, Le32(t.trackMode), b);
    Parts(d, p + 6, t.b, c);
    Parts(d, p + 18, Le32(t.start), e);
    Parts(d, p + 22, Le32(t.len), f);
    Parts(d, p + 26, t.c, g);
    Parts(d, p + 42, Le32(t.readMode), t.e);
    StandsLe32(d, p + 2, t.trackMode);
    StandsLe32(d, p + 18, t.start);
    StandsLe32(d, p + 22, t.len);
    StandsLe32(d, p + 42, t.readMode);
  }

  lemma NameOfTrack(d: seq<u8>, p: nat, t: RawTrack)
    requires t.WellFormed() && Stands(d, p, t.Encode())
    ensures Stands(d, p + 16, [|t.name| as u8]) && Stands(d, p + 48 + |t.name|, t.Counted())
    ensures |t.Encode()| == 48 + |t.name| + |t.Counted()|
  {
    hide RawTrack.Counted, Stands, DecodeMode;
    var n := |t.name|;
    var c := t.gap + t.Counted();
    var b := t.name + c;
    Parts(d, p, t.lead, [n as u8] + b);
    Parts(d, p + 16, [n as u8], b);
    Parts(d, p + 17, t.name, c);
    Parts(d, p + 17 + n, t.gap, t.Counted());
  }

  /** Where the counted parts of a record and its tail stand. */
  lemma CountsOfTrack(d: seq<u8>, named: nat, t: RawTrack)
    requires t.WellFormed() && Stands(d, named, t.Counted())
    ensures var indexed := named + 2 + |t.indexes|;
      && Stands(d, named, Le16(|t.indexes| / 4))
      && Stands(d, indexed, Le32(|t.texts| / 18))
      && Stands(d, indexed + 4, EncodeBlocks(t.texts))
      && Stands(d, indexed + 4 + |EncodeBlocks(t.texts)|, t.Tail())
      && |t.Counted()| == 6 + |t.indexes| + |EncodeBlocks(t.texts)| + TAIL
  {
    hide Le32, Le16, RawTrack.Tail, EncodeBlocks, Stands, DecodeMode;
    var h := EncodeBlocks(t.texts) + t.Tail();
    var g := Le32(|t.texts| / 18) + h;
    LengthLe16(|t.indexes| / 4);
    Parts(d, named, Le16(|t.indexes| / 4), t.indexes + g);
    Parts(d, named + 2, t.indexes, g);
    Parts(d, named + 2 + |t.indexes|, Le32(|t.texts| / 18), h);
    Parts(d, named + 6 + |t.indexes|, EncodeBlocks(t.texts), t.Tail());
  }

  /** A track record read where it stands gives its meaning, and the parser goes on exactly after it;
      it is refused if its mode pair is not accepted. */
  lemma TrackParsed(d: seq<u8>, p: nat, t: RawTrack, session: nat, sequence: nat)
    requires t.WellFormed() && Stands(d, p, t.Encode())
    ensures TrackAt(d, p, session, sequence) ==
      if t.Accepted() then Some((t.Meaning(session, sequence), p + |t.Encode()|)) else None
  {
    hide ReadLe32, ReadLe16, Le32, Le16, Stands, Normalised, DecodeMode;
    hide RawTrack.Encode, RawTrack.Tail, RawTrack.Meaning, TailAt, EncodeBlocks, SkipBlocks;
    hide RawTrack.Counted;
    var named := p + 48 + |t.name|;
    NameOfTrack(d, p, t);
    CountsOfTrack(d, named, t);
    var indexed := named + 2 + |t.indexes|;
    FirstByte(d, p + 16, |t.name| as u8);
    LengthLe16(|t.indexes| / 4);
    Inside(d, named, Le16(|t.indexes| / 4));
    StandsLe16(d, named, |t.indexes| / 4);
    Inside(d, indexed, Le32(|t.texts| / 18));
    StandsLe32(d, indexed, |t.texts| / 18);
    BlocksSkipped(d, indexed + 4, t.texts);
    TailParsed(d, indexed + 4 + |EncodeBlocks(t.texts)|, t, session, sequence);
  }

  lemma LengthLe16(x: nat)
    requires x < 0x1_0000
    ensures |Le16(x)| == 2
  {
  }

  lemma Inside(d: seq<u8>, p: nat, x: seq<u8>)
    requires Stands(d, p, x)
    ensures p + |x| <= |d|
  {
  }

  // ---- whole descriptors ------------------------------------------------------------------------

  type Session = seq<RawTrack>

  predicate SessionFits(s: Session) {
    |s| <= 99 && AllAccepted(s)
  }

  predicate AllAccepted(s: Session) {
    forall i :: 0 <= i < |s| ==> s[i].WellFormed() && s[i].Accepted()
  }

  function EncodeTracks(s: Session): seq<u8>
    requires AllAccepted(s)
  {
    if |s| == 0 then [] else s[0].Encode() + EncodeTracks(s[1..])
  }

  function EncodeSessions(sessions: seq<Session>): seq<u8>
    requires forall i :: 0 <= i < |sessions| ==> SessionFits(sessions[i])
  {
    if |sessions| == 0 then []
    else
      assert SessionFits(sessions[0]);
      SessionHeader(|sessions[0]| as u8) + (EncodeTracks(sessions[0]) + EncodeSessions(sessions[1..]))
  }

  /** The tracks of a session, numbered from `sequence` on. */
  function MeaningOfTracks(s: Session, session: nat, sequence: nat): seq<CdiTrack>
    requires AllAccepted(s)
  {
    if |s| == 0 then [] else [s[0].Meaning(session, sequence)] + MeaningOfTracks(s[1..], session, sequence + 1)
  }

  /** The tracks of all sessions in order; sessions are numbered from `session`, tracks on
      through all of them from `sequence`. */
  function MeaningOf(sessions: seq<Session>, session: nat, sequence: nat): seq<CdiTrack>
    requires forall i :: 0 <= i < |sessions| ==> SessionFits(sessions[i])
  {
    if |sessions| == 0 then []
    else
      assert SessionFits(sessions[0]);
      MeaningOfTracks(sessions[0], session, sequence) + MeaningOf(sessions[1..], session + 1, sequence + |sessions[0]|)
  }

  lemma {:induction false} TracksParsed(d: seq<u8>, p: nat, s: Session, session: nat, before: seq<CdiTrack>)
    requires AllAccepted(s)
    requires Stands(d, p, EncodeTracks(s))
    ensures TracksFrom(d, p, |s|, session, before) ==
      Some((before + MeaningOfTracks(s, session, |before| + 1), p + |EncodeTracks(s)|))
    decreases |s|
  {
    hide Stands, TrackAt, RawTrack.Encode, RawTrack.Meaning, RawTrack.WellFormed;
    if |s| > 0 {
      var t := s[0].Meaning(session, |before| + 1);
      Parts(d, p, s[0].Encode(), EncodeTracks(s[1..]));
      TrackParsed(d, p, s[0], session, |before| + 1);
      TracksParsed(d, p + |s[0].Encode()|, s[1..], session, before + [t]);
      assert before + [t] + MeaningOfTracks(s[1..], session, |before| + 2)
          == before + ([t] + MeaningOfTracks(s[1..], session, |before| + 2));
    } else {
      assert before + MeaningOfTracks(s, session, |before| + 1) == before;
    }
  }

  lemma {:induction false} MeaningLength(s: Session, session: nat, sequence: nat)
    requires AllAccepted(s)
    ensures |MeaningOfTracks(s, session, sequence)| == |s|
  {
    if |s| > 0 {
      MeaningLength(s[1..], session, sequence + 1);
    }
  }

  lemma HeaderStands(d: seq<u8>, p: nat, tracks: u8)
    requires Stands(d, p, SessionHeader(tracks))
    ensures IsSessionHeader(d, p) && d[p + 1] == tracks
  {
    assert d[p..p + 15][1] == d[p + 1];
  }

  lemma {:induction false} SessionsParsed(d: seq<u8>, p: nat, sessions: seq<Session>, n: nat, session: nat,
      before: seq<CdiTrack>)
    requires forall i :: 0 <= i < |sessions| ==> SessionFits(sessions[i])
    requires Stands(d, p, EncodeSessions(sessions)) && |sessions| <= n
    requires |sessions| < n ==> !IsSessionHeader(d, p + |EncodeSessions(sessions)|)
    ensures SessionsFrom(d, p, n, session, before) == Some(before + MeaningOf(sessions, session + 1, |before| + 1))
    decreases |sessions|
  {
    hide Stands, IsSessionHeader, SessionHeader, RawTrack.WellFormed, TracksFrom, EncodeTracks, MeaningOfTracks;
    if |sessions| > 0 {
      var s := sessions[0];
      var header := SessionHeader(|s| as u8);
      HeaderLength(|s| as u8);
      Parts(d, p, header, EncodeTracks(s) + EncodeSessions(sessions[1..]));
      Parts(d, p + 15, EncodeTracks(s), EncodeSessions(sessions[1..]));
      HeaderStands(d, p, |s| as u8);
      TracksParsed(d, p + 15, s, session + 1, before);
      MeaningLength(s, session + 1, |before| + 1);
      var here := MeaningOfTracks(s, session + 1, |before| + 1);
      SessionsParsed(d, p + 15 + |EncodeTracks(s)|, sessions[1..], n - 1, session + 1, before + here);
      var rest := MeaningOf(sessions[1..], session + 2, |before| + 1 + |s|);
      assert before + here + rest == before + (here + rest);
    } else {
      assert before + MeaningOf(sessions, session + 1, |before| + 1) == before;
    }
  }

  lemma HeaderLength(tracks: u8)
    ensures |SessionHeader(tracks)| == 15
  {
  }

  lemma {:induction false} HasTracks(sessions: seq<Session>, session: nat, sequence: nat)
    requires forall i :: 0 <= i < |sessions| ==> SessionFits(sessions[i])
    ensures MeaningOf(sessions, session, sequence) == [] <==> forall i :: 0 <= i < |sessions| ==> sessions[i] == []
  {
    hide SessionFits;
    if |sessions| > 0 {
      HasTracks(sessions[1..], session + 1, sequence + |sessions[0]|);
      LengthOfFirst(sessions[0], session, sequence);
      assert forall i :: 0 <= i < |sessions| - 1 ==> sessions[1..][i] == sessions[i + 1];
    }
  }

  lemma LengthOfFirst(s: Session, session: nat, sequence: nat)
    requires SessionFits(s)
    ensures |MeaningOfTracks(s, session, sequence)| == |s|
  {
    MeaningLength(s, session, sequence);
  }

  /** Round trip: a descriptor of any sessions and tracks, followed by bytes that do not go on
      with a further session, parses to those tracks in order, or to nothing if there are none. */
  lemma RoundTrip(maxSessions: u8, sessions: seq<Session>, rest: seq<u8>)
    requires 1 <= maxSessions <= 99 && |sessions| <= maxSessions + 1
    requires forall i :: 0 <= i < |sessions| ==> SessionFits(sessions[i])
    requires |sessions| <= maxSessions ==>
      !IsSessionHeader([maxSessions] + EncodeSessions(sessions) + rest, 1 + |EncodeSessions(sessions)|)
    ensures TrackTable([maxSessions] + EncodeSessions(sessions) + rest) ==
      if forall i :: 0 <= i < |sessions| ==> sessions[i] == [] then None else Some(MeaningOf(sessions, 1, 1))
  {
    hide SessionFits, EncodeSessions, IsSessionHeader, MeaningOf, SessionsFrom;
    var body := EncodeSessions(sessions);
    var d := [maxSessions] + body + rest;
    assert d[1..1 + |body|] == body;
    SessionsParsed(d, 1, sessions, maxSessions as nat + 1, 0, []);
    var none: seq<CdiTrack> := [];
    assert none + MeaningOf(sessions, 1, 1) == MeaningOf(sessions, 1, 1);
    HasTracks(sessions, 1, 1);
  }

  // ---- descriptors that are refused -------------------------------------------------------------

  /** A count of sessions out of range is refused. */
  lemma SessionCountRefused(d: seq<u8>)
    requires |d| == 0 || d[0] == 0 || d[0] > 99
    ensures TrackTable(d).None?
  {
  }

  lemma {:induction false} TracksStop(d: seq<u8>, p: nat, good: Session, n: nat, session: nat, before: seq<CdiTrack>)
    requires AllAccepted(good) && |good| < n && Stands(d, p, EncodeTracks(good))
    requires TrackAt(d, p + |EncodeTracks(good)|, session, |before| + |good| + 1).None?
    ensures TracksFrom(d, p, n, session, before).None?
    decreases |good|
  {
    hide Stands, TrackAt, RawTrack.Encode, RawTrack.Meaning, RawTrack.WellFormed, RawTrack.Accepted;
    if |good| > 0 {
      assert good[0].WellFormed() && good[0].Accepted();
      var t := good[0].Meaning(session, |before| + 1);
      Parts(d, p, good[0].Encode(), EncodeTracks(good[1..]));
      TrackParsed(d, p, good[0], session, |before| + 1);
      TracksStop(d, p + |good[0].Encode()|, good[1..], n - 1, session, before + [t]);
    }
  }

  /** No track record can be read there. */
  predicate NoTrackAt(d: seq<u8>, p: nat) {
    TrackAt(d, p, 0, 0).None?
  }

  lemma NoTrackWhatever(d: seq<u8>, p: nat, session: nat, sequence: nat)
    ensures NoTrackAt(d, p) <==> TrackAt(d, p, session, sequence).None?
  {
    hide DecodeMode, Normalised, ReadLe32, SkipBlocks;
  }

  /** Where a session's tracks cannot all be read, or there are more than 99, the rest of the
      descriptor gives nothing. */
  lemma {:induction false} SessionsStop(d: seq<u8>, p: nat, sessions: seq<Session>, good: Session, n: nat,
      session: nat, before: seq<CdiTrack>)
    requires forall i :: 0 <= i < |sessions| ==> SessionFits(sessions[i])
    requires AllAccepted(good) && |sessions| < n && Stands(d, p, EncodeSessions(sessions))
    requires IsSessionHeader(d, p + |EncodeSessions(sessions)|)
    requires var at := p + |EncodeSessions(sessions)|;
      d[at + 1] > 99
      || (|good| < d[at + 1] && Stands(d, at + 15, EncodeTracks(good))
          && NoTrackAt(d, at + 15 + |EncodeTracks(good)|))
    ensures SessionsFrom(d, p, n, session, before).None?
    decreases |sessions|
  {
    hide Stands, SessionHeader, IsSessionHeader, RawTrack.WellFormed, RawTrack.Accepted, TracksFrom, TrackAt;
    hide EncodeTracks, MeaningOfTracks, AllAccepted, NoTrackAt;
    if |sessions| > 0 {
      var s := sessions[0];
      assert SessionFits(s);
      var header := SessionHeader(|s| as u8);
      HeaderLength(|s| as u8);
      Parts(d, p, header, EncodeTracks(s) + EncodeSessions(sessions[1..]));
      Parts(d, p + 15, EncodeTracks(s), EncodeSessions(sessions[1..]));
      HeaderStands(d, p, |s| as u8);
      TracksParsed(d, p + 15, s, session + 1, before);
      MeaningLength(s, session + 1, |before| + 1);
      var here := MeaningOfTracks(s, session + 1, |before| + 1);
      assert p + 15 + |EncodeTracks(s)| + |EncodeSessions(sessions[1..])| == p + |EncodeSessions(sessions)|;
      SessionsStop(d, p + 15 + |EncodeTracks(s)|, sessions[1..], good, n - 1, session + 1, before + here);
    } else {
      HeaderFits(d, p);
      if d[p + 1] <= 99 {
        NoTrackWhatever(d, p + 15 + |EncodeTracks(good)|, session + 1, |before| + |good| + 1);
        TracksStop(d, p + 15, good, d[p + 1], session + 1, before);
      }
    }
  }

  /** A descriptor is refused as a whole when a session names more than 99 tracks, or one of its track
      records is cut off or has a mode pair that is not accepted. */
  lemma BadSessionRefused(maxSessions: u8, sessions: seq<Session>, good: Session, rest: seq<u8>)
    requires 1 <= maxSessions <= 99 && |sessions| <= maxSessions
    requires forall i :: 0 <= i < |sessions| ==> SessionFits(sessions[i])
    requires AllAccepted(good)
    requires var d := [maxSessions] + EncodeSessions(sessions) + rest;
      var at := 1 + |EncodeSessions(sessions)|;
      && IsSessionHeader(d, at)
      && (d[at + 1] > 99
          || (|good| < d[at + 1] && Stands(d, at + 15, EncodeTracks(good))
              && NoTrackAt(d, at + 15 + |EncodeTracks(good)|)))
    ensures TrackTable([maxSessions] + EncodeSessions(sessions) + rest).None?
  {
    hide SessionFits, EncodeSessions, IsSessionHeader, SessionsFrom, NoTrackAt, AllAccepted, EncodeTracks;
    var body := EncodeSessions(sessions);
    var d := [maxSessions] + body + rest;
    assert d[1..1 + |body|] == body;
    SessionsStop(d, 1, sessions, good, maxSessions as nat + 1, 0, []);
  }

  lemma {:induction false} SkipSame(d: seq<u8>, n: nat, p: nat, k: nat)
    requires n <= |d|
    ensures SkipBlocks(d[..n], p, k).Some? ==> SkipBlocks(d, p, k) == SkipBlocks(d[..n], p, k)
    decreases k
  {
    if k > 0 && p < n {
      assert d[..n][p] == d[p];
      SkipSame(d, n, p + 1 + d[p], k - 1);
    }
  }

  lemma SameRead(d: seq<u8>, n: nat, p: nat)
    requires n <= |d|
    ensures p + 2 <= n ==> ReadLe16(d[..n], p) == ReadLe16(d, p)
    ensures p + 4 <= n ==> ReadLe32(d[..n], p) == ReadLe32(d, p)
  {
  }

  lemma TailSame(d: seq<u8>, n: nat, p: nat, session: nat, sequence: nat)
    requires n <= |d|
    ensures TailAt(d[..n], p, session, sequence) ==
      if p + TAIL <= n then TailAt(d, p, session, sequence) else None
  {
    hide ReadLe32, DecodeMode, Normalised;
    SameRead(d, n, p + 2);
    SameRead(d, n, p + 18);
    SameRead(d, n, p + 22);
    SameRead(d, n, p + 42);
  }

  /** A descriptor cut off inside a track record has no record there. */
  lemma CutRecordRefused(d: seq<u8>, n: nat, p: nat, session: nat, sequence: nat)
    requires n <= |d| && TrackAt(d, p, session, sequence).Some? && n < TrackAt(d, p, session, sequence).value.1
    ensures TrackAt(d[..n], p, session, sequence).None?
  {
    hide ReadLe16, ReadLe32, SkipBlocks, TailAt;
    var e := d[..n];
    if p + 16 < n {
      assert e[p + 16] == d[p + 16];
      var named := p + 17 + d[p + 16] + 31;
      SameRead(d, n, named);
      if named + 2 <= n {
        var indexed := named + 2 + 4 * ReadLe16(d, named);
        SameRead(d, n, indexed);
        if indexed + 4 <= n {
          SkipSame(d, n, indexed + 4, 18 * ReadLe32(d, indexed));
          var skipped := SkipBlocks(d, indexed + 4, 18 * ReadLe32(d, indexed));
          TailSame(d, n, skipped.value, session, sequence);
          TailEnd(d, skipped.value, session, sequence);
        }
      }
    }
  }

  lemma TailEnd(d: seq<u8>, p: nat, session: nat, sequence: nat)
    ensures TailAt(d, p, session, sequence).Some? ==> TailAt(d, p, session, sequence).value.1 == p + TAIL
  {
    hide DecodeMode, Normalised, ReadLe32;
  }
}
