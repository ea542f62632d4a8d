/** An encoder for Rock Ridge links (SL entries of IEEE P1282), the inverse of the reader in
    core/src/rock_ridge.rs: every path has an encoding that reads back as the path. */
module SymlinkEncoding {
  import opened Wrappers
  import opened Bytes
  import opened RockRidge

  /** The text of a name in records of up to 248 bytes, chained by the continue flag. */
  function NameRecords(text: seq<u8>): (rs: seq<Record>)
    ensures |rs| > 0
    decreases |text|
  {
    if |text| <= 248 then [Record(0, text)] else [Record(1, text[..248])] + NameRecords(text[248..])
  }

  function HeadFlag(kind: Kind): u8 {
    match kind
    case Root => 8
    case Parent => 4
    case Current => 2
    case Named => 0
  }

  function ComponentRecords(c: Component): (rs: seq<Record>)
    ensures |rs| > 0
  {
    if c.kind.Named? then NameRecords(c.text)
    else if |c.text| == 0 then [Record(HeadFlag(c.kind), [])]
    else [Record(HeadFlag(c.kind) + 1, [])] + NameRecords(c.text)
  }

  function PathRecords(path: seq<Component>): seq<Record> {
    if |path| == 0 then [] else ComponentRecords(path[0]) + PathRecords(path[1..])
  }

  /** Records that fit an SL entry each. */
  predicate FitEntries(rs: seq<Record>) {
    forall i :: 0 <= i < |rs| ==> |rs[i].data| <= 248
  }

  lemma {:induction false} NameRecordsFit(text: seq<u8>)
    ensures FitEntries(NameRecords(text))
    decreases |text|
  {
    if |text| > 248 {
      NameRecordsFit(text[248..]);
    }
  }

  lemma {:induction false} RecordsFit(path: seq<Component>)
    ensures FitEntries(PathRecords(path))
  {
    if |path| > 0 {
      RecordsFit(path[1..]);
      NameRecordsFit(path[0].text);
    }
  }

  /** One SL entry of version 1 with one component record. */
  function SlEntry(r: Record): (e: seq<u8>)
    requires |r.data| <= 248
    ensures IsEntry(e) && IsSl(e)
  {
    ['S' as int, 'L' as int, 7 + |r.data|, 1, 0] + ([r.flags, |r.data|] + r.data)
  }

  function SlEntriesOf(rs: seq<Record>): (es: seq<seq<u8>>)
    requires FitEntries(rs)
    ensures AllEntries(es) && |es| == |rs|
  {
    if |rs| == 0 then [] else [SlEntry(rs[0])] + SlEntriesOf(rs[1..])
  }

  /** The SL entries of a path; the empty path is one entry without records. */
  function SlEntries(path: seq<Component>): (es: seq<seq<u8>>)
    ensures AllEntries(es) && |es| > 0
  {
    RecordsFit(path);
    if |path| == 0 then [['S' as int, 'L' as int, 5, 1, 0]] else SlEntriesOf(PathRecords(path))
  }

  function Singles(rs: seq<Record>): (groups: seq<seq<Record>>)
    ensures |groups| == |rs|
  {
    if |rs| == 0 then [] else [[rs[0]]] + Singles(rs[1..])
  }

  lemma {:induction false} SinglesFlatten(rs: seq<Record>)
    ensures Flatten(Singles(rs)) == rs
  {
    if |rs| > 0 {
      SinglesFlatten(rs[1..]);
      assert Singles(rs)[1..] == Singles(rs[1..]);
    }
  }

  lemma {:induction false} SinglesHeld(rs: seq<Record>)
    requires FitEntries(rs)
    ensures HoldsRecords(SlEntriesOf(rs), Singles(rs))
  {
    if |rs| > 0 {
      SinglesHeld(rs[1..]);
      var r := rs[0];
      assert SlEntriesOf(rs)[1..] == SlEntriesOf(rs[1..]) && Singles(rs)[1..] == Singles(rs[1..]);
      assert SlEntry(r)[5..] == [r.flags, |r.data|] + r.data;
      var one := [r];
      assert one[1..] == [];
      assert EncodeRecords(one) == [r.flags, |r.data|] + r.data + [];
      assert HoldsGroup(SlEntry(r)[5..], one);
    }
  }

  predicate AsciiNames(path: seq<Component>) {
    forall i :: 0 <= i < |path| ==> IsAscii(path[i].text)
  }

  lemma AsciiPiece(text: seq<u8>)
    requires IsAscii(text)
    ensures PieceText(text) == text
  {
    AsciiIsUtf8(text);
  }

  lemma {:induction false} NameIsSplit(text: seq<u8>, more: seq<Record>, rest: seq<Component>)
    requires IsAscii(text) && Splits(more, rest)
    ensures Joins(NameRecords(text) + more, text, rest)
    decreases |text|
  {
    hide Splits, PieceText;
    var rs := NameRecords(text) + more;
    if |text| > 248 {
      AsciiPiece(text[..248]);
      NameIsSplit(text[248..], more, rest);
      assert rs[1..] == NameRecords(text[248..]) + more;
    } else {
      AsciiPiece(text);
      assert rs[1..] == more;
    }
  }

  lemma HeadFlags(kind: Kind)
    ensures IsKind(HeadFlag(kind), kind) && !Flag(HeadFlag(kind), 1)
    ensures !kind.Named? ==> IsKind(HeadFlag(kind) + 1, kind) && Flag(HeadFlag(kind) + 1, 1)
  {
  }

  lemma NameRecordsFlags(text: seq<u8>)
    ensures IsKind(NameRecords(text)[0].flags, Named)
  {
  }

  lemma NameFirst(c: Component, more: seq<Record>, rest: seq<Component>)
    requires c.kind.Named? && IsAscii(c.text) && Splits(more, rest)
    ensures Splits(NameRecords(c.text) + more, [c] + rest)
  {
    NameIsSplit(c.text, more, rest);
    NameRecordsFlags(c.text);
    hide NameRecords, IsKind, Flag, Joins;
    assert ([c] + rest)[1..] == rest;
    assert (NameRecords(c.text) + more)[0] == NameRecords(c.text)[0];
  }

  lemma HeadAlone(r: Record, c: Component, more: seq<Record>, rest: seq<Component>)
    requires !c.kind.Named? && c.text == [] && IsKind(r.flags, c.kind) && !Flag(r.flags, 1) && Splits(more, rest)
    ensures Splits([r] + more, [c] + rest)
  {
    hide IsKind, Flag, Joins;
    assert ([c] + rest)[1..] == rest && ([r] + more)[1..] == more;
  }

  lemma HeadJoined(r: Record, c: Component, more: seq<Record>, rest: seq<Component>)
    requires !c.kind.Named? && IsKind(r.flags, c.kind) && Flag(r.flags, 1) && Joins(more, c.text, rest)
    ensures Splits([r] + more, [c] + rest)
  {
    hide IsKind, Flag, Joins;
    assert ([c] + rest)[1..] == rest && ([r] + more)[1..] == more;
  }

  lemma HeadFirst(c: Component, more: seq<Record>, rest: seq<Component>)
    requires !c.kind.Named? && IsAscii(c.text) && Splits(more, rest)
    ensures Splits(ComponentRecords(c) + more, [c] + rest)
  {
    HeadFlags(c.kind);
    NameIsSplit(c.text, more, rest);
    hide NameRecords, IsKind, Flag, Joins, Splits, IsAscii, HeadFlag;
    if |c.text| == 0 {
      HeadAlone(Record(HeadFlag(c.kind), []), c, more, rest);
    } else {
      var head := Record(HeadFlag(c.kind) + 1, []);
      HeadJoined(head, c, NameRecords(c.text) + more, rest);
      assert ComponentRecords(c) + more == [head] + (NameRecords(c.text) + more);
    }
  }

  lemma {:induction false} PathIsSplit(path: seq<Component>)
    requires AsciiNames(path)
    ensures Splits(PathRecords(path), path)
  {
    if |path| > 0 {
      PathIsSplit(path[1..]);
      assert path == [path[0]] + path[1..];
      if path[0].kind.Named? {
        NameFirst(path[0], PathRecords(path[1..]), path[1..]);
      } else {
        HeadFirst(path[0], PathRecords(path[1..]), path[1..]);
      }
    }
  }

  /** Every path of root, current and parent, with or without text joined, and ASCII names has SL entries
      that read back as it. */
  lemma EveryPathReadsBack(path: seq<Component>)
    requires AsciiNames(path)
    ensures SymlinkTarget(Concat(SlEntries(path))) == Some(Render(path, false))
  {
    hide SymlinkTarget, Concat, Splits, HoldsRecords;
    PathIsSplit(path);
    RecordsFit(path);
    if |path| == 0 {
      EmptyHeld();
      SymlinkRoundTrip(SlEntries(path), [[]], path);
    } else {
      SinglesHeld(PathRecords(path));
      SinglesFlatten(PathRecords(path));
      SymlinkRoundTrip(SlEntries(path), Singles(PathRecords(path)), path);
    }
  }

  lemma EmptyHeld()
    ensures HoldsRecords(SlEntries([]), [[]]) && Splits(Flatten([[]]), [])
  {
    var none: seq<seq<Record>> := [[]];
    assert none[1..] == [] && SlEntries([])[1..] == [];
    assert SlEntries([])[0][5..] == [];
    assert Flatten(none) == [];
  }
}
