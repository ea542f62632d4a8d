/** What the scans of core/src/rock_ridge.rs find in any System Use field, well formed or not: a field is
    entries, then bytes at which no entry begins. */
module SystemUse {
  import opened Wrappers
  import opened Bytes
  import opened RockRidge
  import opened NameCap

  /** No entry begins here: too few bytes for one, a length below three, or one past the end. */
  predicate NoEntry(t: seq<u8>) {
    |t| < 3 || t[2] < 3 || |t| < t[2] as int
  }

  /** Every field is entries and a rest. */
  lemma {:induction false} FieldIsEntries(su: seq<u8>) returns (es: seq<seq<u8>>, rest: seq<u8>)
    ensures AllEntries(es) && NoEntry(rest) && su == Concat(es) + rest
    decreases |su|
  {
    if NoEntry(su) {
      es, rest := [], su;
    } else {
      var first := su[..su[2]];
      var more;
      more, rest := FieldIsEntries(su[su[2]..]);
      es := [first] + more;
      assert es[1..] == more;
      assert su == first + su[su[2]..];
    }
  }

  // ---- the rest is not looked at -----------------------------------------------------------

  lemma SameEntry(su: seq<u8>, rest: seq<u8>, off: nat, es: seq<seq<u8>>)
    requires off <= |su| && AllEntries(es) && |es| > 0 && su[off..] == Concat(es)
    ensures off + |es[0]| <= |su| && su[off..off + |es[0]|] == (su + rest)[off..off + |es[0]|] == es[0]
    ensures forall i :: 0 <= i < |es[0]| ==> su[off + i] == es[0][i] && (su + rest)[off + i] == es[0][i]
    ensures su[off + |es[0]|..] == Concat(es[1..])
  {
    TiledStep(su, off, es);
  }

  lemma AtTheEnd(su: seq<u8>, rest: seq<u8>)
    requires NoEntry(rest)
    ensures !EntryFits(su, |su|) && !EntryFits(su + rest, |su|)
  {
  }

  lemma {:induction false} NameEnds(su: seq<u8>, rest: seq<u8>, off: nat, es: seq<seq<u8>>, name: seq<u8>)
    requires off <= |su| && AllEntries(es) && su[off..] == Concat(es) && NoEntry(rest) && |name| <= MAX_NM_LEN
    ensures NameAt(su + rest, off, name) == NameAt(su, off, name)
    decreases |es|
  {
    hide NameAt, AddFragment, EntryFits, NoEntry, Concat;
    if |es| == 0 {
      NothingLeft(su, off);
      AtTheEnd(su, rest);
      NameUnfolds(su, off, name);
      NameUnfolds(su + rest, off, name);
    } else {
      SameEntry(su, rest, off, es);
      NameStep(su, off, es[0], name);
      NameStep(su + rest, off, es[0], name);
      if !IsNm(es[0]) {
        NameEnds(su, rest, off + |es[0]|, es[1..], name);
      } else if AddFragment(name, es[0][5..]).Returned? && es[0][4] % 2 == 1 {
        NameEnds(su, rest, off + |es[0]|, es[1..], AddFragment(name, es[0][5..]).value);
      }
    }
  }

  lemma NothingLeft(su: seq<u8>, off: nat)
    requires off <= |su| && su[off..] == Concat([])
    ensures off == |su|
  {
  }

  lemma {:induction false} LinkEnds(su: seq<u8>, rest: seq<u8>, off: nat, es: seq<seq<u8>>, st: LinkState, found: bool)
    requires off <= |su| && AllEntries(es) && su[off..] == Concat(es) && NoEntry(rest)
    ensures LinkAt(su + rest, off, st, found) == LinkAt(su, off, st, found)
    decreases |es|
  {
    hide ComponentsAt, EntryFits, NoEntry, Concat;
    if |es| == 0 {
      NothingLeft(su, off);
      AtTheEnd(su, rest);
    } else {
      SameEntry(su, rest, off, es);
      LinkStep(su, off, es[0], st, found);
      LinkStep(su + rest, off, es[0], st, found);
      hide LinkAt;
      if IsSl(es[0]) {
        LinkEnds(su, rest, off + |es[0]|, es[1..], ComponentsAt(es[0][5..], 0, st), true);
      } else {
        LinkEnds(su, rest, off + |es[0]|, es[1..], st, found);
      }
    }
  }

  // ---- names -----------------------------------------------------------------------------------

  /** At most the first 4096 bytes. */
  function Capped(text: seq<u8>): seq<u8> {
    text[..Min(|text|, 4096)]
  }

  /** The scan comes to the end of entry k: no NM entry before it ends the name, and it is the first
      that does, or there is none. */
  predicate NameRunsTo(es: seq<seq<u8>>, k: nat)
    requires AllEntries(es)
  {
    && k <= |es| && AllContinue(es[..k])
    && (k < |es| ==> IsNm(es[k]) && es[k][4] % 2 == 0)
  }

  /** There is always such an entry. */
  lemma {:induction false} SomeEntryEnds(es: seq<seq<u8>>) returns (k: nat)
    requires AllEntries(es)
    ensures NameRunsTo(es, k)
    decreases |es|
  {
    if |es| == 0 || (IsNm(es[0]) && es[0][4] % 2 == 0) {
      k := 0;
    } else {
      var n := SomeEntryEnds(es[1..]);
      k := n + 1;
      assert forall i :: 0 < i < k ==> es[..k][i] == es[1..][..n][i - 1];
    }
  }

  lemma CappedFragment(name: seq<u8>, component: seq<u8>, rest: seq<u8>)
    requires |name| <= MAX_NM_LEN && AddFragment(name, component).Returned?
    ensures Capped(AddFragment(name, component).value + rest) == Capped(name + Utf8OrEmpty(component) + rest)
  {
    hide IsUtf8;
    var f := Utf8OrEmpty(component);
    if |name| + |f| > MAX_NM_LEN {
      assert name + f[..MAX_NM_LEN - |name|] == (name + f)[..MAX_NM_LEN];
    }
  }

  lemma {:induction false} NameAtIsPieces(su: seq<u8>, off: nat, es: seq<seq<u8>>, k: nat, name: seq<u8>)
    requires off <= |su| && AllEntries(es) && su[off..] == Concat(es)
    requires NameRunsTo(es, k) && |name| <= MAX_NM_LEN
    ensures NameAt(su, off, name).Returned? ==>
      NameAt(su, off, name).value == Capped(name + Pieces(es[..Min(k + 1, |es|)]))
    decreases |es|
  {
    hide NameAt, AddFragment, EntryFits, Concat, Utf8OrEmpty, IsUtf8, Pieces;
    NoPieces();
    if |es| == 0 {
      NothingLeft(su, off);
      NameUnfolds(su, off, name);
      AtTheEnd(su, []);
      assert name + [] == name;
    } else {
      var e, upTo := es[0], es[..Min(k + 1, |es|)];
      TiledStep(su, off, es);
      NameStep(su, off, e, name);
      FirstPiece(upTo);
      if k == 0 {
        assert upTo == [e] && upTo[1..] == [];
        if AddFragment(name, e[5..]).Returned? {
          CappedFragment(name, e[5..], []);
          assert name + Utf8OrEmpty(e[5..]) + [] == name + (Utf8OrEmpty(e[5..]) + []);
          assert AddFragment(name, e[5..]).value + [] == AddFragment(name, e[5..]).value;
          WithinCap(name, e[5..]);
        }
      } else {
        assert es[..k][0] == e && es[..k][1..] == es[1..][..k - 1];
        assert upTo[1..] == es[1..][..Min(k, |es| - 1)];
        assert NameRunsTo(es[1..], k - 1);
        if !IsNm(e) {
          NameAtIsPieces(su, off + |e|, es[1..], k - 1, name);
          assert [] + Pieces(upTo[1..]) == Pieces(upTo[1..]);
        } else if AddFragment(name, e[5..]).Returned? {
          WithinCap(name, e[5..]);
          NameAtIsPieces(su, off + |e|, es[1..], k - 1, AddFragment(name, e[5..]).value);
          CappedFragment(name, e[5..], Pieces(upTo[1..]));
          assert name + Utf8OrEmpty(e[5..]) + Pieces(upTo[1..]) == name + (Utf8OrEmpty(e[5..]) + Pieces(upTo[1..]));
        }
      }
    }
  }

  lemma WithinCap(name: seq<u8>, component: seq<u8>)
    requires |name| <= MAX_NM_LEN && AddFragment(name, component).Returned?
    ensures |AddFragment(name, component).value| <= MAX_NM_LEN
    ensures Capped(AddFragment(name, component).value) == AddFragment(name, component).value
  {
    hide IsUtf8;
  }

  /** In any field the name, if decoding returns, is the first 4096 bytes of the texts of the NM entries
      up to the first that does not go on; there is none when they are empty. */
  lemma NameIsPieces(es: seq<seq<u8>>, rest: seq<u8>, k: nat)
    requires AllEntries(es) && NoEntry(rest) && NameRunsTo(es, k)
    ensures AlternateName(Concat(es) + rest).Returned? ==>
      var text := Pieces(es[..Min(k + 1, |es|)]);
      AlternateName(Concat(es) + rest).value == if text == [] then None else Some(Capped(text))
  {
    var su := Concat(es);
    assert su[0..] == su;
    hide NameAt, Pieces;
    NameEnds(su, rest, 0, es, []);
    NameAtIsPieces(su, 0, es, k, []);
    var text := Pieces(es[..Min(k + 1, |es|)]);
    assert [] + text == text;
  }

  // ---- links -----------------------------------------------------------------------------------

  /** The SL entries of every field hold records, and these encode a path. */
  lemma SomeLink(es: seq<seq<u8>>) returns (groups: seq<seq<Record>>, path: seq<Component>)
    requires AllEntries(es)
    ensures HoldsRecords(es, groups) && Splits(Flatten(groups), path)
  {
    groups := SomeRecordsHeld(es);
    path := SomePath(Flatten(groups));
  }

  lemma {:induction false} AreaIsRecords(area: seq<u8>) returns (rs: seq<Record>)
    ensures HoldsGroup(area, rs)
    decreases |area|
  {
    if CutRecord(area) {
      rs := [];
      assert area[0..] == area;
    } else {
      var end := 2 + area[1] as int;
      var more := AreaIsRecords(area[end..]);
      rs := [Record(area[0], area[2..end])] + more;
      assert rs[1..] == more;
      var front := EncodeRecords(rs);
      assert front == area[..end] + EncodeRecords(more);
      assert area[|front|..] == area[end..][|EncodeRecords(more)|..];
    }
  }

  /** The SL entries of every field hold records. */
  lemma {:induction false} SomeRecordsHeld(es: seq<seq<u8>>) returns (groups: seq<seq<Record>>)
    requires AllEntries(es)
    ensures HoldsRecords(es, groups)
    decreases |es|
  {
    hide HoldsGroup;
    if |es| == 0 {
      groups := [];
    } else {
      var more := SomeRecordsHeld(es[1..]);
      if IsSl(es[0]) {
        var rs := AreaIsRecords(es[0][5..]);
        groups := [rs] + more;
        assert groups[1..] == more;
      } else {
        groups := more;
      }
    }
  }

  /** In any field a link is the path its SL records encode, cut records left out (there always are such
      records and such a path); without an SL entry there is no link. */
  lemma LinkIsRecords(es: seq<seq<u8>>, rest: seq<u8>, groups: seq<seq<Record>>, path: seq<Component>)
    requires AllEntries(es) && NoEntry(rest) && HoldsRecords(es, groups)
    ensures |groups| == 0 ==> SymlinkTarget(Concat(es) + rest) == None
    ensures |groups| > 0 && Splits(Flatten(groups), path) ==>
      SymlinkTarget(Concat(es) + rest) == Some(Render(path, false))
  {
    hide LinkAt, Splits, Render, Flatten, RunRecords, HoldsRecords;
    var su := Concat(es);
    assert su[0..] == su;
    LinkEnds(su, rest, 0, es, NO_LINK, false);
    LinkAtRun(su, 0, es, groups, NO_LINK, false);
    if |groups| > 0 && Splits(Flatten(groups), path) {
      SymlinkRoundTrip(es, groups, path);
    }
  }

  // ---- continuation areas -------------------------------------------------------------------------

  lemma {:induction false} AreaEnds(su: seq<u8>, rest: seq<u8>, off: nat, es: seq<seq<u8>>, k: nat)
    requires off <= |su| && AllEntries(es) && su[off..] == Concat(es) && NoEntry(rest)
    requires k <= |es| && forall i :: 0 <= i < k ==> !IsCe(es[i])
    ensures k == |es| ==> ContinuationAt(su + rest, off) == None
    ensures k < |es| && IsCe(es[k]) ==>
      ContinuationAt(su + rest, off) ==
        Some(ContinuationArea(ReadLe32(es[k], 4), ReadLe32(es[k], 12), ReadLe32(es[k], 20)))
    decreases |es|
  {
    hide EntryFits, NoEntry, Concat, ReadLe32;
    if |es| == 0 {
      NothingLeft(su, off);
      AtTheEnd(su, rest);
    } else {
      SameEntry(su, rest, off, es);
      CeStep(su + rest, off, es[0]);
      hide ContinuationAt;
      if k > 0 {
        AreaEnds(su, rest, off + |es[0]|, es[1..], k - 1);
      }
    }
  }

  predicate Names(ce: Option<ContinuationArea>, e: seq<u8>)
    requires |e| >= 24
  {
    && ce.Some?
    && Le32(ce.value.lba) == e[4..8] && Le32(ce.value.offset) == e[12..16] && Le32(ce.value.len) == e[20..24]
  }

  /** In any field the continuation area is the one the first CE entry names by the little-endian numbers
      at bytes 4, 12 and 20; without a CE entry there is none. */
  lemma AreaIsFirst(es: seq<seq<u8>>, rest: seq<u8>, k: nat)
    requires AllEntries(es) && NoEntry(rest)
    requires k <= |es| && forall i :: 0 <= i < k ==> !IsCe(es[i])
    ensures k == |es| ==> ContinuationAt(Concat(es) + rest, 0) == None
    ensures k < |es| && IsCe(es[k]) ==> Names(ContinuationAt(Concat(es) + rest, 0), es[k])
  {
    hide ContinuationAt, Le32, ReadLe32;
    assert Concat(es)[0..] == Concat(es);
    AreaEnds(Concat(es), rest, 0, es, k);
    if k < |es| && IsCe(es[k]) {
      WritesWhatWasRead(es[k], 4);
      WritesWhatWasRead(es[k], 12);
      WritesWhatWasRead(es[k], 20);
    }
  }
}
