/** Where a System Use field has to end for its continuation area to be read on
    (core/src/lib.rs, core/src/rock_ridge.rs). */
module Tiling {
  import opened Wrappers
  import opened Bytes
  import opened RockRidge

  /** The scan of `su` from `off` reaches position `at`. */
  predicate Visits(su: seq<u8>, off: nat, at: nat)
    decreases |su| - off
  {
    off == at || (EntryFits(su, off) && Visits(su, off + su[off + 2], at))
  }

  /** A scan goes on at the first byte of an appended area exactly when the field before it
      is tiled by entries, with no byte left over. */
  lemma {:induction false} ContinuesIffTiled(area: seq<u8>, rest: seq<u8>, off: nat)
    requires off <= |area|
    ensures Visits(area + rest, off, |area|) <==> Visits(area, off, |area|)
    decreases |area| - off
  {
    var su := area + rest;
    if off < |area| && EntryFits(su, off) {
      if off + su[off + 2] <= |area| {
        ContinuesIffTiled(area, rest, off + su[off + 2]);
      } else {
        NeverBack(su, off + su[off + 2], |area|);
      }
    }
  }

  lemma {:induction false} NeverBack(su: seq<u8>, off: nat, at: nat)
    requires at < off
    ensures !Visits(su, off, at)
    decreases |su| - off
  {
    if EntryFits(su, off) {
      NeverBack(su, off + su[off + 2], at);
    }
  }

  lemma {:induction false} VisitsTiled(su: seq<u8>, off: nat, es: seq<seq<u8>>)
    requires off <= |su| && AllEntries(es) && su[off..] == Concat(es)
    ensures Visits(su, off, |su|)
    decreases |es|
  {
    if |es| > 0 {
      TiledStep(su, off, es);
      VisitsTiled(su, off + |es[0]|, es[1..]);
    }
  }

  lemma {:induction false} TiledFrom(su: seq<u8>, off: nat) returns (es: seq<seq<u8>>)
    requires off <= |su| && Visits(su, off, |su|)
    ensures AllEntries(es) && su[off..] == Concat(es)
    decreases |su| - off
  {
    if off == |su| {
      es := [];
    } else {
      var next := off + su[off + 2];
      var first := su[off..next];
      var more := TiledFrom(su, next);
      es := [first] + more;
      assert es[1..] == more;
      assert su[off..] == first + su[next..];
    }
  }

  /** The scan gets to the end of a field exactly when entries tile the field. */
  lemma VisitsEndIff(area: seq<u8>)
    ensures Visits(area, 0, |area|) <==> exists es :: AllEntries(es) && Concat(es) == area
  {
    assert area[0..] == area;
    if Visits(area, 0, |area|) {
      var es := TiledFrom(area, 0);
    }
    if es :| AllEntries(es) && Concat(es) == area {
      VisitsTiled(area, 0, es);
    }
  }

  // ---- a pad byte in between ------------------------------------------------------------

  predicate NoNm(es: seq<seq<u8>>)
    requires AllEntries(es)
  {
    forall i :: 0 <= i < |es| ==> !IsNm(es[i])
  }

  lemma {:induction false} NameAtShift(before: seq<u8>, su: seq<u8>, off: nat, name: seq<u8>)
    requires off <= |su| && |name| <= MAX_NM_LEN
    ensures NameAt(before + su, |before| + off, name) == NameAt(su, off, name)
    decreases |su| - off
  {
    hide AddFragment;
    var all, at := before + su, |before| + off;
    assert forall i :: 0 <= i < |su| ==> all[|before| + i] == su[i];
    if EntryFits(su, off) {
      var len := su[off + 2];
      if Signed(su, off, 'N', 'M') && len >= 6 {
        assert all[at + 5..at + len] == su[off + 5..off + len];
        var longer := AddFragment(name, su[off + 5..off + len]);
        if longer.Returned? && su[off + 4] % 2 == 1 {
          NameAtShift(before, su, off + len, longer.value);
        }
      } else {
        NameAtShift(before, su, off + len, name);
      }
    }
  }

  lemma {:induction false} OthersSkipped(es: seq<seq<u8>>, rest: seq<u8>)
    requires AllEntries(es) && NoNm(es)
    ensures NameAt(Concat(es) + rest, 0, []) == NameAt(rest, 0, [])
    decreases |es|
  {
    hide NameAt, AddFragment;
    if |es| == 0 {
      assert Concat(es) + rest == rest;
    } else {
      var e, su := es[0], Concat(es[1..]) + rest;
      OthersSkipped(es[1..], rest);
      assert Concat(es) + rest == e + su;
      assert (e + su)[..|e|] == e;
      NameStep(e + su, 0, e, []);
      NameAtShift(e, su, 0, []);
    }
  }

  /** After entries without names, a pad byte before an NM entry makes the scan take the letter M
      for a length: it goes on 76 bytes into what follows, or stops if that is shorter.  Without
      the pad byte it reads what follows from its start. */
  lemma PadShiftsScan(es: seq<seq<u8>>, rest: seq<u8>)
    requires AllEntries(es) && NoNm(es) && |rest| >= 2 && Signed(rest, 0, 'N', 'M')
    ensures AlternateName(Concat(es) + rest) == AlternateName(rest)
    ensures AlternateName(Concat(es) + ([0] + rest)) ==
      if |rest| < 76 then Returned(None) else AlternateName(rest[76..])
  {
    OthersSkipped(es, rest);
    OthersSkipped(es, [0] + rest);
    PadSkipped(rest);
  }

  lemma PadSkipped(rest: seq<u8>)
    requires |rest| >= 2 && Signed(rest, 0, 'N', 'M')
    ensures NameAt([0] + rest, 0, []) == if |rest| < 76 then Returned([]) else NameAt(rest[76..], 0, [])
  {
    var su := [0] + rest;
    hide AddFragment;
    assert su[0] == 0 && su[2] == 77;
    assert !Signed(su, 0, 'N', 'M');
    NameUnfolds(su, 0, []);
    if |rest| >= 76 {
      assert su == su[..77] + rest[76..];
      NameAtShift(su[..77], rest[76..], 0, []);
    }
  }

  /** So a short name after a pad byte is lost: the record has a Rock Ridge name without the pad
      byte and none with it. */
  lemma PadLosesName(es: seq<seq<u8>>, name: seq<u8>)
    requires AllEntries(es) && NoNm(es) && IsAscii(name) && 0 < |name| <= 70
    ensures AlternateName(Concat(es) + NmEntry(name, false)) == Returned(Some(name))
    ensures AlternateName(Concat(es) + ([0] + NmEntry(name, false))) == Returned(None)
  {
    var rest := NmEntry(name, false);
    hide NameAt, NmEntry;
    PadShiftsScan(es, rest) by { EntryLooks(name); }
    EntryLooks(name);
    NmEntriesSpell(name);
    assert NmEntries(name) == [rest];
    NameRoundTrip(NmEntries(name), name);
    assert Concat([rest]) == rest;
  }

  lemma EntryLooks(name: seq<u8>)
    requires 0 < |name| <= 70
    ensures Signed(NmEntry(name, false), 0, 'N', 'M') && |NmEntry(name, false)| < 76
  {
  }
}
