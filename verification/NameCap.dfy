/** The cap on Rock Ridge names (core/src/rock_ridge.rs): where it falls inside a character the
    decoding panics, and when that happens. */
module NameCap {
  import opened Wrappers
  import opened Bytes
  import opened RockRidge

  // ---- places where a string can be cut -------------------------------------------------

  /** The length of the character a lead byte starts. */
  function CharLength(b: u8): nat {
    if b < 0x80 then 1 else if b < 0xE0 then 2 else if b < 0xF0 then 3 else 4
  }

  lemma FirstCharacter(f: seq<u8>)
    requires IsUtf8(f) && |f| > 0
    ensures !Continues(f[0]) && CharLength(f[0]) <= |f| && IsUtf8(f[CharLength(f[0])..])
    ensures forall i :: 0 < i < CharLength(f[0]) ==> Continues(f[i])
  {
  }

  /** Bytes whose first character is that of f, and complete, are a string if the rest is. */
  lemma SameFirstCharacter(f: seq<u8>, g: seq<u8>)
    requires IsUtf8(f) && |f| > 0 && CharLength(f[0]) <= |g|
    requires forall i :: 0 <= i < CharLength(f[0]) ==> g[i] == f[i]
    ensures IsUtf8(g) <==> IsUtf8(g[CharLength(f[0])..])
  {
  }

  lemma CutShort(f: seq<u8>, k: nat)
    requires IsUtf8(f) && 0 < k <= |f| && k < CharLength(f[0])
    ensures !IsUtf8(f[..k])
  {
  }

  /** A string can be cut exactly at its end and before a byte that continues no character. */
  lemma {:induction false} CutIsString(f: seq<u8>, k: nat)
    requires IsUtf8(f) && k <= |f|
    ensures IsUtf8(f[..k]) <==> !InsideCharacter(f, k)
    decreases |f|
  {
    if k > 0 {
      hide IsUtf8;
      FirstCharacter(f);
      var n := CharLength(f[0]);
      if k < n {
        CutShort(f, k);
      } else {
        SameFirstCharacter(f, f[..k]);
        CutIsString(f[n..], k - n);
        assert f[..k][n..] == f[n..][..k - n];
      }
    } else if |f| > 0 {
      FirstCharacter(f);
    }
  }

  lemma {:induction false} StringsJoin(f: seq<u8>, g: seq<u8>)
    requires IsUtf8(f) && IsUtf8(g)
    ensures IsUtf8(f + g)
    decreases |f|
  {
    if |f| == 0 {
      assert f + g == g;
    } else {
      hide IsUtf8;
      FirstCharacter(f);
      var n := CharLength(f[0]);
      StringsJoin(f[n..], g);
      SameFirstCharacter(f, f + g);
      assert (f + g)[n..] == f[n..] + g;
    }
  }

  // ---- the name is a string ----------------------------------------------------------------

  lemma FragmentIsString(name: seq<u8>, component: seq<u8>)
    requires |name| <= MAX_NM_LEN && IsUtf8(name) && AddFragment(name, component).Returned?
    ensures IsUtf8(AddFragment(name, component).value)
  {
    var fragment := Utf8OrEmpty(component);
    var take := Min(|fragment|, MAX_NM_LEN - |name|);
    CutIsString(fragment, take);
    if take == 0 {
      assert fragment[..take] == [];
    }
    StringsJoin(name, fragment[..take]);
  }

  lemma {:induction false} NameAtIsString(su: seq<u8>, off: nat, name: seq<u8>)
    requires off <= |su| && |name| <= MAX_NM_LEN && IsUtf8(name)
    ensures NameAt(su, off, name).Returned? ==> IsUtf8(NameAt(su, off, name).value)
    decreases |su| - off
  {
    hide IsUtf8, AddFragment;
    if EntryFits(su, off) {
      var len := su[off + 2];
      if Signed(su, off, 'N', 'M') && len >= 6 {
        var longer := AddFragment(name, su[off + 5..off + len]);
        if longer.Returned? {
          FragmentIsString(name, su[off + 5..off + len]);
          NameAtIsString(su, off + len, longer.value);
        }
      } else {
        NameAtIsString(su, off + len, name);
      }
    }
  }

  /** Whatever the field, a name returned is well-formed UTF-8. */
  lemma NameIsString(su: seq<u8>)
    requires AlternateName(su).Returned? && AlternateName(su).value.Some?
    ensures IsUtf8(AlternateName(su).value.value)
  {
    NameAtIsString(su, 0, []);
  }

  // ---- when the decoding panics ----------------------------------------------------------------

  /** The text of the NM entries, without the cap. */
  function Pieces(es: seq<seq<u8>>): seq<u8>
    requires AllEntries(es)
  {
    if |es| == 0 then []
    else (if IsNm(es[0]) && IsUtf8(es[0][5..]) then es[0][5..] else []) + Pieces(es[1..])
  }

  lemma NoPieces()
    ensures Pieces([]) == []
  {
  }

  lemma FirstPiece(es: seq<seq<u8>>)
    requires AllEntries(es) && |es| > 0
    ensures Pieces(es) == (if IsNm(es[0]) then Utf8OrEmpty(es[0][5..]) else []) + Pieces(es[1..])
  {
  }

  /** Every NM entry says that the name goes on. */
  predicate AllContinue(es: seq<seq<u8>>)
    requires AllEntries(es)
  {
    forall i :: 0 <= i < |es| ==> IsNm(es[i]) ==> es[i][4] % 2 == 1
  }

  /** From `off` on the field begins with the entries `es`, after which the name is shorter than
      the cap, and an NM entry `e` in whose text the cap falls inside a character. */
  ghost predicate CutsCharacter(su: seq<u8>, off: nat, name: seq<u8>, es: seq<seq<u8>>, e: seq<u8>)
    requires off <= |su|
  {
    && AllEntries(es) && AllContinue(es) && IsEntry(e) && IsNm(e)
    && Concat(es) + e <= su[off..]
    && |name| + |Pieces(es)| < MAX_NM_LEN
    && InsideCharacter(Utf8OrEmpty(e[5..]), MAX_NM_LEN - |name| - |Pieces(es)|)
  }

  lemma EntryHere(su: seq<u8>, off: nat, e: seq<u8>)
    requires off <= |su| && IsEntry(e) && e <= su[off..]
    ensures EntryFits(su, off) && su[off..off + |e|] == e
    ensures forall i :: 0 <= i < |e| ==> su[off + i] == e[i]
  {
    var rest := su[off..];
    assert rest[..|e|] == e;
    forall i | 0 <= i < |e|
      ensures su[off + i] == e[i]
    {
      assert rest[i] == e[i];
    }
  }

  lemma EntryThere(su: seq<u8>, off: nat) returns (e: seq<u8>)
    requires EntryFits(su, off)
    ensures e == su[off..off + su[off + 2]] && IsEntry(e) && e <= su[off..]
    ensures forall i :: 0 <= i < |e| ==> su[off + i] == e[i]
  {
    e := su[off..off + su[off + 2]];
  }

  lemma {:induction false} CutPanics(su: seq<u8>, off: nat, name: seq<u8>, es: seq<seq<u8>>, e: seq<u8>)
    requires off <= |su| && |name| <= MAX_NM_LEN && CutsCharacter(su, off, name, es, e)
    ensures NameAt(su, off, name).Panicked?
    decreases |es|
  {
    hide NameAt, IsUtf8, Utf8OrEmpty, Pieces;
    NoPieces();
    if |es| == 0 {
      assert Concat(es) + e == e;
      EntryHere(su, off, e);
      NameStep(su, off, e, name);
    } else {
      var first, rest := es[0], es[1..];
      assert Concat(es) + e == first + (Concat(rest) + e);
      assert first <= su[off..];
      EntryHere(su, off, first);
      NameStep(su, off, first, name);
      assert su[off + |first|..] == su[off..][|first|..];
      var longer := if IsNm(first) then name + Utf8OrEmpty(first[5..]) else name;
      FirstPiece(es);
      assert |longer| + |Pieces(rest)| == |name| + |Pieces(es)|;
      if IsNm(first) {
        WholeFragment(name, first[5..]);
      }
      CutPanics(su, off + |first|, longer, rest, e);
    }
  }

  lemma WholeFragment(name: seq<u8>, component: seq<u8>)
    requires |name| + |Utf8OrEmpty(component)| <= MAX_NM_LEN
    ensures AddFragment(name, component) == Returned(name + Utf8OrEmpty(component))
  {
    var f := Utf8OrEmpty(component);
    assert f[..|f|] == f;
  }

  lemma {:induction false} PanicIsCut(su: seq<u8>, off: nat, name: seq<u8>) returns (es: seq<seq<u8>>, e: seq<u8>)
    requires off <= |su| && |name| <= MAX_NM_LEN && NameAt(su, off, name).Panicked?
    ensures CutsCharacter(su, off, name, es, e)
    decreases |su| - off
  {
    hide NameAt, IsUtf8, Utf8OrEmpty, Pieces;
    NoPieces();
    NameUnfolds(su, off, name);
    var first := EntryThere(su, off);
    NameStep(su, off, first, name);
    if IsNm(first) && AddFragment(name, first[5..]).Panicked? {
      es, e := [], first;
      assert Concat(es) + e == e;
    } else {
      var longer := if IsNm(first) then AddFragment(name, first[5..]).value else name;
      var more, last := PanicIsCut(su, off + |first|, longer);
      es, e := [first] + more, last;
      assert es[1..] == more;
      FirstPiece(es);
      assert Concat(es) + e == first + (Concat(more) + e);
      assert su[off..] == first + su[off + |first|..];
      if IsNm(first) {
        BelowCap(name, first[5..]);
      }
    }
  }

  /** A fragment that leaves the name below the cap was added whole. */
  lemma BelowCap(name: seq<u8>, component: seq<u8>)
    requires |name| <= MAX_NM_LEN && AddFragment(name, component).Returned?
    requires |AddFragment(name, component).value| < MAX_NM_LEN
    ensures |AddFragment(name, component).value| == |name| + |Utf8OrEmpty(component)|
  {
  }

  /** The decoding panics exactly when the scan comes to an NM entry in whose text the cap falls
      inside a character. */
  lemma PanicsIff(su: seq<u8>)
    ensures AlternateName(su).Panicked? <==> exists es, e :: CutsCharacter(su, 0, [], es, e)
  {
    hide NameAt, CutsCharacter;
    if AlternateName(su).Panicked? {
      var es, e := PanicIsCut(su, 0, []);
    }
    if es, e :| CutsCharacter(su, 0, [], es, e) {
      CutPanics(su, 0, [], es, e);
    }
  }

  /** A name in NM entries that all say it goes on. */
  function Continued(name: seq<u8>): (es: seq<seq<u8>>)
    ensures AllEntries(es)
    decreases |name|
  {
    if |name| == 0 then []
    else [NmEntry(name[..Min(|name|, 250)], true)] + Continued(name[Min(|name|, 250)..])
  }

  lemma {:induction false} ContinuedPieces(name: seq<u8>)
    requires IsAscii(name)
    ensures AllContinue(Continued(name)) && Pieces(Continued(name)) == name
    decreases |name|
  {
    if |name| > 0 {
      var n := Min(|name|, 250);
      var piece, rest := name[..n], name[n..];
      var e := NmEntry(piece, true);
      ContinuedPieces(rest);
      assert Continued(name)[0] == e && Continued(name)[1..] == Continued(rest);
      assert e[5..] == piece;
      AsciiIsUtf8(piece);
      assert name == piece + rest;
    }
  }

  /** One byte below the cap, a two-byte character panics: here 17 entries with the continue flag
      and one that holds C3 A9. */
  lemma PanicWitness(name: seq<u8>)
    requires IsAscii(name) && |name| == 4095
    ensures |Continued(name)| == 17
    ensures AlternateName(Concat(Continued(name)) + NmEntry([0xC3, 0xA9], false)) == Panicked
  {
    var es, e := Continued(name), NmEntry([0xC3, 0xA9], false);
    var su := Concat(es) + e;
    ContinuedPieces(name);
    assert e[5..] == [0xC3, 0xA9];
    assert IsUtf8(e[5..]);
    assert su[0..] == su;
    hide Continued, Pieces, NameAt, Concat;
    CutPanics(su, 0, [], es, e);
    ContinuedCount(name);
  }

  lemma {:induction false} ContinuedCount(name: seq<u8>)
    ensures |Continued(name)| == (|name| + 249) / 250
    decreases |name|
  {
    if |name| > 0 {
      ContinuedCount(name[Min(|name|, 250)..]);
    }
  }

  // ---- short fields never panic ---------------------------------------------------------------

  lemma {:induction false} ShortReturns(su: seq<u8>, off: nat, name: seq<u8>)
    requires off <= |su| <= MAX_NM_LEN && |name| <= off
    ensures NameAt(su, off, name).Returned?
    decreases |su| - off
  {
    hide NameAt, IsUtf8;
    NameUnfolds(su, off, name);
    if EntryFits(su, off) {
      var len := su[off + 2];
      if Signed(su, off, 'N', 'M') && len >= 6 {
        WholeFragment(name, su[off + 5..off + len]);
        ShortReturns(su, off + len, AddFragment(name, su[off + 5..off + len]).value);
      } else {
        ShortReturns(su, off + len, name);
      }
    }
  }

  /** A field of up to 4096 bytes never makes the decoding panic. */
  lemma ShortNeverPanics(su: seq<u8>)
    requires |su| <= MAX_NM_LEN
    ensures AlternateName(su).Returned?
  {
    hide NameAt;
    ShortReturns(su, 0, []);
  }
}
