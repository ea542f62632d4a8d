/** Rock Ridge names and symbolic links in System Use entries (core/src/rock_ridge.rs). */
module RockRidge {
  import opened Wrappers
  import opened Bytes
  import opened IsoErrors

  const MAX_NM_LEN: nat := 4096

  // ---- System Use entries -------------------------------------------------------

  /** A System Use entry: two signature bytes, its own length, then the rest. */
  predicate IsEntry(e: seq<u8>) {
    |e| >= 3 && e[2] == |e|
  }

  predicate AllEntries(es: seq<seq<u8>>) {
    forall i :: 0 <= i < |es| ==> IsEntry(es[i])
  }

  function Concat(es: seq<seq<u8>>): (b: seq<u8>) {
    if |es| == 0 then [] else es[0] + Concat(es[1..])
  }

  /** Whether an entry fits at `off`: the condition under which every scan goes on. */
  predicate EntryFits(su: seq<u8>, off: nat) {
    off + 3 <= |su| && 3 <= su[off + 2] && off + su[off + 2] <= |su|
  }

  predicate Signed(b: seq<u8>, off: nat, first: char, second: char)
    requires off + 2 <= |b|
  {
    b[off] == first as int && b[off + 1] == second as int
  }

  lemma {:induction false} ConcatAppend(es: seq<seq<u8>>, fs: seq<seq<u8>>)
    ensures Concat(es + fs) == Concat(es) + Concat(fs)
    decreases |es|
  {
    if |es| == 0 {
      assert es + fs == fs;
    } else {
      ConcatAppend(es[1..], fs);
      assert (es + fs)[1..] == es[1..] + fs;
      assert es[0] + (Concat(es[1..]) + Concat(fs)) == Concat(es) + Concat(fs);
    }
  }

  /** Where the bytes from `off` on are tiled exactly by entries, the first one fits and the
      rest follow it. */
  lemma TiledStep(su: seq<u8>, off: nat, es: seq<seq<u8>>)
    requires off <= |su| && su[off..] == Concat(es) && AllEntries(es) && |es| > 0
    ensures EntryFits(su, off) && su[off + 2] == |es[0]|
    ensures su[off..off + |es[0]|] == es[0] && su[off + |es[0]|..] == Concat(es[1..])
    ensures forall i :: 0 <= i < |es[0]| ==> su[off + i] == es[0][i]
  {
    var rest, e := su[off..], es[0];
    assert rest[..|e|] == e && rest[|e|..] == Concat(es[1..]);
    forall i | 0 <= i < |e|
      ensures su[off + i] == e[i]
    {
      assert rest[i] == e[i];
    }
  }

  // ---- NM: alternate name -------------------------------------------------------

  /** Place k lies inside a character of the string f, where it cannot be cut. */
  predicate InsideCharacter(f: seq<u8>, k: nat) {
    k < |f| && Continues(f[k])
  }

  /** The name so far with one more fragment, cut at MAX_NM_LEN bytes.  Cutting inside a
      character panics. */
  function AddFragment(name: seq<u8>, component: seq<u8>): (r: Outcome<seq<u8>>)
    requires |name| <= MAX_NM_LEN
    ensures r.Returned? ==> |name| <= |r.value| <= MAX_NM_LEN
  {
    var fragment := Utf8OrEmpty(component);
    var remaining := MAX_NM_LEN - |name|;
    if remaining > 0 && InsideCharacter(fragment, remaining) then Panicked
    else Returned(name + fragment[..Min(|fragment|, remaining)])
  }

  /** The name spelled by the entries from `off` on, continuing `name`. */
  function NameAt(su: seq<u8>, off: nat, name: seq<u8>): (r: Outcome<seq<u8>>)
    requires off <= |su| && |name| <= MAX_NM_LEN
    ensures r.Returned? ==> |r.value| <= MAX_NM_LEN
    decreases |su| - off
  {
    if !EntryFits(su, off) then Returned(name)
    else
      var len := su[off + 2];
      if Signed(su, off, 'N', 'M') && len >= 6 then
        var longer := AddFragment(name, su[off + 5..off + len]);
        if longer.Panicked? || su[off + 4] % 2 == 0 then longer else NameAt(su, off + len, longer.value)
      else NameAt(su, off + len, name)
  }

  function NonEmpty(name: seq<u8>): Option<seq<u8>> {
    if name == [] then None else Some(name)
  }

  /** For every System Use field the name, if there is one, has 1 to 4096 bytes. */
  function AlternateName(su: seq<u8>): (r: Outcome<Option<seq<u8>>>)
    ensures r.Returned? && r.value.Some? ==> 0 < |r.value.value| <= MAX_NM_LEN
  {
    match NameAt(su, 0, [])
    case Returned(name) => Returned(NonEmpty(name))
    case Panicked => Panicked
  }

  method AppendCapped(name: seq<u8>, component: seq<u8>) returns (r: Outcome<seq<u8>>)
    requires |name| <= MAX_NM_LEN
    ensures r == AddFragment(name, component)
  {
    var fragment := Utf8OrEmpty(component);
    var remaining := MAX_NM_LEN - |name|;
    if remaining > 0 {
      var take := Min(|fragment|, remaining);
      if InsideCharacter(fragment, take) {
        return Panicked;
      }
      return Returned(name + fragment[..take]);
    }
    assert name + fragment[..0] == name;
    return Returned(name);
  }

  method FindAlternateName(su: seq<u8>) returns (r: Outcome<Option<seq<u8>>>)
    ensures r == AlternateName(su)
  {
    hide NameAt, AddFragment;
    var name: seq<u8> := [];
    var offset := 0;
    while offset + 3 <= |su|
      invariant 0 <= offset <= |su| && |name| <= MAX_NM_LEN
      invariant NameAt(su, offset, name) == NameAt(su, 0, [])
      decreases |su| - offset
    {
      NameUnfolds(su, offset, name);
      var len := su[offset + 2];
      if len < 3 || offset + len > |su| {
        break;
      }
      if Signed(su, offset, 'N', 'M') && len >= 6 {
        var flags := su[offset + 4];
        var longer := AppendCapped(name, su[offset + 5..offset + len]);
        if longer.Panicked? {
          return Panicked;
        }
        name := longer.value;
        if flags % 2 == 0 {
          return Returned(if name == [] then None else Some(name));
        }
      }
      offset := offset + len;
    }
    NameUnfolds(su, offset, name);
    return Returned(if name == [] then None else Some(name));
  }

  lemma NameUnfolds(su: seq<u8>, off: nat, name: seq<u8>)
    requires off <= |su| && |name| <= MAX_NM_LEN
    ensures !EntryFits(su, off) ==> NameAt(su, off, name) == Returned(name)
    ensures EntryFits(su, off) ==>
      var len := su[off + 2];
      NameAt(su, off, name) ==
      if Signed(su, off, 'N', 'M') && len >= 6 then
        var longer := AddFragment(name, su[off + 5..off + len]);
        if longer.Panicked? || su[off + 4] % 2 == 0 then longer else NameAt(su, off + len, longer.value)
      else NameAt(su, off + len, name)
  {
  }

  predicate IsNm(e: seq<u8>)
    requires IsEntry(e)
  {
    e[0] == 78 && e[1] == 77 && |e| >= 6
  }

  /** The NM entries among `es` hold `name` in pieces: every piece but the last has the
      continue flag, and other entries may stand anywhere. */
  ghost predicate Spells(es: seq<seq<u8>>, name: seq<u8>)
    requires AllEntries(es)
    decreases |es|
  {
    && |es| > 0
    && if !IsNm(es[0]) then Spells(es[1..], name)
       else
         var piece := es[0][5..];
         if es[0][4] % 2 == 0 then piece == name
         else piece <= name && Spells(es[1..], name[|piece|..])
  }

  lemma {:induction false} NameAtSpelled(su: seq<u8>, off: nat, es: seq<seq<u8>>, done: seq<u8>, name: seq<u8>)
    requires off <= |su| && AllEntries(es) && su[off..] == Concat(es)
    requires Spells(es, name) && IsAscii(name) && |done| + |name| <= MAX_NM_LEN
    ensures NameAt(su, off, done) == Returned(done + name)
    decreases |es|
  {
    hide Concat, IsUtf8, NameAt, Utf8OrEmpty, AddFragment;
    var e := es[0];
    TiledStep(su, off, es);
    NameStep(su, off, e, done);
    if IsNm(e) {
      var piece, rest := e[5..], name[|e[5..]|..];
      assert IsAscii(piece) && IsAscii(rest);
      AsciiFragment(done, piece);
      if e[4] % 2 != 0 {
        assert Spells(es[1..], rest) && done + piece + rest == done + name;
        NameAtSpelled(su, off + |e|, es[1..], done + piece, rest);
      }
    } else {
      NameAtSpelled(su, off + |e|, es[1..], done, name);
    }
  }

  lemma NameStep(su: seq<u8>, off: nat, e: seq<u8>, name: seq<u8>)
    requires off + |e| <= |su| && IsEntry(e) && su[off..off + |e|] == e && |name| <= MAX_NM_LEN
    requires forall i :: 0 <= i < |e| ==> su[off + i] == e[i]
    ensures NameAt(su, off, name) ==
      if !IsNm(e) then NameAt(su, off + |e|, name)
      else
        var longer := AddFragment(name, e[5..]);
        if longer.Panicked? || e[4] % 2 == 0 then longer else NameAt(su, off + |e|, longer.value)
  {
    hide IsUtf8;
    assert su[off + 2] == e[2];
    if IsNm(e) {
      assert su[off + 5..off + |e|] == e[5..];
    }
  }

  lemma AsciiFragment(name: seq<u8>, piece: seq<u8>)
    requires IsAscii(piece) && |name| + |piece| <= MAX_NM_LEN
    ensures AddFragment(name, piece) == Returned(name + piece)
  {
    AsciiIsUtf8(piece);
    assert piece[..|piece|] == piece;
  }

  /** Any split of an ASCII name over NM entries, among any other entries, decodes to the name. */
  lemma NameRoundTrip(es: seq<seq<u8>>, name: seq<u8>)
    requires AllEntries(es) && Spells(es, name)
    requires IsAscii(name) && 0 < |name| <= MAX_NM_LEN
    ensures AlternateName(Concat(es)) == Returned(Some(name))
  {
    assert Concat(es)[0..] == Concat(es);
    NameAtSpelled(Concat(es), 0, es, [], name);
    assert [] + name == name;
  }

  /** One NM entry of version 1. */
  function NmEntry(piece: seq<u8>, more: bool): (e: seq<u8>)
    requires 0 < |piece| <= 250
    ensures IsEntry(e) && IsNm(e)
  {
    ['N' as int, 'M' as int, 5 + |piece|, 1, if more then 1 else 0] + piece
  }

  /** A name in the fewest NM entries. */
  function NmEntries(name: seq<u8>): (es: seq<seq<u8>>)
    requires 0 < |name|
    ensures AllEntries(es)
    decreases |name|
  {
    if |name| <= 250 then [NmEntry(name, false)]
    else [NmEntry(name[..250], true)] + NmEntries(name[250..])
  }

  lemma {:induction false} NmEntriesSpell(name: seq<u8>)
    requires 0 < |name|
    ensures Spells(NmEntries(name), name)
    decreases |name|
  {
    var es := NmEntries(name);
    var piece := if |name| <= 250 then name else name[..250];
    assert es[0] == NmEntry(piece, |name| > 250) && es[0][5..] == piece;
    if |name| > 250 {
      NmEntriesSpell(name[250..]);
      assert es[1..] == NmEntries(name[250..]);
      assert piece <= name && name[|piece|..] == name[250..];
    }
  }

  // ---- SL: symbolic link --------------------------------------------------------

  datatype LinkState = LinkState(path: seq<u8>, needsSep: bool, inCont: bool)

  const DOT: seq<u8> := ['.' as int]

  predicate Flag(flags: u8, mask: nat)
    requires mask > 0
  {
    flags / mask % 2 == 1
  }

  /** The four flags of a component record are the four low bits of its first byte. */
  lemma ComponentFlags(flags: u8, cont: nat, current: nat, parent: nat, root: nat, rest: nat)
    requires cont < 2 && current < 2 && parent < 2 && root < 2
    requires flags == cont + 2 * current + 4 * parent + 8 * root + 16 * rest
    ensures Flag(flags, 1) <==> cont == 1
    ensures Flag(flags, 2) <==> current == 1
    ensures Flag(flags, 4) <==> parent == 1
    ensures Flag(flags, 8) <==> root == 1
  {
    var n: nat := flags;
    assert n / 2 == current + 2 * parent + 4 * root + 8 * rest;
    assert n / 4 == parent + 2 * root + 4 * rest;
    assert n / 8 == root + 2 * rest;
  }

  /** The effect of one component record. */
  function AddComponent(st: LinkState, flags: u8, data: seq<u8>): LinkState {
    var cont := Flag(flags, 1);
    if st.inCont then LinkState(st.path + Utf8OrEmpty(data), st.needsSep, cont)
    else if Flag(flags, 8) then LinkState(st.path + [SLASH], false, cont)
    else
      var base := if st.needsSep then st.path + [SLASH] else st.path;
      var text := if Flag(flags, 4) then DOT + DOT else if Flag(flags, 2) then DOT else Utf8OrEmpty(data);
      LinkState(base + text, true, cont)
  }

  predicate ComponentFits(area: seq<u8>, ci: nat) {
    ci + 2 <= |area| && ci + 2 + area[ci + 1] <= |area|
  }

  function ComponentsAt(area: seq<u8>, ci: nat, st: LinkState): LinkState
    requires ci <= |area|
    decreases |area| - ci
  {
    if !ComponentFits(area, ci) then st
    else
      var end := ci + 2 + area[ci + 1];
      ComponentsAt(area, end, AddComponent(st, area[ci], area[ci + 2..end]))
  }

  function LinkAt(su: seq<u8>, off: nat, st: LinkState, found: bool): (LinkState, bool)
    requires off <= |su|
    decreases |su| - off
  {
    if !EntryFits(su, off) then (st, found)
    else
      var len := su[off + 2];
      if Signed(su, off, 'S', 'L') && len >= 5 then
        LinkAt(su, off + len, ComponentsAt(su[off + 5..off + len], 0, st), true)
      else LinkAt(su, off + len, st, found)
  }

  const NO_LINK: LinkState := LinkState([], false, false)

  function SymlinkTarget(su: seq<u8>): Option<seq<u8>> {
    var (st, found) := LinkAt(su, 0, NO_LINK, false);
    if found then Some(st.path) else None
  }

  method ReadComponents(area: seq<u8>, st: LinkState) returns (r: LinkState)
    ensures r == ComponentsAt(area, 0, st)
  {
    var path, needsSep, inCont := st.path, st.needsSep, st.inCont;
    var ci := 0;
    while ci + 2 <= |area|
      invariant 0 <= ci <= |area|
      invariant ComponentsAt(area, ci, LinkState(path, needsSep, inCont)) == ComponentsAt(area, 0, st)
      decreases |area| - ci
    {
      var cf := area[ci];
      var cl := area[ci + 1];
      if ci + 2 + cl > |area| {
        break;
      }
      var cd := area[ci + 2..ci + 2 + cl];
      if inCont {
        path := path + Utf8OrEmpty(cd);
      } else if Flag(cf, 8) {
        path := path + [SLASH];
        needsSep := false;
      } else {
        if needsSep {
          path := path + [SLASH];
        }
        needsSep := true;
        if Flag(cf, 4) {
          path := path + (DOT + DOT);
        } else if Flag(cf, 2) {
          path := path + DOT;
        } else {
          path := path + Utf8OrEmpty(cd);
        }
      }
      inCont := Flag(cf, 1);
      ci := ci + 2 + cl;
    }
    r := LinkState(path, needsSep, inCont);
  }

  method FindSymlinkTarget(su: seq<u8>) returns (r: Option<seq<u8>>)
    ensures r == SymlinkTarget(su)
  {
    var st, found := NO_LINK, false;
    var off := 0;
    while off + 3 <= |su|
      invariant 0 <= off <= |su|
      invariant LinkAt(su, off, st, found) == LinkAt(su, 0, NO_LINK, false)
      decreases |su| - off
    {
      var len := su[off + 2];
      if len < 3 || off + len > |su| {
        break;
      }
      if Signed(su, off, 'S', 'L') && len >= 5 {
        found := true;
        st := ReadComponents(su[off + 5..off + len], st);
      }
      off := off + len;
    }
    return if found then Some(st.path) else None;
  }

  datatype Kind = Root | Current | Parent | Named

  /** A component of a symbolic link's target.  To a root, current or parent component text can be
      joined by its continue flag; it usually is empty. */
  datatype Component = Component(kind: Kind, text: seq<u8>)

  function Head(kind: Kind): seq<u8> {
    match kind
    case Root => [SLASH]
    case Current => DOT
    case Parent => DOT + DOT
    case Named => []
  }

  /** The POSIX path of a list of components; `sep` tells whether a separator is due first. */
  function Render(path: seq<Component>, sep: bool): seq<u8> {
    if |path| == 0 then []
    else
      var (c, root) := (path[0], path[0].kind.Root?);
      (if sep && !root then [SLASH] else []) + (Head(c.kind) + c.text) + Render(path[1..], !root)
  }

  /** A component record: flags and content. */
  datatype Record = Record(flags: u8, data: seq<u8>)

  predicate Short(rs: seq<Record>) {
    forall i :: 0 <= i < |rs| ==> |rs[i].data| < 256
  }

  function EncodeRecords(rs: seq<Record>): (b: seq<u8>)
    requires Short(rs)
  {
    if |rs| == 0 then [] else [rs[0].flags, |rs[0].data|] + rs[0].data + EncodeRecords(rs[1..])
  }

  function RunRecords(rs: seq<Record>, st: LinkState): LinkState {
    if |rs| == 0 then st else RunRecords(rs[1..], AddComponent(st, rs[0].flags, rs[0].data))
  }

  /** The kind the flags give: root before parent before current. */
  predicate IsKind(flags: u8, kind: Kind) {
    match kind
    case Root => Flag(flags, 8)
    case Parent => !Flag(flags, 8) && Flag(flags, 4)
    case Current => !Flag(flags, 8) && !Flag(flags, 4) && Flag(flags, 2)
    case Named => !Flag(flags, 8) && !Flag(flags, 4) && !Flag(flags, 2)
  }

  /** The records encode the components: root, parent and current by their flags, a name by its pieces.
      A record with the continue flag joins the text of the next one, whatever the flags there. */
  ghost predicate Splits(rs: seq<Record>, path: seq<Component>)
    decreases |rs|, 1
  {
    if |path| == 0 then |rs| == 0
    else
      && |rs| > 0 && IsKind(rs[0].flags, path[0].kind)
      && if path[0].kind.Named? then Joins(rs, path[0].text, path[1..])
         else if Flag(rs[0].flags, 1) then Joins(rs[1..], path[0].text, path[1..])
         else path[0].text == [] && Splits(rs[1..], path[1..])
  }

  /** The text of a piece: nothing unless its bytes are a string. */
  function PieceText(data: seq<u8>): seq<u8> {
    if IsUtf8(data) then data else []
  }

  /** The records begin with the pieces of `text` and go on with `rest`. */
  ghost predicate Joins(rs: seq<Record>, text: seq<u8>, rest: seq<Component>)
    decreases |rs|, 0
  {
    if |rs| == 0 then text == [] && rest == []
    else
      var piece := PieceText(rs[0].data);
      if Flag(rs[0].flags, 1) then piece <= text && Joins(rs[1..], text[|piece|..], rest)
      else piece == text && Splits(rs[1..], rest)
  }

  /** Every list of records encodes some components. */
  lemma {:induction false} SomePath(rs: seq<Record>) returns (path: seq<Component>)
    ensures Splits(rs, path)
    decreases |rs|, 1
  {
    hide PieceText;
    if |rs| == 0 {
      path := [];
    } else {
      var kind := if Flag(rs[0].flags, 8) then Root else if Flag(rs[0].flags, 4) then Parent
                  else if Flag(rs[0].flags, 2) then Current else Named;
      var text, rest := [], [];
      if kind.Named? {
        text, rest := SomeText(rs);
      } else if Flag(rs[0].flags, 1) {
        text, rest := SomeText(rs[1..]);
      } else {
        rest := SomePath(rs[1..]);
      }
      path := [Component(kind, text)] + rest;
      assert path[1..] == rest;
    }
  }

  lemma {:induction false} SomeText(rs: seq<Record>) returns (text: seq<u8>, rest: seq<Component>)
    ensures Joins(rs, text, rest)
    decreases |rs|, 0
  {
    hide PieceText;
    text, rest := [], [];
    if |rs| > 0 {
      text := PieceText(rs[0].data);
      if Flag(rs[0].flags, 1) {
        var more;
        more, rest := SomeText(rs[1..]);
        assert (text + more)[|text|..] == more;
        text := text + more;
      } else {
        rest := SomePath(rs[1..]);
      }
    }
  }

  lemma {:induction false} RunsRendered(rs: seq<Record>, path: seq<Component>, st: LinkState)
    requires Splits(rs, path) && !st.inCont
    ensures RunRecords(rs, st).path == st.path + Render(path, st.needsSep)
    decreases |rs|, 1
  {
    hide IsUtf8, PieceText, Flag;
    if |path| == 0 {
      assert st.path + [] == st.path;
    } else {
      var c, more := path[0], path[1..];
      var next := AddComponent(st, rs[0].flags, rs[0].data);
      var sep := if st.needsSep && !c.kind.Root? then [SLASH] else [];
      PieceIsText(rs[0].data);
      var piece := if c.kind.Named? then PieceText(rs[0].data) else [];
      FirstPart(st, rs[0], c.kind, sep, piece);
      hide AddComponent;
      var left := c.text[|piece|..];
      if next.inCont {
        JoinedRun(rs[1..], left, more, next);
      } else {
        RunsRendered(rs[1..], more, next);
      }
      assert c.text == piece + left;
      Regroup(st.path, sep, Head(c.kind), piece, left, Render(more, !c.kind.Root?));
    }
  }

  /** A first record adds a separator where one is due, its head, and the text of a name. */
  lemma FirstPart(st: LinkState, r: Record, kind: Kind, sep: seq<u8>, piece: seq<u8>)
    requires !st.inCont && IsKind(r.flags, kind)
    requires sep == if st.needsSep && !kind.Root? then [SLASH] else []
    requires piece == if kind.Named? then Utf8OrEmpty(r.data) else []
    ensures AddComponent(st, r.flags, r.data) ==
      LinkState(st.path + sep + Head(kind) + piece, !kind.Root?, Flag(r.flags, 1))
  {
    hide Utf8OrEmpty, Flag;
    assert st.path + [] == st.path && st.path + sep + [] == st.path + sep;
    assert st.path + sep + Head(kind) + [] == st.path + sep + Head(kind);
  }

  lemma Regroup(a: seq<u8>, b: seq<u8>, c: seq<u8>, d: seq<u8>, e: seq<u8>, f: seq<u8>)
    ensures a + b + c + d + e + f == a + (b + (c + (d + e)) + f)
    ensures a + b + c + d + f == a + (b + (c + (d + [])) + f)
  {
  }

  /** Joined text is appended piece by piece, with no separator in between. */
  lemma {:induction false} JoinedRun(rs: seq<Record>, text: seq<u8>, rest: seq<Component>, st: LinkState)
    requires Joins(rs, text, rest) && st.inCont
    ensures RunRecords(rs, st).path == st.path + text + Render(rest, st.needsSep)
    decreases |rs|, 0
  {
    hide IsUtf8, PieceText, Utf8OrEmpty, Render, Splits, Flag;
    if |rs| == 0 {
      NothingRendered(st.needsSep);
      assert st.path + [] + [] == st.path;
    } else {
      var piece := PieceText(rs[0].data);
      PieceIsText(rs[0].data);
      var next := AddComponent(st, rs[0].flags, rs[0].data);
      assert next == LinkState(st.path + piece, st.needsSep, Flag(rs[0].flags, 1));
      if next.inCont {
        JoinedRun(rs[1..], text[|piece|..], rest, next);
        assert st.path + piece + text[|piece|..] == st.path + text;
      } else {
        RunsRendered(rs[1..], rest, next);
      }
    }
  }

  lemma NothingRendered(sep: bool)
    ensures Render([], sep) == []
  {
  }

  lemma PieceIsText(data: seq<u8>)
    ensures Utf8OrEmpty(data) == PieceText(data)
  {
  }

  /** Bytes too few for the record they begin. */
  predicate CutRecord(t: seq<u8>) {
    |t| < 2 || |t| - 2 < t[1]
  }

  /** A component area: whole records, and perhaps the beginning of one more. */
  predicate HoldsGroup(area: seq<u8>, rs: seq<Record>)
  {
    Short(rs) && EncodeRecords(rs) <= area && CutRecord(area[|EncodeRecords(rs)|..])
  }

  lemma {:induction false} ComponentsRun(area: seq<u8>, ci: nat, rs: seq<Record>, st: LinkState)
    requires ci <= |area| && HoldsGroup(area[ci..], rs)
    ensures ComponentsAt(area, ci, st) == RunRecords(rs, st)
    decreases |rs|
  {
    hide AddComponent;
    if |rs| > 0 {
      var end := ci + 2 + |rs[0].data|;
      RecordStep(area, ci, rs);
      ComponentsRun(area, end, rs[1..], AddComponent(st, rs[0].flags, rs[0].data));
    } else {
      assert area[ci..][|EncodeRecords(rs)|..] == area[ci..];
    }
  }

  lemma RecordStep(area: seq<u8>, ci: nat, rs: seq<Record>)
    requires |rs| > 0 && ci <= |area| && HoldsGroup(area[ci..], rs)
    ensures var end := ci + 2 + |rs[0].data|;
      && ComponentFits(area, ci) && area[ci] == rs[0].flags && area[ci + 1] == |rs[0].data|
      && area[ci + 2..end] == rs[0].data && HoldsGroup(area[end..], rs[1..])
  {
    var d, end := rs[0].data, ci + 2 + |rs[0].data|;
    var rest, front, more := area[ci..], EncodeRecords(rs), EncodeRecords(rs[1..]);
    assert rest[..|front|] == front;
    assert rest[0] == front[0] == area[ci] && rest[1] == front[1] == area[ci + 1];
    assert front[2..2 + |d|] == d && front[2 + |d|..] == more;
    assert area[ci + 2..end] == rest[..|front|][2..2 + |d|];
    assert area[end..][..|more|] == rest[..|front|][2 + |d|..];
    assert area[end..][|more|..] == rest[|front|..];
  }

  predicate IsSl(e: seq<u8>)
    requires IsEntry(e)
  {
    e[0] == 83 && e[1] == 76 && |e| >= 5
  }

  /** The SL entries among `es` hold the groups of records in order, one group each. */
  ghost predicate HoldsRecords(es: seq<seq<u8>>, groups: seq<seq<Record>>)
    requires AllEntries(es)
    decreases |es|
  {
    if |es| == 0 then |groups| == 0
    else if IsSl(es[0]) then
      && |groups| > 0
      && HoldsGroup(es[0][5..], groups[0]) && HoldsRecords(es[1..], groups[1..])
    else HoldsRecords(es[1..], groups)
  }

  function Flatten(groups: seq<seq<Record>>): seq<Record> {
    if |groups| == 0 then [] else groups[0] + Flatten(groups[1..])
  }

  lemma {:induction false} RunAppend(rs: seq<Record>, ts: seq<Record>, st: LinkState)
    ensures RunRecords(rs + ts, st) == RunRecords(ts, RunRecords(rs, st))
    decreases |rs|
  {
    if |rs| == 0 {
      assert rs + ts == ts;
    } else {
      assert (rs + ts)[1..] == rs[1..] + ts;
      RunAppend(rs[1..], ts, AddComponent(st, rs[0].flags, rs[0].data));
    }
  }

  lemma {:induction false} LinkAtRun(su: seq<u8>, off: nat, es: seq<seq<u8>>, groups: seq<seq<Record>>,
      st: LinkState, found: bool)
    requires off <= |su| && AllEntries(es) && su[off..] == Concat(es)
    requires HoldsRecords(es, groups)
    ensures LinkAt(su, off, st, found) == (RunRecords(Flatten(groups), st), found || |groups| > 0)
    decreases |es|
  {
    hide Concat, LinkAt, ComponentsAt, RunRecords, Flatten, HoldsGroup;
    if |es| == 0 {
      LinkAtEnd(su, off, st, found);
    } else {
      var e := es[0];
      TiledStep(su, off, es);
      LinkStep(su, off, e, st, found);
      if IsSl(e) {
        assert e[5..][0..] == e[5..] && HoldsRecords(es[1..], groups[1..]);
        ComponentsRun(e[5..], 0, groups[0], st);
        FlattenRun(groups, st);
        LinkAtRun(su, off + |e|, es[1..], groups[1..], RunRecords(groups[0], st), true);
      } else {
        LinkAtRun(su, off + |e|, es[1..], groups, st, found);
      }
    }
  }

  lemma LinkAtEnd(su: seq<u8>, off: nat, st: LinkState, found: bool)
    requires off <= |su| && su[off..] == Concat([])
    ensures LinkAt(su, off, st, found) == (RunRecords(Flatten([]), st), found)
  {
    assert off == |su|;
  }

  lemma FlattenRun(groups: seq<seq<Record>>, st: LinkState)
    requires |groups| > 0
    ensures RunRecords(Flatten(groups), st) == RunRecords(Flatten(groups[1..]), RunRecords(groups[0], st))
  {
    RunAppend(groups[0], Flatten(groups[1..]), st);
  }

  lemma LinkStep(su: seq<u8>, off: nat, e: seq<u8>, st: LinkState, found: bool)
    requires off + |e| <= |su| && IsEntry(e) && su[off..off + |e|] == e
    requires forall i :: 0 <= i < |e| ==> su[off + i] == e[i]
    ensures LinkAt(su, off, st, found) ==
      if IsSl(e) then LinkAt(su, off + |e|, ComponentsAt(e[5..], 0, st), true)
      else LinkAt(su, off + |e|, st, found)
  {
    hide ComponentsAt;
    assert su[off + 2] == e[2];
    if IsSl(e) {
      assert su[off + 5..off + |e|] == e[5..];
    }
  }

  /** Any encoding of a path in SL records, spread over any SL entries among other entries,
      decodes to the path. */
  lemma SymlinkRoundTrip(es: seq<seq<u8>>, groups: seq<seq<Record>>, path: seq<Component>)
    requires AllEntries(es) && HoldsRecords(es, groups) && |groups| > 0
    requires Splits(Flatten(groups), path)
    ensures SymlinkTarget(Concat(es)) == Some(Render(path, false))
  {
    var su, rs := Concat(es), Flatten(groups);
    assert su[0..] == su;
    hide *;
    LinkAtRun(su, 0, es, groups, LinkState([], false, false), false);
    RunsRendered(rs, path, LinkState([], false, false));
    TargetIs(su, RunRecords(rs, LinkState([], false, false)));
    assert [] + Render(path, false) == Render(path, false);
  }

  lemma TargetIs(su: seq<u8>, st: LinkState)
    requires LinkAt(su, 0, LinkState([], false, false), false) == (st, true)
    ensures SymlinkTarget(su) == Some(st.path)
  {
  }

  // ---- CE: continuation area ----------------------------------------------------

  datatype ContinuationArea = ContinuationArea(lba: u32, offset: u32, len: u32)

  function ContinuationAt(su: seq<u8>, off: nat): Option<ContinuationArea>
    requires off <= |su|
    decreases |su| - off
  {
    if !EntryFits(su, off) then None
    else if Signed(su, off, 'C', 'E') && su[off + 2] >= 28 then
      Some(ContinuationArea(ReadLe32(su, off + 4), ReadLe32(su, off + 12), ReadLe32(su, off + 20)))
    else ContinuationAt(su, off + su[off + 2])
  }

  method Continuation(su: seq<u8>) returns (r: Option<ContinuationArea>)
    ensures r == ContinuationAt(su, 0)
  {
    var off := 0;
    while off + 3 <= |su|
      invariant 0 <= off <= |su|
      invariant ContinuationAt(su, off) == ContinuationAt(su, 0)
      decreases |su| - off
    {
      var len := su[off + 2];
      if len < 3 || off + len > |su| {
        break;
      }
      if Signed(su, off, 'C', 'E') && len >= 28 {
        return Some(ContinuationArea(ReadLe32(su, off + 4), ReadLe32(su, off + 12), ReadLe32(su, off + 20)));
      }
      off := off + len;
    }
    return None;
  }

  /** A CE entry pointing at an area; the big-endian copies `be` are not read. */
  function CeEntry(ce: ContinuationArea, be: seq<seq<u8>>): (e: seq<u8>)
    requires |be| == 3 && |be[0]| == 4 && |be[1]| == 4 && |be[2]| == 4
    ensures IsEntry(e)
  {
    ['C' as int, 'E' as int, 28, 1] + Le32(ce.lba) + be[0] + Le32(ce.offset) + be[1] + Le32(ce.len) + be[2]
  }

  predicate IsCe(e: seq<u8>)
    requires IsEntry(e)
  {
    e[0] == 67 && e[1] == 69 && |e| >= 28
  }

  /** The first CE entry is the pointer found. */
  lemma {:induction false} ContinuationFound(su: seq<u8>, off: nat, es: seq<seq<u8>>, k: nat,
      ce: ContinuationArea, be: seq<seq<u8>>)
    requires off <= |su| && AllEntries(es) && su[off..] == Concat(es)
    requires |be| == 3 && |be[0]| == 4 && |be[1]| == 4 && |be[2]| == 4
    requires k < |es| && es[k] == CeEntry(ce, be)
    requires forall i :: 0 <= i < k ==> !IsCe(es[i])
    ensures ContinuationAt(su, off) == Some(ce)
    decreases |es|
  {
    hide Concat;
    TiledStep(su, off, es);
    CeStep(su, off, es[0]);
    hide ContinuationAt, CeEntry;
    if k == 0 {
      CeFields(es[0], ce, be);
    } else {
      ContinuationFound(su, off + |es[0]|, es[1..], k - 1, ce, be);
    }
  }

  lemma CeStep(su: seq<u8>, off: nat, e: seq<u8>)
    requires off + |e| <= |su| && IsEntry(e) && forall i :: 0 <= i < |e| ==> su[off + i] == e[i]
    ensures ContinuationAt(su, off) ==
      if IsCe(e) then Some(ContinuationArea(ReadLe32(e, 4), ReadLe32(e, 12), ReadLe32(e, 20)))
      else ContinuationAt(su, off + |e|)
  {
    assert su[off + 2] == e[2] && su[off] == e[0] && su[off + 1] == e[1];
    if IsCe(e) {
      assert forall i :: 4 <= i < 24 ==> su[off + i] == e[i];
      assert ReadLe32(su, off + 4) == ReadLe32(e, 4);
      assert ReadLe32(su, off + 12) == ReadLe32(e, 12);
      assert ReadLe32(su, off + 20) == ReadLe32(e, 20);
    }
  }

  lemma CeFields(e: seq<u8>, ce: ContinuationArea, be: seq<seq<u8>>)
    requires |be| == 3 && |be[0]| == 4 && |be[1]| == 4 && |be[2]| == 4
    requires e == CeEntry(ce, be)
    ensures IsEntry(e) && IsCe(e)
    ensures ReadLe32(e, 4) == ce.lba && ReadLe32(e, 12) == ce.offset && ReadLe32(e, 20) == ce.len
  {
    assert e[4..8] == Le32(ce.lba) && e[12..16] == Le32(ce.offset) && e[20..24] == Le32(ce.len);
    hide Le32, ReadLe32;
    ReadsWhatWasWritten(e, 4, ce.lba);
    ReadsWhatWasWritten(e, 12, ce.offset);
    ReadsWhatWasWritten(e, 20, ce.len);
  }

  /** The System Use field with its continuation area appended; `sector` gives a logical
      sector's 2048 bytes, or None past the end of the image. */
  function Followed(su: seq<u8>, sector: nat -> Option<seq<u8>>): Result<seq<u8>, IsoError>
    requires forall lba: nat :: sector(lba).Some? ==> |sector(lba).value| == 2048
  {
    match ContinuationAt(su, 0)
    case None => Ok(su)
    case Some(ce) =>
      if ce.offset + ce.len > 2048 then Ok(su)
      else match sector(ce.lba)
        case None => Err(UnexpectedEof)
        case Some(buf) => Ok(su + buf[ce.offset..ce.offset + ce.len])
  }

  /** Following a continuation only appends, at most one sector's bytes; it fails exactly when
      the first CE entry names a range inside a sector that the image does not hold. */
  lemma FollowingAppends(su: seq<u8>, sector: nat -> Option<seq<u8>>)
    requires forall lba: nat :: sector(lba).Some? ==> |sector(lba).value| == 2048
    ensures var ce := ContinuationAt(su, 0);
      Followed(su, sector).Err? <==>
      ce.Some? && ce.value.offset + ce.value.len <= 2048 && sector(ce.value.lba).None?
    ensures Followed(su, sector).Ok? ==>
      su <= Followed(su, sector).value && |Followed(su, sector).value| <= |su| + 2048
  {
    hide ContinuationAt;
  }

  /** A field tiled by `es`, whose first CE entry points at a range holding `fs`, is read as
      the entries of both. */
  lemma ContinuedAreaReadsOn(es: seq<seq<u8>>, fs: seq<seq<u8>>, k: nat, ce: ContinuationArea, be: seq<seq<u8>>,
                             sector: nat -> Option<seq<u8>>)
    requires AllEntries(es) && AllEntries(fs)
    requires forall lba: nat :: sector(lba).Some? ==> |sector(lba).value| == 2048
    requires |be| == 3 && |be[0]| == 4 && |be[1]| == 4 && |be[2]| == 4
    requires k < |es| && es[k] == CeEntry(ce, be) && forall i :: 0 <= i < k ==> !IsCe(es[i])
    requires ce.offset + ce.len <= 2048 && sector(ce.lba).Some?
    requires sector(ce.lba).value[ce.offset..ce.offset + ce.len] == Concat(fs)
    ensures Followed(Concat(es), sector) == Ok(Concat(es + fs))
  {
    assert Concat(es)[0..] == Concat(es);
    ContinuationFound(Concat(es), 0, es, k, ce, be);
    ConcatAppend(es, fs);
  }

  /** Names and links whose entries are spread over a record and its continuation area decode to
      the original. */
  lemma ContinuedRoundTrip(es: seq<seq<u8>>, fs: seq<seq<u8>>, k: nat, ce: ContinuationArea, be: seq<seq<u8>>,
                           sector: nat -> Option<seq<u8>>, name: seq<u8>, groups: seq<seq<Record>>,
                           path: seq<Component>)
    requires AllEntries(es) && AllEntries(fs) && AllEntries(es + fs)
    requires forall lba: nat :: sector(lba).Some? ==> |sector(lba).value| == 2048
    requires |be| == 3 && |be[0]| == 4 && |be[1]| == 4 && |be[2]| == 4
    requires k < |es| && es[k] == CeEntry(ce, be) && forall i :: 0 <= i < k ==> !IsCe(es[i])
    requires ce.offset + ce.len <= 2048 && sector(ce.lba).Some?
    requires sector(ce.lba).value[ce.offset..ce.offset + ce.len] == Concat(fs)
    ensures Followed(Concat(es), sector).Ok?
    ensures Spells(es + fs, name) && IsAscii(name) && 0 < |name| <= MAX_NM_LEN ==>
      AlternateName(Followed(Concat(es), sector).value) == Returned(Some(name))
    ensures HoldsRecords(es + fs, groups) && |groups| > 0 && Splits(Flatten(groups), path) ==>
      SymlinkTarget(Followed(Concat(es), sector).value) == Some(Render(path, false))
  {
    ContinuedAreaReadsOn(es, fs, k, ce, be, sector);
    hide *;
    if Spells(es + fs, name) && IsAscii(name) && 0 < |name| <= MAX_NM_LEN {
      NameRoundTrip(es + fs, name);
    }
    if HoldsRecords(es + fs, groups) && |groups| > 0 && Splits(Flatten(groups), path) {
      SymlinkRoundTrip(es + fs, groups, path);
    }
  }
}
