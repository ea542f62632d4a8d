/** Looking up a path (core/src/lib.rs), and its agreement with the walk. */
module Find {
  import opened Wrappers
  import opened Bytes
  import opened IsoErrors
  import opened Directory
  import opened Names
  import opened Walk
  import opened WalkInvariant
  import opened WalkTheorems
  import opened Cycles

  // ---- the lookup ---------------------------------------------------------------------

  function TrimSlashes(path: Name): Name {
    if |path| > 0 && path[0] == SLASH then TrimSlashes(path[1..])
    else if |path| > 0 && path[|path| - 1] == SLASH then TrimSlashes(path[..|path| - 1])
    else path
  }

  function NonEmptyOnes(parts: seq<Name>): seq<Name> {
    if |parts| == 0 then []
    else (if |parts[0]| > 0 then [parts[0]] else []) + NonEmptyOnes(parts[1..])
  }

  /** The components of a path. */
  function Components(path: Name): seq<Name> {
    NonEmptyOnes(Split(TrimSlashes(path)))
  }

  /** A record is known by its ISO name and by its Rock Ridge name, in either letter case. */
  predicate KnownAs(rec: DirRecord, needle: Name) {
    || Upper(IsoName(rec.nameBytes)) == needle
    || (RockRidgeName(rec).Some? && Upper(RockRidgeName(rec).value) == needle)
  }

  function FirstKnownAs(recs: seq<DirRecord>, needle: Name): Option<DirRecord> {
    if |recs| == 0 then None
    else if KnownAs(recs[0], needle) then Some(recs[0])
    else FirstKnownAs(recs[1..], needle)
  }

  /** Looks up component i and the ones after it in the directory at `lba`. */
  function FindFrom(rd: ReadDir, lba: u32, size: u32, parts: seq<Name>, i: nat): Result<DirRecord, IsoError>
    requires i <= |parts|
    decreases |parts| - i
  {
    if i == |parts| then Err(NotFound)
    else if parts[i] == DOT_DOT then Err(PathTraversal)
    else match rd(lba, size)
      case Err(e) => Err(e)
      case Ok(recs) =>
        match FirstKnownAs(recs, Upper(parts[i]))
        case None => Err(NotFound)
        case Some(found) =>
          if i == |parts| - 1 then Ok(found)
          else if !found.IsDir() then Err(NotFound)
          else FindFrom(rd, found.lba, found.size, parts, i + 1)
  }

  method Position(recs: seq<DirRecord>, needle: Name) returns (found: Option<DirRecord>)
    ensures found == FirstKnownAs(recs, needle)
  {
    hide KnownAs;
    for i := 0 to |recs|
      invariant FirstKnownAs(recs, needle) == FirstKnownAs(recs[i..], needle)
    {
      if KnownAs(recs[i], needle) {
        return Some(recs[i]);
      }
      assert recs[i..][1..] == recs[i + 1..];
    }
    return None;
  }

  // ---- the components of a listed path ------------------------------------------------------

  lemma {:induction false} PathEnds(trail: seq<Name>)
    requires AllPlain(trail) && |trail| > 0
    ensures var path := PathOf(trail); |path| > 0 && path[0] != SLASH && path[|path| - 1] != SLASH
  {
    var front, name := Front(trail), trail[|trail| - 1];
    assert Plain(name);
    if |front| > 0 {
      PathEnds(front);
    }
  }

  lemma {:induction false} NoneEmpty(parts: seq<Name>)
    requires AllPlain(parts)
    ensures NonEmptyOnes(parts) == parts
  {
    if |parts| > 0 {
      assert Plain(parts[0]);
      NoneEmpty(parts[1..]);
    }
  }

  /** The components of a listed path are its names, also with slashes around it. */
  lemma ComponentsOfPath(trail: seq<Name>)
    requires AllPlain(trail) && |trail| > 0
    ensures Components(PathOf(trail)) == trail
    ensures Components([SLASH] + PathOf(trail)) == trail && Components(PathOf(trail) + [SLASH]) == trail
  {
    PathEnds(trail);
    SplitPath(trail);
    NoneEmpty(trail);
    hide PathOf, Split, NonEmptyOnes, TrimSlashes;
    TrimmedPath(PathOf(trail));
  }

  lemma TrimmedPath(path: Name)
    requires |path| > 0 && path[0] != SLASH && path[|path| - 1] != SLASH
    ensures TrimSlashes(path) == path
    ensures TrimSlashes([SLASH] + path) == path && TrimSlashes(path + [SLASH]) == path
  {
    var before, after := [SLASH] + path, path + [SLASH];
    assert before[1..] == path && before[0] == SLASH;
    assert after[..|after| - 1] == path && after[0] == path[0] && after[|after| - 1] == SLASH;
  }

  // ---- what the walk lists is found -----------------------------------------------------------

  /** No name of one record is a name of another, whatever the letter case. */
  ghost predicate NamesApart(recs: seq<DirRecord>) {
    forall i, j, needle ::
      0 <= i < |recs| && 0 <= j < |recs| && KnownAs(recs[i], needle) && KnownAs(recs[j], needle) ==> i == j
  }

  ghost predicate FindableDir(recs: seq<DirRecord>) {
    && NamesApart(recs)
    && forall i :: 0 <= i < |recs| ==> Plain(NameOf(recs[i])) && NameOf(recs[i]) != DOT_DOT
  }

  /** Every directory the walk read can be searched by name. */
  ghost predicate FindableTree(rd: ReadDir, st: State) {
    forall d :: Readable(rd, st.sizes, d) ==> FindableDir(Records(rd, st.sizes, d))
  }

  lemma {:induction false} OnlyOneKnownAs(recs: seq<DirRecord>, i: nat, needle: Name)
    requires NamesApart(recs) && i < |recs| && KnownAs(recs[i], needle)
    ensures FirstKnownAs(recs, needle) == Some(recs[i])
  {
    hide KnownAs;
    if i > 0 {
      assert !KnownAs(recs[0], needle);
      assert NamesApart(recs[1..]) by {
        forall a, b, n |
          0 <= a < |recs| - 1 && 0 <= b < |recs| - 1 && KnownAs(recs[1..][a], n) && KnownAs(recs[1..][b], n)
          ensures a == b
        {
          assert recs[1..][a] == recs[a + 1] && recs[1..][b] == recs[b + 1];
        }
      }
      OnlyOneKnownAs(recs[1..], i - 1, needle);
    }
  }

  /** Looking for an entry's name in its directory finds its record. */
  lemma FoundInHome(rd: ReadDir, st: State, v: Visit)
    requires FindableTree(rd, st) && Faithful(rd, st.sizes, v)
    ensures var name := v.trail[|v.trail| - 1];
      && name != DOT_DOT && Plain(name)
      && FirstKnownAs(Records(rd, st.sizes, Home(v)), Upper(name)) == Some(v.entry.record)
  {
    hide IsoName, RockRidgeName, Upper;
    var recs := Records(rd, st.sizes, Home(v));
    assert KnownAs(recs[v.index], Upper(NameOf(v.entry.record)));
    OnlyOneKnownAs(recs, v.index, Upper(NameOf(v.entry.record)));
  }

  lemma {:induction false} NamesArePlain(rd: ReadDir, root: u32, rootSize: u32, st: State, k: nat)
    requires AllFaithful(rd, st) && Rooted(root, rootSize, st) && FindableTree(rd, st) && k < |st.out|
    ensures AllPlain(st.out[k].trail)
  {
    hide FindableTree, Faithful, Plain, RootedAt;
    var v := st.out[k];
    FoundInHome(rd, st, v);
    var j := ParentVisit(root, rootSize, st, k);
    if |v.trail| > 1 {
      NamesArePlain(rd, root, rootSize, st, j);
    }
    assert v.trail == Front(v.trail) + [v.trail[|v.trail| - 1]];
  }

  /** The components are the names, up to the case of their letters. */
  ghost predicate Spelt(parts: seq<Name>, trail: seq<Name>) {
    |trail| <= |parts| && forall i :: 0 <= i < |trail| ==> Upper(parts[i]) == Upper(trail[i])
  }

  lemma OnlyDotDot(part: Name, name: Name)
    requires Upper(part) == Upper(name)
    ensures part == DOT_DOT ==> name == DOT_DOT
  {
    UpperForgetsCase(part, name);
    if part == DOT_DOT {
      assert SameLetter(part[0], name[0]) && SameLetter(part[1], name[1]);
    }
  }

  /** A lookup that starts with the names on the way to an entry gets to the entry's directory. */
  lemma {:induction false} GetsHome(rd: ReadDir, root: u32, rootSize: u32, st: State, k: nat, parts: seq<Name>)
    requires AllFaithful(rd, st) && Rooted(root, rootSize, st) && FindableTree(rd, st) && k < |st.out|
    requires Spelt(parts, st.out[k].trail)
    requires root in st.sizes && st.sizes[root] == rootSize
    ensures |st.out[k].trail| > 0 && Home(st.out[k]) in st.sizes
    ensures FindFrom(rd, root, rootSize, parts, 0) ==
      FindFrom(rd, Home(st.out[k]), st.sizes[Home(st.out[k])], parts, |st.out[k].trail| - 1)
  {
    hide FindableTree, RootedAt, FirstKnownAs, NameOf, PathOf, Upper;
    var v := st.out[k];
    var j := ParentVisit(root, rootSize, st, k);
    if |v.trail| > 1 {
      var u := st.out[j];
      assert u.trail == v.trail[..|v.trail| - 1];
      assert Spelt(parts, u.trail);
      GetsHome(rd, root, rootSize, st, j, parts);
      assert Faithful(rd, st.sizes, u);
      FoundInHome(rd, st, u);
      OnlyDotDot(parts[|u.trail| - 1], u.trail[|u.trail| - 1]);
    }
  }

  /** Looking up the names on the way to an entry, in any letter case, gives its record. */
  lemma FindsInAnyCase(rd: ReadDir, root: u32, rootSize: u32, st: State, k: nat, parts: seq<Name>)
    requires Finished(rd, root, rootSize, st) && FindableTree(rd, st) && k < |st.out|
    requires Spelt(parts, st.out[k].trail) && |parts| == |st.out[k].trail|
    ensures FindFrom(rd, root, rootSize, parts, 0) == Ok(st.out[k].entry.record)
  {
    hide FindableTree, Finished, RootedAt, FirstKnownAs, NameOf, PathOf, Upper;
    FinishedKeeps(rd, root, rootSize, st);
    var v := st.out[k];
    assert Faithful(rd, st.sizes, v);
    GetsHome(rd, root, rootSize, st, k, parts);
    FoundInHome(rd, st, v);
    OnlyDotDot(parts[|v.trail| - 1], v.trail[|v.trail| - 1]);
  }

  /** Looking up the path of any entry a walk lists gives that entry's record. */
  lemma FindsWhatIsListed(rd: ReadDir, root: u32, rootSize: u32, st: State, k: nat)
    requires Finished(rd, root, rootSize, st) && FindableTree(rd, st) && k < |st.out|
    ensures FindFrom(rd, root, rootSize, Components(st.out[k].entry.path), 0) == Ok(st.out[k].entry.record)
  {
    hide FindableTree, Finished, NameOf, Components, PathOf, Upper;
    FinishedKeeps(rd, root, rootSize, st);
    assert Faithful(rd, st.sizes, st.out[k]);
    NamesArePlain(rd, root, rootSize, st, k);
    ComponentsOfPath(st.out[k].trail);
    FindsInAnyCase(rd, root, rootSize, st, k, st.out[k].trail);
  }

  // ---- what is found is listed --------------------------------------------------------------

  lemma {:induction false} FirstIsOne(recs: seq<DirRecord>, needle: Name)
    ensures FirstKnownAs(recs, needle).Some? ==> FirstKnownAs(recs, needle).value in recs
  {
    if |recs| > 0 {
      FirstIsOne(recs[1..], needle);
    }
  }

  /** Whatever the path, a record that a lookup returns is one the walk lists. */
  lemma {:induction false} FoundIsListed(rd: ReadDir, sz: u32 -> u32, root: u32, rootSize: u32, st: State,
      lba: u32, size: u32, parts: seq<Name>, i: nat)
    requires Finished(rd, root, rootSize, st) && OneSize(rd, sz, root, rootSize)
    requires Reachable(rd, sz, root, lba) && size == sz(lba) && i <= |parts|
    ensures var r := FindFrom(rd, lba, size, parts, i);
      r.Ok? ==> exists k :: 0 <= k < |st.out| && st.out[k].entry.record == r.value
    decreases |parts| - i
  {
    hide Finished, FirstKnownAs, Reachable;
    if i < |parts| && rd(lba, size).Ok? {
      var recs := rd(lba, size).value;
      FirstIsOne(recs, Upper(parts[i]));
      var found := FirstKnownAs(recs, Upper(parts[i]));
      if found.Some? {
        var n :| 0 <= n < |recs| && recs[n] == found.value;
        assert recs == Holdings(rd, sz, lba);
        if i == |parts| - 1 {
          var k := ListsEachRecordOnce(rd, sz, root, rootSize, st, lba, n);
        } else if found.value.IsDir() {
          ReachesOn(rd, sz, root, lba, found.value.lba);
          FoundIsListed(rd, sz, root, rootSize, st, found.value.lba, found.value.size, parts, i + 1);
        }
      }
    }
  }
}
