/** What a lookup finds and how it fails (core/src/lib.rs). */
module Lookup {
  import opened Wrappers
  import opened Bytes
  import opened IsoErrors
  import opened Directory
  import opened Names
  import opened Walk
  import opened WalkInvariant
  import opened Find

  // ---- the components of a path ---------------------------------------------------------------

  lemma SplitOneMore(front: Name, b: u8)
    ensures Split(front + [b]) ==
      var parts := Split(front);
      if b == SLASH then parts + [[]] else parts[..|parts| - 1] + [parts[|parts| - 1] + [b]]
  {
    assert (front + [b])[..|front|] == front;
  }

  lemma {:induction false} SplitAtSlash(a: Name, b: Name)
    ensures Split(a + [SLASH] + b) == Split(a) + Split(b)
  {
    hide Split;
    if |b| == 0 {
      assert a + [SLASH] + b == a + [SLASH];
      SplitOneMore(a, SLASH);
      OnlyEmpty();
    } else {
      var front, last := b[..|b| - 1], b[|b| - 1];
      SplitAtSlash(a, front);
      assert a + [SLASH] + b == (a + [SLASH] + front) + [last] && b == front + [last];
      SplitOneMore(a + [SLASH] + front, last);
      SplitOneMore(front, last);
      SplitLonger(Split(a), Split(front), last);
    }
  }

  lemma SplitLonger(x: seq<Name>, y: seq<Name>, b: u8)
    requires |y| > 0
    ensures var z := x + y;
      z[..|z| - 1] + [z[|z| - 1] + [b]] == x + (y[..|y| - 1] + [y[|y| - 1] + [b]]) && z + [[]] == x + (y + [[]])
  {
    var z := x + y;
    assert z[..|z| - 1] == x + y[..|y| - 1] && z[|z| - 1] == y[|y| - 1];
  }

  lemma {:induction false} NonEmptyJoined(x: seq<Name>, y: seq<Name>)
    ensures NonEmptyOnes(x + y) == NonEmptyOnes(x) + NonEmptyOnes(y)
  {
    if |x| == 0 {
      assert x + y == y;
    } else {
      assert (x + y)[1..] == x[1..] + y;
      NonEmptyJoined(x[1..], y);
    }
  }

  lemma {:induction false} TrimmingKeeps(path: Name)
    ensures NonEmptyOnes(Split(TrimSlashes(path))) == NonEmptyOnes(Split(path))
    decreases |path|
  {
    hide NonEmptyOnes;
    var none: Name := [];
    if |path| > 0 && path[0] == SLASH {
      TrimmingKeeps(path[1..]);
      assert path == none + [SLASH] + path[1..];
      SplitAtSlash(none, path[1..]);
      NonEmptyJoined([none], Split(path[1..]));
      OnlyEmpty();
    } else if |path| > 0 && path[|path| - 1] == SLASH {
      var front := path[..|path| - 1];
      TrimmingKeeps(front);
      assert path == front + [SLASH] + none;
      SplitAtSlash(front, none);
      NonEmptyJoined(Split(front), [none]);
      OnlyEmpty();
    }
  }

  lemma OnlyEmpty()
    ensures Split([]) == [[]] && NonEmptyOnes([[]]) == []
  {
  }

  /** The components of two paths with a slash between them are those of the one and of the other. */
  lemma ComponentsAtSlash(a: Name, b: Name)
    ensures Components(a + [SLASH] + b) == Components(a) + Components(b)
  {
    hide NonEmptyOnes, Split, TrimSlashes;
    TrimmingKeeps(a + [SLASH] + b);
    TrimmingKeeps(a);
    TrimmingKeeps(b);
    SplitAtSlash(a, b);
    NonEmptyJoined(Split(a), Split(b));
  }

  /** Without a slash, a path is one component, or none if it is empty. */
  lemma ComponentsOfName(name: Name)
    requires SLASH !in name
    ensures Components(name) == if |name| == 0 then [] else [name]
  {
    TrimmingKeeps(name);
    var none: Name := [];
    SplitAppends(none, name);
    assert none + name == name;
  }

  // ---- the names of a record --------------------------------------------------------------------

  predicate SameName(a: Name, b: Name) {
    |a| == |b| && forall i :: 0 <= i < |a| ==> SameLetter(a[i], b[i])
  }

  /** The ISO name or the Rock Ridge name of the record, up to the case of letters. */
  predicate IsKnownBy(rec: DirRecord, part: Name) {
    SameName(IsoName(rec.nameBytes), part) || (RockRidgeName(rec).Some? && SameName(RockRidgeName(rec).value, part))
  }

  lemma KnownAsIsKnownBy(rec: DirRecord, part: Name)
    ensures KnownAs(rec, Upper(part)) <==> IsKnownBy(rec, part)
  {
    hide IsoName, RockRidgeName, Upper;
    UpperForgetsCase(IsoName(rec.nameBytes), part);
    if RockRidgeName(rec).Some? {
      UpperForgetsCase(RockRidgeName(rec).value, part);
    }
  }

  /** Record n is the first one known by the component. */
  ghost predicate FirstKnown(recs: seq<DirRecord>, part: Name, n: nat) {
    && n < |recs| && IsKnownBy(recs[n], part)
    && forall m :: 0 <= m < n ==> !IsKnownBy(recs[m], part)
  }

  lemma {:induction false} FirstIsFirstKnown(recs: seq<DirRecord>, part: Name) returns (n: nat)
    ensures var r := FirstKnownAs(recs, Upper(part));
      if r.Some? then FirstKnown(recs, part, n) && recs[n] == r.value
      else forall m :: 0 <= m < |recs| ==> !IsKnownBy(recs[m], part)
  {
    hide KnownAs, IsKnownBy, Upper;
    n := 0;
    if |recs| > 0 {
      KnownAsIsKnownBy(recs[0], part);
      if !KnownAs(recs[0], Upper(part)) {
        var m := FirstIsFirstKnown(recs[1..], part);
        n := m + 1;
        assert forall k :: 0 <= k < |recs| - 1 ==> recs[1..][k] == recs[k + 1];
      }
    }
  }

  // ---- the way a lookup goes --------------------------------------------------------------------

  /** The extent and size of the directory in which component number |chain| is looked up. */
  function Place(root: u32, rootSize: u32, chain: seq<DirRecord>): (u32, u32) {
    if |chain| == 0 then (root, rootSize) else (chain[|chain| - 1].lba, chain[|chain| - 1].size)
  }

  /** The next component can be looked up: what was found last is a directory. */
  predicate GoesOn(chain: seq<DirRecord>) {
    |chain| == 0 || chain[|chain| - 1].IsDir()
  }

  /** Record j of the chain is the first one known by component j, in the directory that is record
      j - 1 of the chain. */
  ghost predicate StepAt(rd: ReadDir, root: u32, rootSize: u32, parts: seq<Name>, chain: seq<DirRecord>, j: nat)
    requires j < |chain| <= |parts|
  {
    var (lba, size) := Place(root, rootSize, chain[..j]);
    && GoesOn(chain[..j]) && parts[j] != DOT_DOT && rd(lba, size).Ok?
    && exists n: nat :: FirstKnown(rd(lba, size).value, parts[j], n) && rd(lba, size).value[n] == chain[j]
  }

  ghost predicate Follows(rd: ReadDir, root: u32, rootSize: u32, parts: seq<Name>, chain: seq<DirRecord>) {
    |chain| <= |parts| && forall j :: 0 <= j < |chain| ==> StepAt(rd, root, rootSize, parts, chain, j)
  }

  /** After the chain the lookup cannot go on, and for this reason. */
  ghost predicate FailsAfter(rd: ReadDir, root: u32, rootSize: u32, parts: seq<Name>, chain: seq<DirRecord>,
      e: IsoError)
  {
    var (lba, size) := Place(root, rootSize, chain);
    if |parts| == 0 then e == NotFound
    else if |chain| >= |parts| then false
    else if !GoesOn(chain) then e == NotFound
    else if parts[|chain|] == DOT_DOT then e == PathTraversal
    else if rd(lba, size).Err? then e == rd(lba, size).error
    else
      && e == NotFound
      && forall m :: 0 <= m < |rd(lba, size).value| ==> !IsKnownBy(rd(lba, size).value[m], parts[|chain|])
  }

  /** The chain leads to the result. */
  ghost predicate EndsIn(rd: ReadDir, root: u32, rootSize: u32, parts: seq<Name>, chain: seq<DirRecord>,
      r: Result<DirRecord, IsoError>) {
    && Follows(rd, root, rootSize, parts, chain)
    && match r
       case Ok(rec) => |chain| == |parts| > 0 && chain[|chain| - 1] == rec
       case Err(e) => FailsAfter(rd, root, rootSize, parts, chain, e)
  }

  /** The lookup that is left after the chain. */
  function Left(rd: ReadDir, root: u32, rootSize: u32, parts: seq<Name>, chain: seq<DirRecord>)
    : Result<DirRecord, IsoError>
    requires |chain| <= |parts|
  {
    FindFrom(rd, Place(root, rootSize, chain).0, Place(root, rootSize, chain).1, parts, |chain|)
  }

  lemma OneStep(rd: ReadDir, root: u32, rootSize: u32, parts: seq<Name>, chain: seq<DirRecord>, rec: DirRecord)
    requires Follows(rd, root, rootSize, parts, chain) && |chain| < |parts| && GoesOn(chain)
    requires parts[|chain|] != DOT_DOT
    requires rd(Place(root, rootSize, chain).0, Place(root, rootSize, chain).1).Ok?
    requires var recs := rd(Place(root, rootSize, chain).0, Place(root, rootSize, chain).1).value;
      exists n: nat :: FirstKnown(recs, parts[|chain|], n) && recs[n] == rec
    ensures Follows(rd, root, rootSize, parts, chain + [rec])
  {
    hide IsKnownBy, Place, GoesOn;
    var longer := chain + [rec];
    forall j | 0 <= j < |longer|
      ensures StepAt(rd, root, rootSize, parts, longer, j)
    {
      if j < |chain| {
        assert longer[..j] == chain[..j];
        assert StepAt(rd, root, rootSize, parts, chain, j);
      } else {
        assert longer[..j] == chain;
      }
    }
  }

  lemma {:induction false} FindTraced(rd: ReadDir, root: u32, rootSize: u32, parts: seq<Name>, chain: seq<DirRecord>)
    returns (whole: seq<DirRecord>)
    requires Follows(rd, root, rootSize, parts, chain) && |chain| < |parts| && GoesOn(chain)
    ensures EndsIn(rd, root, rootSize, parts, whole, Left(rd, root, rootSize, parts, chain))
    decreases |parts| - |chain|
  {
    hide IsKnownBy, Follows, FirstKnownAs;
    var (lba, size) := Place(root, rootSize, chain);
    whole := chain;
    if parts[|chain|] != DOT_DOT && rd(lba, size).Ok? {
      var recs := rd(lba, size).value;
      var n := FirstIsFirstKnown(recs, parts[|chain|]);
      var found := FirstKnownAs(recs, Upper(parts[|chain|]));
      if found.Some? {
        OneStep(rd, root, rootSize, parts, chain, found.value);
        whole := chain + [found.value];
        if |whole| < |parts| && found.value.IsDir() {
          whole := FindTraced(rd, root, rootSize, parts, whole);
        }
      }
    }
  }

  /** Two first records known by a component are the same. */
  lemma FirstIsOneOnly(recs: seq<DirRecord>, part: Name, n: nat)
    requires FirstKnown(recs, part, n)
    ensures FirstKnownAs(recs, Upper(part)) == Some(recs[n])
  {
    hide IsKnownBy;
    var m := FirstIsFirstKnown(recs, part);
    if FirstKnownAs(recs, Upper(part)).Some? {
      assert m == n;
    }
  }

  lemma NoneKnown(recs: seq<DirRecord>, part: Name)
    requires forall m :: 0 <= m < |recs| ==> !IsKnownBy(recs[m], part)
    ensures FirstKnownAs(recs, Upper(part)).None?
  {
    hide IsKnownBy;
    var m := FirstIsFirstKnown(recs, part);
  }

  lemma {:induction false} TraceFollowed(rd: ReadDir, root: u32, rootSize: u32, parts: seq<Name>,
      chain: seq<DirRecord>, j: nat)
    requires Follows(rd, root, rootSize, parts, chain) && j <= |chain| && j < |parts| && GoesOn(chain[..j])
    ensures FindFrom(rd, root, rootSize, parts, 0) == Left(rd, root, rootSize, parts, chain[..j])
  {
    hide IsKnownBy, FirstKnownAs, Upper;
    if j > 0 {
      var before := chain[..j - 1];
      assert StepAt(rd, root, rootSize, parts, chain, j - 1);
      TraceFollowed(rd, root, rootSize, parts, chain, j - 1);
      var (lba, size) := Place(root, rootSize, before);
      var n: nat :| FirstKnown(rd(lba, size).value, parts[j - 1], n) && rd(lba, size).value[n] == chain[j - 1];
      FirstIsOneOnly(rd(lba, size).value, parts[j - 1], n);
      assert chain[..j][j - 1] == chain[j - 1];
    }
  }

  lemma TraceEnds(rd: ReadDir, root: u32, rootSize: u32, parts: seq<Name>, chain: seq<DirRecord>,
      r: Result<DirRecord, IsoError>)
    requires EndsIn(rd, root, rootSize, parts, chain, r)
    ensures FindFrom(rd, root, rootSize, parts, 0) == r
  {
    hide IsKnownBy, FirstKnownAs, Upper;
    if |parts| > 0 {
      var j := |chain|;
      if r.Ok? || !GoesOn(chain) {
        assert StepAt(rd, root, rootSize, parts, chain, j - 1);
        TraceFollowed(rd, root, rootSize, parts, chain, j - 1);
        var (lba, size) := Place(root, rootSize, chain[..j - 1]);
        var n: nat :| FirstKnown(rd(lba, size).value, parts[j - 1], n) && rd(lba, size).value[n] == chain[j - 1];
        FirstIsOneOnly(rd(lba, size).value, parts[j - 1], n);
      } else {
        assert chain[..j] == chain;
        TraceFollowed(rd, root, rootSize, parts, chain, j);
        var (lba, size) := Place(root, rootSize, chain);
        if parts[j] != DOT_DOT && rd(lba, size).Ok? {
          NoneKnown(rd(lba, size).value, parts[j]);
        }
      }
    }
  }

  /** A lookup gives a result exactly when there is a chain of records from the root that leads to it:
      each the first one known by its component, in the directory that is the one before.  It finds
      the last record of a chain as long as the path; it fails where a chain cannot go on, because of
      `..`, a file in the middle of the path, a directory that cannot be read, or an unknown name. */
  lemma FindIff(rd: ReadDir, root: u32, rootSize: u32, parts: seq<Name>, r: Result<DirRecord, IsoError>)
    ensures FindFrom(rd, root, rootSize, parts, 0) == r <==> exists chain :: EndsIn(rd, root, rootSize, parts, chain, r)
  {
    hide FirstKnownAs, Upper, IsKnownBy;
    if FindFrom(rd, root, rootSize, parts, 0) == r {
      if |parts| == 0 {
        assert EndsIn(rd, root, rootSize, parts, [], r);
      } else {
        var chain := FindTraced(rd, root, rootSize, parts, []);
      }
    }
    if chain :| EndsIn(rd, root, rootSize, parts, chain, r) {
      TraceEnds(rd, root, rootSize, parts, chain, r);
    }
  }

  /** In particular a name no record of the root directory is known by is not found. */
  lemma UnknownNotFound(rd: ReadDir, root: u32, rootSize: u32, part: Name)
    requires part != DOT_DOT && rd(root, rootSize).Ok?
    requires forall m :: 0 <= m < |rd(root, rootSize).value| ==> !IsKnownBy(rd(root, rootSize).value[m], part)
    ensures FindFrom(rd, root, rootSize, [part], 0) == Err(NotFound)
  {
    hide IsKnownBy;
    assert EndsIn(rd, root, rootSize, [part], [], Err(NotFound));
    TraceEnds(rd, root, rootSize, [part], [], Err(NotFound));
  }
}
