/** Why the cycle check needs the names of directories to differ: the map from paths to extents
    keeps only the last of two directories with the same path.  It can hide a cycle, and it can
    report one that is not there. */
module CycleGap {
  import opened Wrappers
  import opened Bytes
  import opened IsoErrors
  import RockRidge
  import opened Directory
  import opened Names
  import opened Walk
  import opened WalkInvariant
  import opened WalkTheorems
  import opened Cycles

  const A: u8 := 65
  const B: u8 := 66

  function Dir(lba: u32, name: u8): DirRecord {
    DirRecord(lba, 2048, [name], 2, None, [], [])
  }

  /** The root holds two directories named A, at 20 and 30; the one at 20 holds itself as B. */
  function Tree(lba: u32, size: u32): Result<seq<DirRecord>, IsoError> {
    if lba == 18 then Ok([Dir(20, A), Dir(30, A)])
    else if lba == 20 then Ok([Dir(20, B)])
    else Ok([])
  }

  function Size(lba: u32): u32 { 2048 }

  lemma NameOfDir(lba: u32, name: u8)
    requires 0 < name < 128 && name != SEMICOLON
    ensures NameOf(Dir(lba, name)) == [name]
  {
    assert RockRidge.AlternateName([]) == Returned(None);
    var b: Name := [name];
    assert IsUtf8(b) by { AsciiIsUtf8(b); }
    assert TrimZeros(b) == b;
    assert CutVersion(b, 1) == CutVersion(b, 0) == b;
  }

  const FIRST := Visit(WalkEntry([A], 0, Dir(20, A)), [[A]], [18], 0)
  const INNER := Visit(WalkEntry([A, SLASH, B], 1, Dir(20, B)), [[A], [B]], [18, 20], 0)
  const SECOND := Visit(WalkEntry([A], 0, Dir(30, A)), [[A]], [18], 1)

  const ROOT_RECORDS := [Dir(20, A), Dir(30, A)]

  lemma Visits()
    ensures VisitOf(Dir(20, A), [], [18], 0) == FIRST
    ensures VisitOf(Dir(20, B), [[A]], [18, 20], 0) == INNER
    ensures VisitOf(Dir(30, A), [], [18], 1) == SECOND
  {
    hide NameOf;
    NameOfDir(20, A);
    NameOfDir(30, A);
    NameOfDir(20, B);
    var none: seq<Name> := [];
    var one: seq<Name> := [[A]];
    assert one[..0] == none && PathOf(none) == [] && PathOf(one) == [A];
    assert none + [[A]] == one && one + [[B]] == [[A], [B]];
  }

  lemma WalkOfFirst(st: State)
    requires 20 !in st.sizes
    ensures var inner := st.Meeting(20, 2048).Fetching(20).Listing(INNER);
      WalkDir(Tree, 20, 2048, [[A]], [18], st) == Outcome(inner.Leaving(20), None)
  {
    hide NameOf, PathOf;
    Visits();
    var inner := st.Meeting(20, 2048).Fetching(20).Listing(INNER);
    var recs := [Dir(20, B)];
    assert WalkDir(Tree, 20, 2048, [[A], [B]], [18, 20], inner) == Outcome(inner, None);
    assert WalkRecords(Tree, recs, 1, [[A]], [18, 20], inner) == Outcome(inner, None);
    assert [18] + [20] == [18, 20];
  }

  lemma WalkOfSecond(st: State)
    requires 30 !in st.sizes
    ensures WalkDir(Tree, 30, 2048, [[A]], [18], st) ==
      Outcome(st.Meeting(30, 2048).Fetching(30).Leaving(30), None)
  {
  }

  lemma WalkOfTree() returns (st: State)
    ensures Finished(Tree, 18, 2048, st) && st.out == [FIRST, INNER, SECOND]
  {
    hide NameOf, PathOf, WalkDir;
    Visits();
    var none: seq<Name> := [];
    var open := START.Meeting(18, 2048).Fetching(18);
    var first := open.Listing(FIRST);
    WalkOfFirst(first);
    var left := first.Meeting(20, 2048).Fetching(20).Listing(INNER).Leaving(20);
    var second := left.Listing(SECOND);
    WalkOfSecond(second);
    var end := second.Meeting(30, 2048).Fetching(30).Leaving(30);
    assert WalkRecords(Tree, ROOT_RECORDS, 2, none, [18], end) == Outcome(end, None);
    assert WalkRecords(Tree, ROOT_RECORDS, 1, none, [18], left) == Outcome(end, None);
    assert WalkRecords(Tree, ROOT_RECORDS, 0, none, [18], open) == Outcome(end, None);
    st := end.Leaving(18);
    WalkOfRoot(open, end);
  }

  lemma WalkOfRoot(open: State, end: State)
    requires open == START.Meeting(18, 2048).Fetching(18)
    requires WalkRecords(Tree, ROOT_RECORDS, 0, [], [18], open) == Outcome(end, None)
    ensures WalkFrom(Tree, 18, 2048) == Outcome(end.Leaving(18), None)
  {
    hide WalkRecords;
    var none: seq<u32> := [];
    assert none + [18] == [18];
  }

  /** Two directories of one name: there is a cycle, and the check reports nothing. */
  lemma SameNamesHideCycle() returns (st: State)
    ensures Finished(Tree, 18, 2048, st) && OneSize(Tree, Size, 18, 2048) && HasCycle(Tree, Size, 18)
    ensures Flagged(DirLbas(18, Entries(st.out)), Entries(st.out)) == []
  {
    hide Finished, NameOf, HasCycle, BackEdge, Edge;
    st := WalkOfTree();
    assert OneSize(Tree, Size, 18, 2048);
    assert HasCycle(Tree, Size, 18) by {
      assert st.out[1] == INNER;
      InnerIsBackEdge();
      assert SomeBackEdge(st.out);
      BackEdgeIffCycle(Tree, Size, 18, 2048, st);
    }
    NothingFlagged(Entries(st.out));
  }

  lemma InnerIsBackEdge()
    ensures BackEdge(INNER)
  {
    assert [18, 20][1] == 20;
  }

  lemma NothingFlagged(entries: seq<WalkEntry>)
    requires entries == [FIRST.entry, INNER.entry, SECOND.entry]
    ensures Flagged(DirLbas(18, entries), entries) == []
  {
    var e1, e2 := entries[..1], entries[..2];
    assert e1 == [FIRST.entry] && e2 == [FIRST.entry, INNER.entry] && e1[..0] == [] && e2[..1] == e1;
    var none: Name := [];
    var m := DirLbas(18, entries);
    assert DirLbas(18, e1) == map[none := 18, [A] := 20];
    assert DirLbas(18, e2) == map[none := 18, [A] := 20, [A, SLASH, B] := 20];
    assert m == map[none := 18, [A] := 30, [A, SLASH, B] := 20];
    PlainParts();
    assert !CyclesBack(m, FIRST.entry);
    assert !CyclesBack(m, SECOND.entry);
    assert !CyclesBack(m, INNER.entry);
    hide DirLbas, CyclesBack;
    assert Flagged(m, entries[..0]) == [];
    assert e1[..0] == entries[..0] && Flagged(m, e1) == [];
    assert Flagged(m, e2) == [];
    assert entries[..|entries| - 1] == e2;
  }

  lemma PlainParts()
    ensures Split([A]) == [[A]] && Split([A, SLASH, B]) == [[A], [B]]
    ensures JoinWithSlashes([[A]][..0]) == [] && JoinWithSlashes([[A], [B]][..0]) == []
    ensures JoinWithSlashes([[A], [B]][..1]) == [A]
  {
    var one: seq<Name> := [[A]];
    var two: seq<Name> := [[A], [B]];
    assert one[..0] == [] && two[..0] == [] && two[..1] == one;
    assert PathOf(one) == [A] by { assert one[..0] == []; }
    assert PathOf(two) == [A, SLASH, B] by { assert two[..1] == one; }
    SplitPath(one);
    SplitPath(two);
  }

  // ---- a report without a cycle ----------------------------------------------------------

  /** The root holds two directories named A, at 20 and 30; the one at 20 holds the one at 30 as B. */
  function Dag(lba: u32, size: u32): Result<seq<DirRecord>, IsoError> {
    if lba == 18 then Ok([Dir(20, A), Dir(30, A)])
    else if lba == 20 then Ok([Dir(30, B)])
    else Ok([])
  }

  const LINK := Visit(WalkEntry([A, SLASH, B], 1, Dir(30, B)), [[A], [B]], [18, 20], 0)

  lemma LinkVisited()
    ensures VisitOf(Dir(30, B), [[A]], [18, 20], 0) == LINK
  {
    hide NameOf;
    NameOfDir(30, B);
    var none: seq<Name> := [];
    var one: seq<Name> := [[A]];
    assert one[..0] == none && PathOf(none) == [] && PathOf(one) == [A];
    assert one + [[B]] == [[A], [B]];
  }

  lemma DagOfFirst(st: State)
    requires 20 !in st.sizes && 30 !in st.sizes
    ensures var inner := st.Meeting(20, 2048).Fetching(20).Listing(LINK).Meeting(30, 2048).Fetching(30).Leaving(30);
      WalkDir(Dag, 20, 2048, [[A]], [18], st) == Outcome(inner.Leaving(20), None)
  {
    hide NameOf, PathOf;
    LinkVisited();
    var listed := st.Meeting(20, 2048).Fetching(20).Listing(LINK);
    var inner := listed.Meeting(30, 2048).Fetching(30).Leaving(30);
    var recs := [Dir(30, B)];
    assert WalkDir(Dag, 30, 2048, [[A], [B]], [18, 20], listed) == Outcome(inner, None);
    assert WalkRecords(Dag, recs, 1, [[A]], [18, 20], inner) == Outcome(inner, None);
    assert [18] + [20] == [18, 20];
  }

  lemma WalkOfDag() returns (st: State)
    ensures Finished(Dag, 18, 2048, st) && st.out == [FIRST, LINK, SECOND]
  {
    hide NameOf, PathOf, WalkDir;
    Visits();
    var none: seq<Name> := [];
    var open := START.Meeting(18, 2048).Fetching(18);
    var first := open.Listing(FIRST);
    DagOfFirst(first);
    var left := first.Meeting(20, 2048).Fetching(20).Listing(LINK)
      .Meeting(30, 2048).Fetching(30).Leaving(30).Leaving(20);
    var end := left.Listing(SECOND);
    DagOfSecond(end);
    assert WalkRecords(Dag, ROOT_RECORDS, 2, none, [18], end) == Outcome(end, None);
    assert WalkRecords(Dag, ROOT_RECORDS, 1, none, [18], left) == Outcome(end, None);
    assert WalkRecords(Dag, ROOT_RECORDS, 0, none, [18], open) == Outcome(end, None);
    st := end.Leaving(18);
    DagOfRoot(open, end);
  }

  lemma DagOfSecond(st: State)
    requires 30 in st.sizes
    ensures WalkDir(Dag, 30, 2048, [[A]], [18], st) == Outcome(st, None)
  {
  }

  lemma DagOfRoot(open: State, end: State)
    requires open == START.Meeting(18, 2048).Fetching(18)
    requires WalkRecords(Dag, ROOT_RECORDS, 0, [], [18], open) == Outcome(end, None)
    ensures WalkFrom(Dag, 18, 2048) == Outcome(end.Leaving(18), None)
  {
    hide WalkRecords;
    var none: seq<u32> := [];
    assert none + [18] == [18];
  }

  lemma LinkFlagged(entries: seq<WalkEntry>)
    requires entries == [FIRST.entry, LINK.entry, SECOND.entry]
    ensures Flagged(DirLbas(18, entries), entries) == [LINK.entry]
  {
    var e1, e2 := entries[..1], entries[..2];
    assert e1 == [FIRST.entry] && e2 == [FIRST.entry, LINK.entry] && e1[..0] == [] && e2[..1] == e1;
    var none: Name := [];
    var m := DirLbas(18, entries);
    assert DirLbas(18, e1) == map[none := 18, [A] := 20];
    assert DirLbas(18, e2) == map[none := 18, [A] := 20, [A, SLASH, B] := 30];
    assert m == map[none := 18, [A] := 30, [A, SLASH, B] := 30];
    PlainParts();
    assert !CyclesBack(m, FIRST.entry);
    assert !CyclesBack(m, SECOND.entry);
    assert SharedWith(m, LINK.entry, 1);
    assert CyclesBack(m, LINK.entry);
    hide DirLbas, CyclesBack;
    assert Flagged(m, entries[..0]) == [];
    assert e1[..0] == entries[..0] && Flagged(m, e1) == [];
    assert Flagged(m, e2) == [LINK.entry];
    assert entries[..|entries| - 1] == e2;
  }

  lemma NoBackEdges(out: seq<Visit>)
    requires out == [FIRST, LINK, SECOND]
    ensures !SomeBackEdge(out)
  {
  }

  /** Two directories of one name: there is no cycle, and the check reports one. */
  lemma SameNamesRaiseAlarm() returns (st: State)
    ensures Finished(Dag, 18, 2048, st) && OneSize(Dag, Size, 18, 2048) && !HasCycle(Dag, Size, 18)
    ensures Flagged(DirLbas(18, Entries(st.out)), Entries(st.out)) == [LINK.entry]
  {
    hide Finished, NameOf, HasCycle, BackEdge, Edge;
    st := WalkOfDag();
    assert OneSize(Dag, Size, 18, 2048);
    NoBackEdges(st.out);
    BackEdgeIffCycle(Dag, Size, 18, 2048, st);
    LinkFlagged(Entries(st.out));
  }
}
