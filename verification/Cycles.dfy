/** The directory-cycle check over the entries of a walk (forensic/src/analysis.rs). */
module Cycles {
  import opened Wrappers
  import opened Bytes
  import opened IsoErrors
  import opened Directory
  import opened Names
  import opened Walk
  import opened WalkInvariant
  import opened WalkTheorems

  // ---- the check ----------------------------------------------------------------------

  /** The extents of the directories listed, by path; the root has the empty path. */
  function DirLbas(root: u32, entries: seq<WalkEntry>): map<Name, u32> {
    if |entries| == 0 then map[[] := root]
    else
      var m := DirLbas(root, entries[..|entries| - 1]);
      var e := entries[|entries| - 1];
      if e.record.IsDir() then m[e.path := e.record.lba] else m
  }

  /** The extent of the entry is that of the directory i names down its path. */
  predicate SharedWith(lbas: map<Name, u32>, e: WalkEntry, i: nat) {
    var parts := Split(e.path);
    i < |parts| && JoinWithSlashes(parts[..i]) in lbas && lbas[JoinWithSlashes(parts[..i])] == e.record.lba
  }

  /** A directory whose extent is that of one of its proper ancestors. */
  predicate CyclesBack(lbas: map<Name, u32>, e: WalkEntry) {
    e.record.IsDir() && exists i: nat :: i < |Split(e.path)| && SharedWith(lbas, e, i)
  }

  function Flagged(lbas: map<Name, u32>, entries: seq<WalkEntry>): seq<WalkEntry> {
    if |entries| == 0 then []
    else
      var e := entries[|entries| - 1];
      Flagged(lbas, entries[..|entries| - 1]) + if CyclesBack(lbas, e) then [e] else []
  }

  method CollectDirLbas(root: u32, entries: seq<WalkEntry>) returns (lbas: map<Name, u32>)
    ensures lbas == DirLbas(root, entries)
  {
    lbas := map[[] := root];
    for k := 0 to |entries|
      invariant lbas == DirLbas(root, entries[..k])
    {
      assert entries[..k + 1][..k] == entries[..k];
      if entries[k].record.IsDir() {
        lbas := lbas[entries[k].path := entries[k].record.lba];
      }
    }
    assert entries[..|entries|] == entries;
  }

  /** Whether the path of some proper ancestor is mapped to the entry's extent. */
  method SharesAncestor(lbas: map<Name, u32>, e: WalkEntry) returns (shares: bool)
    ensures shares <==> exists i: nat :: i < |Split(e.path)| && SharedWith(lbas, e, i)
  {
    var parts := Split(e.path);
    shares := false;
    for i := 0 to |parts|
      invariant shares <==> exists n: nat :: n < i && SharedWith(lbas, e, n)
    {
      var anc := JoinWithSlashes(parts[..i]);
      if anc in lbas && lbas[anc] == e.record.lba {
        assert SharedWith(lbas, e, i);
        shares := true;
      }
    }
  }

  /** The directories reported as cycles. */
  method CheckCycles(root: u32, entries: seq<WalkEntry>) returns (cycles: seq<WalkEntry>)
    ensures cycles == Flagged(DirLbas(root, entries), entries)
  {
    var lbas := CollectDirLbas(root, entries);
    cycles := [];
    for k := 0 to |entries|
      invariant cycles == Flagged(lbas, entries[..k])
    {
      var e := entries[k];
      assert entries[..k + 1][..k] == entries[..k];
      if e.record.IsDir() {
        var cyclesBack := SharesAncestor(lbas, e);
        if cyclesBack {
          cycles := cycles + [e];
        }
      }
    }
    assert entries[..|entries|] == entries;
  }

  lemma {:induction false} FlaggedHas(lbas: map<Name, u32>, entries: seq<WalkEntry>)
    ensures Flagged(lbas, entries) != [] <==> exists k :: 0 <= k < |entries| && CyclesBack(lbas, entries[k])
  {
    hide CyclesBack;
    if |entries| > 0 {
      FlaggedHas(lbas, entries[..|entries| - 1]);
      assert forall k :: 0 <= k < |entries| - 1 ==> entries[..|entries| - 1][k] == entries[k];
    }
  }

  predicate Lists(e: WalkEntry, path: Name) {
    e.record.IsDir() && e.path == path
  }

  /** A listed directory's path is mapped to its extent, and a path mapped is one listed. */
  lemma {:induction false} LbasListed(root: u32, entries: seq<WalkEntry>, path: Name)
    ensures var m := DirLbas(root, entries);
      && (path in m <==> path == [] || exists k :: 0 <= k < |entries| && Lists(entries[k], path))
      && (path in m ==>
            || (exists k :: 0 <= k < |entries| && Lists(entries[k], path) && m[path] == entries[k].record.lba)
            || (path == [] && m[path] == root && forall k :: 0 <= k < |entries| ==> !Lists(entries[k], path)))
  {
    if |entries| > 0 {
      var n := |entries| - 1;
      LbasListed(root, entries[..n], path);
      assert forall k :: 0 <= k < n ==> entries[..n][k] == entries[k];
      if Lists(entries[n], path) {
        assert DirLbas(root, entries)[path] == entries[n].record.lba;
      }
    }
  }

  // ---- the depth-first back-edge theorem --------------------------------------------------

  lemma BackEdgeIsCycle(rd: ReadDir, sz: u32 -> u32, root: u32, rootSize: u32, st: State, k: nat)
    requires Inv(rd, root, rootSize, st, []) && OneSize(rd, sz, root, rootSize)
    requires k < |st.out| && BackEdge(st.out[k])
    ensures HasCycle(rd, sz, root)
  {
    hide OneSize, Edge, Reachable, Faithful;
    var v := st.out[k];
    var d := v.entry.record.lba;
    var m :| 0 <= m < |v.chain| && v.chain[m] == d;
    HomePlaced(rd, sz, root, rootSize, st, k);
    VisitIsEdge(rd, sz, root, rootSize, st, v);
    PathFrom(rd, sz, v.chain, m, d);
  }

  lemma PathFrom(rd: ReadDir, sz: u32 -> u32, p: seq<u32>, m: nat, d: u32)
    requires IsPath(rd, sz, p) && m < |p| && p[m] == d && Edge(rd, sz, Last(p), d)
    ensures IsPath(rd, sz, p[m..] + [d]) && |p[m..] + [d]| > 1 && (p[m..] + [d])[0] == Last(p[m..] + [d]) == d
  {
    hide Edge;
    var q := p[m..] + [d];
    forall i | 0 < i < |q|
      ensures Edge(rd, sz, q[i - 1], q[i])
    {
      if i < |q| - 1 {
        assert Edge(rd, sz, p[m + i - 1], p[m + i]);
      }
    }
  }

  /** Where a directory was left first. */
  function LeftAt(left: seq<u32>, d: u32): (n: nat)
    requires d in left
    ensures n < |left| && left[n] == d && d !in left[..n]
  {
    if left[0] == d then 0 else 1 + LeftAt(left[1..], d)
  }

  lemma EdgeLeftBefore(rd: ReadDir, sz: u32 -> u32, root: u32, rootSize: u32, st: State, a: u32, b: u32)
    requires Inv(rd, root, rootSize, st, []) && OneSize(rd, sz, root, rootSize)
    requires a in st.sizes && Edge(rd, sz, a, b) && !SomeBackEdge(st.out)
    ensures a in st.left && b in st.left && LeftAt(st.left, b) < LeftAt(st.left, a)
  {
    hide OneSize, Reachable, Faithful;
    MetIsPlaced(rd, sz, root, rootSize, st, a);
    var k := LeftAt(st.left, a);
    assert ChildrenLeft(rd, st, k);
    var i :| 0 <= i < |Holdings(rd, sz, a)| && Holdings(rd, sz, a)[i].IsDir() && Holdings(rd, sz, a)[i].lba == b;
    assert Records(rd, st.sizes, a)[i].lba == b;
    assert b in st.left[..k];
    FirstIsEarliest(st.left, b, k);
  }

  lemma {:induction false} FirstIsEarliest(left: seq<u32>, d: u32, k: nat)
    requires k <= |left| && d in left[..k]
    ensures d in left && LeftAt(left, d) < k
  {
    if left[0] != d {
      assert left[..k][1..] == left[1..][..k - 1];
      assert left[..k] == [left[0]] + left[1..][..k - 1];
      FirstIsEarliest(left[1..], d, k - 1);
    }
  }

  lemma {:induction false} PathLeftBefore(rd: ReadDir, sz: u32 -> u32, root: u32, rootSize: u32, st: State,
      p: seq<u32>, n: nat)
    requires Inv(rd, root, rootSize, st, []) && OneSize(rd, sz, root, rootSize) && !SomeBackEdge(st.out)
    requires IsPath(rd, sz, p) && p[0] in st.sizes && 0 < n < |p|
    ensures p[0] in st.left && p[n] in st.left && LeftAt(st.left, p[n]) < LeftAt(st.left, p[0])
  {
    hide OneSize, Inv, Edge;
    PathIsMet(rd, sz, root, rootSize, st, p, n - 1);
    assert Edge(rd, sz, p[n - 1], p[n]);
    EdgeLeftBefore(rd, sz, root, rootSize, st, p[n - 1], p[n]);
    if n > 1 {
      PathLeftBefore(rd, sz, root, rootSize, st, p, n - 1);
    }
  }

  /** A walk lists a directory from inside itself exactly when the reachable graph has a cycle. */
  lemma BackEdgeIffCycle(rd: ReadDir, sz: u32 -> u32, root: u32, rootSize: u32, st: State)
    requires Finished(rd, root, rootSize, st) && OneSize(rd, sz, root, rootSize)
    ensures SomeBackEdge(st.out) <==> HasCycle(rd, sz, root)
  {
    hide OneSize, Inv, Finished, Edge, Reachable, BackEdge;
    FinishedKeeps(rd, root, rootSize, st);
    if SomeBackEdge(st.out) {
      var k :| 0 <= k < |st.out| && BackEdge(st.out[k]);
      BackEdgeIsCycle(rd, sz, root, rootSize, st, k);
    } else if HasCycle(rd, sz, root) {
      var p :| IsPath(rd, sz, p) && |p| > 1 && p[0] == Last(p) && Reachable(rd, sz, root, p[0]);
      MetIffReachable(rd, sz, root, rootSize, st, p[0]);
      PathLeftBefore(rd, sz, root, rootSize, st, p, |p| - 1);
      assert false;
    }
  }

  // ---- names stand for open directories -----------------------------------------------------

  /** A path can carry the names of the directories held. */
  predicate PlainDirs(recs: seq<DirRecord>) {
    forall i :: 0 <= i < |recs| && recs[i].IsDir() ==> Plain(NameOf(recs[i]))
  }

  /** No two directories held have the same name.  Names of files do not matter. */
  predicate DistinctDirs(recs: seq<DirRecord>) {
    forall i, j :: 0 <= i < j < |recs| && recs[i].IsDir() && recs[j].IsDir() ==> NameOf(recs[i]) != NameOf(recs[j])
  }

  ghost predicate PlainTree(rd: ReadDir, sz: u32 -> u32, root: u32, rootSize: u32) {
    && OneSize(rd, sz, root, rootSize)
    && forall d :: Reachable(rd, sz, root, d) ==> PlainDirs(Holdings(rd, sz, d))
  }

  ghost predicate DistinctTree(rd: ReadDir, sz: u32 -> u32, root: u32) {
    forall d :: Reachable(rd, sz, root, d) ==> DistinctDirs(Holdings(rd, sz, d))
  }

  lemma HomeHolds(rd: ReadDir, sz: u32 -> u32, root: u32, rootSize: u32, st: State, k: nat)
    requires Inv(rd, root, rootSize, st, []) && OneSize(rd, sz, root, rootSize) && k < |st.out|
    ensures Faithful(rd, st.sizes, st.out[k]) && Reachable(rd, sz, root, Home(st.out[k]))
    ensures Holdings(rd, sz, Home(st.out[k])) == Records(rd, st.sizes, Home(st.out[k]))
    ensures st.out[k].chain[0] == root
  {
    hide OneSize, Edge, Reachable, NameOf;
    HomePlaced(rd, sz, root, rootSize, st, k);
    assert Faithful(rd, st.sizes, st.out[k]);
  }

  /** The entry of the directory an entry is in, unless that is the root. */
  lemma ParentVisit(root: u32, rootSize: u32, st: State, k: nat) returns (j: nat)
    requires Rooted(root, rootSize, st) && k < |st.out|
    ensures |st.out[k].chain| == |st.out[k].trail| > 0 && Home(st.out[k]) in st.sizes
    ensures |st.out[k].trail| == 1 ==> st.out[k].chain == [root]
    ensures |st.out[k].trail| > 1 ==>
      && j < k
      && Opens(st.out[j], Front(st.out[k].trail), Front(st.out[k].chain),
               Home(st.out[k]), st.sizes[Home(st.out[k])])
  {
    var v := st.out[k];
    assert RootedAt(root, rootSize, st, k);
    j := 0;
    if m :| 0 <= m < k && Opens(st.out[m], Front(v.trail), Front(v.chain), Home(v), st.sizes[Home(v)]) {
      assert RootedAt(root, rootSize, st, m);
      j := m;
    } else {
      assert v.chain == [root];
    }
  }

  lemma NameIsPlain(rd: ReadDir, sz: u32 -> u32, root: u32, rootSize: u32, st: State, k: nat)
    requires Inv(rd, root, rootSize, st, []) && PlainTree(rd, sz, root, rootSize)
    requires k < |st.out| && st.out[k].entry.record.IsDir()
    ensures |st.out[k].trail| > 0 && Plain(st.out[k].trail[|st.out[k].trail| - 1])
  {
    hide OneSize, Reachable, Plain, NameOf, Holdings, Inv;
    HomeHolds(rd, sz, root, rootSize, st, k);
    assert PlainDirs(Records(rd, st.sizes, Home(st.out[k])));
  }

  lemma {:induction false} TrailIsPlain(rd: ReadDir, sz: u32 -> u32, root: u32, rootSize: u32, st: State, k: nat)
    requires Inv(rd, root, rootSize, st, []) && PlainTree(rd, sz, root, rootSize)
    requires k < |st.out| && st.out[k].entry.record.IsDir()
    ensures AllPlain(st.out[k].trail)
  {
    hide PlainTree, Plain, RootedAt, Faithful;
    NameIsPlain(rd, sz, root, rootSize, st, k);
    var v := st.out[k];
    var j := ParentVisit(root, rootSize, st, k);
    if |v.trail| > 1 {
      TrailIsPlain(rd, sz, root, rootSize, st, j);
    }
    assert v.trail == Front(v.trail) + [v.trail[|v.trail| - 1]];
  }

  lemma SameRecord(rd: ReadDir, sizes: map<u32, u32>, u: Visit, v: Visit)
    requires Faithful(rd, sizes, u) && Faithful(rd, sizes, v) && Home(u) == Home(v) && u.trail == v.trail
    requires DistinctDirs(Records(rd, sizes, Home(u))) && u.entry.record.IsDir() && v.entry.record.IsDir()
    ensures u.index == v.index
  {
    hide NameOf;
  }

  /** No two directories listed have the same names from the root on. */
  lemma {:induction false} TrailsDiffer(rd: ReadDir, sz: u32 -> u32, root: u32, rootSize: u32, st: State,
      j: nat, k: nat)
    requires Inv(rd, root, rootSize, st, []) && OneSize(rd, sz, root, rootSize) && DistinctTree(rd, sz, root)
    requires j < |st.out| && k < |st.out| && st.out[j].trail == st.out[k].trail
    requires st.out[j].entry.record.IsDir() && st.out[k].entry.record.IsDir()
    ensures j == k
    decreases |st.out[j].trail|
  {
    hide OneSize, Reachable, RootedAt, Holdings, NameOf, Faithful, DistinctDirs;
    var u, v := st.out[j], st.out[k];
    var pj := ParentVisit(root, rootSize, st, j);
    var pk := ParentVisit(root, rootSize, st, k);
    if |u.trail| > 1 {
      TrailsDiffer(rd, sz, root, rootSize, st, pj, pk);
    }
    HomeHolds(rd, sz, root, rootSize, st, j);
    HomeHolds(rd, sz, root, rootSize, st, k);
    SameRecord(rd, st.sizes, u, v);
  }

  /** Each directory open when an entry was listed is itself an entry, the root apart. */
  lemma {:induction false} AncestorVisit(root: u32, rootSize: u32, st: State, k: nat, i: nat) returns (j: nat)
    requires Rooted(root, rootSize, st) && k < |st.out| && 0 < i < |st.out[k].trail|
    ensures j < |st.out| && st.out[j].entry.record.IsDir() && |st.out[k].chain| == |st.out[k].trail|
    ensures st.out[j].trail == st.out[k].trail[..i] && st.out[j].entry.record.lba == st.out[k].chain[i]
    decreases k
  {
    hide RootedAt;
    j := ParentVisit(root, rootSize, st, k);
    var v := st.out[k];
    if i < |v.trail| - 1 {
      var p := ParentVisit(root, rootSize, st, j);
      j := AncestorVisit(root, rootSize, st, j, i);
      assert Front(v.trail)[..i] == v.trail[..i];
    }
  }

  // ---- what the check flags ------------------------------------------------------------------

  /** The extent of the last directory listed with these names from the root on. */
  function LastNamed(root: u32, out: seq<Visit>, trail: seq<Name>): Option<u32> {
    if |out| == 0 then (if |trail| == 0 then Some(root) else None)
    else
      var v := out[|out| - 1];
      if v.entry.record.IsDir() && v.trail == trail then Some(v.entry.record.lba)
      else LastNamed(root, out[..|out| - 1], trail)
  }

  /** Directories are listed by the paths of plain names. */
  predicate PlainVisits(out: seq<Visit>) {
    forall k :: 0 <= k < |out| && out[k].entry.record.IsDir() ==>
      AllPlain(out[k].trail) && out[k].entry.path == PathOf(out[k].trail)
  }

  /** The map from paths to extents answers for names. */
  lemma {:induction false} MapIsLastNamed(root: u32, out: seq<Visit>, trail: seq<Name>, lba: u32)
    requires PlainVisits(out) && AllPlain(trail)
    ensures var m := DirLbas(root, Entries(out));
      PathOf(trail) in m && m[PathOf(trail)] == lba <==> LastNamed(root, out, trail) == Some(lba)
  {
    hide AllPlain, PathOf;
    if |out| == 0 {
      NoPath(trail);
    } else {
      var front, v := out[..|out| - 1], out[|out| - 1];
      MapIsLastNamed(root, front, trail, lba);
      assert Entries(out)[..|out| - 1] == Entries(front);
      if v.entry.record.IsDir() && v.entry.path == PathOf(trail) {
        PathsTellTrails(v.trail, trail);
      }
    }
  }

  lemma NoPath(trail: seq<Name>)
    requires AllPlain(trail)
    ensures PathOf(trail) == [] <==> |trail| == 0
  {
    if |trail| > 0 {
      PathNotEmpty(trail);
    }
  }

  lemma VisitsArePlain(rd: ReadDir, sz: u32 -> u32, root: u32, rootSize: u32, st: State)
    requires Inv(rd, root, rootSize, st, []) && PlainTree(rd, sz, root, rootSize)
    ensures PlainVisits(st.out)
  {
    hide PlainTree, AllPlain, PathOf, NameOf;
    forall k | 0 <= k < |st.out| && st.out[k].entry.record.IsDir()
      ensures AllPlain(st.out[k].trail) && st.out[k].entry.path == PathOf(st.out[k].trail)
    {
      TrailIsPlain(rd, sz, root, rootSize, st, k);
      assert Faithful(rd, st.sizes, st.out[k]);
    }
  }

  /** The last directory listed with the first i names of an entry has the entry's extent. */
  predicate NamedAlike(root: u32, out: seq<Visit>, v: Visit, i: nat) {
    i < |v.trail| && LastNamed(root, out, v.trail[..i]) == Some(v.entry.record.lba)
  }

  /** Whether or not names are distinct, the check flags an entry exactly when it is a directory
      whose extent is that of the last directory listed with the names of a proper ancestor. */
  lemma FlagsExactly(rd: ReadDir, sz: u32 -> u32, root: u32, rootSize: u32, st: State, k: nat)
    requires Finished(rd, root, rootSize, st) && PlainTree(rd, sz, root, rootSize) && k < |st.out|
    ensures CyclesBack(DirLbas(root, Entries(st.out)), st.out[k].entry) <==>
      st.out[k].entry.record.IsDir() && exists i :: 0 <= i < |st.out[k].trail| && NamedAlike(root, st.out, st.out[k], i)
  {
    hide PlainTree, Finished, DirLbas, PathOf, NameOf, LastNamed;
    FinishedKeeps(rd, root, rootSize, st);
    VisitsArePlain(rd, sz, root, rootSize, st);
    var lbas := DirLbas(root, Entries(st.out));
    var v := st.out[k];
    if v.entry.record.IsDir() {
      var j := ParentVisit(root, rootSize, st, k);
      SplitPath(v.trail);
      forall i: nat | i < |v.trail|
        ensures SharedWith(lbas, v.entry, i) <==> NamedAlike(root, st.out, v, i)
      {
        assert AllPlain(v.trail[..i]);
        JoinIsPath(v.trail[..i]);
        MapIsLastNamed(root, st.out, v.trail[..i], v.entry.record.lba);
      }
      if i :| 0 <= i < |v.trail| && NamedAlike(root, st.out, v, i) {
        assert SharedWith(lbas, v.entry, i);
      }
      if i: nat :| i < |v.trail| && SharedWith(lbas, v.entry, i) {
        assert NamedAlike(root, st.out, v, i);
      }
    }
  }

  // ---- distinct names make the check exact ------------------------------------------------------

  lemma {:induction false} OnlyOneNamed(rd: ReadDir, sz: u32 -> u32, root: u32, rootSize: u32, st: State,
      j: nat, n: nat)
    requires Inv(rd, root, rootSize, st, []) && OneSize(rd, sz, root, rootSize) && DistinctTree(rd, sz, root)
    requires j < n <= |st.out| && st.out[j].entry.record.IsDir()
    ensures LastNamed(root, st.out[..n], st.out[j].trail) == Some(st.out[j].entry.record.lba)
  {
    hide Inv, OneSize, DistinctTree;
    var v := st.out[n - 1];
    assert st.out[..n][n - 1] == v && st.out[..n][..n - 1] == st.out[..n - 1];
    if v.entry.record.IsDir() && v.trail == st.out[j].trail {
      TrailsDiffer(rd, sz, root, rootSize, st, n - 1, j);
    } else {
      OnlyOneNamed(rd, sz, root, rootSize, st, j, n - 1);
    }
  }

  lemma {:induction false} RootNamed(root: u32, out: seq<Visit>)
    requires forall k :: 0 <= k < |out| ==> |out[k].trail| > 0
    ensures LastNamed(root, out, []) == Some(root)
  {
    if |out| > 0 {
      RootNamed(root, out[..|out| - 1]);
    }
  }

  /** With distinct names the directory named by i names of an entry is the one that was open at
      that depth. */
  lemma NamedIsOpen(rd: ReadDir, sz: u32 -> u32, root: u32, rootSize: u32, st: State, k: nat, i: nat)
    requires Inv(rd, root, rootSize, st, []) && OneSize(rd, sz, root, rootSize) && DistinctTree(rd, sz, root)
    requires k < |st.out| && i < |st.out[k].trail|
    ensures |st.out[k].chain| == |st.out[k].trail|
    ensures LastNamed(root, st.out, st.out[k].trail[..i]) == Some(st.out[k].chain[i])
  {
    hide OneSize, DistinctTree, RootedAt, LastNamed, NameOf, PathOf;
    HomeHolds(rd, sz, root, rootSize, st, k);
    if i == 0 {
      assert st.out[k].trail[..0] == [];
      forall n | 0 <= n < |st.out|
        ensures |st.out[n].trail| > 0
      {
        assert Faithful(rd, st.sizes, st.out[n]);
      }
      RootNamed(root, st.out);
    } else {
      var j := AncestorVisit(root, rootSize, st, k, i);
      assert st.out[..|st.out|] == st.out;
      OnlyOneNamed(rd, sz, root, rootSize, st, j, |st.out|);
    }
  }

  /** With distinct names the check flags an entry exactly when it is a directory that was open
      when it was listed. */
  lemma FlagsBackEdges(rd: ReadDir, sz: u32 -> u32, root: u32, rootSize: u32, st: State, k: nat)
    requires Finished(rd, root, rootSize, st) && k < |st.out|
    requires PlainTree(rd, sz, root, rootSize) && DistinctTree(rd, sz, root)
    ensures CyclesBack(DirLbas(root, Entries(st.out)), st.out[k].entry) <==> BackEdge(st.out[k])
  {
    hide OneSize, Reachable, DistinctTree, PlainDirs, Finished, CyclesBack, LastNamed, Inv;
    FinishedKeeps(rd, root, rootSize, st);
    FlagsExactly(rd, sz, root, rootSize, st, k);
    var v := st.out[k];
    HomeHolds(rd, sz, root, rootSize, st, k);
    forall i: nat | i < |v.trail|
      ensures NamedAlike(root, st.out, v, i) <==> v.chain[i] == v.entry.record.lba
    {
      NamedIsOpen(rd, sz, root, rootSize, st, k, i);
    }
    if BackEdge(v) {
      var i: nat :| i < |v.chain| && v.chain[i] == v.entry.record.lba;
      assert NamedAlike(root, st.out, v, i);
    }
  }

  /** The cycle check is exact: where directory names are plain and distinct, it reports something
      over the entries of a finished walk exactly when the directory graph reachable from the root
      has a cycle. */
  lemma CheckIsExact(rd: ReadDir, sz: u32 -> u32, root: u32, rootSize: u32, st: State)
    requires Finished(rd, root, rootSize, st)
    requires PlainTree(rd, sz, root, rootSize) && DistinctTree(rd, sz, root)
    ensures Flagged(DirLbas(root, Entries(st.out)), Entries(st.out)) != [] <==> HasCycle(rd, sz, root)
  {
    hide Finished, DirLbas, CyclesBack, BackEdge, HasCycle, Flagged, DistinctTree, PlainDirs;
    var lbas := DirLbas(root, Entries(st.out));
    FlaggedHas(lbas, Entries(st.out));
    BackEdgeIffCycle(rd, sz, root, rootSize, st);
    forall k | 0 <= k < |st.out|
      ensures CyclesBack(lbas, Entries(st.out)[k]) <==> BackEdge(st.out[k])
    {
      FlagsBackEdges(rd, sz, root, rootSize, st, k);
    }
  }
}
