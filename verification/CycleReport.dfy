/** What the cycle check reports, entry by entry (forensic/src/analysis.rs). */
module CycleReport {
  import opened Wrappers
  import opened Bytes
  import opened Selections
  import opened Directory
  import opened Names
  import opened Walk
  import opened WalkInvariant
  import opened WalkTheorems
  import opened Cycles

  // ---- paths of ancestors ------------------------------------------------------------------

  /** The path of a proper ancestor: the empty one, or what stands before some slash. */
  ghost predicate IsAncestor(a: Name, path: Name) {
    a == [] || exists p :: 0 <= p < |path| && path[p] == SLASH && a == path[..p]
  }

  lemma JoinOneMore(parts: seq<Name>, last: Name)
    requires |parts| > 0
    ensures JoinWithSlashes(parts + [last]) == JoinWithSlashes(parts) + [SLASH] + last
  {
    assert (parts + [last])[..|parts|] == parts;
  }

  lemma JoinOne(part: Name)
    ensures JoinWithSlashes([part]) == part
  {
  }

  lemma JoinLonger(front: seq<Name>, last: Name, b: u8)
    ensures JoinWithSlashes(front + [last + [b]]) == JoinWithSlashes(front + [last]) + [b]
  {
    hide JoinWithSlashes;
    if |front| == 0 {
      assert front + [last + [b]] == [last + [b]] && front + [last] == [last];
      JoinOne(last);
      JoinOne(last + [b]);
    } else {
      JoinOneMore(front, last + [b]);
      JoinOneMore(front, last);
      ThreeJoined(JoinWithSlashes(front) + [SLASH], last, [b]);
    }
  }

  lemma ThreeJoined(a: Name, b: Name, c: Name)
    ensures a + (b + c) == a + b + c
  {
  }

  lemma {:induction false} SplitJoins(path: Name)
    ensures JoinWithSlashes(Split(path)) == path
  {
    hide JoinWithSlashes;
    if |path| == 0 {
      JoinOne([]);
    } else {
      var front, last := path[..|path| - 1], path[|path| - 1];
      SplitJoins(front);
      SplitLast(front, last);
      assert path == front + [last];
    }
  }

  lemma SplitLast(front: Name, last: u8)
    requires JoinWithSlashes(Split(front)) == front
    ensures JoinWithSlashes(Split(front + [last])) == front + [last]
  {
    var parts := Split(front);
    assert (front + [last])[..|front|] == front;
    hide JoinWithSlashes;
    if last == SLASH {
      JoinOneMore(parts, []);
      assert front + [SLASH] + [] == front + [SLASH];
    } else {
      var most, end := parts[..|parts| - 1], parts[|parts| - 1];
      assert parts == most + [end];
      JoinLonger(most, end, last);
    }
  }

  predicate JoinedAre(parts: seq<Name>, i: nat, a: Name)
    requires i <= |parts|
  {
    JoinWithSlashes(parts[..i]) == a
  }

  ghost predicate SomeJoined(parts: seq<Name>, n: nat, a: Name)
    requires n <= |parts|
  {
    exists i: nat :: i < n && JoinedAre(parts, i, a)
  }

  lemma SameJoined(parts: seq<Name>, all: seq<Name>, n: nat, a: Name)
    requires n <= |parts| && n <= |all| && forall i: nat :: i < n ==> all[..i] == parts[..i]
    ensures SomeJoined(all, n, a) <==> SomeJoined(parts, n, a)
  {
    hide JoinWithSlashes;
    if i: nat :| i < n && JoinedAre(parts, i, a) {
      assert JoinedAre(all, i, a);
    }
    if i: nat :| i < n && JoinedAre(all, i, a) {
      assert JoinedAre(parts, i, a);
    }
  }

  /** The first parts of a path, joined, are the paths of its proper ancestors. */
  lemma {:induction false} AncestorsAreJoined(path: Name, a: Name)
    ensures IsAncestor(a, path) <==> SomeJoined(Split(path), |Split(path)|, a)
  {
    if |path| == 0 {
      assert Split(path)[..0] == [];
      assert JoinedAre(Split(path), 0, []);
    } else {
      var front, last := path[..|path| - 1], path[|path| - 1];
      var parts, all := Split(front), Split(path);
      AncestorsAreJoined(front, a);
      LongerAncestors(path, a);
      assert forall i: nat :: i < |parts| ==> all[..i] == parts[..i];
      SameJoined(parts, all, |parts|, a);
      if last == SLASH {
        SplitJoins(front);
        OneMoreJoined(parts, all, a);
      } else {
        assert |all| == |parts|;
      }
    }
  }

  lemma OneMoreJoined(parts: seq<Name>, all: seq<Name>, a: Name)
    requires |all| == |parts| + 1 && all[..|parts|] == parts
    ensures SomeJoined(all, |all|, a) <==> SomeJoined(all, |parts|, a) || JoinWithSlashes(parts) == a
  {
    hide JoinWithSlashes;
    assert JoinedAre(all, |parts|, a) <==> JoinWithSlashes(parts) == a;
  }

  lemma LongerAncestors(path: Name, a: Name)
    requires |path| > 0
    ensures var front := path[..|path| - 1];
      IsAncestor(a, path) <==> IsAncestor(a, front) || (path[|path| - 1] == SLASH && a == front)
  {
    var front := path[..|path| - 1];
    if p :| 0 <= p < |path| && path[p] == SLASH && a == path[..p] {
      if p < |front| {
        assert front[p] == SLASH && a == front[..p];
      }
    }
    if p :| 0 <= p < |front| && front[p] == SLASH && a == front[..p] {
      assert path[p] == SLASH && a == path[..p];
    }
  }

  // ---- what a path is mapped to -----------------------------------------------------------------

  /** Entry k is the last directory listed with this path. */
  ghost predicate LastListed(entries: seq<WalkEntry>, path: Name, k: nat) {
    && k < |entries| && entries[k].record.IsDir() && entries[k].path == path
    && forall m :: k < m < |entries| ==> !(entries[m].record.IsDir() && entries[m].path == path)
  }

  /** The path stands for the extent: that of the last directory listed with it or, where none is,
      the root's for the empty path. */
  ghost predicate StandsFor(root: u32, entries: seq<WalkEntry>, path: Name, lba: u32) {
    || (exists k: nat :: LastListed(entries, path, k) && entries[k].record.lba == lba)
    || (path == [] && lba == root && forall k :: 0 <= k < |entries| ==>
          !(entries[k].record.IsDir() && entries[k].path == path))
  }

  lemma {:induction false} MapStandsFor(root: u32, entries: seq<WalkEntry>, path: Name, lba: u32)
    ensures var m := DirLbas(root, entries); path in m && m[path] == lba <==> StandsFor(root, entries, path, lba)
  {
    if |entries| > 0 {
      var n := |entries| - 1;
      var front, e := entries[..n], entries[n];
      MapStandsFor(root, front, path, lba);
      if e.record.IsDir() && e.path == path {
        assert LastListed(entries, path, n);
        assert forall k: nat :: LastListed(entries, path, k) ==> k == n;
      } else {
        forall k: nat
          ensures LastListed(entries, path, k) <==> LastListed(front, path, k)
        {
          SameLast(entries, path, k);
        }
        assert forall k :: 0 <= k < n ==> entries[k] == front[k];
      }
    }
  }

  lemma SameLast(entries: seq<WalkEntry>, path: Name, k: nat)
    requires |entries| > 0
    requires !(entries[|entries| - 1].record.IsDir() && entries[|entries| - 1].path == path)
    ensures LastListed(entries, path, k) <==> LastListed(entries[..|entries| - 1], path, k)
  {
    var front := entries[..|entries| - 1];
    assert forall m :: 0 <= m < |front| ==> entries[m] == front[m];
  }

  // ---- the report --------------------------------------------------------------------------------

  /** The entry is a directory that has the extent some proper ancestor's path stands for. */
  ghost predicate IsReported(root: u32, entries: seq<WalkEntry>, e: WalkEntry) {
    e.record.IsDir() && exists a :: IsAncestor(a, e.path) && StandsFor(root, entries, a, e.record.lba)
  }

  lemma CyclesBackIsReported(root: u32, entries: seq<WalkEntry>, e: WalkEntry)
    ensures CyclesBack(DirLbas(root, entries), e) <==> IsReported(root, entries, e)
  {
    hide Split, JoinWithSlashes, DirLbas, IsAncestor, StandsFor;
    var m := DirLbas(root, entries);
    if CyclesBack(m, e) {
      var i: nat :| i < |Split(e.path)| && SharedWith(m, e, i);
      var a := JoinWithSlashes(Split(e.path)[..i]);
      assert JoinedAre(Split(e.path), i, a);
      AncestorsAreJoined(e.path, a);
      MapStandsFor(root, entries, a, e.record.lba);
    }
    if IsReported(root, entries, e) {
      var a :| IsAncestor(a, e.path) && StandsFor(root, entries, a, e.record.lba);
      AncestorsAreJoined(e.path, a);
      MapStandsFor(root, entries, a, e.record.lba);
      var parts := Split(e.path);
      var i: nat :| i < |parts| && JoinedAre(Split(e.path), i, a);
      assert SharedWith(m, e, i);
    }
  }

  lemma {:induction false} FlaggedPicks(lbas: map<Name, u32>, entries: seq<WalkEntry>) returns (ks: seq<nat>)
    ensures Picks(entries, Flagged(lbas, entries), ks)
    ensures forall k: nat :: k < |entries| ==> (k in ks <==> CyclesBack(lbas, entries[k]))
  {
    hide CyclesBack;
    if |entries| == 0 {
      ks := [];
    } else {
      var front, e := entries[..|entries| - 1], entries[|entries| - 1];
      var ks' := FlaggedPicks(lbas, front);
      PicksOn(entries, Flagged(lbas, front), ks', CyclesBack(lbas, e));
      ks := ks' + if CyclesBack(lbas, e) then [|entries| - 1] else [];
      forall k: nat | k < |entries|
        ensures k in ks <==> CyclesBack(lbas, entries[k])
      {
        if k < |front| {
          assert front[k] == entries[k];
        } else {
          assert k !in ks';
        }
      }
    }
  }

  /** The check reports, for every list of entries, exactly the entries that are to be reported, each
      of them once and in the order of the list. */
  lemma ReportIsExactly(root: u32, entries: seq<WalkEntry>) returns (ks: seq<nat>)
    ensures Picks(entries, Flagged(DirLbas(root, entries), entries), ks)
    ensures forall k: nat :: k < |entries| ==> (k in ks <==> IsReported(root, entries, entries[k]))
  {
    hide Flagged, DirLbas, CyclesBack, IsReported;
    ks := FlaggedPicks(DirLbas(root, entries), entries);
    forall k: nat | k < |entries|
      ensures k in ks <==> IsReported(root, entries, entries[k])
    {
      CyclesBackIsReported(root, entries, entries[k]);
    }
  }

  /** Over the entries of a finished walk, where directory names are plain and distinct, the report is
      exactly the directories listed from inside themselves, each once and in order. */
  lemma ReportIsBackEdges(rd: ReadDir, sz: u32 -> u32, root: u32, rootSize: u32, st: State) returns (ks: seq<nat>)
    requires Finished(rd, root, rootSize, st)
    requires PlainTree(rd, sz, root, rootSize) && DistinctTree(rd, sz, root)
    ensures Picks(Entries(st.out), Flagged(DirLbas(root, Entries(st.out)), Entries(st.out)), ks)
    ensures forall k: nat :: k < |st.out| ==>
      (k in ks <==> st.out[k].entry.record.IsDir() && st.out[k].entry.record.lba in st.out[k].chain)
  {
    hide Flagged, DirLbas, CyclesBack, Finished, PlainTree, DistinctTree;
    ks := FlaggedPicks(DirLbas(root, Entries(st.out)), Entries(st.out));
    forall k: nat | k < |st.out|
      ensures k in ks <==> BackEdge(st.out[k])
    {
      FlagsBackEdges(rd, sz, root, rootSize, st, k);
    }
  }
}
