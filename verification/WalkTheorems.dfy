/** What a finished walk has done: read each reachable directory once, and listed each of its
    records once, after the directory itself. */
module WalkTheorems {
  import opened Wrappers
  import opened Bytes
  import opened IsoErrors
  import opened Directory
  import opened Names
  import opened Walk
  import opened WalkInvariant

  // ---- the directory graph ----------------------------------------------------------

  /** The records of the directory at `d`; none when it cannot be read. */
  function Holdings(rd: ReadDir, sz: u32 -> u32, d: u32): seq<DirRecord> {
    if rd(d, sz(d)).Ok? then rd(d, sz(d)).value else []
  }

  /** Directory `a` holds a directory record for extent `b`. */
  ghost predicate Edge(rd: ReadDir, sz: u32 -> u32, a: u32, b: u32) {
    exists i :: 0 <= i < |Holdings(rd, sz, a)| && Holdings(rd, sz, a)[i].IsDir() && Holdings(rd, sz, a)[i].lba == b
  }

  ghost predicate IsPath(rd: ReadDir, sz: u32 -> u32, p: seq<u32>) {
    |p| > 0 && forall i {:trigger p[i]} :: 0 < i < |p| ==> Edge(rd, sz, p[i - 1], p[i])
  }

  ghost predicate Reachable(rd: ReadDir, sz: u32 -> u32, root: u32, d: u32) {
    exists p :: IsPath(rd, sz, p) && p[0] == root && Last(p) == d
  }

  /** Each directory extent is always referenced with the size `sz` gives. */
  ghost predicate OneSize(rd: ReadDir, sz: u32 -> u32, root: u32, rootSize: u32) {
    && rootSize == sz(root)
    && forall d, i :: Reachable(rd, sz, root, d) && 0 <= i < |Holdings(rd, sz, d)| && Holdings(rd, sz, d)[i].IsDir() ==>
         Holdings(rd, sz, d)[i].size == sz(Holdings(rd, sz, d)[i].lba)
  }

  /** The reachable graph has a closed walk. */
  ghost predicate HasCycle(rd: ReadDir, sz: u32 -> u32, root: u32) {
    exists p :: IsPath(rd, sz, p) && |p| > 1 && p[0] == Last(p) && Reachable(rd, sz, root, p[0])
  }

  lemma ReachesRoot(rd: ReadDir, sz: u32 -> u32, root: u32)
    ensures Reachable(rd, sz, root, root)
  {
    assert IsPath(rd, sz, [root]);
  }

  lemma ReachesOn(rd: ReadDir, sz: u32 -> u32, root: u32, a: u32, b: u32)
    requires Reachable(rd, sz, root, a) && Edge(rd, sz, a, b)
    ensures Reachable(rd, sz, root, b)
  {
    hide Edge;
    var p :| IsPath(rd, sz, p) && p[0] == root && Last(p) == a;
    assert IsPath(rd, sz, p + [b]);
  }

  // ---- the walk and the graph ---------------------------------------------------------

  /** The walk ended without an error, in this state. */
  ghost predicate Finished(rd: ReadDir, root: u32, rootSize: u32, st: State) {
    WalkFrom(rd, root, rootSize) == Outcome(st, None)
  }

  lemma FinishedKeeps(rd: ReadDir, root: u32, rootSize: u32, st: State)
    requires Finished(rd, root, rootSize, st)
    ensures Inv(rd, root, rootSize, st, []) && root in st.sizes && st.sizes[root] == rootSize
  {
    DirectoryKeeps(rd, root, rootSize, root, rootSize, [], [], START);
  }

  /** The size a directory was met with is the one it is always referenced with. */
  ghost predicate Placed(rd: ReadDir, sz: u32 -> u32, root: u32, st: State, d: u32) {
    d in st.sizes && st.sizes[d] == sz(d) && Reachable(rd, sz, root, d)
  }

  lemma VisitIsEdge(rd: ReadDir, sz: u32 -> u32, root: u32, rootSize: u32, st: State, v: Visit)
    requires OneSize(rd, sz, root, rootSize) && Faithful(rd, st.sizes, v) && v.entry.record.IsDir()
    requires Placed(rd, sz, root, st, Home(v))
    ensures Edge(rd, sz, Home(v), v.entry.record.lba)
    ensures Reachable(rd, sz, root, v.entry.record.lba) && v.entry.record.size == sz(v.entry.record.lba)
  {
    assert Holdings(rd, sz, Home(v))[v.index] == v.entry.record;
    ReachesOn(rd, sz, root, Home(v), v.entry.record.lba);
  }

  /** The directory an entry was listed from is reachable, by its chain. */
  lemma {:induction false} HomePlaced(rd: ReadDir, sz: u32 -> u32, root: u32, rootSize: u32, st: State, k: nat)
    requires Inv(rd, root, rootSize, st, []) && OneSize(rd, sz, root, rootSize) && k < |st.out|
    ensures Placed(rd, sz, root, st, Home(st.out[k]))
    ensures IsPath(rd, sz, st.out[k].chain) && st.out[k].chain[0] == root
  {
    hide OneSize, Faithful, Reachable, Edge, Known;
    var v := st.out[k];
    assert RootedAt(root, rootSize, st, k);
    if j :| 0 <= j < k && Opens(st.out[j], Front(v.trail), Front(v.chain), Home(v), st.sizes[Home(v)]) {
      HomePlaced(rd, sz, root, rootSize, st, j);
      VisitIsEdge(rd, sz, root, rootSize, st, st.out[j]);
      assert v.chain == Front(v.chain) + [Home(v)];
    } else {
      assert v.chain == [root];
      OneSizeOfRoot(rd, sz, root, rootSize);
      ReachesRoot(rd, sz, root);
    }
  }

  lemma OneSizeOfRoot(rd: ReadDir, sz: u32 -> u32, root: u32, rootSize: u32)
    requires OneSize(rd, sz, root, rootSize)
    ensures rootSize == sz(root)
  {
  }

  lemma MetIsPlaced(rd: ReadDir, sz: u32 -> u32, root: u32, rootSize: u32, st: State, d: u32)
    requires Inv(rd, root, rootSize, st, []) && OneSize(rd, sz, root, rootSize) && d in st.sizes
    ensures Placed(rd, sz, root, st, d)
  {
    hide OneSize, Faithful, Reachable, Edge;
    assert Known(root, rootSize, st.out, d, st.sizes[d]);
    if k :| 0 <= k < |st.out| && Refers(st.out[k], d, st.sizes[d]) {
      HomePlaced(rd, sz, root, rootSize, st, k);
      VisitIsEdge(rd, sz, root, rootSize, st, st.out[k]);
    } else {
      OneSizeOfRoot(rd, sz, root, rootSize);
      ReachesRoot(rd, sz, root);
    }
  }

  lemma EdgeIsMet(rd: ReadDir, sz: u32 -> u32, root: u32, rootSize: u32, st: State, a: u32, b: u32)
    requires Inv(rd, root, rootSize, st, []) && OneSize(rd, sz, root, rootSize)
    requires a in st.sizes && Edge(rd, sz, a, b)
    ensures b in st.sizes
  {
    hide OneSize, Faithful, Reachable;
    MetIsPlaced(rd, sz, root, rootSize, st, a);
    var i :| 0 <= i < |Holdings(rd, sz, a)| && Holdings(rd, sz, a)[i].IsDir() && Holdings(rd, sz, a)[i].lba == b;
    assert AllDealt(rd, st, a);
    assert Dealt(rd, st, a, i);
  }

  lemma {:induction false} PathIsMet(rd: ReadDir, sz: u32 -> u32, root: u32, rootSize: u32, st: State,
      p: seq<u32>, n: nat)
    requires Inv(rd, root, rootSize, st, []) && OneSize(rd, sz, root, rootSize)
    requires IsPath(rd, sz, p) && p[0] in st.sizes && n < |p|
    ensures p[n] in st.sizes
  {
    hide Inv, OneSize, Edge;
    if n > 0 {
      PathIsMet(rd, sz, root, rootSize, st, p, n - 1);
      assert Edge(rd, sz, p[n - 1], p[n]);
      EdgeIsMet(rd, sz, root, rootSize, st, p[n - 1], p[n]);
    }
  }

  /** The directories a walk meets are the reachable ones. */
  lemma MetIffReachable(rd: ReadDir, sz: u32 -> u32, root: u32, rootSize: u32, st: State, d: u32)
    requires Finished(rd, root, rootSize, st) && OneSize(rd, sz, root, rootSize)
    ensures d in st.sizes <==> Reachable(rd, sz, root, d)
    ensures d in st.sizes ==> st.sizes[d] == sz(d)
  {
    hide Inv, OneSize, Edge, Finished;
    FinishedKeeps(rd, root, rootSize, st);
    if d in st.sizes {
      MetIsPlaced(rd, sz, root, rootSize, st, d);
    }
    if Reachable(rd, sz, root, d) {
      var p :| IsPath(rd, sz, p) && p[0] == root && Last(p) == d;
      PathIsMet(rd, sz, root, rootSize, st, p, |p| - 1);
    }
  }

  // ---- the theorems -------------------------------------------------------------------

  /** A walk reads exactly the reachable directories, each of them once. */
  lemma ReadsEachDirectoryOnce(rd: ReadDir, sz: u32 -> u32, root: u32, rootSize: u32, st: State)
    requires Finished(rd, root, rootSize, st) && OneSize(rd, sz, root, rootSize)
    ensures forall d :: d in st.fetched <==> Reachable(rd, sz, root, d)
    ensures forall a, b :: 0 <= a < b < |st.fetched| ==> st.fetched[a] != st.fetched[b]
  {
    hide OneSize, Edge, Finished, Reachable;
    FinishedKeeps(rd, root, rootSize, st);
    forall d
      ensures d in st.fetched <==> Reachable(rd, sz, root, d)
    {
      MetIffReachable(rd, sz, root, rootSize, st, d);
    }
  }

  /** Every record of every reachable directory that can be read is listed, once. */
  lemma ListsEachRecordOnce(rd: ReadDir, sz: u32 -> u32, root: u32, rootSize: u32, st: State, d: u32, i: nat)
    returns (k: nat)
    requires Finished(rd, root, rootSize, st) && OneSize(rd, sz, root, rootSize)
    requires Reachable(rd, sz, root, d) && i < |Holdings(rd, sz, d)|
    ensures k < |st.out| && st.out[k].entry.record == Holdings(rd, sz, d)[i]
    ensures forall j :: 0 <= j < |st.out| ==> (Home(st.out[j]) == d && st.out[j].index == i <==> j == k)
  {
    hide OneSize, Edge, Finished, Reachable;
    FinishedKeeps(rd, root, rootSize, st);
    MetIffReachable(rd, sz, root, rootSize, st, d);
    assert AllDealt(rd, st, d);
    assert Dealt(rd, st, d, i);
    k :| 0 <= k < |st.out| && Home(st.out[k]) == d && st.out[k].index == i;
    assert Faithful(rd, st.sizes, st.out[k]);
  }

  /** Nothing else is listed; in particular a directory that cannot be read adds no entry. */
  lemma ListsOnlyRecords(rd: ReadDir, sz: u32 -> u32, root: u32, rootSize: u32, st: State, k: nat)
    requires Finished(rd, root, rootSize, st) && OneSize(rd, sz, root, rootSize) && k < |st.out|
    ensures Reachable(rd, sz, root, Home(st.out[k])) && rd(Home(st.out[k]), sz(Home(st.out[k]))).Ok?
    ensures st.out[k].index < |Holdings(rd, sz, Home(st.out[k]))|
    ensures st.out[k].entry.record == Holdings(rd, sz, Home(st.out[k]))[st.out[k].index]
    ensures st.out[k].entry.depth <= 256
  {
    hide OneSize, Edge, Finished, Reachable;
    FinishedKeeps(rd, root, rootSize, st);
    HomePlaced(rd, sz, root, rootSize, st, k);
    assert Faithful(rd, st.sizes, st.out[k]);
  }

  /** An entry of the root directory is listed under its name; any other comes after the entry of
      the directory it is in, and carries that entry's path as prefix. */
  lemma ParentsComeFirst(rd: ReadDir, root: u32, rootSize: u32, st: State, k: nat)
    requires Finished(rd, root, rootSize, st) && k < |st.out|
    ensures var e := st.out[k].entry;
      if e.depth == 0 then Home(st.out[k]) == root && e.path == NameOf(e.record)
      else exists j :: 0 <= j < k && ParentOf(st.out[j].entry, e, Home(st.out[k]))
  {
    hide Finished, NameOf;
    FinishedKeeps(rd, root, rootSize, st);
    var v := st.out[k];
    assert Faithful(rd, st.sizes, v) && RootedAt(root, rootSize, st, k);
    assert Front(v.trail) == v.trail[..|v.trail| - 1];
    if j :| 0 <= j < k && Opens(st.out[j], Front(v.trail), Front(v.chain), Home(v), st.sizes[Home(v)]) {
      assert Faithful(rd, st.sizes, st.out[j]);
      OpensHome(rd, st.sizes, st.out[j], v);
    } else {
      assert PathOf([]) == [];
    }
  }

  lemma OpensHome(rd: ReadDir, sizes: map<u32, u32>, u: Visit, v: Visit)
    requires Faithful(rd, sizes, u) && Faithful(rd, sizes, v)
    requires Opens(u, Front(v.trail), Front(v.chain), Home(v), sizes[Home(v)])
    ensures ParentOf(u.entry, v.entry, Home(v))
  {
    hide NameOf;
    assert Front(v.trail) == v.trail[..|v.trail| - 1];
  }

  predicate ParentOf(parent: WalkEntry, e: WalkEntry, home: u32) {
    && parent.record.IsDir() && parent.record.lba == home
    && e.depth == parent.depth + 1
    && e.path == if |parent.path| == 0 then NameOf(e.record) else parent.path + [SLASH] + NameOf(e.record)
  }
}
