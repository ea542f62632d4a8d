/** When a walk succeeds and how it fails (core/src/lib.rs). */
module WalkFinishes {
  import opened Wrappers
  import opened Bytes
  import opened IsoErrors
  import opened Directory
  import opened Names
  import opened Walk
  import opened WalkInvariant
  import opened WalkTheorems

  ghost predicate Distinct(s: seq<u32>) {
    forall i, j :: 0 <= i < j < |s| ==> s[i] != s[j]
  }

  lemma {:induction false} DistinctFit(s: seq<u32>, all: set<u32>)
    requires Distinct(s) && forall i :: 0 <= i < |s| ==> s[i] in all
    ensures |s| <= |all|
  {
    if |s| > 0 {
      var last := s[|s| - 1];
      DistinctFit(s[..|s| - 1], all - {last});
    }
  }

  /** The directory reads as records or as end of file. */
  predicate Calm(rd: ReadDir, sz: u32 -> u32, d: u32) {
    rd(d, sz(d)).Ok? || rd(d, sz(d)).error == UnexpectedEof
  }

  ghost predicate AllCalm(rd: ReadDir, sz: u32 -> u32, ds: seq<u32>) {
    forall i :: 0 <= i < |ds| ==> Calm(rd, sz, ds[i])
  }

  ghost predicate AllReached(rd: ReadDir, sz: u32 -> u32, root: u32, ds: seq<u32>) {
    forall i :: 0 <= i < |ds| ==> Reachable(rd, sz, root, ds[i])
  }

  /** A way from the root through 258 different directories, each held by the one before. */
  ghost predicate TooDeep(rd: ReadDir, sz: u32 -> u32, root: u32) {
    exists p :: IsPath(rd, sz, p) && p[0] == root && |p| == 258 && Distinct(p)
  }

  /** The last directory read gives the error, or the depth limit is exceeded; all the other
      directories read are calm. */
  ghost predicate StopsAt(rd: ReadDir, sz: u32 -> u32, root: u32, fetched: seq<u32>, e: IsoError) {
    && e != UnexpectedEof
    && ((|fetched| > 0 && rd(Last(fetched), sz(Last(fetched))) == Err(e) && AllCalm(rd, sz, Front(fetched)))
        || (e == ResourceLimit && TooDeep(rd, sz, root) && AllCalm(rd, sz, fetched)))
  }

  /** The open directories are a way from the root, all different and met. */
  ghost predicate OpenWay(rd: ReadDir, sz: u32 -> u32, root: u32, stack: seq<u32>, st: State) {
    && (|stack| > 0 ==> IsPath(rd, sz, stack) && stack[0] == root)
    && Distinct(stack)
    && forall i :: 0 <= i < |stack| ==> stack[i] in st.sizes
  }

  ghost predicate Kept(st: State, st': State) {
    forall d :: d in st.sizes ==> d in st'.sizes
  }

  lemma WayOn(rd: ReadDir, sz: u32 -> u32, root: u32, lba: u32, stack: seq<u32>, st: State)
    requires OpenWay(rd, sz, root, stack, st) && lba !in st.sizes
    requires if |stack| == 0 then lba == root else Edge(rd, sz, Last(stack), lba)
    ensures IsPath(rd, sz, stack + [lba]) && (stack + [lba])[0] == root && Distinct(stack + [lba])
    ensures OpenWay(rd, sz, root, stack + [lba], st.Meeting(lba, sz(lba)).Fetching(lba))
  {
    hide Edge;
  }

  lemma ChildOf(rd: ReadDir, sz: u32 -> u32, root: u32, rootSize: u32, d: u32, i: nat)
    requires OneSize(rd, sz, root, rootSize) && Reachable(rd, sz, root, d)
    requires i < |Holdings(rd, sz, d)| && Holdings(rd, sz, d)[i].IsDir()
    ensures Edge(rd, sz, d, Holdings(rd, sz, d)[i].lba)
    ensures Reachable(rd, sz, root, Holdings(rd, sz, d)[i].lba)
    ensures Holdings(rd, sz, d)[i].size == sz(Holdings(rd, sz, d)[i].lba)
  {
    hide Reachable;
    assert Edge(rd, sz, d, Holdings(rd, sz, d)[i].lba);
    ReachesOn(rd, sz, root, d, Holdings(rd, sz, d)[i].lba);
  }

  lemma CalmOn(rd: ReadDir, sz: u32 -> u32, ds: seq<u32>, d: u32)
    requires AllCalm(rd, sz, ds)
    ensures Front(ds + [d]) == ds && Last(ds + [d]) == d
    ensures AllCalm(rd, sz, ds + [d]) <==> Calm(rd, sz, d)
  {
    assert (ds + [d])[|ds|] == d;
  }

  lemma {:induction false} DirectoryEnds(rd: ReadDir, sz: u32 -> u32, root: u32, rootSize: u32,
      lba: u32, trail: seq<Name>, stack: seq<u32>, st: State)
    requires OneSize(rd, sz, root, rootSize) && Reachable(rd, sz, root, lba)
    requires if |stack| == 0 then lba == root else Edge(rd, sz, Last(stack), lba)
    requires |trail| == |stack| <= MAX_WALK_DEPTH + 1 && OpenWay(rd, sz, root, stack, st)
    requires AllCalm(rd, sz, st.fetched) && AllReached(rd, sz, root, st.fetched)
    ensures var o := WalkDir(rd, lba, sz(lba), trail, stack, st);
      && Kept(st, o.st) && AllReached(rd, sz, root, o.st.fetched)
      && (o.err.None? ==> AllCalm(rd, sz, o.st.fetched) && (lba in st.sizes || rd(lba, sz(lba)).Ok?))
      && (o.err == Some(UnexpectedEof) ==>
            AllCalm(rd, sz, o.st.fetched) && rd(lba, sz(lba)) == Err(UnexpectedEof))
      && (o.err.Some? && o.err.value != UnexpectedEof ==> StopsAt(rd, sz, root, o.st.fetched, o.err.value))
    decreases MAX_WALK_DEPTH + 1 - |trail|, 1, 0
  {
    hide OneSize, Reachable, Edge, NameOf, IsPath, AllCalm;
    if lba !in st.sizes {
      var open := stack + [lba];
      var met := st.Meeting(lba, sz(lba)).Fetching(lba);
      WayOn(rd, sz, root, lba, stack, st);
      if |trail| <= MAX_WALK_DEPTH {
        CalmOn(rd, sz, st.fetched, lba);
        if rd(lba, sz(lba)).Ok? {
          RecordsEnd(rd, sz, root, rootSize, 0, trail, open, met);
        }
      }
    }
  }

  lemma {:induction false} RecordsEnd(rd: ReadDir, sz: u32 -> u32, root: u32, rootSize: u32,
      i: nat, trail: seq<Name>, stack: seq<u32>, st: State)
    requires OneSize(rd, sz, root, rootSize)
    requires AllCalm(rd, sz, st.fetched) && AllReached(rd, sz, root, st.fetched)
    requires |stack| == |trail| + 1 && |trail| <= MAX_WALK_DEPTH && OpenWay(rd, sz, root, stack, st)
    requires Reachable(rd, sz, root, Last(stack)) && i <= |Holdings(rd, sz, Last(stack))|
    ensures var o := WalkRecords(rd, Holdings(rd, sz, Last(stack)), i, trail, stack, st);
      && Kept(st, o.st) && AllReached(rd, sz, root, o.st.fetched)
      && (o.err.None? ==> AllCalm(rd, sz, o.st.fetched))
      && (o.err.Some? ==> StopsAt(rd, sz, root, o.st.fetched, o.err.value))
    decreases MAX_WALK_DEPTH + 1 - |trail|, 0, |Holdings(rd, sz, Last(stack))| - i
  {
    hide OneSize, Reachable, Edge, NameOf, IsPath, AllCalm, Holdings, StopsAt;
    var recs := Holdings(rd, sz, Last(stack));
    if i < |recs| {
      var rec := recs[i];
      var v := VisitOf(rec, trail, stack, i);
      var listed := st.Listing(v);
      var o := if rec.IsDir() then WalkDir(rd, rec.lba, rec.size, v.trail, stack, listed) else Outcome(listed, None);
      if rec.IsDir() {
        ChildOf(rd, sz, root, rootSize, Last(stack), i);
        DirectoryEnds(rd, sz, root, rootSize, rec.lba, v.trail, stack, listed);
      }
      if o.err.None? || o.err.value == UnexpectedEof {
        RecordsEnd(rd, sz, root, rootSize, i + 1, trail, stack, o.st);
      }
      StopIsNotEof(rd, sz, root, o.st.fetched);
    }
  }

  lemma StopIsNotEof(rd: ReadDir, sz: u32 -> u32, root: u32, fetched: seq<u32>)
    ensures !StopsAt(rd, sz, root, fetched, UnexpectedEof)
  {
  }

  // ---- success --------------------------------------------------------------------------------

  /** A walk that finishes has read the root, and every other reachable directory reads as records or
      as end of file: no other failure of a directory is passed over. */
  lemma FinishedReads(rd: ReadDir, sz: u32 -> u32, root: u32, rootSize: u32, st: State)
    requires Finished(rd, root, rootSize, st) && OneSize(rd, sz, root, rootSize)
    ensures rd(root, rootSize).Ok?
    ensures forall d :: Reachable(rd, sz, root, d) ==>
      rd(d, sz(d)).Ok? || rd(d, sz(d)) == Err(UnexpectedEof)
  {
    hide OneSize, Reachable, Edge, WalkDir, IsPath;
    ReachesRoot(rd, sz, root);
    OneSizeOfRoot(rd, sz, root, rootSize);
    DirectoryEnds(rd, sz, root, rootSize, root, [], [], START);
    forall d | Reachable(rd, sz, root, d)
      ensures rd(d, sz(d)).Ok? || rd(d, sz(d)) == Err(UnexpectedEof)
    {
      MetIffReachable(rd, sz, root, rootSize, st, d);
      ReadsEachDirectoryOnce(rd, sz, root, rootSize, st);
      assert d in st.fetched;
      assert Calm(rd, sz, d);
    }
  }

  // ---- failure --------------------------------------------------------------------------------

  /** A walk that fails gives the error with which the root reads or, where the root reads as records,
      an error other than end of file with which the last directory it reads reads, or the depth limit
      at the end of a way through 258 different directories. */
  lemma FailureIsReal(rd: ReadDir, sz: u32 -> u32, root: u32, rootSize: u32, e: IsoError)
    requires OneSize(rd, sz, root, rootSize) && WalkFrom(rd, root, rootSize).err == Some(e)
    ensures rd(root, rootSize) == Err(e) || StopsAt(rd, sz, root, WalkFrom(rd, root, rootSize).st.fetched, e)
    ensures forall d :: d in WalkFrom(rd, root, rootSize).st.fetched ==> Reachable(rd, sz, root, d)
  {
    hide OneSize, Reachable, Edge, WalkDir, IsPath, StopsAt;
    ReachesRoot(rd, sz, root);
    OneSizeOfRoot(rd, sz, root, rootSize);
    DirectoryEnds(rd, sz, root, rootSize, root, [], [], START);
  }

  /** An error of the root is the walk's own. */
  lemma RootFails(rd: ReadDir, root: u32, rootSize: u32)
    requires rd(root, rootSize).Err?
    ensures WalkFrom(rd, root, rootSize).err == Some(rd(root, rootSize).error)
  {
  }

  lemma {:induction false} WayReaches(rd: ReadDir, sz: u32 -> u32, root: u32, p: seq<u32>, n: nat)
    requires IsPath(rd, sz, p)
    requires p[0] == root && n < |p|
    ensures Reachable(rd, sz, root, p[n])
  {
    hide Edge, Reachable;
    if n == 0 {
      ReachesRoot(rd, sz, root);
    } else {
      WayReaches(rd, sz, root, p, n - 1);
      assert Edge(rd, sz, p[n - 1], p[n]);
      ReachesOn(rd, sz, root, p[n - 1], p[n]);
    }
  }

  lemma NotTooDeep(rd: ReadDir, sz: u32 -> u32, root: u32, all: set<u32>)
    requires |all| <= 257 && forall d :: Reachable(rd, sz, root, d) ==> d in all
    ensures !TooDeep(rd, sz, root)
  {
    hide Edge, Reachable;
    if p :| IsPath(rd, sz, p) && p[0] == root && |p| == 258 && Distinct(p) {
      forall n | 0 <= n < |p|
        ensures p[n] in all
      {
        WayReaches(rd, sz, root, p, n);
      }
      DistinctFit(p, all);
    }
  }

  /** If the root can be read, every other reachable directory reads as records or as end of file,
      and there are at most 257 of them in all, the walk finishes, whatever cycles there are. */
  lemma WalkFinishes(rd: ReadDir, sz: u32 -> u32, root: u32, rootSize: u32, all: set<u32>) returns (st: State)
    requires OneSize(rd, sz, root, rootSize) && rd(root, rootSize).Ok?
    requires forall d :: Reachable(rd, sz, root, d) ==>
      d in all && (rd(d, sz(d)).Ok? || rd(d, sz(d)).error == UnexpectedEof)
    requires |all| <= 257
    ensures Finished(rd, root, rootSize, st)
  {
    hide OneSize, Reachable, WalkDir, TooDeep, AllCalm;
    st := WalkFrom(rd, root, rootSize).st;
    NotTooDeep(rd, sz, root, all);
    if WalkFrom(rd, root, rootSize).err.Some? {
      FailureIsReal(rd, sz, root, rootSize, WalkFrom(rd, root, rootSize).err.value);
      assert false;
    }
  }
}
