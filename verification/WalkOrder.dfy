/** The order in which a walk lists entries (core/src/lib.rs): depth-first, parents before the
    records they hold. */
module WalkOrder {
  import opened Wrappers
  import opened Bytes
  import opened IsoErrors
  import opened Directory
  import opened Names
  import opened Walk
  import opened WalkInvariant
  import opened WalkTheorems

  function Depth(v: Visit): nat {
    v.entry.depth
  }

  /** One of the first n entries is a directory at that extent. */
  ghost predicate RefersBefore(out: seq<Visit>, n: nat, lba: u32) {
    exists m :: 0 <= m < n && m < |out| && out[m].entry.record.IsDir() && out[m].entry.record.lba == lba
  }

  /** Entry j is the directory that entry k is in: the first reference to its extent, and the last
      entry before k that is less deep. */
  ghost predicate HoldsEntry(root: u32, out: seq<Visit>, j: nat, k: nat) {
    && j < k < |out|
    && out[j].entry.record.IsDir() && out[j].entry.record.lba == Home(out[k]) != root
    && !RefersBefore(out, j, Home(out[k]))
    && Depth(out[k]) == Depth(out[j]) + 1
    && (forall m :: j < m < k ==> Depth(out[m]) >= Depth(out[k]))
    && out[k].entry.path ==
       var name := NameOf(out[k].entry.record);
       if |out[j].entry.path| == 0 then name else out[j].entry.path + [SLASH] + name
  }

  ghost predicate PreOrder(root: u32, out: seq<Visit>) {
    forall k :: 0 <= k < |out| ==> WellPlaced(root, out, k)
  }

  ghost predicate WellPlaced(root: u32, out: seq<Visit>, k: nat)
    requires k < |out|
  {
    if Depth(out[k]) == 0 then Home(out[k]) == root && out[k].entry.path == NameOf(out[k].entry.record)
    else exists j: nat :: HoldsEntry(root, out, j, k)
  }

  /** The innermost open directory was met when n entries were listed, by the last of them. */
  ghost predicate OpenedAt(root: u32, out: seq<Visit>, n: nat, trail: seq<Name>, stack: seq<u32>) {
    && |stack| == |trail| + 1 && n <= |out|
    && if |trail| == 0 then stack == [root]
       else
         && n > 0 && Last(stack) != root
         && out[n - 1].entry.record.IsDir() && out[n - 1].entry.record.lba == Last(stack)
         && out[n - 1].entry.path == PathOf(trail) && Depth(out[n - 1]) == |trail| - 1
         && !RefersBefore(out, n - 1, Last(stack))
  }

  /** From place n on, entries are at least that deep. */
  ghost predicate DeepFrom(out: seq<Visit>, n: nat, depth: nat) {
    forall m :: n <= m < |out| ==> Depth(out[m]) >= depth
  }

  /** The directories among the first n entries have been met, and the root. */
  ghost predicate MetUpTo(root: u32, st: State, n: nat) {
    && root in st.sizes
    && forall m :: 0 <= m < n && m < |st.out| && st.out[m].entry.record.IsDir() ==>
         st.out[m].entry.record.lba in st.sizes
  }

  lemma PlacedStays(root: u32, out: seq<Visit>, out': seq<Visit>, k: nat)
    requires out <= out' && k < |out| && WellPlaced(root, out, k)
    ensures WellPlaced(root, out', k)
  {
    hide NameOf;
    if Depth(out[k]) > 0 {
      var j: nat :| HoldsEntry(root, out, j, k);
      assert forall m :: 0 <= m < |out| ==> out'[m] == out[m];
      assert !RefersBefore(out', j, Home(out[k]));
      assert HoldsEntry(root, out', j, k);
    }
  }

  lemma OpenedStays(root: u32, out: seq<Visit>, out': seq<Visit>, n: nat, trail: seq<Name>, stack: seq<u32>)
    requires OpenedAt(root, out, n, trail, stack) && out <= out'
    ensures OpenedAt(root, out', n, trail, stack)
  {
    hide PathOf;
    assert forall m :: 0 <= m < |out| ==> out'[m] == out[m];
  }

  /** Listing a record of the innermost open directory. */
  lemma ListingPlaces(root: u32, st: State, n: nat, trail: seq<Name>, stack: seq<u32>, v: Visit)
    requires PreOrder(root, st.out) && OpenedAt(root, st.out, n, trail, stack) && DeepFrom(st.out, n, |trail|)
    requires v.chain == stack && Depth(v) == |trail|
    requires v.entry.path == Join(PathOf(trail), NameOf(v.entry.record))
    ensures PreOrder(root, st.Listing(v).out) && OpenedAt(root, st.Listing(v).out, n, trail, stack)
    ensures DeepFrom(st.Listing(v).out, n, |trail|)
  {
    hide NameOf, PathOf;
    var out := st.Listing(v).out;
    OpenedStays(root, st.out, out, n, trail, stack);
    forall k | 0 <= k < |out|
      ensures WellPlaced(root, out, k)
    {
      if k < |st.out| {
        PlacedStays(root, st.out, out, k);
      } else if |trail| > 0 {
        assert HoldsEntry(root, out, n - 1, k);
      } else {
        RootPath(trail);
      }
    }
  }

  lemma RootPath(trail: seq<Name>)
    requires |trail| == 0
    ensures PathOf(trail) == []
  {
  }

  /** What walking adds: entries in pre-order, none less deep than given. */
  ghost predicate Added(root: u32, st: State, st': State, n: nat, depth: nat) {
    && PreOrder(root, st'.out) && st.out <= st'.out && DeepFrom(st'.out, n, depth)
    && forall d :: d in st.sizes ==> d in st'.sizes
  }

  lemma {:induction false} DirectoryOrder(rd: ReadDir, root: u32, lba: u32, size: u32, trail: seq<Name>,
      stack: seq<u32>, st: State)
    requires |trail| <= MAX_WALK_DEPTH + 1 && |stack| == |trail|
    requires PreOrder(root, st.out)
    requires if |trail| == 0 then lba == root && st == START
             else
               && |st.out| > 0 && MetUpTo(root, st, |st.out| - 1)
               && var v := st.out[|st.out| - 1];
                  v.entry.record.IsDir() && v.entry.record.lba == lba
                  && v.entry.path == PathOf(trail) && Depth(v) == |trail| - 1
    ensures var o := WalkDir(rd, lba, size, trail, stack, st);
      && Added(root, st, o.st, |st.out|, |trail|)
      && (o.err == None || o.err == Some(UnexpectedEof) ==> MetUpTo(root, o.st, |o.st.out|))
    decreases MAX_WALK_DEPTH + 1 - |trail|, 1, 0
  {
    hide NameOf, PathOf, PreOrder, OpenedAt;
    if lba !in st.sizes && |trail| <= MAX_WALK_DEPTH {
      var met := st.Meeting(lba, size).Fetching(lba);
      FirstReference(root, lba, size, trail, stack, st);
      if rd(lba, size).Ok? {
        RecordsOrder(rd, root, rd(lba, size).value, 0, trail, stack + [lba], |st.out|, met);
      }
    }
  }

  /** A directory is entered by the first reference to it. */
  lemma FirstReference(root: u32, lba: u32, size: u32, trail: seq<Name>, stack: seq<u32>, st: State)
    requires |stack| == |trail| && lba !in st.sizes
    requires if |trail| == 0 then lba == root && st == START
             else
               && |st.out| > 0 && MetUpTo(root, st, |st.out| - 1)
               && var v := st.out[|st.out| - 1];
                  v.entry.record.IsDir() && v.entry.record.lba == lba
                  && v.entry.path == PathOf(trail) && Depth(v) == |trail| - 1
    ensures var met := st.Meeting(lba, size).Fetching(lba);
      OpenedAt(root, met.out, |met.out|, trail, stack + [lba]) && MetUpTo(root, met, |met.out|)
  {
    hide PathOf;
    if |trail| == 0 {
      assert stack + [lba] == [root];
    } else {
      assert Last(stack + [lba]) == lba;
    }
  }

  lemma {:induction false} RecordsOrder(rd: ReadDir, root: u32, recs: seq<DirRecord>, i: nat, trail: seq<Name>,
      stack: seq<u32>, n: nat, st: State)
    requires |trail| <= MAX_WALK_DEPTH && i <= |recs|
    requires PreOrder(root, st.out) && OpenedAt(root, st.out, n, trail, stack) && DeepFrom(st.out, n, |trail|)
    requires MetUpTo(root, st, |st.out|)
    ensures var o := WalkRecords(rd, recs, i, trail, stack, st);
      && Added(root, st, o.st, n, |trail|)
      && (o.err == None ==> MetUpTo(root, o.st, |o.st.out|)) && o.err != Some(UnexpectedEof)
    decreases MAX_WALK_DEPTH + 1 - |trail|, 0, |recs| - i
  {
    hide NameOf, PathOf, PreOrder;
    if i < |recs| {
      var rec := recs[i];
      var v := VisitOf(rec, trail, stack, i);
      var listed := st.Listing(v);
      ListingPlaces(root, st, n, trail, stack, v);
      var o := if rec.IsDir() then WalkDir(rd, rec.lba, rec.size, v.trail, stack, listed) else Outcome(listed, None);
      if rec.IsDir() {
        LongerPath(trail, NameOf(rec));
        DirectoryOrder(rd, root, rec.lba, rec.size, v.trail, stack, listed);
        DeepAfter(listed.out, o.st.out, n, |trail|);
      }
      OpenedStays(root, listed.out, o.st.out, n, trail, stack);
      if o.err.None? || o.err.value == UnexpectedEof {
        RecordsOrder(rd, root, recs, i + 1, trail, stack, n, o.st);
      }
    }
  }

  lemma LongerPath(trail: seq<Name>, name: Name)
    ensures PathOf(trail + [name]) == Join(PathOf(trail), name)
  {
    assert (trail + [name])[..|trail|] == trail;
  }

  lemma DeepAfter(out: seq<Visit>, out': seq<Visit>, n: nat, depth: nat)
    requires DeepFrom(out, n, depth) && out <= out' && DeepFrom(out', |out|, depth + 1)
    ensures DeepFrom(out', n, depth)
  {
  }

  /** A walk lists in depth-first pre-order: an entry of the root directory is under its name alone,
      any other entry is in the last entry before it that is less deep, which is the first reference
      to that directory; and the records of one directory come in their order. */
  lemma ListsInPreOrder(rd: ReadDir, root: u32, rootSize: u32, st: State)
    requires Finished(rd, root, rootSize, st)
    ensures forall k :: 0 <= k < |st.out| ==> WellPlaced(root, st.out, k)
    ensures forall a, b :: 0 <= a < b < |st.out| && Home(st.out[a]) == Home(st.out[b]) ==>
      st.out[a].index < st.out[b].index
  {
    hide NameOf, PathOf, WellPlaced;
    FinishedKeeps(rd, root, rootSize, st);
    DirectoryOrder(rd, root, root, rootSize, [], [], START);
  }
}
