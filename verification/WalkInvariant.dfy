/** What every step of a walk keeps: listing an entry, meeting a directory, leaving it. */
module WalkInvariant {
  import opened Wrappers
  import opened Bytes
  import opened IsoErrors
  import opened Directory
  import opened Names
  import opened Walk

  // ---- the facts ------------------------------------------------------------------

  predicate Readable(rd: ReadDir, sizes: map<u32, u32>, d: u32) {
    d in sizes && rd(d, sizes[d]).Ok?
  }

  function Records(rd: ReadDir, sizes: map<u32, u32>, d: u32): seq<DirRecord>
    requires Readable(rd, sizes, d)
  {
    rd(d, sizes[d]).value
  }

  function Last(chain: seq<u32>): u32
    requires |chain| > 0
  {
    chain[|chain| - 1]
  }

  /** The directory that holds the record listed. */
  function Home(v: Visit): u32 {
    if |v.chain| == 0 then 0 else Last(v.chain)
  }

  /** A visit shows the record at its place of its directory, with the path of its trail. */
  predicate Faithful(rd: ReadDir, sizes: map<u32, u32>, v: Visit) {
    && |v.chain| == |v.trail| == v.entry.depth + 1 && v.entry.depth <= MAX_WALK_DEPTH
    && Readable(rd, sizes, Home(v))
    && v.index < |Records(rd, sizes, Home(v))|
    && v.entry.record == Records(rd, sizes, Home(v))[v.index]
    && v.trail[|v.trail| - 1] == NameOf(v.entry.record)
    && v.entry.path == PathOf(v.trail)
  }

  ghost predicate AllFaithful(rd: ReadDir, st: State) {
    forall k :: 0 <= k < |st.out| ==> Faithful(rd, st.sizes, st.out[k])
  }

  /** The visit lists the directory at `lba`, of that size, met with these open directories. */
  predicate Opens(v: Visit, trail: seq<Name>, chain: seq<u32>, lba: u32, size: u32) {
    && v.entry.record.IsDir() && v.entry.record.lba == lba && v.entry.record.size == size
    && v.trail == trail && v.chain == chain
  }

  /** The directory is the root of the walk, or one of the first n visits lists it. */
  ghost predicate Entered(root: u32, rootSize: u32, out: seq<Visit>, n: nat,
      trail: seq<Name>, chain: seq<u32>, lba: u32, size: u32) {
    || (trail == [] && chain == [] && lba == root && size == rootSize)
    || exists k :: 0 <= k < n && k < |out| && Opens(out[k], trail, chain, lba, size)
  }

  function Front<T>(s: seq<T>): seq<T>
    requires |s| > 0
  {
    s[..|s| - 1]
  }

  /** Every visit comes after the one that lists the directory it is in. */
  ghost predicate Rooted(root: u32, rootSize: u32, st: State) {
    forall k :: 0 <= k < |st.out| ==>
      RootedAt(root, rootSize, st, k)
  }

  ghost predicate RootedAt(root: u32, rootSize: u32, st: State, k: nat)
    requires k < |st.out|
  {
    var v := st.out[k];
    && |v.chain| == |v.trail| > 0 && Home(v) in st.sizes
    && Entered(root, rootSize, st.out, k, Front(v.trail), Front(v.chain), Home(v), st.sizes[Home(v)])
  }

  /** The records of a directory are listed in their order, none twice. */
  ghost predicate SiblingsInOrder(st: State) {
    forall a, b :: 0 <= a < b < |st.out| && Home(st.out[a]) == Home(st.out[b]) ==> st.out[a].index < st.out[b].index
  }

  ghost predicate ListedIn(out: seq<Visit>, d: u32, i: nat) {
    exists k :: 0 <= k < |out| && Home(out[k]) == d && out[k].index == i
  }

  /** Record i of directory d has been listed and, when it is a directory, met. */
  ghost predicate Dealt(rd: ReadDir, st: State, d: u32, i: nat)
    requires Readable(rd, st.sizes, d) && i < |Records(rd, st.sizes, d)|
  {
    && ListedIn(st.out, d, i)
    && (Records(rd, st.sizes, d)[i].IsDir() ==> Records(rd, st.sizes, d)[i].lba in st.sizes)
  }

  ghost predicate AllDealt(rd: ReadDir, st: State, d: u32)
    requires Readable(rd, st.sizes, d)
  {
    forall i :: 0 <= i < |Records(rd, st.sizes, d)| ==> Dealt(rd, st, d, i)
  }

  /** Every record of a directory the walk has left is dealt with. */
  ghost predicate LeftComplete(rd: ReadDir, st: State) {
    forall d :: d in st.left && Readable(rd, st.sizes, d) ==> AllDealt(rd, st, d)
  }

  /** A listed directory is one of those open when it was listed. */
  predicate BackEdge(v: Visit) {
    v.entry.record.IsDir() && v.entry.record.lba in v.chain
  }

  ghost predicate SomeBackEdge(out: seq<Visit>) {
    exists k :: 0 <= k < |out| && BackEdge(out[k])
  }

  /** Without a listed back edge, a directory is left after all the directories it holds. */
  ghost predicate LeftInOrder(rd: ReadDir, st: State) {
    forall k :: 0 <= k < |st.left| && Readable(rd, st.sizes, st.left[k]) ==> ChildrenLeft(rd, st, k)
  }

  ghost predicate ChildrenLeft(rd: ReadDir, st: State, k: nat)
    requires k < |st.left| && Readable(rd, st.sizes, st.left[k])
  {
    forall i :: 0 <= i < |Records(rd, st.sizes, st.left[k])| && Records(rd, st.sizes, st.left[k])[i].IsDir() ==>
      Records(rd, st.sizes, st.left[k])[i].lba in st.left[..k] || SomeBackEdge(st.out)
  }

  /** Every directory met is open or left, and only read directories count as met. */
  ghost predicate OpenOrLeft(st: State, stack: seq<u32>) {
    && (forall d :: d in st.sizes <==> d in stack || d in st.left)
    && (forall d :: d in st.sizes <==> d in st.fetched)
  }

  ghost predicate FetchedOnce(st: State) {
    forall a, b :: 0 <= a < b < |st.fetched| ==> st.fetched[a] != st.fetched[b]
  }

  /** Every directory was met with the root's size or that of a listed record. */
  ghost predicate SizesFromRecords(root: u32, rootSize: u32, st: State) {
    forall d :: d in st.sizes ==> Known(root, rootSize, st.out, d, st.sizes[d])
  }

  predicate Refers(v: Visit, d: u32, size: u32) {
    v.entry.record.IsDir() && v.entry.record.lba == d && v.entry.record.size == size
  }

  ghost predicate Known(root: u32, rootSize: u32, out: seq<Visit>, d: u32, size: u32) {
    (d == root && size == rootSize) || exists k :: 0 <= k < |out| && Refers(out[k], d, size)
  }

  ghost predicate Inv(rd: ReadDir, root: u32, rootSize: u32, st: State, stack: seq<u32>) {
    && AllFaithful(rd, st)
    && Rooted(root, rootSize, st)
    && SiblingsInOrder(st)
    && LeftComplete(rd, st)
    && LeftInOrder(rd, st)
    && OpenOrLeft(st, stack)
    && FetchedOnce(st)
    && SizesFromRecords(root, rootSize, st)
  }

  /** The records of the innermost open directory up to number i are dealt with, no others are. */
  ghost predicate Progress(rd: ReadDir, st: State, stack: seq<u32>, i: nat)
    requires |stack| > 0 && Readable(rd, st.sizes, Last(stack)) && i <= |Records(rd, st.sizes, Last(stack))|
  {
    && (forall j :: 0 <= j < i ==> Dealt(rd, st, Last(stack), j) && ListedHere(st.out, stack, j))
    && (forall k :: 0 <= k < |st.out| && Home(st.out[k]) == Last(stack) ==> st.out[k].index < i)
  }

  ghost predicate ListedHere(out: seq<Visit>, stack: seq<u32>, i: nat) {
    exists k :: 0 <= k < |out| && out[k].chain == stack && out[k].index == i
  }

  /** The state has only grown, and lists nothing more from the directories met before. */
  ghost predicate Grown(st: State, st': State) {
    && st.out <= st'.out
    && (forall d :: d in st.sizes ==> d in st'.sizes && st'.sizes[d] == st.sizes[d])
    && st.left <= st'.left
    && (forall k :: |st.out| <= k < |st'.out| ==> Home(st'.out[k]) !in st.sizes)
  }

  // ---- meeting a directory ----------------------------------------------------------

  lemma EnteredStays(root: u32, rootSize: u32, out: seq<Visit>, out': seq<Visit>, n: nat, n': nat,
      trail: seq<Name>, chain: seq<u32>, lba: u32, size: u32)
    requires Entered(root, rootSize, out, n, trail, chain, lba, size)
    requires out <= out' && n <= n' && n <= |out|
    ensures Entered(root, rootSize, out', n', trail, chain, lba, size)
  {
    if k :| 0 <= k < n && k < |out| && Opens(out[k], trail, chain, lba, size) {
      assert Opens(out'[k], trail, chain, lba, size);
    }
  }

  lemma EnteredIsKnown(root: u32, rootSize: u32, out: seq<Visit>, n: nat,
      trail: seq<Name>, chain: seq<u32>, lba: u32, size: u32)
    requires Entered(root, rootSize, out, n, trail, chain, lba, size)
    ensures Known(root, rootSize, out, lba, size)
  {
    if k :| 0 <= k < n && k < |out| && Opens(out[k], trail, chain, lba, size) {
      assert Refers(out[k], lba, size);
    }
  }

  lemma MeetingKeeps(rd: ReadDir, root: u32, rootSize: u32, st: State, trail: seq<Name>, stack: seq<u32>,
      lba: u32, size: u32)
    requires Inv(rd, root, rootSize, st, stack) && lba !in st.sizes
    requires Entered(root, rootSize, st.out, |st.out|, trail, stack, lba, size)
    ensures Inv(rd, root, rootSize, st.Meeting(lba, size).Fetching(lba), stack + [lba])
    ensures Grown(st, st.Meeting(lba, size).Fetching(lba))
    ensures rd(lba, size).Ok? ==> Progress(rd, st.Meeting(lba, size).Fetching(lba), stack + [lba], 0)
  {
    hide Faithful, Known, Entered;
    var st' := st.Meeting(lba, size).Fetching(lba);
    assert AllFaithful(rd, st') by {
      forall k | 0 <= k < |st'.out|
        ensures Faithful(rd, st'.sizes, st'.out[k])
      {
        FaithfulStays(rd, st.sizes, st'.sizes, st.out[k]);
      }
    }
    assert Rooted(root, rootSize, st') by {
      forall k | 0 <= k < |st'.out|
        ensures RootedAt(root, rootSize, st', k)
      {
        assert RootedAt(root, rootSize, st, k);
      }
    }
    LeftStays(rd, st, st');
    assert OpenOrLeft(st', stack + [lba]);
    assert SizesFromRecords(root, rootSize, st') by {
      EnteredIsKnown(root, rootSize, st.out, |st.out|, trail, stack, lba, size);
    }
    forall k | 0 <= k < |st.out|
      ensures Home(st.out[k]) != lba
    {
      assert RootedAt(root, rootSize, st, k);
    }
  }

  lemma FaithfulStays(rd: ReadDir, sizes: map<u32, u32>, sizes': map<u32, u32>, v: Visit)
    requires Faithful(rd, sizes, v)
    requires forall d :: d in sizes ==> d in sizes' && sizes'[d] == sizes[d]
    ensures Faithful(rd, sizes', v)
  {
  }

  /** What holds of the directories left keeps holding as long as none is left. */
  lemma LeftStays(rd: ReadDir, st: State, st': State)
    requires LeftComplete(rd, st) && LeftInOrder(rd, st)
    requires st.out <= st'.out && st.left == st'.left
    requires forall d :: d in st.sizes ==> d in st'.sizes && st'.sizes[d] == st.sizes[d]
    requires forall d :: d in st.left ==> d in st.sizes
    ensures LeftComplete(rd, st') && LeftInOrder(rd, st')
  {
    forall d | d in st'.left && Readable(rd, st'.sizes, d)
      ensures AllDealt(rd, st', d)
    {
      assert AllDealt(rd, st, d);
      forall i | 0 <= i < |Records(rd, st'.sizes, d)|
        ensures Dealt(rd, st', d, i)
      {
        DealtStays(rd, st, st', d, i);
      }
    }
    forall k | 0 <= k < |st'.left| && Readable(rd, st'.sizes, st'.left[k])
      ensures ChildrenLeft(rd, st', k)
    {
      assert st'.left[k] in st.left;
      ChildrenStay(rd, st, st', k);
    }
  }

  lemma ChildrenStay(rd: ReadDir, st: State, st': State, k: nat)
    requires k < |st.left| && Readable(rd, st.sizes, st.left[k]) && ChildrenLeft(rd, st, k)
    requires st.out <= st'.out && st.left <= st'.left
    requires forall d :: d in st.sizes ==> d in st'.sizes && st'.sizes[d] == st.sizes[d]
    ensures ChildrenLeft(rd, st', k)
  {
    assert st'.left[..k] == st.left[..k];
    if SomeBackEdge(st.out) {
      BackEdgeStays(st.out, st'.out);
    }
    forall i | 0 <= i < |Records(rd, st'.sizes, st'.left[k])| && Records(rd, st'.sizes, st'.left[k])[i].IsDir()
      ensures Records(rd, st'.sizes, st'.left[k])[i].lba in st'.left[..k] || SomeBackEdge(st'.out)
    {
      assert Records(rd, st.sizes, st.left[k])[i].IsDir();
    }
  }

  lemma BackEdgeStays(out: seq<Visit>, out': seq<Visit>)
    requires SomeBackEdge(out) && out <= out'
    ensures SomeBackEdge(out')
  {
    var k :| 0 <= k < |out| && BackEdge(out[k]);
    assert BackEdge(out'[k]);
  }

  lemma DealtStays(rd: ReadDir, st: State, st': State, d: u32, i: nat)
    requires Readable(rd, st.sizes, d) && i < |Records(rd, st.sizes, d)| && Dealt(rd, st, d, i)
    requires st.out <= st'.out
    requires forall c :: c in st.sizes ==> c in st'.sizes && st'.sizes[c] == st.sizes[c]
    ensures Dealt(rd, st', d, i)
  {
    var k :| 0 <= k < |st.out| && Home(st.out[k]) == d && st.out[k].index == i;
    assert Home(st'.out[k]) == d && st'.out[k].index == i;
  }

  // ---- listing a record -------------------------------------------------------------

  lemma ListingKeeps(rd: ReadDir, root: u32, rootSize: u32, st: State, trail: seq<Name>, stack: seq<u32>, i: nat)
    requires Inv(rd, root, rootSize, st, stack) && |stack| == |trail| + 1 && |trail| <= MAX_WALK_DEPTH
    requires Readable(rd, st.sizes, Last(stack)) && i < |Records(rd, st.sizes, Last(stack))|
    requires Progress(rd, st, stack, i)
    requires Entered(root, rootSize, st.out, |st.out|, trail, Front(stack), Last(stack), st.sizes[Last(stack)])
    ensures var st' := st.Listing(VisitOf(Records(rd, st.sizes, Last(stack))[i], trail, stack, i));
      Inv(rd, root, rootSize, st', stack) && ListedHere(st'.out, stack, i)
  {
    hide Known, Entered, NameOf;
    var v := VisitOf(Records(rd, st.sizes, Last(stack))[i], trail, stack, i);
    var st' := st.Listing(v);
    assert Front(v.trail) == trail;
    assert Faithful(rd, st.sizes, v) by {
      assert PathOf(v.trail) == Join(PathOf(trail), v.trail[|trail|]);
    }
    assert AllFaithful(rd, st');
    forall k | 0 <= k < |st'.out|
      ensures RootedAt(root, rootSize, st', k)
    {
      if k < |st.out| {
        assert RootedAt(root, rootSize, st, k);
        var u := st.out[k];
        EnteredStays(root, rootSize, st.out, st'.out, k, k, Front(u.trail), Front(u.chain), Home(u), st.sizes[Home(u)]);
      } else {
        EnteredStays(root, rootSize, st.out, st'.out, k, k, trail, Front(stack), Last(stack), st.sizes[Last(stack)]);
      }
    }
    assert SiblingsInOrder(st');
    LeftStays(rd, st, st');
    assert SizesFromRecords(root, rootSize, st') by {
      forall d | d in st'.sizes
        ensures Known(root, rootSize, st'.out, d, st'.sizes[d])
      {
        KnownStays(root, rootSize, st.out, st'.out, d, st.sizes[d]);
      }
    }
    assert st'.out[|st.out|] == v;
  }

  lemma KnownStays(root: u32, rootSize: u32, out: seq<Visit>, out': seq<Visit>, d: u32, size: u32)
    requires Known(root, rootSize, out, d, size) && out <= out'
    ensures Known(root, rootSize, out', d, size)
  {
    if k :| 0 <= k < |out| && Refers(out[k], d, size) {
      assert Refers(out'[k], d, size);
    }
  }

  /** After record i is listed and, being a directory, walked, one more record is dealt with. */
  lemma ProgressGrows(rd: ReadDir, st: State, st': State, stack: seq<u32>, i: nat, v: Visit)
    requires |stack| > 0 && Readable(rd, st.sizes, Last(stack)) && i < |Records(rd, st.sizes, Last(stack))|
    requires Progress(rd, st, stack, i)
    requires v.chain == stack && v.index == i
    requires Grown(st.Listing(v), st')
    requires Records(rd, st.sizes, Last(stack))[i].IsDir() ==> Records(rd, st.sizes, Last(stack))[i].lba in st'.sizes
    ensures Readable(rd, st'.sizes, Last(stack)) && Progress(rd, st', stack, i + 1)
  {
    var d := Last(stack);
    assert st'.out[|st.out|] == st.Listing(v).out[|st.out|] == v;
    forall j | 0 <= j < i + 1
      ensures Dealt(rd, st', d, j) && ListedHere(st'.out, stack, j)
    {
      if j < i {
        DealtStays(rd, st, st', d, j);
        var k :| 0 <= k < |st.out| && st.out[k].chain == stack && st.out[k].index == j;
        assert st'.out[k].chain == stack && st'.out[k].index == j;
      } else {
        assert Home(st'.out[|st.out|]) == d && st'.out[|st.out|].index == j;
      }
    }
  }

  // ---- leaving a directory -----------------------------------------------------------

  lemma LeavingKeeps(rd: ReadDir, root: u32, rootSize: u32, st: State, stack: seq<u32>)
    requires Inv(rd, root, rootSize, st, stack) && |stack| > 0
    requires Readable(rd, st.sizes, Last(stack)) ==>
      Progress(rd, st, stack, |Records(rd, st.sizes, Last(stack))|)
    ensures Inv(rd, root, rootSize, st.Leaving(Last(stack)), Front(stack))
  {
    hide Known, Entered, Faithful, Dealt;
    var d := Last(stack);
    var st' := st.Leaving(d);
    assert AllFaithful(rd, st');
    assert Rooted(root, rootSize, st') by {
      forall k | 0 <= k < |st'.out|
        ensures RootedAt(root, rootSize, st', k)
      {
        assert RootedAt(root, rootSize, st, k);
      }
    }
    forall c | c in st'.left && Readable(rd, st'.sizes, c)
      ensures AllDealt(rd, st', c)
    {
      LeavingDealt(rd, st, stack, c);
    }
    forall k | 0 <= k < |st'.left| && Readable(rd, st'.sizes, st'.left[k])
      ensures ChildrenLeft(rd, st', k)
    {
      if k < |st.left| {
        ChildrenStay(rd, st, st', k);
      } else {
        LastChildrenLeft(rd, root, rootSize, st, stack);
      }
    }
    assert stack == Front(stack) + [d];
    assert SizesFromRecords(root, rootSize, st');
  }

  lemma LeavingDealt(rd: ReadDir, st: State, stack: seq<u32>, c: u32)
    requires |stack| > 0 && LeftComplete(rd, st) && Readable(rd, st.sizes, c)
    requires Readable(rd, st.sizes, Last(stack)) ==>
      Progress(rd, st, stack, |Records(rd, st.sizes, Last(stack))|)
    requires c in st.left || c == Last(stack)
    ensures AllDealt(rd, st.Leaving(Last(stack)), c)
  {
    forall i | 0 <= i < |Records(rd, st.sizes, c)|
      ensures Dealt(rd, st.Leaving(Last(stack)), c, i)
    {
      if c in st.left {
        assert AllDealt(rd, st, c);
      }
      assert Dealt(rd, st, c, i);
    }
  }

  /** The directories a directory holds are left when it is, unless they are still open, and
      then it lists a back edge. */
  lemma LastChildrenLeft(rd: ReadDir, root: u32, rootSize: u32, st: State, stack: seq<u32>)
    requires AllFaithful(rd, st) && OpenOrLeft(st, stack) && |stack| > 0
    requires Readable(rd, st.sizes, Last(stack))
    requires Progress(rd, st, stack, |Records(rd, st.sizes, Last(stack))|)
    ensures ChildrenLeft(rd, st.Leaving(Last(stack)), |st.left|)
  {
    var d := Last(stack);
    var recs := Records(rd, st.sizes, d);
    var st' := st.Leaving(d);
    assert st'.left[..|st.left|] == st.left;
    forall i | 0 <= i < |recs| && recs[i].IsDir()
      ensures recs[i].lba in st.left || SomeBackEdge(st.out)
    {
      assert Dealt(rd, st, d, i);
      if recs[i].lba !in st.left {
        var k :| 0 <= k < |st.out| && st.out[k].chain == stack && st.out[k].index == i;
        assert Faithful(rd, st.sizes, st.out[k]);
        assert BackEdge(st.out[k]);
      }
    }
  }

  // ---- the whole walk -----------------------------------------------------------------

  /** Walking a directory keeps every fact, and only adds to what was listed before. */
  lemma {:induction false} DirectoryKeeps(rd: ReadDir, root: u32, rootSize: u32,
      lba: u32, size: u32, trail: seq<Name>, stack: seq<u32>, st: State)
    requires |trail| <= MAX_WALK_DEPTH + 1 && |stack| == |trail|
    requires Inv(rd, root, rootSize, st, stack)
    requires Entered(root, rootSize, st.out, |st.out|, trail, stack, lba, size)
    ensures var o := WalkDir(rd, lba, size, trail, stack, st);
      o.err == None || o.err == Some(UnexpectedEof) ==>
        && Inv(rd, root, rootSize, o.st, stack) && Grown(st, o.st)
        && lba in o.st.sizes && (lba !in st.sizes ==> o.st.sizes[lba] == size)
    decreases MAX_WALK_DEPTH + 1 - |trail|, 1, 0
  {
    hide Inv, Entered, Progress;
    if lba !in st.sizes && |trail| <= MAX_WALK_DEPTH {
      var met := st.Meeting(lba, size).Fetching(lba);
      MeetingKeeps(rd, root, rootSize, st, trail, stack, lba, size);
      var open := stack + [lba];
      assert Front(open) == stack && Last(open) == lba;
      if rd(lba, size).Err? {
        LeavingKeeps(rd, root, rootSize, met, open);
      } else {
        var o := WalkRecords(rd, rd(lba, size).value, 0, trail, open, met);
        RecordsKeep(rd, root, rootSize, 0, trail, open, met);
        if o.err.None? {
          LeavingKeeps(rd, root, rootSize, o.st, open);
          assert Grown(st, o.st.Leaving(lba));
        }
      }
    }
  }

  lemma {:induction false} RecordsKeep(rd: ReadDir, root: u32, rootSize: u32,
      i: nat, trail: seq<Name>, stack: seq<u32>, st: State)
    requires |trail| <= MAX_WALK_DEPTH && |stack| == |trail| + 1
    requires Inv(rd, root, rootSize, st, stack)
    requires Readable(rd, st.sizes, Last(stack)) && i <= |Records(rd, st.sizes, Last(stack))|
    requires Progress(rd, st, stack, i)
    requires Entered(root, rootSize, st.out, |st.out|, trail, Front(stack), Last(stack), st.sizes[Last(stack)])
    ensures var recs := Records(rd, st.sizes, Last(stack));
      var o := WalkRecords(rd, recs, i, trail, stack, st);
      && o.err != Some(UnexpectedEof)
      && (o.err.None? ==>
            && Inv(rd, root, rootSize, o.st, stack)
            && (forall d :: d in st.sizes ==> d in o.st.sizes && o.st.sizes[d] == st.sizes[d])
            && st.out <= o.st.out && st.left <= o.st.left
            && (forall k :: |st.out| <= k < |o.st.out| ==>
                  Home(o.st.out[k]) !in st.sizes || Home(o.st.out[k]) == Last(stack))
            && Progress(rd, o.st, stack, |recs|))
    decreases MAX_WALK_DEPTH + 1 - |trail|, 0, |Records(rd, st.sizes, Last(stack))| - i
  {
    hide Inv, Entered, Progress, NameOf;
    var recs := Records(rd, st.sizes, Last(stack));
    if i < |recs| {
      var rec := recs[i];
      var v := VisitOf(rec, trail, stack, i);
      var listed := st.Listing(v);
      ListingKeeps(rd, root, rootSize, st, trail, stack, i);
      var o := if rec.IsDir() then WalkDir(rd, rec.lba, rec.size, v.trail, stack, listed) else Outcome(listed, None);
      if rec.IsDir() {
        assert listed.out[|st.out|] == v;
        OpensHere(root, rootSize, listed.out, |st.out|, v.trail, stack, rec.lba, rec.size);
        DirectoryKeeps(rd, root, rootSize, rec.lba, rec.size, v.trail, stack, listed);
      }
      if o.err.None? || o.err.value == UnexpectedEof {
        ProgressGrows(rd, st, o.st, stack, i, v);
        EnteredStays(root, rootSize, st.out, o.st.out, |st.out|, |o.st.out|,
          trail, Front(stack), Last(stack), st.sizes[Last(stack)]);
        RecordsKeep(rd, root, rootSize, i + 1, trail, stack, o.st);
      }
    }
  }

  lemma OpensHere(root: u32, rootSize: u32, out: seq<Visit>, k: nat,
      trail: seq<Name>, chain: seq<u32>, lba: u32, size: u32)
    requires k < |out| && Opens(out[k], trail, chain, lba, size)
    ensures Entered(root, rootSize, out, |out|, trail, chain, lba, size)
  {
  }
}
