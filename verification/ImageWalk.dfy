/** The walk over an image (core/src/lib.rs), as the reader does it. */
module ImageWalk {
  import opened Wrappers
  import opened Bytes
  import opened Streams
  import opened IsoErrors
  import RockRidge
  import opened Directory
  import opened FileContent
  import opened Names
  import opened ReadDirectory
  import opened Walk

  /** What reading directories of an image gives.  Where a scan would not end, an error stands for
      the result the source does not give. */
  ghost function ImageRd(view: seq<u8>, mode: SectorMode, skip: nat): ReadDir {
    (lba: u32, size: u32) =>
      if Scannable(view, mode, lba, size) then Listing(view, mode, skip, lba, size) else Err(BadDirRecord)
  }

  /** The scan of every directory read so far ends. */
  ghost predicate Scans(view: seq<u8>, mode: SectorMode, st: State) {
    forall d :: d in st.fetched && d in st.sizes ==> Scannable(view, mode, d, st.sizes[d])
  }

  /** A walk forgets neither what it read nor with what size. */
  ghost predicate Remembers(st: State, st': State) {
    && st.fetched <= st'.fetched
    && forall d :: d in st.sizes ==> d in st'.sizes && st'.sizes[d] == st.sizes[d]
  }

  lemma {:induction false} DirectoryRemembers(rd: ReadDir, lba: u32, size: u32, trail: seq<Name>, chain: seq<u32>,
      st: State)
    requires |trail| <= MAX_WALK_DEPTH + 1
    ensures Remembers(st, WalkDir(rd, lba, size, trail, chain, st).st)
    decreases MAX_WALK_DEPTH + 1 - |trail|, 1, 0
  {
    if lba !in st.sizes && |trail| <= MAX_WALK_DEPTH && rd(lba, size).Ok? {
      RecordsRemember(rd, rd(lba, size).value, 0, trail, chain + [lba], st.Meeting(lba, size).Fetching(lba));
    }
  }

  lemma {:induction false} RecordsRemember(rd: ReadDir, recs: seq<DirRecord>, i: nat, trail: seq<Name>, chain: seq<u32>,
      st: State)
    requires |trail| <= MAX_WALK_DEPTH && i <= |recs|
    ensures Remembers(st, WalkRecords(rd, recs, i, trail, chain, st).st)
    decreases MAX_WALK_DEPTH + 1 - |trail|, 0, |recs| - i
  {
    hide NameOf;
    if i < |recs| {
      var rec := recs[i];
      var v := VisitOf(rec, trail, chain, i);
      var o := if rec.IsDir() then WalkDir(rd, rec.lba, rec.size, v.trail, chain, st.Listing(v))
               else Outcome(st.Listing(v), None);
      if rec.IsDir() {
        DirectoryRemembers(rd, rec.lba, rec.size, v.trail, chain, st.Listing(v));
      }
      RecordsRemember(rd, recs, i + 1, trail, chain, o.st);
    }
  }

  lemma ScannedBefore(view: seq<u8>, mode: SectorMode, st: State, st': State)
    requires Remembers(st, st') && Scans(view, mode, st')
    ensures Scans(view, mode, st)
  {
    forall d | d in st.fetched && d in st.sizes
      ensures Scannable(view, mode, d, st.sizes[d])
    {
      assert d in st'.fetched;
    }
  }

  /** A directory about to be read is scanned to its end, and so are those read inside it. */
  lemma InnerScans(view: seq<u8>, mode: SectorMode, skip: nat, lba: u32, size: u32, trail: seq<Name>, chain: seq<u32>,
      st: State)
    requires |trail| <= MAX_WALK_DEPTH && lba !in st.sizes
    requires Scans(view, mode, WalkDir(ImageRd(view, mode, skip), lba, size, trail, chain, st).st)
    ensures Scannable(view, mode, lba, size)
    ensures Listing(view, mode, skip, lba, size).Ok? ==>
      Scans(view, mode, WalkRecords(ImageRd(view, mode, skip), Listing(view, mode, skip, lba, size).value, 0,
                                    trail, chain + [lba], st.Meeting(lba, size).Fetching(lba)).st)
  {
    hide Listing, Scannable;
    var rd := ImageRd(view, mode, skip);
    var met := st.Meeting(lba, size).Fetching(lba);
    if rd(lba, size).Ok? {
      RecordsRemember(rd, rd(lba, size).value, 0, trail, chain + [lba], met);
    }
    assert lba in met.fetched;
  }

  /** So are those read inside the directory of record i, when those read from there on are. */
  lemma ChildScans(view: seq<u8>, mode: SectorMode, rd: ReadDir, recs: seq<DirRecord>, i: nat, trail: seq<Name>,
      chain: seq<u32>, st: State)
    requires |trail| <= MAX_WALK_DEPTH && i < |recs| && recs[i].IsDir()
    requires Scans(view, mode, WalkRecords(rd, recs, i, trail, chain, st).st)
    ensures var v := VisitOf(recs[i], trail, chain, i);
      Scans(view, mode, WalkDir(rd, recs[i].lba, recs[i].size, v.trail, chain, st.Listing(v)).st)
  {
    hide Scans, NameOf;
    var v := VisitOf(recs[i], trail, chain, i);
    var o := WalkDir(rd, recs[i].lba, recs[i].size, v.trail, chain, st.Listing(v));
    if o.err.None? || o.err.value == IsoError.UnexpectedEof {
      RecordsRemember(rd, recs, i + 1, trail, chain, o.st);
      ScannedBefore(view, mode, o.st, WalkRecords(rd, recs, i + 1, trail, chain, o.st).st);
    }
  }

  /** The walk, with the entry list and the set of visited extents it builds up. */
  class Walker {
    const reader: IsoReader
    const skip: nat
    var out: seq<WalkEntry>
    var visited: set<u32>

    ghost function Rd(): ReadDir {
      ImageRd(reader.inner.View(), reader.mode, skip)
    }

    ghost predicate Shows(st: State)
      reads this
    {
      out == Entries(st.out) && visited == st.sizes.Keys
    }

    constructor (reader: IsoReader, skip: nat)
      ensures this.reader == reader && this.skip == skip && Shows(START)
    {
      this.reader, this.skip := reader, skip;
      out, visited := [], {};
    }

    /** The name a record is listed under. */
    method EntryName(rec: DirRecord) returns (name: Name)
      requires RockRidge.AlternateName(rec.systemUse).Returned?
      ensures name == NameOf(rec)
    {
      var rr := RockRidge.FindAlternateName(rec.systemUse);
      return if rr.value.Some? then rr.value.value else IsoName(rec.nameBytes);
    }

    method WalkDirectory(lba: u32, size: u32, prefix: Name, depth: nat,
        ghost trail: seq<Name>, ghost chain: seq<u32>, ghost st: State)
      returns (r: Result<(), IsoError>)
      requires depth == |trail| <= MAX_WALK_DEPTH + 1 && prefix == PathOf(trail)
      requires reader.inner.Valid() && Shows(st)
      requires Scans(reader.inner.View(), reader.mode, WalkDir(Rd(), lba, size, trail, chain, st).st)
      modifies this, reader.inner
      ensures reader.inner.Valid()
      ensures Shows(WalkDir(Rd(), lba, size, trail, chain, st).st)
      ensures WalkDir(Rd(), lba, size, trail, chain, st).err == if r.Ok? then None else Some(r.error)
      decreases MAX_WALK_DEPTH + 1 - depth
    {
      hide NameOf, Listing, Scannable, Scans, RockRidge.AlternateName;
      if lba in visited {
        return Ok(());
      }
      visited := visited + {lba};
      if depth > MAX_WALK_DEPTH {
        return Err(ResourceLimit);
      }
      ghost var now := st.Meeting(lba, size).Fetching(lba);
      InnerScans(reader.inner.View(), reader.mode, skip, lba, size, trail, chain, st);
      var read := ReadDirectory.ReadDir(reader, skip, lba, size);
      if read.Err? {
        return Err(read.error);
      }
      var recs := read.value;
      ghost var open := chain + [lba];
      ghost var whole := WalkRecords(Rd(), recs, 0, trail, open, now);
      for i := 0 to |recs|
        invariant reader.inner.Valid() && Shows(now)
        invariant WalkRecords(Rd(), recs, i, trail, open, now) == whole
      {
        var rec := recs[i];
        ListedNamesReturn(reader.inner.View(), reader.mode, skip, lba, size, rec);
        var name := EntryName(rec);
        var path := Join(prefix, name);
        ghost var v := VisitOf(rec, trail, open, i);
        out := out + [WalkEntry(path, depth, rec)];
        ghost var listed := now;
        ghost var before := now.Listing(v);
        now := before;
        if rec.IsDir() {
          assert v.trail[..|v.trail| - 1] == trail;
          ChildScans(reader.inner.View(), reader.mode, Rd(), recs, i, trail, open, listed);
          now := WalkDir(Rd(), rec.lba, rec.size, v.trail, open, before).st;
          var inner := WalkDirectory(rec.lba, rec.size, path, depth + 1, v.trail, open, before);
          if inner.Err? && inner.error != IsoError.UnexpectedEof {
            return inner;
          }
        }
      }
      return Ok(());
    }

    /** Every file and directory of the tree, in depth-first pre-order. */
    method WalkTree(root: u32, rootSize: u32) returns (r: Result<seq<WalkEntry>, IsoError>)
      requires reader.inner.Valid() && Shows(START)
      requires Scans(reader.inner.View(), reader.mode, WalkFrom(Rd(), root, rootSize).st)
      modifies this, reader.inner
      ensures var o := WalkFrom(Rd(), root, rootSize);
        r == if o.err.None? then Ok(Entries(o.st.out)) else Err(o.err.value)
    {
      var walked := WalkDirectory(root, rootSize, [], 0, [], [], START);
      return if walked.Err? then Err(walked.error) else Ok(out);
    }
  }
}
