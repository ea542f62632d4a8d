/** The depth-first walk over the directory tree (core/src/lib.rs): its outcome as a function of
    what reading directories gives. */
module Walk {
  import opened Wrappers
  import opened Bytes
  import opened IsoErrors
  import opened Directory
  import opened Names

  const MAX_WALK_DEPTH: nat := 256

  /** What reading the directory at an extent, with a size, gives. */
  type ReadDir = (u32, u32) -> Result<seq<DirRecord>, IsoError>

  datatype WalkEntry = WalkEntry(path: Name, depth: nat, record: DirRecord)

  /** A listed entry with where it came from: the names from the root on, the extents of the
      directories open at the time (the one that holds the record last), and the record's
      place in that directory. */
  datatype Visit = Visit(entry: WalkEntry, trail: seq<Name>, chain: seq<u32>, index: nat)

  /** How far a walk has come: what it listed, with what size it first met each directory
      extent, which extents it read, and which it has left again. */
  datatype State = State(out: seq<Visit>, sizes: map<u32, u32>, fetched: seq<u32>, left: seq<u32>)
  {
    function Listing(v: Visit): State { this.(out := out + [v]) }

    function Meeting(lba: u32, size: u32): State { this.(sizes := sizes[lba := size]) }

    function Fetching(lba: u32): State { this.(fetched := fetched + [lba]) }

    function Leaving(lba: u32): State { this.(left := left + [lba]) }
  }

  datatype Outcome = Outcome(st: State, err: Option<IsoError>)

  function VisitOf(rec: DirRecord, trail: seq<Name>, chain: seq<u32>, index: nat): Visit {
    var name := NameOf(rec);
    Visit(WalkEntry(Join(PathOf(trail), name), |trail|, rec), trail + [name], chain, index)
  }

  /** Walks the directory at `lba`, reached by `trail` through the open directories `chain`. */
  function WalkDir(rd: ReadDir, lba: u32, size: u32, trail: seq<Name>, chain: seq<u32>, st: State): Outcome
    requires |trail| <= MAX_WALK_DEPTH + 1
    decreases MAX_WALK_DEPTH + 1 - |trail|, 1, 0
  {
    if lba in st.sizes then Outcome(st, None)
    else if |trail| > MAX_WALK_DEPTH then Outcome(st.Meeting(lba, size), Some(ResourceLimit))
    else
      var met := st.Meeting(lba, size).Fetching(lba);
      match rd(lba, size)
      case Err(e) => Outcome(met.Leaving(lba), Some(e))
      case Ok(recs) =>
        var o := WalkRecords(rd, recs, 0, trail, chain + [lba], met);
        if o.err.Some? then o else Outcome(o.st.Leaving(lba), None)
  }

  /** Walks the records of an open directory from number i on. */
  function WalkRecords(rd: ReadDir, recs: seq<DirRecord>, i: nat, trail: seq<Name>, chain: seq<u32>, st: State): Outcome
    requires |trail| <= MAX_WALK_DEPTH && i <= |recs|
    decreases MAX_WALK_DEPTH + 1 - |trail|, 0, |recs| - i
  {
    if i == |recs| then Outcome(st, None)
    else
      var rec := recs[i];
      var v := VisitOf(rec, trail, chain, i);
      var o := if rec.IsDir() then WalkDir(rd, rec.lba, rec.size, v.trail, chain, st.Listing(v))
               else Outcome(st.Listing(v), None);
      if o.err.Some? && o.err.value != UnexpectedEof then o
      else WalkRecords(rd, recs, i + 1, trail, chain, o.st)
  }

  const START := State([], map[], [], [])

  function WalkFrom(rd: ReadDir, root: u32, rootSize: u32): Outcome {
    WalkDir(rd, root, rootSize, [], [], START)
  }

  function Entries(visits: seq<Visit>): seq<WalkEntry> {
    seq(|visits|, i requires 0 <= i < |visits| => visits[i].entry)
  }
}
