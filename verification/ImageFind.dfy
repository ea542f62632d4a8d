/** Looking up a path in an image (core/src/lib.rs), as the reader does it. */
module ImageFind {
  import opened Wrappers
  import opened Bytes
  import opened Streams
  import opened IsoErrors
  import opened Directory
  import opened FileContent
  import opened Names
  import opened ReadDirectory
  import opened Walk
  import opened ImageWalk
  import opened Find

  /** The scan of every directory the lookup reads ends. */
  ghost predicate FindScans(view: seq<u8>, mode: SectorMode, skip: nat, lba: u32, size: u32, parts: seq<Name>, i: nat)
    requires i <= |parts|
    decreases |parts| - i
  {
    i < |parts| && parts[i] != DOT_DOT ==>
      && Scannable(view, mode, lba, size)
      && (Listing(view, mode, skip, lba, size).Ok? ==>
            var found := FirstKnownAs(Listing(view, mode, skip, lba, size).value, Upper(parts[i]));
            found.Some? && found.value.IsDir() ==>
              FindScans(view, mode, skip, found.value.lba, found.value.size, parts, i + 1))
  }

  /** Finds a file or directory by path. */
  method FindEntry(reader: IsoReader, skip: nat, root: u32, rootSize: u32, path: Name)
    returns (r: Result<DirRecord, IsoError>)
    requires reader.inner.Valid()
    requires FindScans(reader.inner.View(), reader.mode, skip, root, rootSize, Components(path), 0)
    modifies reader.inner
    ensures r == FindFrom(ImageRd(reader.inner.View(), reader.mode, skip), root, rootSize, Components(path), 0)
  {
    hide Components, KnownAs, FirstKnownAs, Listing, Scannable;
    var parts := Components(path);
    var lba, size := root, rootSize;
    ghost var view := reader.inner.View();
    ghost var rd := ImageRd(view, reader.mode, skip);
    for i := 0 to |parts|
      invariant reader.inner.Valid()
      invariant FindScans(view, reader.mode, skip, lba, size, parts, i)
      invariant FindFrom(rd, root, rootSize, parts, 0) == FindFrom(rd, lba, size, parts, i)
    {
      if parts[i] == DOT_DOT {
        return Err(PathTraversal);
      }
      var entries := ReadDirectory.ReadDir(reader, skip, lba, size);
      if entries.Err? {
        return Err(entries.error);
      }
      var found := Position(entries.value, Upper(parts[i]));
      if found.None? {
        return Err(NotFound);
      }
      if i == |parts| - 1 {
        return Ok(found.value);
      }
      if !found.value.IsDir() {
        return Err(NotFound);
      }
      lba, size := found.value.lba, found.value.size;
    }
    return Err(NotFound);
  }
}
