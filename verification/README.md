# Verified model of the ISO 9660 reader

This project models the parts of the ISO 9660 reader and analyser that carry its hardest
guarantees, and proves those guarantees for all inputs. `dafny verify dfyconfig.toml` verifies
it.

The model keeps the form of the program: loops over buffers are methods with loops, objects
whose methods change their fields are classes, and each of them is proved against a function
or a predicate whose own properties are lemmas. Bytes are `bv8` where the code does bit
arithmetic (EDC, ECC, CRC, Q subchannel) and bounded integers where it reads numbers. An
image is a sequence of bytes; a read past its end is the end-of-file error.

| file | what it models |
|---|---|
| `Galois.dfy`, `Ecc.dfy` | the P/Q product code of a Mode-1 sector over GF(2^8) mod 0x11D (section 14 and Annex A of ECMA-130) |
| `Edc.dfy`, `EdcPolynomial.dfy`, `Crc16.dfy`, `CrcPolynomial.dfy`, `Subchannel.dfy` | the sector EDC and CRC-16/CCITT, as registers and as polynomial remainders, and the interleaved Q subchannel (section 22 of ECMA-130) |
| `Streams.dfy`, `Images.dfy`, `FileContent.dfy`, `FileReader.dfy`, `ReaderRuns.dfy` | windows over a container, images by their stored sectors, sector reads, and the three ways to read a file |
| `Directory.dfy`, `MultiExtent.dfy`, `ReadDirectory.dfy` | reading one directory: packed records (section 9.1 of ECMA-119), multi-extent chains, System Use entries |
| `RockRidge.dfy`, `SystemUse.dfy`, `NameCap.dfy`, `SymlinkEncoding.dfy`, `Tiling.dfy` | NM, SL and CE entries (IEEE P1282): names and their cap, links, continuation areas, in any field |
| `Names.dfy`, `Walk.dfy`, `WalkInvariant.dfy`, `WalkTheorems.dfy`, `WalkOrder.dfy`, `WalkFinishes.dfy`, `ImageWalk.dfy` | the depth-first walk, what its steps keep, what a finished walk has done and in which order, when it finishes and why it fails, and the walk over an image |
| `Cycles.dfy`, `CycleReport.dfy`, `CycleGap.dfy`, `Find.dfy`, `Lookup.dfy`, `ImageFind.dfy`, `Overlap.dfy` | the cycle check and what its report holds, path lookup and when it fails, and the overlap sweep built on the walk |
| `Calendar.dfy`, `CdText.dfy`, `CdTextPacks.dfy`, `Cdi.dfy` | civil dates, CD-Text packs (MMC-3 Annex J), the DiscJuggler descriptor |
| `Bytes.dfy`, `Utf8.dfy`, `Selections.dfy`, `Wrappers.dfy`, `IsoErrors.dfy` | bytes as numbers, UTF-8 strings, lists picked from lists, `Option`/`Result`, error cases |

How the pieces meet: `ReadDirectory.ReadDir` reads a directory and is proved equal to one
function of the image, the extent and the size, and `ImageWalk.ImageRd` is that function for an
image. `ImageWalk.Walker` walks the image and `ImageFind.FindEntry` looks up a path in it; both
are proved equal to their functions over `ImageRd`. The
theorems about the walk, the cycle check and the lookup are stated for every such function `rd`,
so for every image. `sz` gives the size each directory extent is referenced with; `Holdings`,
`Edge`, `Reachable` and `HasCycle` are the directory graph it defines, in which a directory that
cannot be read is a leaf.

Properties that turned out not to hold of the code as it stands:

- A directory scan does not end on every buffer. A zero byte at a sector start leaves the
  offset where it is (core/src/dir.rs:149-151), against the comment at core/src/dir.rs:159.
  `Directory.ScanEndsIff` says exactly when it ends; `Directory.ZeroStartNeverEnds` is a family
  of buffers on which it does not.
- Decoding a Rock Ridge name can panic: the 4096-byte cap slices a string
  (core/src/rock_ridge.rs:388-389) and may fall inside a character. `NameCap.PanicsIff` says
  exactly when, `NameCap.PanicWitness` gives fields that panic, and
  `ReadDirectory.ListedNamesReturn` shows that no record read from an image is one of them.
- `IsoFileReader::seek` from the start casts the offset to a signed number, so an offset of
  2^63 or more lands at 0 and not at the end (`FileReader.SeekFromStartExact` is an
  equivalence).
- The cycle check maps paths to extents, and of directories with one path the last one listed
  wins. `Cycles.FlagsExactly` says exactly which entries are flagged whatever the names of
  directories are, as long as a path can carry them. Where they are distinct the check is exact
  (`Cycles.CheckIsExact`); where they are not it can miss a cycle
  (`CycleGap.SameNamesHideCycle`) and report one that is not there
  (`CycleGap.SameNamesRaiseAlarm`). Names of files play no part.
- `utc_key` and `civil_to_unix` agree up to the zone exactly for stored dates whose month and
  day are not zero (`Calendar.KeyIsUtc`).
- The documentation of the recording-time parser promises no value for a date out of range
  (core/src/dir.rs:126); the code checks only for all zeros. `Directory.RecordingTimeUnchecked`
  is the exact condition and `Directory.OutOfRangeAccepted` an input.
- A System Use field with a continuation is read on exactly when entries tile the part in the
  record (`Tiling.ContinuesIffTiled`, `Tiling.VisitsEndIff`). With a pad byte in between, the
  scan takes a signature letter for a length and goes on at the wrong place, or stops
  (`Tiling.PadShiftsScan`), and a name is lost (`Tiling.PadLosesName`).

## Model

| member | source | states |
|---|---|---|
| Galois.ParityChecks | core/src/sector.rs:182-200 | the two parity bytes satisfy both check equations of Annex A of ECMA-130 exactly when they are what the block algorithm's sums give |
| Galois.ParityUnique | core/src/sector.rs:182-200 | at most one pair of parity bytes completes a vector |
| Galois.RootOfGenerator | core/src/sector.rs:152-163 | the multiplier is a root of x^8 + x^4 + x^3 + x^2 + 1, and its powers below the eighth only move the bit up |
| Galois.NoFixedPoint | core/src/sector.rs:152-168 | no power of the generator below 45 fixes a non-zero field element |
| Galois.MinimumDistance | core/src/sector.rs:171-202 | two checking vectors of up to 45 bytes that agree outside two places are equal |
| Ecc.EccLuts | core/src/sector.rs:155-168 | table f multiplies by the generator and table b inverts x -> x + f(x), at all 256 indices |
| Ecc.Accumulate | core/src/sector.rs:183-195 | the wrapping index walk sums exactly the bytes of the vector, weighted and plain |
| Ecc.FinalByte | core/src/sector.rs:196 | the table lookup solves p + f(p) = f(a) + b |
| Ecc.EccBlock | core/src/sector.rs:171-202 | with the bytes returned every vector of the block satisfies both check equations |
| Ecc.Mode1EccValid | core/src/sector.rs:215-226 | accepts exactly the sectors of at least 2352 bytes whose every P and Q vector checks |
| Ecc.CdEccStamp | core/src/sector.rs:205-211 | makes the sector valid, changes only bytes 2076..2351, and changes nothing in a valid sector |
| Ecc.StoredParity | core/src/sector.rs:220-225 | the stored parity equals the computed one exactly when every vector of the block checks |
| Ecc.ParityDetermined | core/src/sector.rs:205-211 | bytes 12..2075 of a valid sector determine its 276 parity bytes |
| Ecc.POffset | core/src/sector.rs:183-191 | byte k of P vector m stands at offset 12+m+86k, so the P walk is a column |
| Ecc.QOffset | core/src/sector.rs:183-191 | byte k of Q vector m stands in word (44k + 43(m/2)) mod 1118, low byte for even m and high byte for odd m, as Annex A of ECMA-130 has it |
| Ecc.QVisitsOnce | core/src/sector.rs:183-191 | the Q walk visits each of the 2236 covered bytes for exactly one vector and place |
| Ecc.VectorDistance | core/src/sector.rs:215-226 | corresponding vectors of two valid sectors that agree outside two places are equal |
| Ecc.SmallChangeRejected | core/src/sector.rs:215-226 | a valid sector with one or two bytes changed among offsets 12..2351 is not valid |
| Edc.EdcTable | core/src/sector.rs:130-143 | entry x is the remainder of byte x after eight serial steps |
| Edc.CdEdc | core/src/sector.rs:127-149 | the table-driven EDC equals the bit-serial reflected CRC for every input |
| Edc.ResidueZero | core/src/sector.rs:121-126 | data followed by four bytes has EDC zero exactly when they are its EDC, little-endian |
| Edc.BurstDetected | core/src/sector.rs:127-149 | distinct inputs of one length that differ inside four consecutive bytes have different EDCs |
| EdcPolynomial.GeneratorIsProduct | core/src/sector.rs:130-143 | modulo the generator the product (x^16 + x^15 + x^2 + 1)(x^16 + x^2 + x + 1) of section 14 of ECMA-130 is zero |
| EdcPolynomial.Powers | core/src/sector.rs:130-143 | x^32 is the generator without its leading term, and lower powers are single coefficients |
| EdcPolynomial.EdcIsRemainder | core/src/sector.rs:127-149 | the EDC of any data is the remainder of its bits, each byte least significant first, times x^32 |
| Crc16.Crc16Ccitt | core/src/cdtext.rs:72-81 | the bitwise loop computes the serial CRC with polynomial 0x1021 and initial value 0 |
| Crc16.BurstDetected | core/src/cdtext.rs:72-81 | distinct inputs of one length that differ inside two consecutive bytes have different CRCs |
| CrcPolynomial.GeneratorTerms | core/src/cdtext.rs:72-81 | powers of x below 16 are single coefficients and x^16 is x^12 + x^5 + 1 |
| CrcPolynomial.CrcIsRemainder | core/src/cdtext.rs:72-81 | the CRC of any data is the remainder of its bits, each byte most significant first, times x^16 |
| Subchannel.ExtractQ | core/src/subq.rs:81-93 | fails exactly below 96 bytes; otherwise bit 6 of the bytes spells out the frame returned |
| Subchannel.MaskTable | core/src/subq.rs:85-91 | bit i of a byte is counted from the most significant |
| Subchannel.CarriedFrameUnique | core/src/subq.rs:81-93 | a block carries one frame only |
| Subchannel.InterleavedFrameExtracted | core/src/subq.rs:81-93 | the frame put in bit 6 comes back, whatever the other seven bits and later bytes hold |
| Subchannel.QCrcValid | core/src/subq.rs:156-163 | accepts exactly the frames whose CRC over all 12 bytes is the residue 0x1D0F |
| Subchannel.AlteredFrameRejected | core/src/subq.rs:156-163 | changing one byte or two adjacent ones of an accepted frame makes it rejected |
| Streams.SectorsApart | core/src/sector.rs:71-96 | user data lies inside its physical sector and sectors do not overlap, in all six modes |
| Images.SectorReadsBack | core/src/sector.rs:71-109 | in an image of stored sectors, by sync, header, subheader, data, check bytes and subcode of each mode, a logical sector is present exactly when the image has it, and reads as its data |
| Images.ExtentIsUserData | core/src/lib.rs:459-475 | an extent inside such an image is present and is the run of logical data it names |
| Images.FileIsUserData | core/src/lib.rs:447-457 | a file's content grows by the run of logical data each further extent names |
| Streams.OffsetReader.constructor | core/src/offset.rs:28-31 | a window starts at its position 0, with the inner stream at its base |
| Streams.OffsetReader.Read | core/src/offset.rs:46-56 | delivers the next bytes of the container that lie inside the window, and moves on by as many |
| Streams.OffsetReader.Seek | core/src/offset.rs:59-75 | moves to the start offset below 2^63, or to the sum with position or length, or refuses a negative target and stays |
| Streams.OffsetReader.ReadExact | core/src/sector.rs:107-108 | fills the buffer exactly when the window still has that many bytes |
| Streams.OffsetReader.ReadSectorData | core/src/sector.rs:100-109 | gives the 2048 user bytes of a logical sector, exactly when the image holds them |
| FileContent.IsoReader.ReadSectorRaw | core/src/lib.rs:131-135 | the sector's user data, or end of file |
| FileContent.IsoReader.AppendExtent | core/src/lib.rs:459-475 | appends exactly the bytes of the extent, and succeeds exactly when the image holds all its sectors |
| FileContent.IsoReader.ReadFileEntry | core/src/lib.rs:447-457 | refuses directories; otherwise the concatenation of all extents, exactly when all are present |
| FileContent.IsoReader.ReadExtents | core/src/vfs.rs:237-275 | for every offset and length the corresponding slice of the file's bytes, the rest of the buffer untouched, and an error exactly when the image lacks a sector of the requested range |
| FileContent.HeldFurther | core/src/vfs.rs:252-267 | a piece of the sector under the cursor continues the file's bytes |
| FileReader.IsoFileReader.constructor | core/src/file_reader.rs:32-56 | a new reader stands at position 0 of primary and extra extents, with nothing cached |
| FileReader.IsoFileReader.EnsureBuf | core/src/file_reader.rs:64-90 | afterwards the cached sector is the one under the cursor, exactly when the image holds it |
| FileReader.IsoFileReader.CopyBuffered | core/src/file_reader.rs:147-157 | copies a non-empty run of the file's next bytes out of the cache |
| FileReader.IsoFileReader.Read | core/src/file_reader.rs:130-160 | exactly the next min(requested, remaining) bytes of the file, across extents and empty extents; an error only at a missing sector |
| FileReader.IsoFileReader.Seek | core/src/file_reader.rs:94-126 | the cursor lands on the clamped position, whatever the extents |
| FileReader.SeekFromStartExact | core/src/file_reader.rs:99-104 | a seek from the start lands on min(offset, size) exactly when the offset is below 2^63 or the file is empty, and otherwise at 0 |
| FileReader.LandsNearest | core/src/file_reader.rs:94-104 | every other seek lands on the position in the file strictly nearest to the one asked for |
| ReaderRuns.Run | core/src/file_reader.rs:93-161 | any sequence of reads and seeks shows what a plain cursor over the file's bytes shows |
| ReaderRuns.Drain | core/src/file_reader.rs:129-161 | reading to the end in pieces of any size gives the rest of the file |
| ReaderRuns.ReadersAgree | core/src/vfs.rs:237-275 | whole-file read, range read and drained stream agree, on the image or through a window over a container |
| ReaderRuns.WindowShows | core/src/offset.rs:28-56 | a window over a container shows exactly the bytes it was put over |
| Directory.ParseDirRecords | core/src/dir.rs:144-168 | the loop returns the records of the buffer without the dot entries, or the first error |
| Directory.ScanOutcome | core/src/dir.rs:144-168 | step by step: records without the dot entries, zero bytes skipped to the next sector; it fails exactly at the first record that is cut off or too short for its name |
| Directory.RecordStored | core/src/dir.rs:42-86 | the fields of any whole record are the bytes at their places, System Use from the even place after the name on, if there is one |
| Directory.FlagBits | core/src/dir.rs:90-100 | bit 1 of the flags marks a directory and bit 7 a record that is continued |
| Directory.ScanEndsIff | core/src/dir.rs:144-168 | the scan ends exactly when it never comes to a zero byte at a sector start |
| Directory.ZeroStartNeverEnds | core/src/dir.rs:149-151 | a buffer that begins with a zero byte is scanned for ever |
| Directory.RecordingTimeUnchecked | core/src/dir.rs:124-140 | the parser gives only times in range exactly when the field is unset or in range |
| Directory.OutOfRangeAccepted | core/src/dir.rs:124-140 | day 40 of month 13 at 25:61:61 is given as a value |
| Directory.TimeParsed | core/src/dir.rs:124-140 | every stored year from 1900 to 2155, month, day, hour, minute, second and signed zone comes back in its own field; six zero bytes are no time |
| Directory.ParseEncoded | core/src/dir.rs:42-86 | an encoded record parses back field by field, with its length; its time as `TimeParsed` says |
| Directory.PackedRoundTrip | core/src/dir.rs:144-168 | records packed into sectors parse to exactly the non-dot records in order, and the scan ends |
| MultiExtent.MergeExtents | core/src/lib.rs:398-419 | the peeking loops compute the merged list |
| MultiExtent.TakeContinuations | core/src/lib.rs:404-417 | the inner loop takes exactly the records of the chain |
| MultiExtent.MergesChains | core/src/lib.rs:398-419 | each merged record is one chain: a flagged record, following records of its name up to and with the first unflagged one, their extents in order and the flag cleared |
| MultiExtent.MergeConservesExtents | core/src/lib.rs:398-419 | the extents of the merged records, concatenated, are those of the records read, in order |
| MultiExtent.MergeLeavesNoChain | core/src/lib.rs:398-419 | a record still flagged is never followed by one of the same name |
| MultiExtent.MergeTwice | core/src/lib.rs:398-419 | merging again changes nothing |
| RockRidge.AlternateName | core/src/rock_ridge.rs:371-403 | for all bytes the decoding gives a name of 1 to 4096 bytes, no name, or panics |
| RockRidge.FindAlternateName | core/src/rock_ridge.rs:371-403 | the scan over NM entries computes the name, and panics where the cap cuts inside a character |
| NameCap.CutIsString | core/src/rock_ridge.rs:388-389 | a string can be cut exactly at its end and before a byte that continues no character |
| Utf8.Utf8Iff | core/src/rock_ridge.rs:383-389 | a byte string is a string exactly when it encodes some Unicode scalar values |
| NameCap.NameIsString | core/src/rock_ridge.rs:371-403 | a name returned is well-formed UTF-8, for all bytes |
| NameCap.PanicsIff | core/src/rock_ridge.rs:371-403 | the decoding panics exactly when the scan comes to an NM entry in whose text the cap falls inside a character |
| NameCap.PanicWitness | core/src/rock_ridge.rs:388-389 | 4095 ASCII bytes over 17 NM entries and then C3 A9 panic |
| NameCap.ShortNeverPanics | core/src/rock_ridge.rs:371-403 | no field of up to 4096 bytes panics |
| RockRidge.NameRoundTrip | core/src/rock_ridge.rs:371-403 | any split of an ASCII name over NM entries, among any other entries, decodes to the name |
| RockRidge.NmEntriesSpell | core/src/rock_ridge.rs:371-403 | splitting a name into NM entries of up to 250 bytes is such a split |
| RockRidge.FindSymlinkTarget | core/src/rock_ridge.rs:93-154 | the scan over SL entries computes the target |
| RockRidge.ReadComponents | core/src/rock_ridge.rs:115-145 | the inner loop runs over the component records of one entry |
| RockRidge.SymlinkRoundTrip | core/src/rock_ridge.rs:93-154 | any encoding of a path in root, current, parent and name records, continued or not, over any SL entries decodes to the path |
| RockRidge.SomePath | core/src/rock_ridge.rs:115-145 | every list of component records, whatever its flags and bytes, encodes some path |
| RockRidge.ComponentFlags | core/src/rock_ridge.rs:94-97 | continue, current, parent and root are the four low bits of a component's flags |
| SymlinkEncoding.EveryPathReadsBack | core/src/rock_ridge.rs:93-154 | every path of root, current and parent, with or without text joined to them, and ASCII names, of any length, has SL entries that read back as it |
| RockRidge.Continuation | core/src/rock_ridge.rs:344-364 | finds the first CE entry's area |
| SystemUse.FieldIsEntries | core/src/rock_ridge.rs:374-379 | every field is entries and then bytes at which no entry begins |
| SystemUse.NameIsPieces | core/src/rock_ridge.rs:371-403 | in any field a name returned is the first 4096 bytes of the texts of its NM entries up to the first that does not go on, and there is none when they are empty |
| SystemUse.LinkIsRecords | core/src/rock_ridge.rs:93-154 | in any field a link is the path its SL records encode, cut records left out; without SL entry there is none |
| SystemUse.SomeLink | core/src/rock_ridge.rs:93-154 | every field has such records and such a path |
| SystemUse.AreaIsFirst | core/src/rock_ridge.rs:344-364 | in any field the area is the one the first CE entry of 28 bytes or more names, little-endian at bytes 4, 12 and 20; without one there is none |
| RockRidge.FollowingAppends | core/src/lib.rs:385-396 | following a continuation only appends, at most 2048 bytes, and fails exactly when the first CE entry names a range in a sector the image lacks |
| RockRidge.ContinuedAreaReadsOn | core/src/lib.rs:385-396 | a tiled field and the entries of its area are read as one list of entries |
| RockRidge.ContinuedRoundTrip | core/src/lib.rs:385-396 | names and links spread over a record and its continuation area decode to the original |
| Tiling.ContinuesIffTiled | core/src/lib.rs:385-396 | a scan reaches the appended area exactly when it reaches the end of the field before it |
| Tiling.VisitsEndIff | core/src/rock_ridge.rs:374-379 | a scan reaches the end of a field exactly when entries tile the field |
| Tiling.PadShiftsScan | core/src/lib.rs:385-396 | what is decoded when one pad byte stands before the area: the area from its 77th byte on, or nothing |
| Tiling.PadLosesName | core/src/lib.rs:385-396 | a short name that is read without the pad byte is lost with it |
| ReadDirectory.ReadExtent | core/src/lib.rs:358-372 | the bytes of the directory's extent, exactly when the image holds them |
| ReadDirectory.SkipPadding | core/src/lib.rs:378-383 | every record loses min(skip, length) leading System Use bytes |
| ReadDirectory.FollowContinuations | core/src/lib.rs:385-396 | every record gets its continuation area, in order, or the first failure is reported |
| ReadDirectory.ReadDir | core/src/lib.rs:352-422 | the listing is one function of the image, the extent and the size, with all error cases |
| ReadDirectory.ListingOutcome | core/src/lib.rs:352-422 | the listing is the records of the extent in order, each with its area, merged by chains; it fails exactly for more than 64 MiB, a missing sector, a bad record, or an area in a missing sector, each with its error |
| ReadDirectory.ListedNamesReturn | core/src/lib.rs:352-422 | no record read has more than 2270 bytes of System Use entries, so decoding its name never panics |
| ReadDirectory.PackedDirectoryIsListed | core/src/lib.rs:352-422 | an image that holds packed records at the extent, with System Use padding and continuation areas, lists those records with all their entries merged, and no extent is lost or added |
| ReadDirectory.WrittenNameIsListed | core/src/lib.rs:555-559 | a record is listed under the name its NM entries spell, in the record or in its area |
| ReadDirectory.ListedName | core/src/lib.rs:555-559 | any record read is listed under the texts of its NM entries, and under its ISO name when they are empty |
| Names.SplitPath | forensic/src/analysis.rs:411 | splitting a path gives back the names it was joined from |
| Names.JoinIsPath | forensic/src/analysis.rs:413-416 | joining names with slashes gives the path the walk builds |
| Names.PathsTellTrails | core/src/lib.rs:555-560 | entries with one path have the same names on the way |
| Names.VersionStripped | core/src/dir.rs:107-115 | the ISO name of any UTF-8 field is what stands before the last semicolon, whatever NUL bytes fill it up |
| Names.UnversionedKept | core/src/dir.rs:107-115 | a name without a semicolon is kept whole |
| Names.NoNameLeft | core/src/dir.rs:107-115 | NUL bytes alone, and bytes that are not UTF-8, give the empty name |
| Names.UpperForgetsCase | core/src/lib.rs:598-605 | comparison in upper case ignores the case of ASCII letters and nothing else |
| ImageWalk.Walker.EntryName | core/src/lib.rs:555-559 | the Rock Ridge name if there is one, otherwise the ISO name |
| ImageWalk.Walker.WalkDirectory | core/src/lib.rs:534-580 | walking an image gives the entry list, visited set and error of the walk function over what the image's directories read as, from any state |
| ImageWalk.Walker.WalkTree | core/src/lib.rs:482-489 | the entries of the whole tree of an image, or the first error other than a child's end of file |
| WalkInvariant.MeetingKeeps | core/src/lib.rs:543-554 | meeting an unvisited directory keeps every fact of the walk |
| WalkInvariant.ListingKeeps | core/src/lib.rs:555-577 | listing a record keeps every fact, and lists it for the first time |
| WalkInvariant.LeavingKeeps | core/src/lib.rs:553-579 | leaving a directory keeps every fact: all its records are dealt with |
| WalkInvariant.DirectoryKeeps | core/src/lib.rs:534-580 | a walk of a directory keeps every fact and only adds entries of directories not met before |
| WalkInvariant.RecordsKeep | core/src/lib.rs:553-579 | likewise for the loop over the records, which never ends with a child's end of file |
| WalkTheorems.FinishedKeeps | core/src/lib.rs:482-489 | a finished walk keeps all its facts, whatever sizes extents are referenced with: none read or listed twice, every read directory complete |
| WalkFinishes.WalkFinishes | core/src/lib.rs:543-553 | where the root reads, other reachable directories read as records or end of file, and there are at most 257 of them, the walk finishes, cycles or not |
| WalkFinishes.FinishedReads | core/src/lib.rs:571-574 | where a walk finishes the root reads, and every reachable directory reads as records or end of file |
| WalkFinishes.FailureIsReal | core/src/lib.rs:543-579 | a walk that fails gives the root's own error, the error other than end of file of the last directory it read, all before it reading well, or the depth limit where a path of 258 distinct directories exists |
| WalkFinishes.RootFails | core/src/lib.rs:553 | an error of the root, end of file included, is the walk's |
| WalkTheorems.MetIffReachable | core/src/lib.rs:534-580 | a finished walk has met exactly the reachable directories |
| WalkTheorems.ReadsEachDirectoryOnce | core/src/lib.rs:534-553 | a finished walk has read exactly the reachable directories, each once |
| WalkTheorems.ListsEachRecordOnce | core/src/lib.rs:553-579 | each record of each reachable readable directory is listed exactly once |
| WalkTheorems.ListsOnlyRecords | core/src/lib.rs:562-574 | nothing else is listed; a directory that cannot be read adds no entry, and no entry is deeper than 256 |
| WalkTheorems.ParentsComeFirst | core/src/lib.rs:555-578 | an entry comes after its directory's entry and carries that entry's path as prefix, one level deeper |
| WalkOrder.ListsInPreOrder | core/src/lib.rs:553-578 | entries of one directory are listed in the order of its records, and between a directory's entry and those inside it stands nothing but what is inside it |
| Cycles.CollectDirLbas | forensic/src/analysis.rs:399-406 | the map from paths to extents of listed directories, root included, later entries winning |
| Cycles.CheckCycles | forensic/src/analysis.rs:393-424 | reports the directories whose extent is that of a proper ancestor path, in order |
| CycleReport.ReportIsExactly | forensic/src/analysis.rs:407-423 | the report picks from the entries, in order and each once, exactly the directories whose extent the path of a proper ancestor stands for |
| CycleReport.ReportIsBackEdges | forensic/src/analysis.rs:393-424 | for a finished walk with distinct plain names it picks exactly the entries of directories that were open when listed |
| Cycles.LbasListed | forensic/src/analysis.rs:399-406 | a path is mapped exactly when a listed directory or the root has it |
| Cycles.BackEdgeIffCycle | core/src/lib.rs:534-580 | a finished walk lists a directory from inside itself exactly when the reachable graph has a closed walk |
| Cycles.MapIsLastNamed | forensic/src/analysis.rs:399-406 | the map gives the extent of the last directory listed with the names of a path |
| Cycles.FlagsExactly | forensic/src/analysis.rs:407-423 | with or without distinct names, an entry is flagged exactly when it is a directory whose extent is that of the last directory listed with the names of a proper ancestor |
| Cycles.TrailsDiffer | core/src/lib.rs:555-560 | where sibling directories have distinct names no two directories listed have the same names from the root on |
| Cycles.FlagsBackEdges | forensic/src/analysis.rs:407-423 | where sibling directories have distinct names an entry is flagged exactly when it is a directory that was open when listed |
| Cycles.CheckIsExact | forensic/src/analysis.rs:393-424 | with one size per extent and distinct plain names of sibling directories the check reports something exactly when the reachable graph has a cycle |
| CycleGap.SameNamesHideCycle | forensic/src/analysis.rs:393-424 | a tree with two directories of one name that has a cycle and no report |
| CycleGap.SameNamesRaiseAlarm | forensic/src/analysis.rs:393-424 | a tree with two directories of one name that has a report and no cycle |
| ImageFind.FindEntry | core/src/lib.rs:585-619 | looking up a path in an image gives the lookup over what the image's directories read as, with all error cases |
| Find.Position | core/src/lib.rs:598-606 | the first record known by the name, ignoring ASCII letter case |
| Lookup.KnownAsIsKnownBy | core/src/lib.rs:598-605 | a record is known by a component exactly when its ISO name or its Rock Ridge name is the component up to the case of letters |
| Lookup.ComponentsAtSlash | core/src/lib.rs:586-587 | the components of two paths joined by a slash are those of both |
| Lookup.ComponentsOfName | core/src/lib.rs:586-587 | a name without slashes is one component, the empty one none |
| Lookup.FindIff | core/src/lib.rs:592-618 | a lookup gives a result exactly when a chain of first known records through readable directories leads to it: the record of the last component, or the reason why the chain stops, such as `..`, a file in the middle, an unreadable directory or an unknown name |
| Lookup.UnknownNotFound | core/src/lib.rs:606-607 | a name no record of the directory is known by is not found |
| Find.ComponentsOfPath | core/src/lib.rs:586-587 | the components of a listed path are its names, with or without slashes around it |
| Find.FindsInAnyCase | core/src/lib.rs:592-617 | the names on the way to a listed entry, in any letter case, lead to its record |
| Find.FindsWhatIsListed | core/src/lib.rs:585-619 | where names can be told apart, looking up the path of any listed entry gives its record |
| Find.FoundIsListed | core/src/lib.rs:585-619 | whatever the path, a record found is one the walk lists |
| Overlap.Sweep | forensic/src/analysis.rs:444-459 | the running-coverage loop reports each span against the first of the earlier ones that reach furthest |
| Overlap.CoverAt | forensic/src/analysis.rs:456-458 | the cover is the first of the earlier spans with the largest end |
| Overlap.Spans | forensic/src/analysis.rs:432-442 | only spans cut off at the end of the address range can be empty |
| Overlap.SpanHoldsFile | forensic/src/analysis.rs:435-440 | the span of a file ends after the last sector its bytes occupy, or at the end of the address range |
| Overlap.SpansPicked | forensic/src/analysis.rs:432-442 | the spans are those of exactly the non-empty files, in order |
| Overlap.ReportsAreReal | forensic/src/analysis.rs:446-454 | a reported pair intersects and is not identical |
| Overlap.FindingsPicked | forensic/src/analysis.rs:444-459 | exactly the spans that begin inside the cover before them and are not identical to it are reported, each with its own path and start and those of the cover |
| Overlap.FirstCopyReportedIff | forensic/src/analysis.rs:444-459 | the first copy of an extent is reported exactly when it intersects an earlier extent |
| Overlap.SweepIsExact | forensic/src/analysis.rs:426-460 | in any sorted order the sweep reports nothing exactly when all extents are pairwise identical or disjoint |
| Calendar.ClosedFormIsCount | core/src/vfs.rs:279-288 | for every valid date the closed form equals the count of days by years and months |
| Calendar.NextDayCountsOne | core/src/vfs.rs:279-288 | the next calendar day counts one more |
| Calendar.DaysIncrease | core/src/vfs.rs:279-288 | a later date has a larger day count |
| Calendar.WallClockOrders | core/src/vfs.rs:279-288 | the second count orders valid moments exactly as calendar and clock do |
| Calendar.KeyIsUtc | forensic/src/analysis.rs:797-813 | the key is the second count minus 900 times the zone offset exactly when month and day are not zero |
| Calendar.KeysOrderUtc | forensic/src/analysis.rs:797-813 | keys of valid moments in different zones are ordered as their UTC times |
| CdText.Decode | core/src/cdtext.rs:124-181 | the decoder computes the fields of the grouped packs of any blob |
| CdText.SplitTexts | core/src/cdtext.rs:151-177 | the inner loop splits one group at NUL bytes |
| CdText.GroupIsKept | core/src/cdtext.rs:131-149 | each type's group is its own counting packs' payloads in order, with the first one's track |
| CdText.OrderIsFirstSeen | core/src/cdtext.rs:132-149 | types are listed in the order of their first packs, none twice |
| CdText.FeedTerminated | core/src/cdtext.rs:151-173 | NUL-terminated texts come back numbered consecutively, modulo 256 |
| CdText.RoundTrip | core/src/cdtext.rs:124-181 | when the packs of each type carry texts, among any other packs, decoding gives exactly those texts |
| CdTextPacks.FieldsOfPack | core/src/cdtext.rs:131-148 | type, track number and the twelve text bytes stand where a pack is laid out with them; it counts exactly for text types of block 0 in single-byte characters, extension bit or not |
| CdTextPacks.OpenTextComesBack | core/src/cdtext.rs:151-177 | texts come back also when the last one has no terminator |
| CdTextPacks.LaidOutTextsComeBack | core/src/cdtext.rs:124-181 | texts laid out in packs, among packs of other types, blocks and character widths and before a cut pack, come back with their numbers, by type in the order of first packs |
| Cdi.ParseDescriptor | core/src/cdi.rs:144-191 | the session and track loops compute the track table, with all failures |
| Cdi.ParseTrack | core/src/cdi.rs:198-270 | the field-by-field reads compute the track record and the position after it |
| Cdi.ParseTail | core/src/cdi.rs:223-269 | likewise for the fixed part after the CD-Text |
| Cdi.SkipGroups | core/src/cdi.rs:215-222 | skips eighteen length-prefixed blocks a group |
| Cdi.EndMovesBack | core/src/cdi.rs:235-239 | the pregap normalisation moves the end of the track back by 150 sectors |
| Cdi.PregapTaken | core/src/cdi.rs:235-239 | a track at 0 loses 150 sectors of length, any other moves 150 sectors to the front, neither below zero |
| Cdi.ModesAccepted | core/src/cdi.rs:275-303 | exactly the eleven pairs of the table are accepted, each with its mode and its two sector sizes |
| Cdi.TrackParsed | core/src/cdi.rs:198-270 | an encoded record parses to its meaning, and the parser goes on exactly after it |
| Cdi.SessionsParsed | core/src/cdi.rs:150-185 | encoded sessions parse to their tracks, numbered on from those before |
| Cdi.RoundTrip | core/src/cdi.rs:144-303 | any sessions and tracks encoded into a descriptor parse to the same tracks in order, numbered and with the pregap normalised |
| Cdi.HeaderBytes | core/src/cdi.rs:150-160 | a session header is its fifteen bytes |
| Cdi.SessionCountRefused | core/src/cdi.rs:144-150 | an empty descriptor, and one that claims none or more than 99 sessions, is refused |
| Cdi.BadSessionRefused | core/src/cdi.rs:150-185 | after any good sessions and tracks a session with too many tracks, or at the first place without a whole accepted track, is refused |
| Cdi.CutRecordRefused | core/src/cdi.rs:198-270 | a track record cut off anywhere is refused |

## Left out

- Directory.ParseDirRecords: speaks only of buffers on which the scan ends, because on the others the source does not return; `ScanEndsIff` says which those are.
- ReadDirectory.ReadDir: likewise requires that the scan of the extent's bytes ends.
- ImageWalk.Walker.WalkDirectory: requires that the scan of every directory the walk reads ends, because on the others the source does not return.
- ImageFind.FindEntry: likewise for every directory the lookup reads.
- Streams.OffsetReader.Seek: offsets are unbounded, so overflow of base plus target, and of signed sums, is not modelled; the wrap of the cast of a start offset is.
- Streams.OffsetReader.Read: the inner stream delivers as many bytes as it has; short reads before the end are not modelled.
- FileReader.IsoFileReader.constructor: requires that the extent sizes sum to less than 2^32, because the source keeps the sum in 32 bits.
- FileReader.IsoFileReader.Seek: requires that the signed 64-bit sums of relative seeks do not overflow.
- FileReader.IsoFileReader.Read: the source wraps a failed sector read in another kind of error; the model has one error for both.
- WalkTheorems.MetIffReachable: reachability is stated for images that reference each directory extent with one size; otherwise the directory graph depends on which reference is met first.
- Cycles.CheckIsExact: needs the names of sibling directories to be distinct, non-empty and slash-free; `FlagsExactly` says what is flagged without distinctness, and names with slashes or without bytes are not covered.
- Overlap.SweepIsExact: sorting is a library call in the source, so any sorted list with the same spans is taken as its result.
- CdText.RoundTrip: texts are byte strings; the mapping of each byte to a character is not modelled.
- Error messages: error values are modelled by their case, without their texts.
- I/O errors other than end of file: the image is a fixed sequence of bytes.
- Opening an image: volume descriptors, sector-mode detection, sessions, El Torito, path tables and UDF are fixed-offset reads with easy properties.
- Sidecar formats (CUE, CCD, TOC, MDS, NRG, B5T/B6T): line splitting and fixed layouts.
- Q frame decoding and summaries (core/src/subq.rs:101-150 and 170-250): BCD and six-bit characters, field by field.
- Other Rock Ridge entries (PX, TF, PN, SF, CL, PL, RE, ER): single fixed-layout reads over the same entry scan.
- The virtual file system around the range reader: identifiers, the record cache, the mutex and the traits it implements.
- Audits that filter the walk's output (slack, gaps, timeline, fingerprints) and finding texts and severities.
- Digests and disc identifiers: library calls.
- Joliet names: UCS-2 decoding.
