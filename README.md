# UltimaPatcher core, modelled in Dafny

UltimaPatcher patches segmented MS-DOS executables with overlays (originally Ultima VII's
U7.EXE). It reads
patch files and an optional compiled hack, and optionally expands overlay segments first. It
then assembles one ordered list of edits and writes that list to the executable. This project
models the part that decides what those edits are:

- **The patch-file reader** (`patch_file.dfy`, module `PatchFile`). A patch file is a
  little-endian record anchored at the end of the file and read backwards. `DecodePatch` is
  its reference meaning. `ReadPatchFile` and `ReadBlock` are the cursor-walking reader, proved
  equal to it. `EncodePatch` writes the layout, and decoding what it writes gives the patch
  back, whatever bytes precede it. The reader's exceptions become two errors:
  - `Truncated`: a field would start before the buffer.
  - `NegativeLength`: a negative length or count.
- **Patch application** (`patch_application.dfy`, `block_order.dfy`). All blocks of all patches
  are flattened. A stable sort orders them by (segment index, start offset). One walk checks
  neighbours for overlap. Then each block, in the patches' own order, is checked against its
  segment, its relocations are handed to the relocation tracker, and its overwrite edit is
  emitted. The tracker's edits come last.
  - `PatchEdits` is the reference meaning; `EditsForPatches` and `ApplyBlocks` are the loops,
    proved equal to it.
  - Every rejection path is characterised, and so is the shape of a successful result.
  - Two blocks that share a byte are always rejected, whatever their order. Non-empty
    disjoint acceptable blocks are always accepted.
  - The resulting relocation table does not depend on block order: it is the uncovered
    original entries plus the installed ones.
- **The relocation tracker** (`relocation_tracker.dfy`). A class holding the original table
  and the tracked table. `ReplaceInRange` clears a range of one segment and installs new
  offsets. `ProduceEdits` yields the diff.
- **Edit composition** (`edits.dfy`). An executable paired with its accumulated edits, and
  operations on that pair. Folding `andThen` from the identity applies the operations in
  argument order.
- **Address conversions** (`executables.dfy`). File offset to `segment:offset` and back. The
  two directions are inverse exactly when the segment's patchable range starts at offset 0.
- **The top-level edit assembly** (`patcher.dfy`, module `Patcher`). Expand overlays first.
  Check every patch's target length against the expanded executable, then apply the patches
  to it. Check the hack's target length against the original executable and append its
  edits. `AssembleEdits` is proved equal to `ResultingEdits`. Given expansions that always
  succeed, its success condition is an if-and-only-if, and its result is the three parts in
  order.

Bytes are `byte` (0..255) and Java `int` fields are read as two's-complement 32-bit values
(`LittleEndian.Int32At`). Java's `System.exit` on a length mismatch and its
`PatchApplicationException`s become `Failure` values.

## Model

| member | source | states |
|---|---|---|
| PatchFile.ReadPatchFile | UltimaPatcher/src/main/java/net/johnglassmyer/ultimahacks/ultimapatcher/UltimaPatcher.java:387-439 | The backwards-walking reader returns exactly `DecodePatch` of the bytes: the same patch, or the same error where the reader would throw |
| PatchFile.ReadBlock | UltimaPatcher/src/main/java/net/johnglassmyer/ultimahacks/ultimapatcher/UltimaPatcher.java:410-436 | One block read by the cursor walk, including its relocation loop, equals `DecodeBlock` at that cursor |
| PatchFile.DecodeEncodedPatch | UltimaPatcher/src/main/java/net/johnglassmyer/ultimahacks/ultimapatcher/UltimaPatcher.java:387-439 | Decoding the encoding of any encodable patch (ASCII description, 32-bit fields), with any bytes before it, gives that patch back |
| PatchFile.DecodeEncodedBlocks | UltimaPatcher/src/main/java/net/johnglassmyer/ultimahacks/ultimapatcher/UltimaPatcher.java:409-436 | The block loop reads encoded blocks back in order and stops exactly at the start of their encoding |
| PatchFile.DecodeEncodedBlock | UltimaPatcher/src/main/java/net/johnglassmyer/ultimahacks/ultimapatcher/UltimaPatcher.java:411-435 | One encoded block (segment, start, relocations, length, code) is read back unchanged, with the cursor left just before it |
| PatchFile.DecodeEncodedRelocations | UltimaPatcher/src/main/java/net/johnglassmyer/ultimahacks/ultimapatcher/UltimaPatcher.java:420-424 | The relocation loop reads encoded offsets back in order, appended to what was read before |
| PatchFile.DecodeEncodedCode | UltimaPatcher/src/main/java/net/johnglassmyer/ultimahacks/ultimapatcher/UltimaPatcher.java:426-432 | Length-prefixed code bytes are read back unchanged, with the cursor left at their start |
| PatchFile.AsciiBytes | UltimaPatcher/src/main/java/net/johnglassmyer/ultimahacks/ultimapatcher/UltimaPatcher.java:401 | US-ASCII decoding of the encoding of an ASCII text gives the text back |
| LittleEndian.Int32RoundTrip | UltimaPatcher/src/main/java/net/johnglassmyer/ultimahacks/ultimapatcher/UltimaPatcher.java:390-395 | A little-endian `getInt` of the four bytes encoding a 32-bit value gives the value, wherever they sit |
| PatchApplication.EditsForPatches | UltimaPatcher/src/main/java/net/johnglassmyer/ultimahacks/ultimapatcher/UltimaPatcher.java:478-550 | Sorting, the overlap walk and the block loop return exactly `PatchEdits` |
| PatchApplication.ApplyBlocks | UltimaPatcher/src/main/java/net/johnglassmyer/ultimahacks/ultimapatcher/UltimaPatcher.java:501-549 | The block loop with the relocation tracker returns exactly `BlocksEdits`: the first failing block's error, or one overwrite per block followed by the tracker's diff |
| PatchApplication.CheckBlock | UltimaPatcher/src/main/java/net/johnglassmyer/ultimahacks/ultimapatcher/UltimaPatcher.java:507-526 | The per-block checks, with the relocation loop, report exactly `BlockError` |
| PatchApplication.BlockError | UltimaPatcher/src/main/java/net/johnglassmyer/ultimahacks/ultimapatcher/UltimaPatcher.java:507-526 | No error iff the segment exists, the block fits its patchable range and every relocation lies inside the block; otherwise the first failing check, in the source's order, names the block's address (and, for relocations, the first offending one in list order) |
| PatchApplication.FirstOutOfRange | UltimaPatcher/src/main/java/net/johnglassmyer/ultimahacks/ultimapatcher/UltimaPatcher.java:518-526 | The reported relocation is out of `[0, length)` and every one listed before it is inside |
| PatchApplication.FirstUnacceptable | UltimaPatcher/src/main/java/net/johnglassmyer/ultimahacks/ultimapatcher/UltimaPatcher.java:506-526 | The reported block fails its checks and every block before it in the patches' order passes them |
| PatchApplication.FlattenBlocks | UltimaPatcher/src/main/java/net/johnglassmyer/ultimahacks/ultimapatcher/UltimaPatcher.java:479-481 | A block is in the flattened list iff it is a block of one of the patches |
| PatchApplication.FlattenSingle | UltimaPatcher/src/main/java/net/johnglassmyer/ultimahacks/ultimapatcher/UltimaPatcher.java:479-481 | One patch flattens to exactly its own blocks, in their order, duplicates kept |
| PatchApplication.FlattenBlocksAppend | UltimaPatcher/src/main/java/net/johnglassmyer/ultimahacks/ultimapatcher/UltimaPatcher.java:479-481 | Flattening keeps the patches' order: the flattened concatenation is the concatenation of the flattened parts |
| PatchApplication.NextBlock | UltimaPatcher/src/main/java/net/johnglassmyer/ultimahacks/ultimapatcher/UltimaPatcher.java:528-541 | One more turn of the block loop extends the overwrites by that block's edit and replaces that block's range in the tracked table |
| PatchApplication.IntersectingBlocksRejected | UltimaPatcher/src/main/java/net/johnglassmyer/ultimahacks/ultimapatcher/UltimaPatcher.java:483-499 | Any two blocks, from any patches and in any order, that share a byte of a segment make the application fail with an overlap error |
| PatchApplication.UnacceptableBlockRejected | UltimaPatcher/src/main/java/net/johnglassmyer/ultimahacks/ultimapatcher/UltimaPatcher.java:501-526 | A block that fails its checks makes the application fail; without an overlap the error is that of the first failing block, at or before it |
| PatchApplication.AcceptedBlocks | UltimaPatcher/src/main/java/net/johnglassmyer/ultimahacks/ultimapatcher/UltimaPatcher.java:483-526 | After a successful application every block passed its checks and no two blocks share a byte |
| PatchApplication.PassedOverlapWalk | UltimaPatcher/src/main/java/net/johnglassmyer/ultimahacks/ultimapatcher/UltimaPatcher.java:488-501 | A successful application found no overlap, so its edits are those of the block loop |
| PatchApplication.AcceptedPatchEdits | UltimaPatcher/src/main/java/net/johnglassmyer/ultimahacks/ultimapatcher/UltimaPatcher.java:501-549 | A successful result is one overwrite per block, in the patches' order, at the segment's file start plus the block's start and carrying the block's bytes, then the relocation diff, and nothing else |
| PatchApplication.AcceptedBlocksEdits | UltimaPatcher/src/main/java/net/johnglassmyer/ultimahacks/ultimapatcher/UltimaPatcher.java:501-547 | The same shape for the block loop's own result |
| PatchApplication.DisjointAcceptableBlocksAccepted | UltimaPatcher/src/main/java/net/johnglassmyer/ultimahacks/ultimapatcher/UltimaPatcher.java:483-526 | Non-empty blocks that all pass their checks and pairwise share no byte are accepted, abutting blocks included |
| PatchApplication.OrderedPairAccepted | UltimaPatcher/src/main/java/net/johnglassmyer/ultimahacks/ultimapatcher/UltimaPatcher.java:483-526 | A patch of two acceptable blocks, in key order and not overlapping, is accepted |
| PatchApplication.OrderedPairOverlapRejected | UltimaPatcher/src/main/java/net/johnglassmyer/ultimahacks/ultimapatcher/UltimaPatcher.java:483-499 | A patch of two blocks in key order, the second starting before the first ends in the same segment, fails with an overlap error naming both blocks |
| PatchApplication.EmptyBlockAfterItsKeyRejected | UltimaPatcher/src/main/java/net/johnglassmyer/ultimahacks/ultimapatcher/UltimaPatcher.java:483-499 | An empty block listed after a non-empty block with the same key is rejected as overlapping it, on any executable |
| PatchApplication.EmptyBlockBeforeItsKeyAccepted | UltimaPatcher/src/main/java/net/johnglassmyer/ultimahacks/ultimapatcher/UltimaPatcher.java:483-526 | The same two blocks listed the other way round are accepted: the verdict depends on the input order, through the sort's stability |
| PatchApplication.Installed | UltimaPatcher/src/main/java/net/johnglassmyer/ultimahacks/ultimapatcher/UltimaPatcher.java:528-536 | An entry is installed iff some block lists it as one of its relocations, at the block's start plus the in-block offset |
| PatchApplication.NewRelocationsInRange | UltimaPatcher/src/main/java/net/johnglassmyer/ultimahacks/ultimapatcher/UltimaPatcher.java:518-536 | An entry a checked block installs lies inside that block's range |
| PatchApplication.RelocationsAfterDisjointBlocks | UltimaPatcher/src/main/java/net/johnglassmyer/ultimahacks/ultimapatcher/UltimaPatcher.java:528-541 | For checked, disjoint blocks the tracked table is the original entries no block covers plus every installed entry, whatever the order |
| PatchApplication.AcceptedRelocationTable | UltimaPatcher/src/main/java/net/johnglassmyer/ultimahacks/ultimapatcher/UltimaPatcher.java:528-544 | On success the relocation diff turns the original table into exactly the uncovered entries plus the installed ones |
| BlockOrder.SortBySegmentAndOffset | UltimaPatcher/src/main/java/net/johnglassmyer/ultimahacks/ultimapatcher/UltimaPatcher.java:483-486 | The sorted blocks are a permutation of the input, ordered by segment index and then start offset, and the sort is stable: for every key, the blocks with that key appear in their input order |
| BlockOrder.InsertByKeyKeepsKeyOrder | UltimaPatcher/src/main/java/net/johnglassmyer/ultimahacks/ultimapatcher/UltimaPatcher.java:483-486 | Inserting a block appends it to its own key's subsequence and leaves every other key's subsequence unchanged |
| BlockOrder.InsertByKeyStable | UltimaPatcher/src/main/java/net/johnglassmyer/ultimahacks/ultimapatcher/UltimaPatcher.java:483-486 | The same, for every key at once |
| BlockOrder.OrderedPairSorted | UltimaPatcher/src/main/java/net/johnglassmyer/ultimahacks/ultimapatcher/UltimaPatcher.java:483-486 | Two blocks already in key order are left in that order |
| BlockOrder.InsertByKeySorted | UltimaPatcher/src/main/java/net/johnglassmyer/ultimahacks/ultimapatcher/UltimaPatcher.java:483-486 | Inserting a block after all blocks whose key is not greater keeps a sorted list sorted |
| BlockOrder.FirstOverlap | UltimaPatcher/src/main/java/net/johnglassmyer/ultimahacks/ultimapatcher/UltimaPatcher.java:488-499 | The reported pair of neighbours overlaps, and no earlier neighbouring pair does |
| BlockOrder.NoNeighbourOverlapSeparatesAll | UltimaPatcher/src/main/java/net/johnglassmyer/ultimahacks/ultimapatcher/UltimaPatcher.java:488-499 | On sorted blocks without neighbouring overlap, every block ends before any later block of its segment starts |
| BlockOrder.IntersectingBlocksAreCaught | UltimaPatcher/src/main/java/net/johnglassmyer/ultimahacks/ultimapatcher/UltimaPatcher.java:483-499 | Checking only neighbours after sorting catches every pair of intersecting blocks |
| BlockOrder.DisjointBlocksPass | UltimaPatcher/src/main/java/net/johnglassmyer/ultimahacks/ultimapatcher/UltimaPatcher.java:483-499 | Non-empty, pairwise disjoint blocks pass the neighbour walk |
| RelocationTracking.Replaced | UltimaPatcher/src/main/java/net/johnglassmyer/ultimahacks/ultimapatcher/UltimaPatcher.java:532-536 | After `replaceInRange` an entry is tracked iff it was tracked outside the range, or it is one of the new offsets in that segment |
| RelocationTracking.RelocationDiff | UltimaPatcher/src/main/java/net/johnglassmyer/ultimahacks/ultimapatcher/UltimaPatcher.java:544 | The tracker's edit removes only original entries, adds only new ones, and turns the original table into the tracked one |
| RelocationTracking.RelocationTracker.ForExecutable | UltimaPatcher/src/main/java/net/johnglassmyer/ultimahacks/ultimapatcher/UltimaPatcher.java:504 | `forExecutable` starts with both tables equal to the executable's relocation table |
| RelocationTracking.RelocationTracker.ReplaceInRange | UltimaPatcher/src/main/java/net/johnglassmyer/ultimahacks/ultimapatcher/UltimaPatcher.java:532-536 | The tracked table becomes `Replaced` of the old one; the original table is unchanged |
| RelocationTracking.RelocationTracker.ProduceEdits | UltimaPatcher/src/main/java/net/johnglassmyer/ultimahacks/ultimapatcher/UltimaPatcher.java:544 | Yields the diff from the original table to the tracked one |
| Edits.ComposeAllAppliesInOrder | UltimaPatcher/src/main/java/net/johnglassmyer/ultimahacks/ultimapatcher/UltimaPatcher.java:445-454 | `reduce(identity, andThen)` applies the operations in list order, and is the identity on an empty list |
| Edits.ReduceAppliesInOrder | UltimaPatcher/src/main/java/net/johnglassmyer/ultimahacks/ultimapatcher/UltimaPatcher.java:452 | A left fold of `andThen` from any start applies the start, then the operations in order |
| Edits.ApplyInOrderAppend | UltimaPatcher/src/main/java/net/johnglassmyer/ultimahacks/ultimapatcher/UltimaPatcher.java:445-454 | Applying two lists in sequence is applying their concatenation |
| Edits.AppendingOperationsKeepEarlierEdits | UltimaPatcher/src/main/java/net/johnglassmyer/ultimahacks/ultimapatcher/UltimaPatcher.java:445-454 | When every operation only appends edits, the starting edits remain a prefix of the composed result's |
| Executables.FileToSegmented | UltimaPatcher/src/main/java/net/johnglassmyer/ultimahacks/ultimapatcher/UltimaPatcher.java:308-318 | An address is produced iff the executable's lookup found a segment holding the offset; it names that segment, and its offset is the file offset minus the segment's file start |
| Executables.SegmentedToFile | UltimaPatcher/src/main/java/net/johnglassmyer/ultimahacks/ultimapatcher/UltimaPatcher.java:319-336 | A file offset is produced iff the segment exists and the offset lies in its patchable range, end included; it sits as far from the file start as the offset does from the range start |
| Executables.FileToSegmentedAfterSegmentedToFile | UltimaPatcher/src/main/java/net/johnglassmyer/ultimahacks/ultimapatcher/UltimaPatcher.java:308-336 | Converting an address to a file offset and back yields the offset less the range's start offset |
| Executables.SegmentedRoundTrip | UltimaPatcher/src/main/java/net/johnglassmyer/ultimahacks/ultimapatcher/UltimaPatcher.java:308-336 | With the patchable range starting at 0 an address survives the round trip |
| Executables.FileRoundTrip | UltimaPatcher/src/main/java/net/johnglassmyer/ultimahacks/ultimapatcher/UltimaPatcher.java:308-336 | With the patchable range starting at 0 a patchable file offset survives the round trip |
| Patcher.CheckTargetLength | UltimaPatcher/src/main/java/net/johnglassmyer/ultimahacks/ultimapatcher/UltimaPatcher.java:351-361 | No error iff the lengths are equal or the check is ignored; the error names both lengths |
| Patcher.FirstMismatch | UltimaPatcher/src/main/java/net/johnglassmyer/ultimahacks/ultimapatcher/UltimaPatcher.java:254-259 | The reported patch fails the length check and every patch before it passes it |
| Patcher.ExpandedOverlaysInOrder | UltimaPatcher/src/main/java/net/johnglassmyer/ultimahacks/ultimapatcher/UltimaPatcher.java:441-455 | The expansions run in argument order from the unedited executable; with no arguments the executable is unchanged and no edits accumulate |
| Patcher.ExpandedOverlaysSplit | UltimaPatcher/src/main/java/net/johnglassmyer/ultimahacks/ultimapatcher/UltimaPatcher.java:441-455 | Expanding with `first ++ second` is expanding with `second` on the result of `first` |
| Patcher.AssembleEdits | UltimaPatcher/src/main/java/net/johnglassmyer/ultimahacks/ultimapatcher/UltimaPatcher.java:234-287 | The edit assembly returns exactly `ResultingEdits` |
| Patcher.PatchStageSucceedsExactlyWhen | UltimaPatcher/src/main/java/net/johnglassmyer/ultimahacks/ultimapatcher/UltimaPatcher.java:252-262 | The patch stage succeeds iff there are no patches, or all target lengths match (or are ignored) and the patches apply |
| Patcher.HackStageSucceedsExactlyWhen | UltimaPatcher/src/main/java/net/johnglassmyer/ultimahacks/ultimapatcher/UltimaPatcher.java:264-285 | The hack stage succeeds iff the check is ignored, there is no hack, it names no length, or its length is the original's |
| Patcher.ResultingEditsSucceedExactlyWhen | UltimaPatcher/src/main/java/net/johnglassmyer/ultimahacks/ultimapatcher/UltimaPatcher.java:234-287 | The assembly succeeds iff the patch conditions hold against the expanded executable and the hack condition against the original one |
| Patcher.PatchStageEdits | UltimaPatcher/src/main/java/net/johnglassmyer/ultimahacks/ultimapatcher/UltimaPatcher.java:252-262 | A successful patch stage yields no edits without patches, else the edits of applying them |
| Patcher.ResultingEditsOrder | UltimaPatcher/src/main/java/net/johnglassmyer/ultimahacks/ultimapatcher/UltimaPatcher.java:234-287 | On success the edits are the expansions', then the patches' (against the expanded executable), then the hack's, and nothing else |

## Left out

- File I/O is out: reading the patch, hack and executable files, writing the executable or a
  compiled hack (`applyEdits`, `writeHackProto`), and logging. The reader works on the file's
  bytes, and edits are values that are never applied.
- Command-line parsing is out: `Integer.decode`, `SegmentAndOffset.fromString`,
  `Util.formatAddress`, and the listing modes (`--list-relocations`, details). Addresses and
  numbers arrive already parsed.
- The compiled hack's protobuf decoding is out: a hack is given as its edits, optional
  target length and optional comment.
- Overlay expansion (`ExpandOverlayOperation`) and `applyEditsInMemory` are not part of this
  model. An expansion is a parameter of type `(segment, end offset, spacing) -> operation`.
  Only how the expansions are composed is modelled.
- `Patcher.ResultingEditsSucceedExactlyWhen`: an expansion never fails in this model. The
  source's expansion throws for a missing segment or a request to shrink an overlay. The
  if-and-only-if therefore leaves out those failures.
- The executable's own lookups are not part of this model. `Executable.readFromFile` is out,
  and `segmentIndexForFileOffset` is a parameter of `FileToSegmented`.
- The relocation tracker's source is not part of this model. Its two operations are taken as
  a hypothesis: `replaceInRange` clears `[start, end)` in the segment and then adds the new
  offsets; `produceEdits` returns edits that turn the original table into the tracked one.
- `RelocationTracking.RelocationTracker.ProduceEdits`: the tracker's edits are one symbolic
  `RelocationTableDiff` edit, which may be empty. The real tracker writes table entries in
  its own byte format.
- Java `int` overflow is not modelled in `PatchBlock.EndOffset()` (start plus code length)
  or in the reader's cursor arithmetic. Both are unbounded integers here.
- `PatchFile.ReadPatchFile`: an `OutOfMemoryError` from a huge relocation or block count
  (the `ArrayList` capacity) is not modelled; such a file fails later as `Truncated`.
- `PatchApplication.BlockError`: `executable.segments.get(i)` throws
  `IndexOutOfBoundsException` for a missing segment, so the `orElseThrow` branch can never
  fire. Both are the one error `NoSegment`.
- `BlockOrder.DisjointBlocksPass`: requires non-empty blocks. The source's neighbour walk
  also rejects an empty block that starts strictly inside another block, although the two
  share no byte. It likewise rejects an empty block sorted after a non-empty block with the
  same key, and accepts the same pair in the other order
  (`PatchApplication.EmptyBlockAfterItsKeyRejected`, `EmptyBlockBeforeItsKeyAccepted`).
- `Executables.FileToSegmented`: the source subtracts the segment's `startInFile` and not
  `startInFile - startOffset`. The two conversions are therefore inverse only when the
  patchable range starts at offset 0, and the round-trip lemmas are stated that way.
- `System.exit(0xDEADBEEF)` on a length mismatch is a `TargetLengthMismatch` failure. The
  exit code and the log messages are out.
