/**
 * Turning the blocks of one or more patches into edits against an executable: validation
 * (no overlaps, inside the segment, relocations inside the block), one overwrite edit per block
 * in the patches' own order, and finally the relocation table's edits.
 */
module PatchApplication {
  import opened Wrappers
  import opened Executables
  import opened Patches
  import opened Edits
  import opened BlockOrder
  import opened RelocationTracking

  /**
   * Why a set of patches cannot be applied. `NoSegment` is raised by the segment lookup itself
   * (an index outside the segment list); the others are the patch-application failures.
   */
  datatype ApplyError =
    | Overlapping(block: Address, preceding: Address)
    | NoSegment(block: Address)
    | OutsideSegmentBounds(block: Address)
    | RelocationOutOfRange(block: Address, relocation: int)

  /** The blocks of all patches, patch by patch, each patch's blocks in their own order. */
  function FlattenBlocks(patches: seq<Patch>): (blocks: seq<PatchBlock>)
    ensures forall b :: b in blocks <==> exists i :: 0 <= i < |patches| && b in patches[i].blocks
    decreases |patches|
  {
    if patches == [] then []
    else patches[0].blocks + FlattenBlocks(patches[1..])
  }

  /** One patch flattens to its own blocks, in their order. */
  lemma FlattenSingle(p: Patch)
    ensures FlattenBlocks([p]) == p.blocks
  {
    assert [p][1..] == [];
  }

  /** Flattening keeps the patches' order: the blocks of earlier patches come first. */
  lemma {:induction false} FlattenBlocksAppend(first: seq<Patch>, second: seq<Patch>)
    ensures FlattenBlocks(first + second) == FlattenBlocks(first) + FlattenBlocks(second)
    decreases |first|
  {
    if first == [] {
      assert first + second == second;
    } else {
      assert (first + second)[1..] == first[1..] + second;
      FlattenBlocksAppend(first[1..], second);
    }
  }

  /** The position of the first relocation offset, in list order, outside `[0, length)`. */
  function FirstOutOfRange(relocations: seq<int>, length: int): (r: Option<nat>)
    ensures r.Some? ==> r.value < |relocations| && !(0 <= relocations[r.value] < length)
    ensures forall k :: 0 <= k < |relocations| && (r.Some? ==> k < r.value) ==>
      0 <= relocations[k] < length
    decreases |relocations|
  {
    if relocations == [] then None
    else if !(0 <= relocations[0] < length) then Some(0)
    else
      match FirstOutOfRange(relocations[1..], length)
      case Some(p) => Some(p + 1)
      case None => None
  }

  /** The block lies inside its segment's patchable range. */
  predicate FitsSegment(exe: Executable, b: PatchBlock)
    requires HasSegment(exe, b.segmentIndex)
  {
    var patchable := exe.segments[b.segmentIndex].patchable;
    patchable.startOffset <= b.startOffset && b.EndOffset() <= patchable.endOffset
  }

  /** Every relocation offset of the block lies within the block's bytes. */
  predicate RelocationsWithinBlock(b: PatchBlock) {
    forall k :: 0 <= k < |b.relocationsWithinBlock| ==> 0 <= b.relocationsWithinBlock[k] < |b.codeBytes|
  }

  predicate BlockAcceptable(exe: Executable, b: PatchBlock) {
    HasSegment(exe, b.segmentIndex) && FitsSegment(exe, b) && RelocationsWithinBlock(b)
  }

  /** The checks made on one block, in the order they are made. */
  function BlockError(exe: Executable, b: PatchBlock): (r: Option<ApplyError>)
    ensures r.None? <==> BlockAcceptable(exe, b)
    ensures !HasSegment(exe, b.segmentIndex) ==> r == Some(NoSegment(b.Address()))
    ensures HasSegment(exe, b.segmentIndex) && !FitsSegment(exe, b) ==>
      r == Some(OutsideSegmentBounds(b.Address()))
    ensures HasSegment(exe, b.segmentIndex) && FitsSegment(exe, b) && !RelocationsWithinBlock(b) ==>
      r.Some? && r.value.RelocationOutOfRange? && r.value.block == b.Address() &&
      exists k :: 0 <= k < |b.relocationsWithinBlock| &&
        r.value.relocation == b.relocationsWithinBlock[k] &&
        !(0 <= b.relocationsWithinBlock[k] < |b.codeBytes|) &&
        forall m :: 0 <= m < k ==> 0 <= b.relocationsWithinBlock[m] < |b.codeBytes|
  {
    if !HasSegment(exe, b.segmentIndex) then Some(NoSegment(b.Address()))
    else
      var patchable := exe.segments[b.segmentIndex].patchable;
      if b.startOffset < patchable.startOffset || b.EndOffset() > patchable.endOffset then
        Some(OutsideSegmentBounds(b.Address()))
      else
        match FirstOutOfRange(b.relocationsWithinBlock, |b.codeBytes|)
        case Some(k) => Some(RelocationOutOfRange(b.Address(), b.relocationsWithinBlock[k]))
        case None => None
  }

  /** The position of the first block, in the patches' own order, that fails its checks. */
  function FirstUnacceptable(exe: Executable, blocks: seq<PatchBlock>): (r: Option<nat>)
    ensures r.Some? ==> r.value < |blocks| && !BlockAcceptable(exe, blocks[r.value])
    ensures forall k :: 0 <= k < |blocks| && (r.Some? ==> k < r.value) ==>
      BlockAcceptable(exe, blocks[k])
    decreases |blocks|
  {
    if blocks == [] then None
    else if !BlockAcceptable(exe, blocks[0]) then Some(0)
    else
      match FirstUnacceptable(exe, blocks[1..])
      case Some(p) => Some(p + 1)
      case None => None
  }

  /** The absolute offsets, in the block's segment, of the block's relocations. */
  function RelocationOffsets(b: PatchBlock): set<int> {
    set r | r in b.relocationsWithinBlock :: b.startOffset + r
  }

  /** The relocation entries a block installs. */
  function NewRelocations(b: PatchBlock): set<Relocation> {
    set r | r in b.relocationsWithinBlock :: Relocation(b.segmentIndex, b.startOffset + r)
  }

  /** The tracked relocations after the tracker has been handed `blocks`, one after another. */
  function RelocationsAfter(relocations: set<Relocation>, blocks: seq<PatchBlock>): set<Relocation>
    decreases |blocks|
  {
    if blocks == [] then relocations
    else
      var b := blocks[|blocks| - 1];
      Replaced(RelocationsAfter(relocations, blocks[..|blocks| - 1]),
        b.segmentIndex, b.startOffset, b.EndOffset(), RelocationOffsets(b))
  }

  /** The overwrite edit for a block: its bytes at the file position of its start offset. */
  function OverwriteFor(exe: Executable, b: PatchBlock): Edit
    requires HasSegment(exe, b.segmentIndex)
  {
    Overwrite(b.Address(), exe.segments[b.segmentIndex].patchable.startInFile + b.startOffset, b.codeBytes)
  }

  function Overwrites(exe: Executable, blocks: seq<PatchBlock>): (edits: seq<Edit>)
    requires forall k :: 0 <= k < |blocks| ==> HasSegment(exe, blocks[k].segmentIndex)
  {
    seq(|blocks|, k requires 0 <= k < |blocks| => OverwriteFor(exe, blocks[k]))
  }

  /** Handing one more block to the tracker and emitting its overwrite extend both by that block. */
  lemma NextBlock(exe: Executable, blocks: seq<PatchBlock>, i: int)
    requires 0 <= i < |blocks|
    requires forall k :: 0 <= k <= i ==> HasSegment(exe, blocks[k].segmentIndex)
    ensures Overwrites(exe, blocks[..i + 1]) == Overwrites(exe, blocks[..i]) + [OverwriteFor(exe, blocks[i])]
    ensures
      var b := blocks[i];
      RelocationsAfter(exe.relocations, blocks[..i + 1]) ==
        Replaced(RelocationsAfter(exe.relocations, blocks[..i]),
          b.segmentIndex, b.startOffset, b.EndOffset(), RelocationOffsets(b))
  {
    assert blocks[..i + 1][..i] == blocks[..i];
  }

  /** The edits for blocks that passed the overlap walk, or the first block that fails its checks. */
  function BlocksEdits(exe: Executable, blocks: seq<PatchBlock>): Result<seq<Edit>, ApplyError> {
    match FirstUnacceptable(exe, blocks)
    case Some(k) => Failure(BlockError(exe, blocks[k]).value)
    case None =>
      Success(Overwrites(exe, blocks) +
        [RelocationDiff(exe.relocations, RelocationsAfter(exe.relocations, blocks))])
  }

  /** The edits for `patches`, or the first reason they cannot be applied. */
  function PatchEdits(exe: Executable, patches: seq<Patch>): Result<seq<Edit>, ApplyError> {
    var blocks := FlattenBlocks(patches);
    var sorted := SortBySegmentAndOffset(blocks);
    match FirstOverlap(sorted)
    case Some(p) => Failure(Overlapping(sorted[p + 1].Address(), sorted[p].Address()))
    case None => BlocksEdits(exe, blocks)
  }

  /**
   * The applier: sorts and checks neighbours for overlaps, then walks the blocks in their own
   * order (see `ApplyBlocks`).
   */
  method EditsForPatches(executable: Executable, patches: seq<Patch>) returns (r: Result<seq<Edit>, ApplyError>)
    ensures r == PatchEdits(executable, patches)
  {
    var blocks := FlattenBlocks(patches);
    var blocksBySegmentAndOffset := SortBySegmentAndOffset(blocks);
    var overlap := FirstOverlap(blocksBySegmentAndOffset);
    if overlap.Some? {
      var p := overlap.value;
      return Failure(Overlapping(
        blocksBySegmentAndOffset[p + 1].Address(), blocksBySegmentAndOffset[p].Address()));
    }
    r := ApplyBlocks(executable, blocks);
  }

  /**
   * The applier's walk over the blocks in their own order: checks each against its segment,
   * hands its relocations to the tracker and emits its overwrite edit; the tracker's edits
   * come last.
   */
  method ApplyBlocks(executable: Executable, blocks: seq<PatchBlock>) returns (r: Result<seq<Edit>, ApplyError>)
    ensures r == BlocksEdits(executable, blocks)
  {
    ghost var firstUnacceptable := FirstUnacceptable(executable, blocks);
    var edits: seq<Edit> := [];
    var relocationTracker := new RelocationTracker.ForExecutable(executable);
    var i := 0;
    while i < |blocks|
      invariant 0 <= i <= |blocks|
      invariant forall k :: 0 <= k < i ==> BlockAcceptable(executable, blocks[k])
      invariant edits == Overwrites(executable, blocks[..i])
      invariant relocationTracker.original == executable.relocations
      invariant relocationTracker.tracked == RelocationsAfter(executable.relocations, blocks[..i])
    {
      var block := blocks[i];
      var error := CheckBlock(executable, block);
      if error.Some? {
        assert firstUnacceptable == Some(i);
        return Failure(error.value);
      }
      var patchable := executable.segments[block.segmentIndex].patchable;

      var relocationOffsets := RelocationOffsets(block);
      relocationTracker.ReplaceInRange(
        block.segmentIndex, block.startOffset, block.EndOffset(), relocationOffsets);

      edits := edits + [Overwrite(block.Address(), patchable.startInFile + block.startOffset, block.codeBytes)];
      NextBlock(executable, blocks, i);
      i := i + 1;
    }

    assert blocks[..i] == blocks;
    assert firstUnacceptable.None?;
    var trackerEdits := relocationTracker.ProduceEdits();
    return Success(edits + trackerEdits);
  }

  /**
   * The checks of the applier's loop on one block: its segment exists, it lies inside the
   * segment's patchable range, and each relocation offset lies inside the block.
   */
  method CheckBlock(executable: Executable, block: PatchBlock) returns (error: Option<ApplyError>)
    ensures error == BlockError(executable, block)
  {
    if !(0 <= block.segmentIndex < |executable.segments|) {
      return Some(NoSegment(block.Address()));
    }
    var patchable := executable.segments[block.segmentIndex].patchable;

    if block.startOffset < patchable.startOffset || block.EndOffset() > patchable.endOffset {
      return Some(OutsideSegmentBounds(block.Address()));
    }

    var k := 0;
    while k < |block.relocationsWithinBlock|
      invariant 0 <= k <= |block.relocationsWithinBlock|
      invariant forall m :: 0 <= m < k ==> 0 <= block.relocationsWithinBlock[m] < |block.codeBytes|
    {
      var relocationWithinBlock := block.relocationsWithinBlock[k];
      if !(0 <= relocationWithinBlock < |block.codeBytes|) {
        assert FirstOutOfRange(block.relocationsWithinBlock, |block.codeBytes|) == Some(k);
        return Some(RelocationOutOfRange(block.Address(), relocationWithinBlock));
      }
      k := k + 1;
    }
    return None;
  }

  /** Two blocks, from any patches, that share a byte of the same segment are rejected. */
  lemma IntersectingBlocksRejected(exe: Executable, patches: seq<Patch>, i: int, j: int)
    requires 0 <= i < |FlattenBlocks(patches)| && 0 <= j < |FlattenBlocks(patches)| && i != j
    requires Intersect(FlattenBlocks(patches)[i], FlattenBlocks(patches)[j])
    ensures PatchEdits(exe, patches).Failure? && PatchEdits(exe, patches).error.Overlapping?
  {
    IntersectingBlocksAreCaught(FlattenBlocks(patches), i, j);
  }

  /**
   * A block that fails its segment, bounds or relocation checks makes the whole application
   * fail; when no overlap is found first, the error is that of the first such block in the
   * patches' own order.
   */
  lemma UnacceptableBlockRejected(exe: Executable, patches: seq<Patch>, k: int)
    requires 0 <= k < |FlattenBlocks(patches)|
    requires !BlockAcceptable(exe, FlattenBlocks(patches)[k])
    ensures PatchEdits(exe, patches).Failure?
    ensures
      var blocks := FlattenBlocks(patches);
      FirstOverlap(SortBySegmentAndOffset(blocks)).None? ==>
        exists m :: 0 <= m <= k && !BlockAcceptable(exe, blocks[m]) &&
          PatchEdits(exe, patches).error == BlockError(exe, blocks[m]).value &&
          forall n :: 0 <= n < m ==> BlockAcceptable(exe, blocks[n])
  {
    var blocks := FlattenBlocks(patches);
    var first := FirstUnacceptable(exe, blocks);
    assert first.Some? && first.value <= k;
  }

  predicate AllAcceptable(exe: Executable, blocks: seq<PatchBlock>) {
    forall k :: 0 <= k < |blocks| ==> BlockAcceptable(exe, blocks[k])
  }

  /** Accepted blocks each pass their checks and pairwise share no byte. */
  lemma AcceptedBlocks(exe: Executable, patches: seq<Patch>)
    requires PatchEdits(exe, patches).Success?
    ensures AllAcceptable(exe, FlattenBlocks(patches))
    ensures PairwiseDisjoint(FlattenBlocks(patches))
  {
    var blocks := FlattenBlocks(patches);
    assert FirstUnacceptable(exe, blocks).None?;
    forall i, j | 0 <= i < |blocks| && 0 <= j < |blocks| && i != j
      ensures !Intersect(blocks[i], blocks[j])
    {
      if Intersect(blocks[i], blocks[j]) {
        IntersectingBlocksAreCaught(blocks, i, j);
      }
    }
  }

  /**
   * `edits` are one overwrite per block, in the blocks' own order, at the block's file position
   * and carrying its bytes unchanged, followed by the relocation table's diff and nothing else.
   */
  predicate OverwritesThenDiff(exe: Executable, blocks: seq<PatchBlock>, edits: seq<Edit>) {
    |edits| == |blocks| + 1 &&
    (forall k :: 0 <= k < |blocks| ==>
      HasSegment(exe, blocks[k].segmentIndex) &&
      edits[k] == Overwrite(blocks[k].Address(),
        exe.segments[blocks[k].segmentIndex].patchable.startInFile + blocks[k].startOffset,
        blocks[k].codeBytes)) &&
    edits[|blocks|] == RelocationDiff(exe.relocations, RelocationsAfter(exe.relocations, blocks))
  }

  /** The edits of a successful application are the blocks' overwrites, then the table's diff. */
  lemma AcceptedPatchEdits(exe: Executable, patches: seq<Patch>)
    requires PatchEdits(exe, patches).Success?
    ensures OverwritesThenDiff(exe, FlattenBlocks(patches), PatchEdits(exe, patches).value)
  {
    PassedOverlapWalk(exe, patches);
    AcceptedBlocksEdits(exe, FlattenBlocks(patches));
  }

  /** Applied patches have passed the overlap walk: their edits are those of their blocks. */
  lemma PassedOverlapWalk(exe: Executable, patches: seq<Patch>)
    requires PatchEdits(exe, patches).Success?
    ensures PatchEdits(exe, patches) == BlocksEdits(exe, FlattenBlocks(patches))
  {
    assert FirstOverlap(SortBySegmentAndOffset(FlattenBlocks(patches))).None?;
  }

  /** `AcceptedPatchEdits` for the flattened blocks, once the overlap walk has passed. */
  lemma AcceptedBlocksEdits(exe: Executable, blocks: seq<PatchBlock>)
    requires BlocksEdits(exe, blocks).Success?
    ensures OverwritesThenDiff(exe, blocks, BlocksEdits(exe, blocks).value)
  {
    assert FirstUnacceptable(exe, blocks).None?;
    var overwrites := Overwrites(exe, blocks);
    var edits := overwrites + [RelocationDiff(exe.relocations, RelocationsAfter(exe.relocations, blocks))];
    assert BlocksEdits(exe, blocks).value == edits;
    forall k | 0 <= k < |blocks|
      ensures edits[k] == OverwriteFor(exe, blocks[k])
    {
      assert edits[k] == overwrites[k];
    }
  }

  /**
   * Conversely, non-empty blocks that each pass their checks and pairwise share no byte are
   * accepted, whatever their order; abutting blocks and blocks of different segments included.
   */
  lemma DisjointAcceptableBlocksAccepted(exe: Executable, patches: seq<Patch>)
    requires AllAcceptable(exe, FlattenBlocks(patches))
    requires PairwiseDisjoint(FlattenBlocks(patches))
    requires forall k :: 0 <= k < |FlattenBlocks(patches)| ==> |FlattenBlocks(patches)[k].codeBytes| > 0
    ensures PatchEdits(exe, patches).Success?
  {
    var blocks := FlattenBlocks(patches);
    DisjointBlocksPass(blocks);
    assert FirstUnacceptable(exe, blocks).None?;
  }

  /**
   * An empty block with the same key as a non-empty block is rejected when it comes second:
   * the stable sort keeps the two in their order, and the walk then finds the empty block
   * starting before its predecessor ends.
   */
  lemma EmptyBlockAfterItsKeyRejected(exe: Executable, full: PatchBlock, empty: PatchBlock)
    requires full == PatchBlock(0, 0x10, [1, 2, 3, 4], []) && empty == PatchBlock(0, 0x10, [], [])
    ensures PatchEdits(exe, [Patch("", 0x100, [full, empty])]) ==
      Failure(Overlapping(Address(0, 0x10), Address(0, 0x10)))
  {
    OrderedPairOverlapRejected(exe, Patch("", 0x100, [full, empty]));
  }

  /** A patch of two blocks in key order, the second starting before the first ends, is rejected. */
  lemma OrderedPairOverlapRejected(exe: Executable, p: Patch)
    requires |p.blocks| == 2 && KeyLe(p.blocks[0], p.blocks[1])
    requires OverlapsPreceding(p.blocks[0], p.blocks[1])
    ensures PatchEdits(exe, [p]) == Failure(Overlapping(p.blocks[1].Address(), p.blocks[0].Address()))
  {
    var blocks := p.blocks;
    assert FlattenBlocks([p]) == blocks by {
      FlattenSingle(p);
    }
    assert SortBySegmentAndOffset(blocks) == blocks by {
      OrderedPairSorted(blocks);
    }
    assert FirstOverlap(blocks) == Some(0);
  }

  /**
   * The same two blocks in the other order are accepted: the empty block ends where the
   * non-empty one starts, and the walk never compares them the other way round.
   */
  lemma EmptyBlockBeforeItsKeyAccepted(exe: Executable, full: PatchBlock, empty: PatchBlock)
    requires exe == Executable(0x100, [Segment(Patchable(0, 0, 0x100))], {})
    requires full == PatchBlock(0, 0x10, [1, 2, 3, 4], []) && empty == PatchBlock(0, 0x10, [], [])
    ensures PatchEdits(exe, [Patch("", 0x100, [empty, full])]).Success?
  {
    assert BlockAcceptable(exe, empty) && BlockAcceptable(exe, full);
    OrderedPairAccepted(exe, Patch("", 0x100, [empty, full]));
  }

  /** A patch of two acceptable blocks, in key order and not overlapping, is accepted. */
  lemma OrderedPairAccepted(exe: Executable, p: Patch)
    requires |p.blocks| == 2 && KeyLe(p.blocks[0], p.blocks[1])
    requires !OverlapsPreceding(p.blocks[0], p.blocks[1])
    requires BlockAcceptable(exe, p.blocks[0]) && BlockAcceptable(exe, p.blocks[1])
    ensures PatchEdits(exe, [p]).Success?
  {
    var blocks := p.blocks;
    assert FlattenBlocks([p]) == blocks by {
      FlattenSingle(p);
    }
    assert SortBySegmentAndOffset(blocks) == blocks by {
      OrderedPairSorted(blocks);
    }
    assert FirstOverlap(blocks).None? by {
      assert FirstOverlap(blocks[1..]).None?;
    }
    assert FirstUnacceptable(exe, blocks).None?;
  }

  /** The entries the blocks together install, each at its block's start plus its in-block offset. */
  function Installed(blocks: seq<PatchBlock>): (r: set<Relocation>)
    ensures forall x :: x in r <==> exists k :: 0 <= k < |blocks| && x in NewRelocations(blocks[k])
    decreases |blocks|
  {
    if blocks == [] then {}
    else
      var front := blocks[..|blocks| - 1];
      assert forall k :: 0 <= k < |front| ==> front[k] == blocks[k];
      Installed(front) + NewRelocations(blocks[|blocks| - 1])
  }

  /** The entries of `relocations` that no block's range covers. */
  function Survivors(relocations: set<Relocation>, blocks: seq<PatchBlock>): (r: set<Relocation>)
    ensures r <= relocations
  {
    set x | x in relocations &&
      forall k :: 0 <= k < |blocks| ==> !InRange(x, blocks[k].segmentIndex, blocks[k].startOffset, blocks[k].EndOffset())
  }

  /** An entry a block installs lies inside that block's range. */
  lemma NewRelocationsInRange(b: PatchBlock, x: Relocation)
    requires RelocationsWithinBlock(b) && x in NewRelocations(b)
    ensures InRange(x, b.segmentIndex, b.startOffset, b.EndOffset())
  {
    var r :| r in b.relocationsWithinBlock && x == Relocation(b.segmentIndex, b.startOffset + r);
    var k :| 0 <= k < |b.relocationsWithinBlock| && b.relocationsWithinBlock[k] == r;
  }

  /** What the tracker is handed for a block is exactly what the block installs. */
  lemma HandedOffsetsInstall(tracked: set<Relocation>, b: PatchBlock)
    ensures Replaced(tracked, b.segmentIndex, b.startOffset, b.EndOffset(), RelocationOffsets(b)) ==
      (set x | x in tracked && !InRange(x, b.segmentIndex, b.startOffset, b.EndOffset())) + NewRelocations(b)
  {
    var offsets := RelocationOffsets(b);
    assert (set offset | offset in offsets :: Relocation(b.segmentIndex, offset)) == NewRelocations(b);
  }

  /** Survivors of one more block are the earlier survivors outside that block's range. */
  lemma SurvivorsStep(relocations: set<Relocation>, blocks: seq<PatchBlock>)
    requires blocks != []
    ensures
      var b := blocks[|blocks| - 1];
      Survivors(relocations, blocks) ==
        set x | x in Survivors(relocations, blocks[..|blocks| - 1]) && !InRange(x, b.segmentIndex, b.startOffset, b.EndOffset())
  {
    var front := blocks[..|blocks| - 1];
    assert forall k :: 0 <= k < |front| ==> front[k] == blocks[k];
  }

  /** Entries installed by earlier blocks lie outside the range of a block disjoint from them all. */
  lemma InstalledOutside(front: seq<PatchBlock>, b: PatchBlock, x: Relocation)
    requires forall k :: 0 <= k < |front| ==> RelocationsWithinBlock(front[k]) && !Intersect(front[k], b)
    requires x in Installed(front)
    ensures !InRange(x, b.segmentIndex, b.startOffset, b.EndOffset())
  {
    var k :| 0 <= k < |front| && x in NewRelocations(front[k]);
    NewRelocationsInRange(front[k], x);
  }

  /**
   * For blocks that pass their checks and share no byte, the tracked table does not depend on
   * the order the tracker saw them in: it holds the original entries no block covers, plus the
   * entries every block installs.
   */
  lemma {:induction false} RelocationsAfterDisjointBlocks(relocations: set<Relocation>, blocks: seq<PatchBlock>)
    requires forall k :: 0 <= k < |blocks| ==> RelocationsWithinBlock(blocks[k])
    requires PairwiseDisjoint(blocks)
    ensures RelocationsAfter(relocations, blocks) == Survivors(relocations, blocks) + Installed(blocks)
    decreases |blocks|
  {
    if blocks != [] {
      var n := |blocks| - 1;
      var front := blocks[..n];
      var b := blocks[n];
      assert forall k :: 0 <= k < |front| ==> RelocationsWithinBlock(front[k]) && !Intersect(front[k], b) by {
        assert forall k :: 0 <= k < |front| ==> front[k] == blocks[k];
      }
      var before := RelocationsAfter(relocations, front);
      var kept := set x | x in before && !InRange(x, b.segmentIndex, b.startOffset, b.EndOffset());
      assert RelocationsAfter(relocations, blocks) == kept + NewRelocations(b) by {
        HandedOffsetsInstall(before, b);
      }
      assert kept == Survivors(relocations, blocks) + Installed(front) by {
        assert before == Survivors(relocations, front) + Installed(front) by {
          assert PairwiseDisjoint(front) by {
            assert forall k :: 0 <= k < |front| ==> front[k] == blocks[k];
          }
          RelocationsAfterDisjointBlocks(relocations, front);
        }
        forall x | x in Installed(front)
          ensures !InRange(x, b.segmentIndex, b.startOffset, b.EndOffset())
        {
          InstalledOutside(front, b, x);
        }
        OutsideRangeUnion(Survivors(relocations, front), Installed(front), b.segmentIndex, b.startOffset, b.EndOffset());
        SurvivorsStep(relocations, blocks);
      }
      assert Installed(blocks) == Installed(front) + NewRelocations(b);
    }
  }

  /** Removing a range from a union leaves alone the part that lies outside the range. */
  lemma OutsideRangeUnion(s: set<Relocation>, t: set<Relocation>, segmentIndex: int, start: int, end: int)
    requires forall x :: x in t ==> !InRange(x, segmentIndex, start, end)
    ensures (set x | x in s + t && !InRange(x, segmentIndex, start, end)) ==
      (set x | x in s && !InRange(x, segmentIndex, start, end)) + t
  {
  }

  /**
   * On success, the relocation table's diff turns the original table into exactly the entries
   * no block covers plus the entries the blocks install.
   */
  lemma AcceptedRelocationTable(exe: Executable, patches: seq<Patch>)
    requires PatchEdits(exe, patches).Success?
    ensures
      var blocks := FlattenBlocks(patches);
      var diff := PatchEdits(exe, patches).value[|blocks|];
      diff.RelocationTableDiff? &&
      (exe.relocations - diff.removed) + diff.added ==
        Survivors(exe.relocations, blocks) + Installed(blocks)
  {
    AcceptedBlocks(exe, patches);
    AcceptedPatchEdits(exe, patches);
    RelocationsAfterDisjointBlocks(exe.relocations, FlattenBlocks(patches));
  }
}
