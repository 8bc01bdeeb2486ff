/** Patches as read from patch files: blocks of replacement bytes within one segment each. */
module Patches {
  import opened Executables
  import opened LittleEndian

  /**
   * A contiguous replacement of bytes in one segment, starting at `startOffset`, with the
   * offsets (relative to the block) at which the new bytes hold loader-patched fields.
   */
  datatype PatchBlock = PatchBlock(
    segmentIndex: int,
    startOffset: int,
    codeBytes: seq<byte>,
    relocationsWithinBlock: seq<int>)
  {
    /** One past the last in-segment offset the block overwrites. */
    function EndOffset(): int {
      startOffset + |codeBytes|
    }

    /** The block's `segment:offset` address, used to label its edit and its errors. */
    function Address(): Address {
      Executables.Address(segmentIndex, startOffset)
    }
  }

  datatype Patch = Patch(description: string, targetLength: int, blocks: seq<PatchBlock>)
}
