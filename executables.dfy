/**
 * The parsed view of a segmented MS-DOS executable that the patcher works on, and the two
 * address conversions between raw file offsets and `segment:offset` addresses.
 *
 * Only what the patcher itself reads of an executable is modelled: its file length, each
 * segment's patchable range, and its relocation table as a set of (segment, offset) pairs.
 */
module Executables {
  import opened Wrappers

  /**
   * The patchable range of one segment: `startInFile` is the file offset at which the
   * segment's bytes are placed, and `[startOffset, endOffset]` are the in-segment offsets
   * that may be patched.
   */
  datatype Patchable = Patchable(startInFile: int, startOffset: int, endOffset: int)

  datatype Segment = Segment(patchable: Patchable)

  /** A relocation-table entry: a loader-patched field at `offset` within segment `segmentIndex`. */
  datatype Relocation = Relocation(segmentIndex: int, offset: int)

  datatype Executable = Executable(
    fileLength: int,
    segments: seq<Segment>,
    relocations: set<Relocation>)

  /** A `segment:offset` address. */
  datatype Address = Address(segmentIndex: int, offset: int)

  predicate HasSegment(exe: Executable, segmentIndex: int) {
    0 <= segmentIndex < |exe.segments|
  }

  /**
   * File offset to `segment:offset`. `containing` is what the executable's own lookup of the
   * segment holding `fileOffset` answered; `None` is reported as "(no matching segment)".
   */
  function FileToSegmented(exe: Executable, fileOffset: int, containing: Option<nat>): (r: Option<Address>)
    requires containing.Some? ==> HasSegment(exe, containing.value)
    ensures r.Some? <==> containing.Some?
    ensures r.Some? ==> r.value.segmentIndex == containing.value
    ensures r.Some? ==>
      exe.segments[containing.value].patchable.startInFile + r.value.offset == fileOffset
  {
    match containing
    case None => None
    case Some(segmentIndex) =>
      Some(Address(segmentIndex, fileOffset - exe.segments[segmentIndex].patchable.startInFile))
  }

  /**
   * `segment:offset` to file offset; `None` is reported as "(invalid address)". The end of
   * the patchable range is accepted (the bound is inclusive).
   */
  function SegmentedToFile(exe: Executable, address: Address): (r: Option<int>)
    ensures r.Some? <==>
      HasSegment(exe, address.segmentIndex) &&
      exe.segments[address.segmentIndex].patchable.startOffset <= address.offset <=
        exe.segments[address.segmentIndex].patchable.endOffset
    ensures r.Some? ==>
      var p := exe.segments[address.segmentIndex].patchable;
      r.value - p.startInFile == address.offset - p.startOffset
  {
    if HasSegment(exe, address.segmentIndex) then
      var p := exe.segments[address.segmentIndex].patchable;
      var patchableZeroInFile := p.startInFile - p.startOffset;
      if p.startOffset <= address.offset <= p.endOffset then Some(patchableZeroInFile + address.offset)
      else None
    else None
  }

  /**
   * Converting an address to a file offset and back lands `startOffset` bytes below the
   * original offset: the two directions are inverse exactly when the segment's patchable
   * range starts at offset 0.
   */
  lemma FileToSegmentedAfterSegmentedToFile(exe: Executable, address: Address)
    requires SegmentedToFile(exe, address).Some?
    ensures HasSegment(exe, address.segmentIndex)
    ensures
      var p := exe.segments[address.segmentIndex].patchable;
      FileToSegmented(exe, SegmentedToFile(exe, address).value, Some(address.segmentIndex)) ==
        Some(Address(address.segmentIndex, address.offset - p.startOffset))
  {
  }

  /** When the patchable range starts at 0, an address survives the round trip unchanged. */
  lemma SegmentedRoundTrip(exe: Executable, address: Address)
    requires SegmentedToFile(exe, address).Some?
    requires exe.segments[address.segmentIndex].patchable.startOffset == 0
    ensures FileToSegmented(exe, SegmentedToFile(exe, address).value, Some(address.segmentIndex)) ==
      Some(address)
  {
    FileToSegmentedAfterSegmentedToFile(exe, address);
  }

  /**
   * A file offset whose segment starts its patchable range at 0 and whose in-segment offset
   * is patchable survives the round trip unchanged.
   */
  lemma FileRoundTrip(exe: Executable, fileOffset: int, segmentIndex: nat)
    requires HasSegment(exe, segmentIndex)
    requires exe.segments[segmentIndex].patchable.startOffset == 0
    requires 0 <= fileOffset - exe.segments[segmentIndex].patchable.startInFile
               <= exe.segments[segmentIndex].patchable.endOffset
    ensures SegmentedToFile(exe, FileToSegmented(exe, fileOffset, Some(segmentIndex)).value) ==
      Some(fileOffset)
  {
  }
}
