/**
 * The patch-file format: little-endian, anchored at the end of the file and read backwards.
 *
 * From the end of the file towards its start: the description length `D`, `D` bytes of ASCII
 * description, the target file length, the block count `N`, then `N` blocks. Each block holds,
 * again from its end towards its start: segment index, start offset within the segment,
 * relocation count `R`, `R` relocation offsets (relative to the block), block length `L`, and
 * finally the `L` code bytes themselves.
 *
 * `DecodePatch` is the reference meaning of a patch file; `ReadPatchFile` is the cursor-walking
 * reader, proved to agree with it; `EncodePatch` writes the layout, and decoding what it writes
 * gives the patch back.
 */
module PatchFile {
  import opened Wrappers
  import opened LittleEndian
  import opened Patches

  /**
   * `Truncated`: a field would start before the beginning of the buffer (the reader's
   * `getInt` or `position` with a negative index). `NegativeLength`: a length or count field
   * is negative (the reader's array or list allocation with a negative size).
   */
  datatype DecodeError = Truncated | NegativeLength

  /** A value read from the buffer and the cursor left just before it. */
  datatype Read<T> = Read(value: T, cursor: int)

  const REPLACEMENT_CHARACTER: char := '\U{FFFD}'

  /** US-ASCII decoding of one byte: bytes above 0x7F become the replacement character. */
  function AsciiChar(b: byte): char {
    if b < 0x80 then (b as int) as char else REPLACEMENT_CHARACTER
  }

  function AsciiString(bytes: seq<byte>): (s: string)
    ensures |s| == |bytes|
  {
    seq(|bytes|, i requires 0 <= i < |bytes| => AsciiChar(bytes[i]))
  }

  predicate IsAscii(s: string) {
    forall i :: 0 <= i < |s| ==> s[i] as int < 0x80
  }

  /** US-ASCII encoding; decoding its output gives the text back. */
  function AsciiBytes(s: string): (bytes: seq<byte>)
    requires IsAscii(s)
    ensures |bytes| == |s|
    ensures AsciiString(bytes) == s
  {
    seq(|s|, i requires 0 <= i < |s| => s[i] as int as byte)
  }

  /**
   * The relocation loop of a block: reads `remaining` offsets, nearest the end first,
   * appending each to `acc`.
   */
  function DecodeRelocations(buf: seq<byte>, cursor: int, remaining: nat, acc: seq<int>): (r: Result<Read<seq<int>>, DecodeError>)
    requires 0 <= cursor <= |buf|
    ensures r.Success? ==> 0 <= r.value.cursor <= cursor
    decreases remaining
  {
    if remaining == 0 then Success(Read(acc, cursor))
    else if cursor - 4 < 0 then Failure(Truncated)
    else DecodeRelocations(buf, cursor - 4, remaining - 1, acc + [Int32At(buf, cursor - 4)])
  }

  /** The code bytes of `block`, preceded by their length, that end at `cursor`. */
  function DecodeCode(buf: seq<byte>, cursor: int, block: PatchBlock): (r: Result<Read<PatchBlock>, DecodeError>)
    requires 0 <= cursor <= |buf|
    ensures r.Success? ==> 0 <= r.value.cursor <= cursor
  {
    if cursor - 4 < 0 then Failure(Truncated)
    else
      var blockLength := Int32At(buf, cursor - 4);
      var codeStart := cursor - 4 - blockLength;
      if blockLength < 0 then Failure(NegativeLength)
      else if codeStart < 0 then Failure(Truncated)
      else Success(Read(block.(codeBytes := buf[codeStart..cursor - 4]), codeStart))
  }

  /**
   * One block, whose last field ends at `cursor`. The segment index, start offset and
   * relocation count fields are each 4 bytes; if any of them would start before the buffer,
   * the block is truncated.
   */
  function DecodeBlock(buf: seq<byte>, cursor: int): (r: Result<Read<PatchBlock>, DecodeError>)
    requires 0 <= cursor <= |buf|
    ensures r.Success? ==> 0 <= r.value.cursor <= cursor
  {
    if cursor - 12 < 0 then Failure(Truncated)
    else
      var segmentIndex := Int32At(buf, cursor - 4);
      var startWithinSegment := Int32At(buf, cursor - 8);
      var relocationCount := Int32At(buf, cursor - 12);
      if relocationCount < 0 then Failure(NegativeLength)
      else
        match DecodeRelocations(buf, cursor - 12, relocationCount, [])
        case Failure(e) => Failure(e)
        case Success(relocations) =>
          DecodeCode(buf, relocations.cursor, PatchBlock(segmentIndex, startWithinSegment, [], relocations.value))
  }

  /** The block loop: reads `remaining` blocks, nearest the end first, appending each to `acc`. */
  function DecodeBlocks(buf: seq<byte>, cursor: int, remaining: nat, acc: seq<PatchBlock>): (r: Result<Read<seq<PatchBlock>>, DecodeError>)
    requires 0 <= cursor <= |buf|
    ensures r.Success? ==> 0 <= r.value.cursor <= cursor
    decreases remaining
  {
    if remaining == 0 then Success(Read(acc, cursor))
    else
      match DecodeBlock(buf, cursor)
      case Failure(e) => Failure(e)
      case Success(block) => DecodeBlocks(buf, block.cursor, remaining - 1, acc + [block.value])
  }

  /** The patch whose header is `header`, once its blocks have been read. */
  function AfterHeader(header: Patch, blocks: Result<Read<seq<PatchBlock>>, DecodeError>): Result<Patch, DecodeError> {
    match blocks
    case Failure(e) => Failure(e)
    case Success(read) => Success(header.(blocks := read.value))
  }

  /**
   * The patch a patch file holds, or why it cannot be read. The target length and block
   * count fields are each 4 bytes; if either would start before the buffer, it is truncated.
   */
  function DecodePatch(buf: seq<byte>): Result<Patch, DecodeError> {
    var end := |buf|;
    if end - 4 < 0 then Failure(Truncated)
    else
      var descriptionLength := Int32At(buf, end - 4);
      var descriptionStart := end - 4 - descriptionLength;
      if descriptionLength < 0 then Failure(NegativeLength)
      else if descriptionStart - 8 < 0 then Failure(Truncated)
      else
        var description := AsciiString(buf[descriptionStart..end - 4]);
        var targetFileLength := Int32At(buf, descriptionStart - 4);
        var blockCount := Int32At(buf, descriptionStart - 8);
        if blockCount < 0 then Failure(NegativeLength)
        else AfterHeader(Patch(description, targetFileLength, []), DecodeBlocks(buf, descriptionStart - 8, blockCount, []))
  }

  /**
   * The reader: walks a cursor from the end of the buffer towards its start, one field at a
   * time, and fails where the reader's buffer or allocation calls would throw.
   */
  method ReadPatchFile(patchFileBytes: seq<byte>) returns (r: Result<Patch, DecodeError>)
    ensures r == DecodePatch(patchFileBytes)
  {
    var buffer := patchFileBytes;
    var offsetInPatch := |buffer|;

    offsetInPatch := offsetInPatch - 4;
    if offsetInPatch < 0 { return Failure(Truncated); }
    var descriptionLength := Int32At(buffer, offsetInPatch);

    offsetInPatch := offsetInPatch - descriptionLength;
    if descriptionLength < 0 { return Failure(NegativeLength); }
    if offsetInPatch < 0 { return Failure(Truncated); }
    var descriptionBytes := buffer[offsetInPatch..offsetInPatch + descriptionLength];
    var description := AsciiString(descriptionBytes);

    offsetInPatch := offsetInPatch - 4;
    if offsetInPatch < 0 { return Failure(Truncated); }
    var targetFileLength := Int32At(buffer, offsetInPatch);

    offsetInPatch := offsetInPatch - 4;
    if offsetInPatch < 0 { return Failure(Truncated); }
    var blockCount := Int32At(buffer, offsetInPatch);
    if blockCount < 0 { return Failure(NegativeLength); }

    ghost var blocksEnd := offsetInPatch;
    ghost var header := Patch(description, targetFileLength, []);
    assert DecodePatch(buffer) == AfterHeader(header, DecodeBlocks(buffer, blocksEnd, blockCount, []));

    var patchBlocks: seq<PatchBlock> := [];
    var iBlock := 0;
    while iBlock < blockCount
      invariant 0 <= iBlock <= blockCount
      invariant 0 <= offsetInPatch <= |buffer|
      invariant DecodeBlocks(buffer, offsetInPatch, blockCount - iBlock, patchBlocks) ==
                DecodeBlocks(buffer, blocksEnd, blockCount, [])
    {
      var read := ReadBlock(buffer, offsetInPatch);
      if read.Failure? { return Failure(read.error); }
      patchBlocks := patchBlocks + [read.value.value];
      offsetInPatch := read.value.cursor;
      iBlock := iBlock + 1;
    }

    return Success(Patch(description, targetFileLength, patchBlocks));
  }

  /** The body of the reader's block loop: one block ending at `offsetInPatch`. */
  method ReadBlock(buffer: seq<byte>, offsetInPatch: int) returns (r: Result<Read<PatchBlock>, DecodeError>)
    requires 0 <= offsetInPatch <= |buffer|
    ensures r == DecodeBlock(buffer, offsetInPatch)
  {
    var cursor := offsetInPatch;

    cursor := cursor - 4;
    if cursor < 0 { return Failure(Truncated); }
    var segmentIndex := Int32At(buffer, cursor);

    cursor := cursor - 4;
    if cursor < 0 { return Failure(Truncated); }
    var startWithinSegment := Int32At(buffer, cursor);

    cursor := cursor - 4;
    if cursor < 0 { return Failure(Truncated); }
    var relocationCount := Int32At(buffer, cursor);
    if relocationCount < 0 { return Failure(NegativeLength); }

    ghost var relocationsEnd := cursor;
    var relocationOffsets: seq<int> := [];
    var iRelocation := 0;
    while iRelocation < relocationCount
      invariant 0 <= iRelocation <= relocationCount
      invariant 0 <= cursor <= |buffer|
      invariant DecodeRelocations(buffer, cursor, relocationCount - iRelocation, relocationOffsets) ==
                DecodeRelocations(buffer, relocationsEnd, relocationCount, [])
    {
      cursor := cursor - 4;
      if cursor < 0 { return Failure(Truncated); }
      relocationOffsets := relocationOffsets + [Int32At(buffer, cursor)];
      iRelocation := iRelocation + 1;
    }
    assert DecodeBlock(buffer, offsetInPatch) ==
      DecodeCode(buffer, cursor, PatchBlock(segmentIndex, startWithinSegment, [], relocationOffsets));

    cursor := cursor - 4;
    if cursor < 0 { return Failure(Truncated); }
    var blockLength := Int32At(buffer, cursor);

    if blockLength < 0 { return Failure(NegativeLength); }
    cursor := cursor - blockLength;
    if cursor < 0 { return Failure(Truncated); }
    var codeBytes := buffer[cursor..cursor + blockLength];

    return Success(Read(PatchBlock(segmentIndex, startWithinSegment, codeBytes, relocationOffsets), cursor));
  }

  // ---------------------------------------------------------------------------------------
  // Encoding

  function EncodeRelocations(relocations: seq<int>): (bytes: seq<byte>)
    requires forall i :: 0 <= i < |relocations| ==> IsInt32(relocations[i])
    ensures |bytes| == 4 * |relocations|
  {
    if relocations == [] then []
    else EncodeRelocations(relocations[1..]) + Int32Bytes(relocations[0])
  }

  /** A block every field of which fits the format's 32-bit fields. */
  predicate EncodableBlock(b: PatchBlock) {
    IsInt32(b.segmentIndex) && IsInt32(b.startOffset) &&
    |b.codeBytes| < INT32_LIMIT && |b.relocationsWithinBlock| < INT32_LIMIT &&
    forall i :: 0 <= i < |b.relocationsWithinBlock| ==> IsInt32(b.relocationsWithinBlock[i])
  }

  /** The code bytes, their length and the relocation offsets of a block. */
  function EncodeBlockBody(b: PatchBlock): (bytes: seq<byte>)
    requires EncodableBlock(b)
    ensures |bytes| == |b.codeBytes| + 4 + 4 * |b.relocationsWithinBlock|
  {
    b.codeBytes + Int32Bytes(|b.codeBytes|) + EncodeRelocations(b.relocationsWithinBlock)
  }

  /** Three 32-bit fields, the last one nearest the end. */
  function EncodeFields(first: int, second: int, third: int): (bytes: seq<byte>)
    requires IsInt32(first) && IsInt32(second) && IsInt32(third)
    ensures |bytes| == 12
  {
    Int32Bytes(first) + Int32Bytes(second) + Int32Bytes(third)
  }

  function EncodeBlock(b: PatchBlock): (bytes: seq<byte>)
    requires EncodableBlock(b)
    ensures |bytes| == |EncodeBlockBody(b)| + 12
  {
    EncodeBlockBody(b) + EncodeFields(|b.relocationsWithinBlock|, b.startOffset, b.segmentIndex)
  }

  /** Blocks in reverse file order: the first block is stored last, nearest the footer. */
  function EncodeBlocks(blocks: seq<PatchBlock>): (bytes: seq<byte>)
    requires forall i :: 0 <= i < |blocks| ==> EncodableBlock(blocks[i])
  {
    if blocks == [] then []
    else EncodeBlocks(blocks[1..]) + EncodeBlock(blocks[0])
  }

  predicate EncodablePatch(p: Patch) {
    IsAscii(p.description) && |p.description| < INT32_LIMIT &&
    IsInt32(p.targetLength) && |p.blocks| < INT32_LIMIT &&
    forall i :: 0 <= i < |p.blocks| ==> EncodableBlock(p.blocks[i])
  }

  /** The description's bytes followed by their count. */
  function EncodeDescription(description: string): (bytes: seq<byte>)
    requires IsAscii(description) && |description| < INT32_LIMIT
    ensures |bytes| == |description| + 4
  {
    AsciiBytes(description) + Int32Bytes(|description|)
  }

  function EncodePatch(p: Patch): (bytes: seq<byte>)
    requires EncodablePatch(p)
    ensures |bytes| == |EncodeBlocks(p.blocks)| + 12 + |p.description|
  {
    EncodeBlocks(p.blocks) + Int32Bytes(|p.blocks|) + Int32Bytes(p.targetLength) +
    EncodeDescription(p.description)
  }

  // ---------------------------------------------------------------------------------------
  // Decoding what the encoder writes

  /** `bytes` sit in `buf` just before `cursor`. */
  predicate EndsWith(buf: seq<byte>, cursor: int, bytes: seq<byte>) {
    |bytes| <= cursor <= |buf| && buf[cursor - |bytes|..cursor] == bytes
  }

  lemma SplitEnd(buf: seq<byte>, cursor: int, front: seq<byte>, back: seq<byte>)
    requires EndsWith(buf, cursor, front + back)
    ensures EndsWith(buf, cursor, back)
    ensures EndsWith(buf, cursor - |back|, front)
  {
    var whole := front + back;
    assert buf[cursor - |back|..cursor] == whole[|front|..];
    assert buf[cursor - |back| - |front|..cursor - |back|] == whole[..|front|];
  }

  lemma ReadEncodedInt32(buf: seq<byte>, cursor: int, x: int)
    requires IsInt32(x)
    requires EndsWith(buf, cursor, Int32Bytes(x))
    ensures 4 <= cursor && Int32At(buf, cursor - 4) == x
  {
    Int32RoundTrip(x, buf, cursor - 4);
  }

  lemma {:induction false} DecodeEncodedRelocations(buf: seq<byte>, cursor: int, relocations: seq<int>, acc: seq<int>)
    requires forall i :: 0 <= i < |relocations| ==> IsInt32(relocations[i])
    requires EndsWith(buf, cursor, EncodeRelocations(relocations))
    ensures DecodeRelocations(buf, cursor, |relocations|, acc) ==
      Success(Read(acc + relocations, cursor - 4 * |relocations|))
    decreases |relocations|
  {
    if relocations == [] {
      assert acc + relocations == acc;
    } else {
      SplitEnd(buf, cursor, EncodeRelocations(relocations[1..]), Int32Bytes(relocations[0]));
      ReadEncodedInt32(buf, cursor, relocations[0]);
      DecodeEncodedRelocations(buf, cursor - 4, relocations[1..], acc + [relocations[0]]);
      assert acc + [relocations[0]] + relocations[1..] == acc + relocations;
    }
  }

  /** The encoded length and code bytes of a block are read back into it. */
  lemma DecodeEncodedCode(buf: seq<byte>, cursor: int, code: seq<byte>, block: PatchBlock, next: int)
    requires |code| < INT32_LIMIT
    requires EndsWith(buf, cursor, code + Int32Bytes(|code|))
    requires next == cursor - 4 - |code|
    ensures DecodeCode(buf, cursor, block) == Success(Read(block.(codeBytes := code), next))
  {
    SplitEnd(buf, cursor, code, Int32Bytes(|code|));
    ReadEncodedInt32(buf, cursor, |code|);
  }

  /** `DecodeBlock` once the fields ahead of the code are known to hold the given values. */
  lemma DecodeBlockFields(
      buf: seq<byte>, cursor: int, segmentIndex: int, startOffset: int, count: nat,
      relocations: seq<int>, afterRelocations: int)
    requires 12 <= cursor <= |buf|
    requires Int32At(buf, cursor - 4) == segmentIndex
    requires Int32At(buf, cursor - 8) == startOffset
    requires Int32At(buf, cursor - 12) == count
    requires DecodeRelocations(buf, cursor - 12, count, []) == Success(Read(relocations, afterRelocations))
    ensures 0 <= afterRelocations <= |buf|
    ensures DecodeBlock(buf, cursor) == DecodeCode(buf, afterRelocations, PatchBlock(segmentIndex, startOffset, [], relocations))
  {
  }

  /** Three encoded fields are read back, last field first. */
  lemma ReadEncodedFields(buf: seq<byte>, cursor: int, front: seq<byte>, first: int, second: int, third: int)
    requires IsInt32(first) && IsInt32(second) && IsInt32(third)
    requires EndsWith(buf, cursor, front + EncodeFields(first, second, third))
    ensures 12 <= cursor
    ensures Int32At(buf, cursor - 4) == third
    ensures Int32At(buf, cursor - 8) == second
    ensures Int32At(buf, cursor - 12) == first
    ensures EndsWith(buf, cursor - 12, front)
  {
    var f2 := front + Int32Bytes(first) + Int32Bytes(second);
    var f1 := front + Int32Bytes(first);
    assert front + EncodeFields(first, second, third) == f2 + Int32Bytes(third);
    SplitEnd(buf, cursor, f2, Int32Bytes(third));
    ReadEncodedInt32(buf, cursor, third);
    SplitEnd(buf, cursor - 4, f1, Int32Bytes(second));
    ReadEncodedInt32(buf, cursor - 4, second);
    SplitEnd(buf, cursor - 8, front, Int32Bytes(first));
    ReadEncodedInt32(buf, cursor - 8, first);
  }

  /** The relocation offsets of an encoded block body are read back, leaving its code. */
  lemma ReadEncodedBlockBody(buf: seq<byte>, cursor: int, b: PatchBlock, afterRelocations: int)
    requires EncodableBlock(b)
    requires EndsWith(buf, cursor, EncodeBlockBody(b))
    requires afterRelocations == cursor - 4 * |b.relocationsWithinBlock|
    ensures DecodeRelocations(buf, cursor, |b.relocationsWithinBlock|, []) ==
      Success(Read(b.relocationsWithinBlock, afterRelocations))
    ensures EndsWith(buf, afterRelocations, b.codeBytes + Int32Bytes(|b.codeBytes|))
  {
    var relocations := b.relocationsWithinBlock;
    SplitEnd(buf, cursor, b.codeBytes + Int32Bytes(|b.codeBytes|), EncodeRelocations(relocations));
    DecodeEncodedRelocations(buf, cursor, relocations, []);
    assert [] + relocations == relocations;
  }

  lemma DecodeEncodedBlock(buf: seq<byte>, cursor: int, b: PatchBlock, next: int)
    requires EncodableBlock(b)
    requires EndsWith(buf, cursor, EncodeBlock(b))
    requires next == cursor - |EncodeBlock(b)|
    ensures DecodeBlock(buf, cursor) == Success(Read(b, next))
  {
    var relocations := b.relocationsWithinBlock;
    var afterRelocations := cursor - 12 - 4 * |relocations|;
    ReadEncodedFields(buf, cursor, EncodeBlockBody(b), |relocations|, b.startOffset, b.segmentIndex);
    ReadEncodedBlockBody(buf, cursor - 12, b, afterRelocations);
    DecodeBlockFields(buf, cursor, b.segmentIndex, b.startOffset, |relocations|, relocations, afterRelocations);
    var header := PatchBlock(b.segmentIndex, b.startOffset, [], relocations);
    assert header.(codeBytes := b.codeBytes) == b;
    DecodeEncodedCode(buf, afterRelocations, b.codeBytes, header, next);
  }

  /** One turn of the block loop: a block read, then the remaining ones after it. */
  lemma DecodeBlocksStep(buf: seq<byte>, cursor: int, count: nat, remaining: nat, acc: seq<PatchBlock>, block: PatchBlock, next: int)
    requires 0 <= cursor <= |buf| && count == remaining + 1
    requires DecodeBlock(buf, cursor) == Success(Read(block, next))
    ensures 0 <= next <= |buf|
    ensures DecodeBlocks(buf, cursor, count, acc) == DecodeBlocks(buf, next, remaining, acc + [block])
  {
  }

  /** The first encoded block is read back, and the rest of the encoding ends where it starts. */
  lemma DecodeFirstEncodedBlock(buf: seq<byte>, cursor: int, blocks: seq<PatchBlock>, acc: seq<PatchBlock>, tail: seq<PatchBlock>, next: int)
    requires blocks != [] && tail == blocks[1..]
    requires forall i :: 0 <= i < |blocks| ==> EncodableBlock(blocks[i])
    requires EndsWith(buf, cursor, EncodeBlocks(blocks))
    requires next == cursor - |EncodeBlock(blocks[0])|
    ensures EndsWith(buf, next, EncodeBlocks(tail))
    ensures next - |EncodeBlocks(tail)| == cursor - |EncodeBlocks(blocks)|
    ensures DecodeBlocks(buf, cursor, |blocks|, acc) == DecodeBlocks(buf, next, |tail|, acc + [blocks[0]])
  {
    var first := EncodeBlock(blocks[0]);
    var rest := EncodeBlocks(tail);
    assert EndsWith(buf, cursor, first) && EndsWith(buf, next, rest) && |EncodeBlocks(blocks)| == |rest| + |first| by {
      assert EncodeBlocks(blocks) == rest + first;
      SplitEnd(buf, cursor, rest, first);
    }
    DecodeEncodedBlock(buf, cursor, blocks[0], next);
    DecodeBlocksStep(buf, cursor, |blocks|, |tail|, acc, blocks[0], next);
  }

  /** Putting the head back in front of the tail. */
  lemma AppendHeadAndTail<T>(acc: seq<T>, s: seq<T>)
    requires s != []
    ensures acc + [s[0]] + s[1..] == acc + s
  {
    assert s == [s[0]] + s[1..];
  }

  lemma {:induction false} DecodeEncodedBlocks(buf: seq<byte>, cursor: int, blocks: seq<PatchBlock>, acc: seq<PatchBlock>)
    requires forall i :: 0 <= i < |blocks| ==> EncodableBlock(blocks[i])
    requires EndsWith(buf, cursor, EncodeBlocks(blocks))
    ensures DecodeBlocks(buf, cursor, |blocks|, acc) ==
      Success(Read(acc + blocks, cursor - |EncodeBlocks(blocks)|))
    decreases |blocks|
  {
    if blocks == [] {
      assert acc + blocks == acc;
    } else {
      var tail := blocks[1..];
      var next := cursor - |EncodeBlock(blocks[0])|;
      DecodeFirstEncodedBlock(buf, cursor, blocks, acc, tail, next);
      DecodeEncodedBlocks(buf, next, tail, acc + [blocks[0]]);
      AppendHeadAndTail(acc, blocks);
    }
  }

  /** `DecodePatch` once every field ahead of the blocks, and the blocks, are known. */
  lemma DecodePatchFields(
      buf: seq<byte>, descriptionLength: int, blocksEnd: int, p: Patch, blocksStart: int)
    requires 0 <= descriptionLength && blocksEnd == |buf| - 12 - descriptionLength && 0 <= blocksEnd
    requires Int32At(buf, |buf| - 4) == descriptionLength
    requires AsciiString(buf[blocksEnd + 8..|buf| - 4]) == p.description
    requires Int32At(buf, blocksEnd + 4) == p.targetLength
    requires Int32At(buf, blocksEnd) == |p.blocks|
    requires DecodeBlocks(buf, blocksEnd, |p.blocks|, []) == Success(Read(p.blocks, blocksStart))
    ensures DecodePatch(buf) == Success(p)
  {
  }

  /** An encoded description, starting at `start`, is read back together with its length field. */
  lemma ReadEncodedDescription(buf: seq<byte>, cursor: int, front: seq<byte>, description: string, start: int)
    requires IsAscii(description) && |description| < INT32_LIMIT
    requires EndsWith(buf, cursor, front + EncodeDescription(description))
    requires start == cursor - 4 - |description|
    ensures 0 <= start
    ensures Int32At(buf, cursor - 4) == |description|
    ensures AsciiString(buf[start..cursor - 4]) == description
    ensures EndsWith(buf, start, front)
  {
    var withText := front + AsciiBytes(description);
    assert front + EncodeDescription(description) == withText + Int32Bytes(|description|);
    SplitEnd(buf, cursor, withText, Int32Bytes(|description|));
    ReadEncodedInt32(buf, cursor, |description|);
    SplitEnd(buf, cursor - 4, front, AsciiBytes(description));
  }

  /** Two encoded fields are read back, the last one first. */
  lemma ReadEncodedPair(buf: seq<byte>, cursor: int, front: seq<byte>, first: int, second: int)
    requires IsInt32(first) && IsInt32(second)
    requires EndsWith(buf, cursor, front + Int32Bytes(first) + Int32Bytes(second))
    ensures 8 <= cursor
    ensures Int32At(buf, cursor - 4) == second
    ensures Int32At(buf, cursor - 8) == first
    ensures EndsWith(buf, cursor - 8, front)
  {
    SplitEnd(buf, cursor, front + Int32Bytes(first), Int32Bytes(second));
    ReadEncodedInt32(buf, cursor, second);
    SplitEnd(buf, cursor - 4, front, Int32Bytes(first));
    ReadEncodedInt32(buf, cursor - 4, first);
  }

  /** The target length and block count of an encoded patch are read back, and so are its blocks. */
  lemma EncodedPatchBlocks(buf: seq<byte>, prefix: seq<byte>, p: Patch, blocksEnd: int)
    requires EncodablePatch(p)
    requires blocksEnd == |prefix| + |EncodeBlocks(p.blocks)|
    requires EndsWith(buf, blocksEnd + 8, prefix + EncodeBlocks(p.blocks) + Int32Bytes(|p.blocks|) + Int32Bytes(p.targetLength))
    ensures Int32At(buf, blocksEnd + 4) == p.targetLength
    ensures Int32At(buf, blocksEnd) == |p.blocks|
    ensures DecodeBlocks(buf, blocksEnd, |p.blocks|, []) == Success(Read(p.blocks, |prefix|))
  {
    ReadEncodedPair(buf, blocksEnd + 8, prefix + EncodeBlocks(p.blocks), |p.blocks|, p.targetLength);
    SplitEnd(buf, blocksEnd, prefix, EncodeBlocks(p.blocks));
    DecodeEncodedBlocks(buf, blocksEnd, p.blocks, []);
    assert [] + p.blocks == p.blocks;
  }

  /** The encoding of `p` after `prefix`: the blocks and two fields, then the description. */
  lemma EncodedPatchSplit(prefix: seq<byte>, p: Patch, header: seq<byte>)
    requires EncodablePatch(p)
    requires header == prefix + EncodeBlocks(p.blocks) + Int32Bytes(|p.blocks|) + Int32Bytes(p.targetLength)
    ensures prefix + EncodePatch(p) == header + EncodeDescription(p.description)
  {
  }

  /**
   * Decoding an encoded patch gives it back, whatever bytes precede the encoding: the format
   * is anchored at the end of the file.
   */
  lemma DecodeEncodedPatch(prefix: seq<byte>, p: Patch)
    requires EncodablePatch(p)
    ensures DecodePatch(prefix + EncodePatch(p)) == Success(p)
  {
    var buf := prefix + EncodePatch(p);
    var header := prefix + EncodeBlocks(p.blocks) + Int32Bytes(|p.blocks|) + Int32Bytes(p.targetLength);
    assert |buf| == |header| + 4 + |p.description| &&
      EndsWith(buf, |buf|, header + EncodeDescription(p.description))
    by {
      EncodedPatchSplit(prefix, p, header);
    }
    DecodeEncodedPatchAfter(buf, prefix, header, p);
  }

  /** `DecodeEncodedPatch` for a buffer ending with the header fields and the description. */
  lemma DecodeEncodedPatchAfter(buf: seq<byte>, prefix: seq<byte>, header: seq<byte>, p: Patch)
    requires EncodablePatch(p)
    requires header == prefix + EncodeBlocks(p.blocks) + Int32Bytes(|p.blocks|) + Int32Bytes(p.targetLength)
    requires |buf| == |header| + 4 + |p.description|
    requires EndsWith(buf, |buf|, header + EncodeDescription(p.description))
    ensures DecodePatch(buf) == Success(p)
  {
    var blocksEnd := |prefix| + |EncodeBlocks(p.blocks)|;
    assert Int32At(buf, |buf| - 4) == |p.description| &&
      AsciiString(buf[blocksEnd + 8..|buf| - 4]) == p.description &&
      EndsWith(buf, blocksEnd + 8, header)
    by {
      ReadEncodedDescription(buf, |buf|, header, p.description, blocksEnd + 8);
    }
    assert Int32At(buf, blocksEnd + 4) == p.targetLength && Int32At(buf, blocksEnd) == |p.blocks| &&
      DecodeBlocks(buf, blocksEnd, |p.blocks|, []) == Success(Read(p.blocks, |prefix|))
    by {
      EncodedPatchBlocks(buf, prefix, p, blocksEnd);
    }
    DecodePatchFields(buf, |p.description|, blocksEnd, p, |prefix|);
  }
}
