/**
 * The patcher's top level: expanding overlays, applying patches to the expanded executable,
 * appending a compiled hack's edits, and the target-length checks that guard each stage.
 */
module Patcher {
  import opened Wrappers
  import opened Executables
  import opened Patches
  import opened Edits
  import opened PatchApplication

  /** The spacing placed after an expanded overlay when none is given. */
  const DEFAULT_EOP_SPACING: int := 0x100

  function EopSpacing(eopSpacingArg: Option<int>): int {
    eopSpacingArg.GetOr(DEFAULT_EOP_SPACING)
  }

  /**
   * Builds the operation that expands overlay segment `segmentIndex` to end at the given
   * in-segment offset, leaving the given spacing after it. How it rewrites the executable is
   * not part of this model.
   */
  type ExpandOverlay = (int, int, int) -> EditOperation

  /** One expand operation per `segment:length` argument, in argument order. */
  function ExpandOperations(expand: ExpandOverlay, args: seq<Address>, eopSpacing: int): seq<EditOperation> {
    seq(|args|, i requires 0 <= i < |args| => expand(args[i].segmentIndex, args[i].offset, eopSpacing))
  }

  /** The executable with every requested overlay expanded, and the edits that did it. */
  function WithExpandedOverlays(executable: Executable, expand: ExpandOverlay, args: seq<Address>, eopSpacingArg: Option<int>): ExecutableEditState {
    ComposeAll(ExpandOperations(expand, args, EopSpacing(eopSpacingArg)))(StartingWith(executable))
  }

  /**
   * The expansions run in argument order, each on the result of the one before, starting from
   * the executable with no edits; with no arguments that starting state is the result.
   */
  lemma ExpandedOverlaysInOrder(executable: Executable, expand: ExpandOverlay, args: seq<Address>, eopSpacingArg: Option<int>)
    ensures
      var spacing := EopSpacing(eopSpacingArg);
      WithExpandedOverlays(executable, expand, args, eopSpacingArg) ==
        ApplyInOrder(ExpandOperations(expand, args, spacing), StartingWith(executable))
    ensures args == [] ==>
      WithExpandedOverlays(executable, expand, args, eopSpacingArg).executable == executable &&
      WithExpandedOverlays(executable, expand, args, eopSpacingArg).accumulatedEdits == []
  {
    ComposeAllAppliesInOrder(ExpandOperations(expand, args, EopSpacing(eopSpacingArg)), StartingWith(executable));
  }

  /** Expanding with `first ++ second` is expanding with `second` after `first`. */
  lemma ExpandedOverlaysSplit(
      executable: Executable, expand: ExpandOverlay, first: seq<Address>, second: seq<Address>, eopSpacingArg: Option<int>)
    ensures
      var spacing := EopSpacing(eopSpacingArg);
      WithExpandedOverlays(executable, expand, first + second, eopSpacingArg) ==
        ApplyInOrder(ExpandOperations(expand, second, spacing),
          WithExpandedOverlays(executable, expand, first, eopSpacingArg))
  {
    var spacing := EopSpacing(eopSpacingArg);
    var start := StartingWith(executable);
    assert ExpandOperations(expand, first + second, spacing) ==
      ExpandOperations(expand, first, spacing) + ExpandOperations(expand, second, spacing);
    ExpandedOverlaysInOrder(executable, expand, first + second, eopSpacingArg);
    ExpandedOverlaysInOrder(executable, expand, first, eopSpacingArg);
    ApplyInOrderAppend(ExpandOperations(expand, first, spacing), ExpandOperations(expand, second, spacing), start);
  }

  /** Why the patcher stops: a target length that does not match, or a rejected patch. */
  datatype RunError =
    | TargetLengthMismatch(targetLength: int, fileLength: int)
    | PatchRejected(error: ApplyError)

  /**
   * A target length different from the executable's length stops the patcher, unless the
   * length check is to be ignored.
   */
  function CheckTargetLength(targetLength: int, fileLength: int, ignoreExeLength: bool): (r: Option<RunError>)
    ensures r.None? <==> targetLength == fileLength || ignoreExeLength
    ensures r.Some? ==> r.value == TargetLengthMismatch(targetLength, fileLength)
  {
    if targetLength != fileLength && !ignoreExeLength then Some(TargetLengthMismatch(targetLength, fileLength))
    else None
  }

  /** The position of the first patch whose target length is refused. */
  function FirstMismatch(patches: seq<Patch>, fileLength: int, ignoreExeLength: bool): (r: Option<nat>)
    ensures r.Some? ==>
      r.value < |patches| && CheckTargetLength(patches[r.value].targetLength, fileLength, ignoreExeLength).Some?
    ensures forall k :: 0 <= k < |patches| && (r.Some? ==> k < r.value) ==>
      CheckTargetLength(patches[k].targetLength, fileLength, ignoreExeLength).None?
    decreases |patches|
  {
    if patches == [] then None
    else if CheckTargetLength(patches[0].targetLength, fileLength, ignoreExeLength).Some? then Some(0)
    else
      match FirstMismatch(patches[1..], fileLength, ignoreExeLength)
      case Some(p) => Some(p + 1)
      case None => None
  }

  /** A compiled hack: its edits, and optionally the file length it was compiled for and a comment. */
  datatype Hack = Hack(edits: seq<Edit>, targetLength: Option<int>, comment: Option<string>)

  /** The edits the patches contribute: none without patches, else checked against `executable`. */
  function PatchStage(executable: Executable, patches: seq<Patch>, ignoreExeLength: bool): Result<seq<Edit>, RunError> {
    if patches == [] then Success([])
    else
      match FirstMismatch(patches, executable.fileLength, ignoreExeLength)
      case Some(k) => Failure(CheckTargetLength(patches[k].targetLength, executable.fileLength, ignoreExeLength).value)
      case None =>
        match PatchEdits(executable, patches)
        case Failure(e) => Failure(PatchRejected(e))
        case Success(edits) => Success(edits)
  }

  /** The edits a hack contributes, its target length checked against `originalLength`. */
  function HackStage(hack: Option<Hack>, originalLength: int, ignoreExeLength: bool): Result<seq<Edit>, RunError> {
    match hack
    case None => Success([])
    case Some(h) =>
      if h.targetLength.Some? && CheckTargetLength(h.targetLength.value, originalLength, ignoreExeLength).Some? then
        Failure(CheckTargetLength(h.targetLength.value, originalLength, ignoreExeLength).value)
      else Success(h.edits)
  }

  /** All resulting edits: the expansions', then the patches', then the hack's. */
  function ResultingEdits(
      original: Executable, expand: ExpandOverlay, expandArgs: seq<Address>, eopSpacingArg: Option<int>,
      patches: seq<Patch>, hack: Option<Hack>, ignoreExeLength: bool): Result<seq<Edit>, RunError>
  {
    var expanded := WithExpandedOverlays(original, expand, expandArgs, eopSpacingArg);
    var patchEdits :- PatchStage(expanded.executable, patches, ignoreExeLength);
    var hackEdits :- HackStage(hack, original.fileLength, ignoreExeLength);
    Success(expanded.accumulatedEdits + patchEdits + hackEdits)
  }

  /**
   * The patcher's assembly of edits for one executable: expand the overlays, check every
   * patch's target length against the expanded executable and apply the patches to it, then
   * check the hack's target length against the original executable and append its edits.
   */
  method AssembleEdits(
      originalExecutable: Executable, expand: ExpandOverlay, expandArgs: seq<Address>, eopSpacingArg: Option<int>,
      patches: seq<Patch>, hack: Option<Hack>, ignoreExeLength: bool)
    returns (r: Result<seq<Edit>, RunError>)
    ensures r == ResultingEdits(originalExecutable, expand, expandArgs, eopSpacingArg, patches, hack, ignoreExeLength)
  {
    var editsBuilder: seq<Edit> := [];
    var originalExeLength := originalExecutable.fileLength;
    var expandedExecutableState := WithExpandedOverlays(originalExecutable, expand, expandArgs, eopSpacingArg);
    var executable := expandedExecutableState.executable;
    editsBuilder := editsBuilder + expandedExecutableState.accumulatedEdits;
    assert editsBuilder == expandedExecutableState.accumulatedEdits;

    ghost var patchPart: seq<Edit> := [];
    if patches != [] {
      var i := 0;
      while i < |patches|
        invariant 0 <= i <= |patches|
        invariant forall k :: 0 <= k < i ==> CheckTargetLength(patches[k].targetLength, executable.fileLength, ignoreExeLength).None?
      {
        var mismatch := CheckTargetLength(patches[i].targetLength, executable.fileLength, ignoreExeLength);
        if mismatch.Some? {
          assert FirstMismatch(patches, executable.fileLength, ignoreExeLength) == Some(i);
          return Failure(mismatch.value);
        }
        i := i + 1;
      }
      assert FirstMismatch(patches, executable.fileLength, ignoreExeLength).None?;
      var patchEdits := EditsForPatches(executable, patches);
      if patchEdits.Failure? {
        return Failure(PatchRejected(patchEdits.error));
      }
      editsBuilder := editsBuilder + patchEdits.value;
      patchPart := patchEdits.value;
    }
    assert PatchStage(executable, patches, ignoreExeLength) == Success(patchPart);
    assert editsBuilder == expandedExecutableState.accumulatedEdits + patchPart;

    ghost var hackPart: seq<Edit> := [];

    if hack.Some? {
      if hack.value.targetLength.Some? {
        var mismatch := CheckTargetLength(hack.value.targetLength.value, originalExeLength, ignoreExeLength);
        if mismatch.Some? {
          return Failure(mismatch.value);
        }
      }
      editsBuilder := editsBuilder + hack.value.edits;
      hackPart := hack.value.edits;
    }
    assert HackStage(hack, originalExeLength, ignoreExeLength) == Success(hackPart);
    assert editsBuilder == expandedExecutableState.accumulatedEdits + patchPart + hackPart;
    assert ResultingEdits(originalExecutable, expand, expandArgs, eopSpacingArg, patches, hack, ignoreExeLength) ==
      Success(expandedExecutableState.accumulatedEdits + patchPart + hackPart);
    return Success(editsBuilder);
  }

  /**
   * The patch stage succeeds exactly when there are no patches, or every patch's target length
   * is accepted against `executable` and the patches apply to it.
   */
  lemma PatchStageSucceedsExactlyWhen(executable: Executable, patches: seq<Patch>, ignoreExeLength: bool)
    ensures PatchStage(executable, patches, ignoreExeLength).Success? <==>
      (patches == [] ||
        ((ignoreExeLength || forall k :: 0 <= k < |patches| ==> patches[k].targetLength == executable.fileLength) &&
         PatchEdits(executable, patches).Success?))
  {
    var first := FirstMismatch(patches, executable.fileLength, ignoreExeLength);
    if first.Some? {
      assert patches[first.value].targetLength != executable.fileLength;
    }
  }

  /** The hack stage succeeds exactly when the hack, if any, names no other target length. */
  lemma HackStageSucceedsExactlyWhen(hack: Option<Hack>, originalLength: int, ignoreExeLength: bool)
    ensures HackStage(hack, originalLength, ignoreExeLength).Success? <==>
      (ignoreExeLength || hack.None? || hack.value.targetLength.None? ||
        hack.value.targetLength.value == originalLength)
  {
  }

  /**
   * The assembly succeeds exactly when every patch's target length is the expanded
   * executable's length, the patches apply to the expanded executable, and the hack's target
   * length, if any, is the original executable's length; the length checks are dropped when
   * they are to be ignored, and the patch checks when there are no patches.
   */
  lemma ResultingEditsSucceedExactlyWhen(
      original: Executable, expand: ExpandOverlay, expandArgs: seq<Address>, eopSpacingArg: Option<int>,
      patches: seq<Patch>, hack: Option<Hack>, ignoreExeLength: bool)
    ensures
      var expanded := WithExpandedOverlays(original, expand, expandArgs, eopSpacingArg).executable;
      ResultingEdits(original, expand, expandArgs, eopSpacingArg, patches, hack, ignoreExeLength).Success? <==>
        (patches == [] ||
          ((ignoreExeLength || forall k :: 0 <= k < |patches| ==> patches[k].targetLength == expanded.fileLength) &&
           PatchEdits(expanded, patches).Success?)) &&
        (ignoreExeLength || hack.None? || hack.value.targetLength.None? ||
          hack.value.targetLength.value == original.fileLength)
  {
    var expanded := WithExpandedOverlays(original, expand, expandArgs, eopSpacingArg).executable;
    PatchStageSucceedsExactlyWhen(expanded, patches, ignoreExeLength);
    HackStageSucceedsExactlyWhen(hack, original.fileLength, ignoreExeLength);
  }

  /** A successful patch stage yields the edits of applying the patches, or none without patches. */
  lemma PatchStageEdits(executable: Executable, patches: seq<Patch>, ignoreExeLength: bool)
    requires PatchStage(executable, patches, ignoreExeLength).Success?
    ensures patches == [] ==> PatchStage(executable, patches, ignoreExeLength).value == []
    ensures patches != [] ==>
      PatchEdits(executable, patches).Success? &&
      PatchStage(executable, patches, ignoreExeLength).value == PatchEdits(executable, patches).value
  {
    if patches != [] {
      assert FirstMismatch(patches, executable.fileLength, ignoreExeLength).None?;
    }
  }

  /**
   * On success the edits are the expansions' edits, then the patches' edits (those of applying
   * the patches to the expanded executable), then the hack's edits, and nothing else.
   */
  lemma ResultingEditsOrder(
      original: Executable, expand: ExpandOverlay, expandArgs: seq<Address>, eopSpacingArg: Option<int>,
      patches: seq<Patch>, hack: Option<Hack>, ignoreExeLength: bool)
    requires ResultingEdits(original, expand, expandArgs, eopSpacingArg, patches, hack, ignoreExeLength).Success?
    ensures
      var expanded := WithExpandedOverlays(original, expand, expandArgs, eopSpacingArg);
      var patchEdits := if patches == [] then [] else PatchEdits(expanded.executable, patches).value;
      var hackEdits := if hack.None? then [] else hack.value.edits;
      (patches != [] ==> PatchEdits(expanded.executable, patches).Success?) &&
      ResultingEdits(original, expand, expandArgs, eopSpacingArg, patches, hack, ignoreExeLength).value ==
        expanded.accumulatedEdits + patchEdits + hackEdits
  {
    var expanded := WithExpandedOverlays(original, expand, expandArgs, eopSpacingArg);
    var patchStage := PatchStage(expanded.executable, patches, ignoreExeLength);
    var hackStage := HackStage(hack, original.fileLength, ignoreExeLength);
    assert patchStage.Success? && hackStage.Success? &&
      ResultingEdits(original, expand, expandArgs, eopSpacingArg, patches, hack, ignoreExeLength).value ==
        expanded.accumulatedEdits + patchStage.value + hackStage.value;
    PatchStageEdits(expanded.executable, patches, ignoreExeLength);
  }
}
