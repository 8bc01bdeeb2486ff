/**
 * The relocation tracker: a working copy of the executable's relocation table, changed one
 * patched range at a time, and the diff against the original that becomes the table's edits.
 *
 * The tracker's own source is not part of this model. What the patcher relies on is taken as
 * a hypothesis: `replaceInRange` removes every tracked offset of the segment inside
 * `[start, end)` and then adds the given offsets, and `produceEdits` yields the edits that turn
 * the original table into the tracked one.
 */
module RelocationTracking {
  import opened Executables
  import opened Edits

  predicate InRange(x: Relocation, segmentIndex: int, start: int, end: int) {
    x.segmentIndex == segmentIndex && start <= x.offset < end
  }

  /** The tracked set after `replaceInRange(segmentIndex, start, end, offsets)`. */
  function Replaced(tracked: set<Relocation>, segmentIndex: int, start: int, end: int, offsets: set<int>): (r: set<Relocation>)
    ensures forall x :: x in r <==>
      (x in tracked && !InRange(x, segmentIndex, start, end)) ||
      (x.segmentIndex == segmentIndex && x.offset in offsets)
  {
    (set x | x in tracked && !InRange(x, segmentIndex, start, end)) +
    (set offset | offset in offsets :: Relocation(segmentIndex, offset))
  }

  /**
   * The edit that turns the `original` table into `tracked`: it removes only entries of the
   * original table, adds only entries the original lacks, and leaves the others alone.
   */
  function RelocationDiff(original: set<Relocation>, tracked: set<Relocation>): (edit: Edit)
    ensures edit.RelocationTableDiff?
    ensures edit.removed <= original && edit.added !! original
    ensures (original - edit.removed) + edit.added == tracked
  {
    RelocationTableDiff(original - tracked, tracked - original)
  }

  class RelocationTracker {
    /** The executable's relocation table when tracking began. */
    const original: set<Relocation>
    /** The table as patched so far. */
    var tracked: set<Relocation>

    constructor ForExecutable(executable: Executable)
      ensures original == executable.relocations
      ensures tracked == executable.relocations
    {
      original := executable.relocations;
      tracked := executable.relocations;
    }

    method ReplaceInRange(segmentIndex: int, start: int, end: int, offsets: set<int>)
      modifies this
      ensures tracked == Replaced(old(tracked), segmentIndex, start, end, offsets)
    {
      tracked := Replaced(tracked, segmentIndex, start, end, offsets);
    }

    /** The edits that bring the relocation table from `original` to `tracked`. */
    method ProduceEdits() returns (edits: seq<Edit>)
      ensures edits == [RelocationDiff(original, tracked)]
    {
      edits := [RelocationDiff(original, tracked)];
    }
  }
}
