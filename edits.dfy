/**
 * Edits, the state that accumulates them alongside the current executable, and the
 * left-to-right composition of operations on that state.
 */
module Edits {
  import opened Executables
  import opened LittleEndian

  /**
   * `Overwrite` puts `bytes` at `fileOffset`, labelled with the patch block's address.
   * `RelocationTableDiff` stands for the edits the relocation tracker produces to bring the
   * relocation table from its original entries to the tracked ones: the entries it removes
   * and the entries it adds.
   */
  datatype Edit =
    | Overwrite(blockAddress: Address, fileOffset: int, bytes: seq<byte>)
    | RelocationTableDiff(removed: set<Relocation>, added: set<Relocation>)

  /** An executable paired with the edits accumulated so far. */
  datatype ExecutableEditState = ExecutableEditState(executable: Executable, accumulatedEdits: seq<Edit>)

  function StartingWith(executable: Executable): (s: ExecutableEditState)
    ensures s.executable == executable && s.accumulatedEdits == []
  {
    ExecutableEditState(executable, [])
  }

  type EditOperation = ExecutableEditState -> ExecutableEditState

  function Identity(): EditOperation {
    s => s
  }

  /** `first.andThen(second)`: run `first`, then `second` on its result. */
  function AndThen(first: EditOperation, second: EditOperation): EditOperation {
    s => second(first(s))
  }

  /** `reduce(identity, andThen)` over `ops`: the left fold that starts from `acc`. */
  function Reduce(acc: EditOperation, ops: seq<EditOperation>): EditOperation
    decreases |ops|
  {
    if ops == [] then acc else Reduce(AndThen(acc, ops[0]), ops[1..])
  }

  /** The composition of all `ops`, folded from the identity. */
  function ComposeAll(ops: seq<EditOperation>): EditOperation {
    Reduce(Identity(), ops)
  }

  /** Reference meaning of a sequence of operations: the first one runs first. */
  function ApplyInOrder(ops: seq<EditOperation>, s: ExecutableEditState): ExecutableEditState
    decreases |ops|
  {
    if ops == [] then s else ApplyInOrder(ops[1..], ops[0](s))
  }

  lemma {:induction false} ReduceAppliesInOrder(acc: EditOperation, ops: seq<EditOperation>, s: ExecutableEditState)
    ensures Reduce(acc, ops)(s) == ApplyInOrder(ops, acc(s))
    decreases |ops|
  {
    if ops != [] {
      ReduceAppliesInOrder(AndThen(acc, ops[0]), ops[1..], s);
    }
  }

  /** Folding from the identity applies the operations in argument order. */
  lemma ComposeAllAppliesInOrder(ops: seq<EditOperation>, s: ExecutableEditState)
    ensures ComposeAll(ops)(s) == ApplyInOrder(ops, s)
    ensures ops == [] ==> ComposeAll(ops)(s) == s
  {
    ReduceAppliesInOrder(Identity(), ops, s);
  }

  /**
   * If every operation only appends to the accumulated edits, the edits of the starting state
   * stay a prefix of the composed result's, and every stage's output is the next one's input.
   */
  lemma {:induction false} AppendingOperationsKeepEarlierEdits(ops: seq<EditOperation>, s: ExecutableEditState)
    requires forall i, t: ExecutableEditState :: 0 <= i < |ops| ==> t.accumulatedEdits <= ops[i](t).accumulatedEdits
    ensures s.accumulatedEdits <= ApplyInOrder(ops, s).accumulatedEdits
    decreases |ops|
  {
    if ops != [] {
      var next := ops[0](s);
      assert s.accumulatedEdits <= next.accumulatedEdits;
      AppendingOperationsKeepEarlierEdits(ops[1..], next);
    }
  }

  /** Running `first ++ second` is running `first`, then `second` on what it produced. */
  lemma {:induction false} ApplyInOrderAppend(first: seq<EditOperation>, second: seq<EditOperation>, s: ExecutableEditState)
    ensures ApplyInOrder(first + second, s) == ApplyInOrder(second, ApplyInOrder(first, s))
    decreases |first|
  {
    if first != [] {
      assert (first + second)[1..] == first[1..] + second;
      ApplyInOrderAppend(first[1..], second, first[0](s));
    } else {
      assert first + second == second;
    }
  }
}
