/**
 * Ordering of patch blocks by (segment index, start offset) and the overlap walk over
 * neighbours in that order.
 */
module BlockOrder {
  import opened Wrappers
  import opened Patches

  /** The sort key comparison: segment index first, then start offset. */
  predicate KeyLe(a: PatchBlock, b: PatchBlock) {
    a.segmentIndex < b.segmentIndex ||
    (a.segmentIndex == b.segmentIndex && a.startOffset <= b.startOffset)
  }

  predicate SortedByKey(s: seq<PatchBlock>) {
    forall i, j :: 0 <= i < j < |s| ==> KeyLe(s[i], s[j])
  }

  /**
   * Inserts `b` after every block whose key is not greater than its own, so that blocks with
   * equal keys keep their original order (the sort is stable).
   */
  function InsertByKey(s: seq<PatchBlock>, b: PatchBlock): (r: seq<PatchBlock>)
    ensures multiset(r) == multiset(s) + multiset{b}
    decreases |s|
  {
    if s == [] || KeyLe(s[|s| - 1], b) then s + [b]
    else
      assert s == s[..|s| - 1] + [s[|s| - 1]];
      InsertByKey(s[..|s| - 1], b) + [s[|s| - 1]]
  }

  /** Inserting into a sorted sequence keeps it sorted. */
  lemma {:induction false} InsertByKeySorted(s: seq<PatchBlock>, b: PatchBlock)
    requires SortedByKey(s)
    ensures SortedByKey(InsertByKey(s, b))
    decreases |s|
  {
    if s == [] || KeyLe(s[|s| - 1], b) {
      forall i | 0 <= i < |s| ensures KeyLe(s[i], b) {
        assert i < |s| - 1 ==> KeyLe(s[i], s[|s| - 1]);
      }
    } else {
      var last := s[|s| - 1];
      var init := s[..|s| - 1];
      var front := InsertByKey(init, b);
      InsertByKeySorted(init, b);
      forall i | 0 <= i < |front| ensures KeyLe(front[i], last) {
        assert front[i] in multiset(init) + multiset{b} by {
          assert front[i] in multiset(front);
        }
        if front[i] != b {
          var j :| 0 <= j < |init| && init[j] == front[i];
          assert KeyLe(s[j], s[|s| - 1]);
        }
      }
      assert InsertByKey(s, b) == front + [last];
    }
  }

  /** `[b]` when `b` has the key (segmentIndex, startOffset), else nothing. */
  function Keyed(b: PatchBlock, segmentIndex: int, startOffset: int): seq<PatchBlock> {
    if b.segmentIndex == segmentIndex && b.startOffset == startOffset then [b] else []
  }

  /** The blocks of `s` with the key (segmentIndex, startOffset), in their order in `s`. */
  function WithKey(s: seq<PatchBlock>, segmentIndex: int, startOffset: int): seq<PatchBlock>
    decreases |s|
  {
    if s == [] then []
    else WithKey(s[..|s| - 1], segmentIndex, startOffset) + Keyed(s[|s| - 1], segmentIndex, startOffset)
  }

  /**
   * Inserting `b` places it after every block of its own key and leaves the order among the
   * blocks of that key as it was.
   */
  lemma {:induction false} InsertByKeyKeepsKeyOrder(s: seq<PatchBlock>, b: PatchBlock, segmentIndex: int, startOffset: int)
    ensures WithKey(InsertByKey(s, b), segmentIndex, startOffset) ==
      WithKey(s, segmentIndex, startOffset) + Keyed(b, segmentIndex, startOffset)
    decreases |s|
  {
    if s == [] || KeyLe(s[|s| - 1], b) {
      WithKeyAppend(s, b, segmentIndex, startOffset);
    } else {
      var init := s[..|s| - 1];
      var last := s[|s| - 1];
      assert s == init + [last];
      InsertByKeyKeepsKeyOrder(init, b, segmentIndex, startOffset);
      InsertedBeforeLast(init, last, b, InsertByKey(init, b), segmentIndex, startOffset);
    }
  }

  /** `b`, inserted before a last block of a greater key, still ends its own key's subsequence. */
  lemma InsertedBeforeLast(
      init: seq<PatchBlock>, last: PatchBlock, b: PatchBlock, front: seq<PatchBlock>, segmentIndex: int, startOffset: int)
    requires !KeyLe(last, b)
    requires WithKey(front, segmentIndex, startOffset) ==
      WithKey(init, segmentIndex, startOffset) + Keyed(b, segmentIndex, startOffset)
    ensures WithKey(front + [last], segmentIndex, startOffset) ==
      WithKey(init + [last], segmentIndex, startOffset) + Keyed(b, segmentIndex, startOffset)
  {
    var before := WithKey(init, segmentIndex, startOffset);
    var ofB := Keyed(b, segmentIndex, startOffset);
    var ofLast := Keyed(last, segmentIndex, startOffset);
    assert WithKey(front + [last], segmentIndex, startOffset) == before + ofB + ofLast by {
      WithKeyAppend(front, last, segmentIndex, startOffset);
    }
    assert WithKey(init + [last], segmentIndex, startOffset) == before + ofLast by {
      WithKeyAppend(init, last, segmentIndex, startOffset);
    }
    if ofB == [] {
      assert before + ofB == before;
    } else {
      assert ofLast == [];
      assert before + ofLast == before;
      assert before + ofB + ofLast == before + ofB;
    }
  }

  /** A block appended at the end joins the end of its key's subsequence. */
  lemma WithKeyAppend(s: seq<PatchBlock>, b: PatchBlock, segmentIndex: int, startOffset: int)
    ensures WithKey(s + [b], segmentIndex, startOffset) ==
      WithKey(s, segmentIndex, startOffset) + Keyed(b, segmentIndex, startOffset)
  {
    assert (s + [b])[..|s|] == s;
  }

  /** `InsertByKeyKeepsKeyOrder` for every key at once. */
  lemma InsertByKeyStable(s: seq<PatchBlock>, b: PatchBlock)
    ensures forall segmentIndex, startOffset ::
      WithKey(InsertByKey(s, b), segmentIndex, startOffset) ==
        WithKey(s, segmentIndex, startOffset) + Keyed(b, segmentIndex, startOffset)
  {
    forall segmentIndex, startOffset {
      InsertByKeyKeepsKeyOrder(s, b, segmentIndex, startOffset);
    }
  }

  /**
   * The blocks sorted by (segment index, start offset): a sorted permutation of `bs` in which
   * blocks with equal keys keep their order in `bs` (the sort is stable).
   */
  function SortBySegmentAndOffset(bs: seq<PatchBlock>): (r: seq<PatchBlock>)
    ensures SortedByKey(r)
    ensures multiset(r) == multiset(bs)
    ensures forall segmentIndex, startOffset ::
      WithKey(r, segmentIndex, startOffset) == WithKey(bs, segmentIndex, startOffset)
    decreases |bs|
  {
    if bs == [] then []
    else
      assert bs == bs[..|bs| - 1] + [bs[|bs| - 1]];
      var front := SortBySegmentAndOffset(bs[..|bs| - 1]);
      InsertByKeySorted(front, bs[|bs| - 1]);
      InsertByKeyStable(front, bs[|bs| - 1]);
      InsertByKey(front, bs[|bs| - 1])
  }

  /** Two blocks already in key order are left as they are. */
  lemma OrderedPairSorted(s: seq<PatchBlock>)
    requires |s| == 2 && KeyLe(s[0], s[1])
    ensures SortBySegmentAndOffset(s) == s
  {
    assert s[..1] == [s[0]];
    assert SortBySegmentAndOffset([s[0]]) == [s[0]];
    assert s == [s[0]] + [s[1]];
  }

  /** `block`, sorted just after `preceding`, starts before `preceding` ends in the same segment. */
  predicate OverlapsPreceding(preceding: PatchBlock, block: PatchBlock) {
    block.segmentIndex == preceding.segmentIndex && block.startOffset < preceding.EndOffset()
  }

  /** The position of the first neighbouring pair `s[p], s[p + 1]` that overlaps, if any. */
  function FirstOverlap(s: seq<PatchBlock>): (r: Option<nat>)
    ensures r.Some? ==> r.value + 1 < |s| && OverlapsPreceding(s[r.value], s[r.value + 1])
    ensures forall k :: 0 <= k && k + 1 < |s| && (r.Some? ==> k < r.value) ==>
      !OverlapsPreceding(s[k], s[k + 1])
    decreases |s|
  {
    if |s| < 2 then None
    else if OverlapsPreceding(s[0], s[1]) then Some(0)
    else
      match FirstOverlap(s[1..])
      case Some(p) => Some(p + 1)
      case None => None
  }

  /**
   * The two blocks' ranges in the same segment intersect. For non-empty blocks that means
   * they share a byte; an empty block strictly inside another also counts.
   */
  predicate Intersect(a: PatchBlock, b: PatchBlock) {
    a.segmentIndex == b.segmentIndex &&
    a.startOffset < b.EndOffset() && b.startOffset < a.EndOffset()
  }

  /** No two blocks share a byte. */
  predicate PairwiseDisjoint(bs: seq<PatchBlock>) {
    forall i, j :: 0 <= i < |bs| && 0 <= j < |bs| && i != j ==> !Intersect(bs[i], bs[j])
  }

  /**
   * On a sorted sequence, checking neighbours is enough: if no neighbours overlap, every
   * block in a segment ends at or before the start of every later block in that segment.
   */
  lemma {:induction false} NoNeighbourOverlapSeparatesAll(s: seq<PatchBlock>, i: int, j: int)
    requires SortedByKey(s) && FirstOverlap(s).None?
    requires 0 <= i < j < |s| && s[i].segmentIndex == s[j].segmentIndex
    ensures s[i].EndOffset() <= s[j].startOffset
    decreases j - i
  {
    assert !OverlapsPreceding(s[i], s[i + 1]);
    if j > i + 1 {
      assert KeyLe(s[i], s[i + 1]) && KeyLe(s[i + 1], s[j]);
      NoNeighbourOverlapSeparatesAll(s, i + 1, j);
    }
  }

  lemma {:induction false} RepeatedValueCounts<T>(a: seq<T>, i: int, j: int)
    requires 0 <= i < j < |a| && a[i] == a[j]
    ensures multiset(a)[a[i]] >= 2
  {
    assert a == a[..j] + [a[j]] + a[j + 1..];
    assert a[i] in a[..j];
    assert multiset(a) == multiset(a[..j]) + multiset{a[j]} + multiset(a[j + 1..]);
  }

  lemma TwoPositionsOf<T>(b: seq<T>, x: T) returns (p: int, q: int)
    requires multiset(b)[x] >= 2
    ensures 0 <= p < |b| && 0 <= q < |b| && p != q && b[p] == x && b[q] == x
  {
    assert x in multiset(b);
    p :| 0 <= p < |b| && b[p] == x;
    assert b == b[..p] + [b[p]] + b[p + 1..];
    assert multiset(b) == multiset(b[..p]) + multiset{b[p]} + multiset(b[p + 1..]);
    if x in b[..p] {
      q :| 0 <= q < p && b[..p][q] == x;
    } else {
      assert x in multiset(b[p + 1..]);
      var k :| 0 <= k < |b| - p - 1 && b[p + 1..][k] == x;
      q := p + 1 + k;
    }
  }

  /**
   * Two different positions of a sequence name two different positions of any permutation of
   * it holding the same two values.
   */
  lemma PositionsInPermutation<T>(a: seq<T>, b: seq<T>, i: int, j: int) returns (p: int, q: int)
    requires multiset(a) == multiset(b)
    requires 0 <= i < |a| && 0 <= j < |a| && i != j
    ensures 0 <= p < |b| && 0 <= q < |b| && p != q && b[p] == a[i] && b[q] == a[j]
  {
    if a[i] == a[j] {
      if i < j { RepeatedValueCounts(a, i, j); } else { RepeatedValueCounts(a, j, i); }
      p, q := TwoPositionsOf(b, a[i]);
    } else {
      assert a[i] in multiset(b) && a[j] in multiset(b);
      p :| 0 <= p < |b| && b[p] == a[i];
      q :| 0 <= q < |b| && b[q] == a[j];
    }
  }

  /**
   * Any two blocks that intersect are caught by the neighbour walk after sorting, wherever
   * they sit in the original order.
   */
  lemma IntersectingBlocksAreCaught(bs: seq<PatchBlock>, i: int, j: int)
    requires 0 <= i < |bs| && 0 <= j < |bs| && i != j
    requires Intersect(bs[i], bs[j])
    ensures FirstOverlap(SortBySegmentAndOffset(bs)).Some?
  {
    var s := SortBySegmentAndOffset(bs);
    var p, q := PositionsInPermutation(bs, s, i, j);
    if FirstOverlap(s).None? {
      if p < q {
        NoNeighbourOverlapSeparatesAll(s, p, q);
      } else {
        NoNeighbourOverlapSeparatesAll(s, q, p);
      }
    }
  }

  /**
   * Conversely, non-empty blocks that pairwise share no byte pass the neighbour walk; abutting
   * blocks (one starting where another ends) and blocks in different segments never conflict.
   */
  lemma DisjointBlocksPass(bs: seq<PatchBlock>)
    requires PairwiseDisjoint(bs)
    requires forall i :: 0 <= i < |bs| ==> |bs[i].codeBytes| > 0
    ensures FirstOverlap(SortBySegmentAndOffset(bs)).None?
  {
    var s := SortBySegmentAndOffset(bs);
    var overlap := FirstOverlap(s);
    if overlap.Some? {
      var p := overlap.value;
      assert KeyLe(s[p], s[p + 1]);
      var i, j := PositionsInPermutation(s, bs, p, p + 1);
      assert Intersect(bs[i], bs[j]);
      assert false;
    }
  }
}
