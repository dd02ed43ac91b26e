/** `LineTracker`: the block list of the tracker and its dirty flag. Handler
    notifications carry no state of the tracker and are not modelled. */
module LineTracker {
  import opened Seqs
  import opened LineRanges
  import opened RangeChange
  import opened BlocksRefresher

  datatype Tracker = Tracker(blocks: seq<Block>, isDirty: bool)

  /** The blocks of a list of ranges, all carrying the same flags. */
  function BlocksOf(ranges: seq<Range>, dirty: bool): (r: seq<Block>)
    ensures |r| == |ranges|
    ensures forall i | 0 <= i < |r| :: r[i] == Block(ranges[i], dirty, false)
  {
    seq(|ranges|, i requires 0 <= i < |ranges| => Block(ranges[i], dirty, false))
  }

  /** The tracker built from a fresh diff: clean blocks, clean tracker. */
  function Init(originalChanges: seq<Range>): (t: Tracker)
    ensures !t.isDirty && !AnyDirty(t.blocks) && !AnyTooBig(t.blocks)
    ensures |t.blocks| == |originalChanges|
    ensures forall i | 0 <= i < |t.blocks| :: t.blocks[i].range == originalChanges[i]
  {
    Tracker(BlocksOf(originalChanges, false), false)
  }

  /** `setRanges`: every block, and the tracker, take the given dirty flag. */
  function SetRanges(t: Tracker, ranges: seq<Range>, dirty: bool): (r: Tracker)
    ensures r.isDirty == dirty
    ensures |r.blocks| == |ranges|
    ensures forall i | 0 <= i < |r.blocks| ::
              r.blocks[i].range == ranges[i] && r.blocks[i].isDirty == dirty && !r.blocks[i].isTooBig
  {
    Tracker(BlocksOf(ranges, dirty), dirty)
  }

  /** `destroy`: the block list is dropped; the dirty flag is left alone. */
  function Destroy(t: Tracker): (r: Tracker)
    ensures r.blocks == [] && r.isDirty == t.isDirty
  {
    t.(blocks := [])
  }

  /** `rangeChanged`: the blocks after a one-sided edit; the tracker is dirty. */
  function RangeChanged(t: Tracker, side: Side, startLine: int, beforeLength: int, afterLength: int): (r: Tracker)
    ensures r.isDirty
    ensures |r.blocks| <= |t.blocks| + 1
    ensures |r.blocks| > 0
  {
    var data := Run(t.blocks, side, startLine, beforeLength, afterLength);
    RunSize(t.blocks, side, startLine, beforeLength, afterLength);
    Tracker(data.newBlocks, true)
  }

  /** The edit replaces the affected blocks, possibly none, by one block. */
  lemma RunSize(blocks: seq<Block>, side: Side, startLine: int, beforeLength: int, afterLength: int)
    ensures |Run(blocks, side, startLine, beforeLength, afterLength).newBlocks| <= |blocks| + 1
  {
    PartitionSizes(blocks, side, startLine, startLine + beforeLength);
  }

  /** An edit keeps the block list a well-formed line diff. */
  lemma RangeChangedPreservesWellFormed(t: Tracker, side: Side, startLine: int, beforeLength: int, afterLength: int)
    requires WellFormed(t.blocks)
    requires beforeLength >= 0 && afterLength >= 0
    ensures WellFormed(RangeChanged(t, side, startLine, beforeLength, afterLength).blocks)
  {
    RunPreservesWellFormed(t.blocks, side, startLine, beforeLength, afterLength);
  }

  /** `refreshDirty`: a dirty tracker has its blocks re-diffed and becomes
      clean; a clean tracker is left as it is. */
  function RefreshDirty(t: Tracker, fastRefresh: bool, refresher: Refresher): (r: Tracker)
    ensures !r.isDirty
    ensures !AnyDirty(t.blocks) ==> r.blocks == t.blocks
    ensures t.isDirty ==> !AnyDirty(r.blocks)
    ensures !t.isDirty ==> r == t
  {
    if !t.isDirty then t
    else Tracker(Refresh(t.blocks, fastRefresh, refresher), false)
  }

  /** Refreshing twice is refreshing once. */
  lemma RefreshDirtyIdempotent(t: Tracker, fastRefresh: bool, refresher: Refresher)
    ensures RefreshDirty(RefreshDirty(t, fastRefresh, refresher), fastRefresh, refresher)
            == RefreshDirty(t, fastRefresh, refresher)
  {
  }

  /** `DocumentTracker.refreshDirty`: nothing happens while a side is frozen,
      unless forced. A dirty tracker with blocks over two equal documents
      drops every block; otherwise the line tracker refreshes. */
  function DocumentRefreshDirty(t: Tracker, text1: string, text2: string, frozen: bool, forceInFrozen: bool,
                                fastRefresh: bool, refresher: Refresher): (r: Tracker)
    ensures frozen && !forceInFrozen ==> r == t
    ensures !frozen || forceInFrozen ==> !r.isDirty && (t.isDirty ==> !AnyDirty(r.blocks))
    ensures (!frozen || forceInFrozen) && t.isDirty && |t.blocks| > 0 && text1 == text2 ==> r.blocks == []
    ensures !t.isDirty ==> r == t
  {
    if frozen && !forceInFrozen then t
    else if t.isDirty && |t.blocks| > 0 && text1 == text2 then SetRanges(t, [], false)
    else RefreshDirty(t, fastRefresh, refresher)
  }

  /** Once it took effect, a second `refreshDirty` changes nothing, frozen or
      not. */
  lemma DocumentRefreshDirtyIdempotent(t: Tracker, text1: string, text2: string, frozen: bool,
                                       fastRefresh: bool, refresher: Refresher)
    ensures var once := DocumentRefreshDirty(t, text1, text2, false, false, fastRefresh, refresher);
            DocumentRefreshDirty(once, text1, text2, frozen, false, fastRefresh, refresher) == once
  {
  }

  /** The blocks not satisfying `condition`, each moved on `side` by the sum
      of the deltas of the applied blocks before it, starting from `shift`. */
  function Retained(blocks: seq<Block>, side: Side, condition: Block -> bool, shift: int): (r: seq<Block>)
    ensures |r| <= |blocks|
  {
    if |blocks| == 0 then []
    else if condition(blocks[0]) then Retained(blocks[1..], side, condition, shift + RangeDelta(blocks[0].range, side))
    else [ShiftBlock(blocks[0], side, shift)] + Retained(blocks[1..], side, condition, shift)
  }

  /** Number of blocks not satisfying `condition`. */
  function CountRetained(blocks: seq<Block>, condition: Block -> bool): nat {
    if |blocks| == 0 then 0
    else (if condition(blocks[0]) then 0 else 1) + CountRetained(blocks[1..], condition)
  }

  /** Sum of the deltas of the blocks satisfying `condition`. */
  function AppliedDelta(blocks: seq<Block>, side: Side, condition: Block -> bool): int {
    if |blocks| == 0 then 0
    else (if condition(blocks[0]) then RangeDelta(blocks[0].range, side) else 0)
         + AppliedDelta(blocks[1..], side, condition)
  }

  /** `partiallyApplyBlocks`: the blocks satisfying `condition` are applied and
      returned; the rest stay, moved by what was applied before them. */
  method PartiallyApplyBlocks(t: Tracker, side: Side, condition: Block -> bool) returns (r: Tracker, applied: seq<Block>)
    ensures applied == Filter(t.blocks, condition)
    ensures r.blocks == Retained(t.blocks, side, condition, 0)
    ensures r.isDirty == t.isDirty
  {
    var newBlocks: seq<Block> := [];
    applied := [];
    var shift := 0;
    var i := 0;
    while i < |t.blocks|
      invariant 0 <= i <= |t.blocks|
      invariant applied == Filter(t.blocks[..i], condition)
      invariant newBlocks + Retained(t.blocks[i..], side, condition, shift) == Retained(t.blocks, side, condition, 0)
    {
      var block := t.blocks[i];
      RetainedStep(t.blocks, i, side, condition, shift, newBlocks);
      FilterStep(t.blocks, i, condition);
      applied := applied + (if condition(block) then [block] else []);
      newBlocks := if condition(block) then newBlocks else newBlocks + [ShiftBlock(block, side, shift)];
      shift := if condition(block) then shift + RangeDelta(block.range, side) else shift;
      i := i + 1;
    }
    assert t.blocks[..i] == t.blocks;
    r := t.(blocks := newBlocks);
  }

  /** One step of the loop of `PartiallyApplyBlocks` on the retained blocks. */
  lemma RetainedStep(blocks: seq<Block>, i: int, side: Side, condition: Block -> bool, shift: int, done: seq<Block>)
    requires 0 <= i < |blocks|
    ensures done + Retained(blocks[i..], side, condition, shift)
            == (if condition(blocks[i]) then done else done + [ShiftBlock(blocks[i], side, shift)])
               + Retained(blocks[i + 1..], side, condition,
                          if condition(blocks[i]) then shift + RangeDelta(blocks[i].range, side) else shift)
  {
    assert blocks[i..][0] == blocks[i];
    assert blocks[i..][1..] == blocks[i + 1..];
    if !condition(blocks[i]) {
      var tail := Retained(blocks[i + 1..], side, condition, shift);
      assert done + ([ShiftBlock(blocks[i], side, shift)] + tail) == (done + [ShiftBlock(blocks[i], side, shift)]) + tail;
    }
  }

  /** One step of the loop of `PartiallyApplyBlocks` on the applied blocks. */
  lemma FilterStep(blocks: seq<Block>, i: int, condition: Block -> bool)
    requires 0 <= i < |blocks|
    ensures Filter(blocks[..i + 1], condition)
            == Filter(blocks[..i], condition) + (if condition(blocks[i]) then [blocks[i]] else [])
  {
    assert blocks[..i + 1] == blocks[..i] + [blocks[i]];
    FilterAppend(blocks[..i], [blocks[i]], condition);
    assert Filter([blocks[i]], condition) == (if condition(blocks[i]) then [blocks[i]] else []) by {
      assert [blocks[i]][1..] == [];
    }
  }

  /** Each retained block sits at the position given by the retained blocks
      before it, moved by the deltas of the applied blocks before it. */
  lemma {:induction false} RetainedAt(blocks: seq<Block>, side: Side, condition: Block -> bool, shift: int, i: int)
    requires 0 <= i < |blocks| && !condition(blocks[i])
    ensures CountRetained(blocks[..i], condition) < |Retained(blocks, side, condition, shift)|
    ensures Retained(blocks, side, condition, shift)[CountRetained(blocks[..i], condition)]
            == ShiftBlock(blocks[i], side, shift + AppliedDelta(blocks[..i], side, condition))
  {
    if i > 0 {
      if condition(blocks[0]) {
        RetainedAt(blocks[1..], side, condition, shift + RangeDelta(blocks[0].range, side), i - 1);
        RetainedAtApplied(blocks, side, condition, shift, i);
      } else {
        RetainedAt(blocks[1..], side, condition, shift, i - 1);
        RetainedAtKept(blocks, side, condition, shift, i);
      }
    } else {
      assert blocks[..0] == [];
    }
  }

  /** The step of `RetainedAt` past an applied first block. */
  lemma RetainedAtApplied(blocks: seq<Block>, side: Side, condition: Block -> bool, shift: int, i: int)
    requires 0 < i < |blocks| && condition(blocks[0]) && !condition(blocks[i])
    requires var rest := blocks[1..];
             var s := shift + RangeDelta(blocks[0].range, side);
             && CountRetained(rest[..i - 1], condition) < |Retained(rest, side, condition, s)|
             && Retained(rest, side, condition, s)[CountRetained(rest[..i - 1], condition)]
                == ShiftBlock(rest[i - 1], side, s + AppliedDelta(rest[..i - 1], side, condition))
    ensures CountRetained(blocks[..i], condition) < |Retained(blocks, side, condition, shift)|
    ensures Retained(blocks, side, condition, shift)[CountRetained(blocks[..i], condition)]
            == ShiftBlock(blocks[i], side, shift + AppliedDelta(blocks[..i], side, condition))
  {
    var rest := blocks[1..];
    var d := RangeDelta(blocks[0].range, side);
    PrefixUnfold(blocks, side, condition, i);
    assert rest[i - 1] == blocks[i];
    RetainedAfterApplied(blocks, side, condition, shift);
    assert shift + AppliedDelta(blocks[..i], side, condition) == (shift + d) + AppliedDelta(rest[..i - 1], side, condition);
  }

  /** The step of `RetainedAt` past a kept first block. */
  lemma RetainedAtKept(blocks: seq<Block>, side: Side, condition: Block -> bool, shift: int, i: int)
    requires 0 < i < |blocks| && !condition(blocks[0]) && !condition(blocks[i])
    requires var rest := blocks[1..];
             && CountRetained(rest[..i - 1], condition) < |Retained(rest, side, condition, shift)|
             && Retained(rest, side, condition, shift)[CountRetained(rest[..i - 1], condition)]
                == ShiftBlock(rest[i - 1], side, shift + AppliedDelta(rest[..i - 1], side, condition))
    ensures CountRetained(blocks[..i], condition) < |Retained(blocks, side, condition, shift)|
    ensures Retained(blocks, side, condition, shift)[CountRetained(blocks[..i], condition)]
            == ShiftBlock(blocks[i], side, shift + AppliedDelta(blocks[..i], side, condition))
  {
    var rest := blocks[1..];
    PrefixUnfold(blocks, side, condition, i);
    assert rest[i - 1] == blocks[i];
    RetainedAfterKept(blocks, side, condition, shift, CountRetained(rest[..i - 1], condition));
  }

  /** Past an applied first block, the retained blocks are those of the
      rest, moved by its delta. */
  lemma RetainedAfterApplied(blocks: seq<Block>, side: Side, condition: Block -> bool, shift: int)
    requires |blocks| > 0 && condition(blocks[0])
    ensures Retained(blocks, side, condition, shift)
            == Retained(blocks[1..], side, condition, shift + RangeDelta(blocks[0].range, side))
  {
  }

  /** Past a kept first block, the retained blocks are those of the rest. */
  lemma RetainedAfterKept(blocks: seq<Block>, side: Side, condition: Block -> bool, shift: int, k: int)
    requires |blocks| > 0 && !condition(blocks[0])
    requires 0 <= k < |Retained(blocks[1..], side, condition, shift)|
    ensures 1 + k < |Retained(blocks, side, condition, shift)|
    ensures Retained(blocks, side, condition, shift)[1 + k] == Retained(blocks[1..], side, condition, shift)[k]
  {
    var tail := Retained(blocks[1..], side, condition, shift);
    assert Retained(blocks, side, condition, shift) == [ShiftBlock(blocks[0], side, shift)] + tail;
  }

  /** The counts over a non-empty prefix, split at its first block. */
  lemma PrefixUnfold(blocks: seq<Block>, side: Side, condition: Block -> bool, i: int)
    requires 0 < i <= |blocks|
    ensures blocks[1..][..i - 1] == blocks[..i][1..]
    ensures CountRetained(blocks[..i], condition)
            == (if condition(blocks[0]) then 0 else 1) + CountRetained(blocks[1..][..i - 1], condition)
    ensures AppliedDelta(blocks[..i], side, condition)
            == (if condition(blocks[0]) then RangeDelta(blocks[0].range, side) else 0)
               + AppliedDelta(blocks[1..][..i - 1], side, condition)
  {
    assert blocks[..i][0] == blocks[0];
    assert blocks[..i][1..] == blocks[1..][..i - 1];
  }

  /** The retained blocks are exactly the blocks not applied. */
  lemma {:induction false} RetainedCount(blocks: seq<Block>, side: Side, condition: Block -> bool, shift: int)
    ensures |Retained(blocks, side, condition, shift)| == CountRetained(blocks, condition)
    ensures CountRetained(blocks, condition) + |Filter(blocks, condition)| == |blocks|
  {
    if |blocks| > 0 {
      if condition(blocks[0]) {
        RetainedCount(blocks[1..], side, condition, shift + RangeDelta(blocks[0].range, side));
      } else {
        RetainedCount(blocks[1..], side, condition, shift);
      }
    }
  }

  /** Applying blocks keeps what is left a chain: each gap that an applied
      block used to split is now one unchanged stretch, equally long on both
      sides. `prev` is the block the result must follow. */
  lemma {:induction false} RetainedChain(blocks: seq<Block>, side: Side, condition: Block -> bool, shift: int, prev: Range)
    requires Chain(blocks)
    requires |blocks| > 0 ==> Precedes(prev, ShiftRange(blocks[0].range, side, shift))
    ensures Chain(Retained(blocks, side, condition, shift))
    ensures |Retained(blocks, side, condition, shift)| > 0 ==>
              Precedes(prev, Retained(blocks, side, condition, shift)[0].range)
  {
    if |blocks| > 0 {
      var b := blocks[0];
      var rest := blocks[1..];
      ChainTail(blocks);
      if condition(b) {
        var d := RangeDelta(b.range, side);
        if |rest| > 0 {
          SkipApplied(prev, b.range, blocks[1].range, side, shift);
        }
        RetainedChain(rest, side, condition, shift + d, prev);
      } else {
        var nb := ShiftBlock(b, side, shift);
        ShiftKeepsOrder(b.range, b.range, side, shift);
        if |rest| > 0 {
          ShiftKeepsOrder(b.range, blocks[1].range, side, shift);
        }
        RetainedChain(rest, side, condition, shift, nb.range);
        ChainConcat([nb], Retained(rest, side, condition, shift));
      }
    }
  }

  /** Dropping an applied block `b` from between `prev` and `next`: once the
      blocks after it move by its delta, `prev` still precedes `next`. */
  lemma SkipApplied(prev: Range, b: Range, next: Range, side: Side, shift: int)
    requires Proper(b) && Precedes(prev, ShiftRange(b, side, shift)) && Precedes(b, next)
    ensures Precedes(prev, ShiftRange(next, side, shift + RangeDelta(b, side)))
  {
    PrecedesSided(b, next, side);
    PrecedesSided(prev, ShiftRange(b, side, shift), side);
    PrecedesSided(prev, ShiftRange(next, side, shift + RangeDelta(b, side)), side);
  }

  /** Moving one side of two ranges alike keeps them proper and in order. */
  lemma ShiftKeepsOrder(a: Range, b: Range, side: Side, shift: int)
    ensures Proper(ShiftRange(a, side, shift)) <==> Proper(a)
    ensures Precedes(ShiftRange(a, side, shift), ShiftRange(b, side, shift)) <==> Precedes(a, b)
  {
    ProperSided(a, side);
    ProperSided(ShiftRange(a, side, shift), side);
    PrecedesSided(a, b, side);
    PrecedesSided(ShiftRange(a, side, shift), ShiftRange(b, side, shift), side);
  }

  /** Partially applying blocks keeps the block list a well-formed line diff. */
  lemma RetainedWellFormed(blocks: seq<Block>, side: Side, condition: Block -> bool)
    requires WellFormed(blocks)
    ensures WellFormed(Retained(blocks, side, condition, 0))
  {
    if |blocks| > 0 {
      var m := blocks[0].range.start1;
      assert ShiftRange(blocks[0].range, side, 0) == blocks[0].range;
      RetainedChain(blocks, side, condition, 0, Range(m, m, m, m));
    } else {
      RetainedChain(blocks, side, condition, 0, Range(0, 0, 0, 0));
    }
  }
}
