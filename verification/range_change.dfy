/** The reaction of the document tracker to a one-sided edit: lines
    [startLine, startLine + beforeLength) of `side` were replaced by
    `afterLength` lines, and the block list is rebuilt around them. */
module RangeChange {
  import opened LineRanges

  /** Where a block lies relative to the edited lines. */
  datatype Position = BeforeChange | Affected | AfterChange

  /** The test `sortRanges` applies to each block for the edited lines
      [line1, line2] of `side`. */
  function Classify(block: Block, side: Side, line1: int, line2: int): Position {
    if block.range.End(side) < line1 then BeforeChange
    else if block.range.Start(side) > line2 then AfterChange
    else Affected
  }

  /** Reference definition: the blocks at `pos`, in their original order. */
  function Keep(blocks: seq<Block>, side: Side, line1: int, line2: int, pos: Position): (r: seq<Block>)
    ensures forall i | 0 <= i < |r| :: Classify(r[i], side, line1, line2) == pos
  {
    if |blocks| == 0 then []
    else if Classify(blocks[0], side, line1, line2) == pos then [blocks[0]] + Keep(blocks[1..], side, line1, line2, pos)
    else Keep(blocks[1..], side, line1, line2, pos)
  }

  lemma {:induction false} KeepAppendOne(blocks: seq<Block>, b: Block, side: Side, line1: int, line2: int, pos: Position)
    ensures Keep(blocks + [b], side, line1, line2, pos)
         == Keep(blocks, side, line1, line2, pos) + (if Classify(b, side, line1, line2) == pos then [b] else [])
  {
    if |blocks| == 0 {
      assert blocks + [b] == [b];
    } else {
      assert (blocks + [b])[1..] == blocks[1..] + [b];
      KeepAppendOne(blocks[1..], b, side, line1, line2, pos);
    }
  }

  datatype Partition = Partition(before: seq<Block>, affected: seq<Block>, after: seq<Block>)

  /** One pass over the blocks, appending each to the part it belongs to. */
  function SortRanges(blocks: seq<Block>, side: Side, line1: int, line2: int): (r: Partition)
    ensures r.before == Keep(blocks, side, line1, line2, BeforeChange)
    ensures r.affected == Keep(blocks, side, line1, line2, Affected)
    ensures r.after == Keep(blocks, side, line1, line2, AfterChange)
  {
    if |blocks| == 0 then Partition([], [], [])
    else
      var init := blocks[..|blocks| - 1];
      var b := blocks[|blocks| - 1];
      assert blocks == init + [b];
      var p := SortRanges(init, side, line1, line2);
      KeepAppendOne(init, b, side, line1, line2, BeforeChange);
      KeepAppendOne(init, b, side, line1, line2, Affected);
      KeepAppendOne(init, b, side, line1, line2, AfterChange);
      match Classify(b, side, line1, line2)
      case BeforeChange => p.(before := p.before + [b])
      case AfterChange => p.(after := p.after + [b])
      case Affected => p.(affected := p.affected + [b])
  }

  /** Every block lands in exactly one of the three parts. */
  lemma SortRangesPermutes(blocks: seq<Block>, side: Side, line1: int, line2: int)
    ensures var p := SortRanges(blocks, side, line1, line2);
            multiset(p.before) + multiset(p.affected) + multiset(p.after) == multiset(blocks)
  {
    KeepPermutes(blocks, side, line1, line2);
  }

  /** The three parts together are exactly as long as the block list. */
  lemma PartitionSizes(blocks: seq<Block>, side: Side, line1: int, line2: int)
    ensures |Keep(blocks, side, line1, line2, BeforeChange)| + |Keep(blocks, side, line1, line2, Affected)|
            + |Keep(blocks, side, line1, line2, AfterChange)| == |blocks|
  {
    KeepPermutes(blocks, side, line1, line2);
    var b := multiset(Keep(blocks, side, line1, line2, BeforeChange));
    var a := multiset(Keep(blocks, side, line1, line2, Affected));
    var c := multiset(Keep(blocks, side, line1, line2, AfterChange));
    assert |b + a + c| == |b| + |a| + |c|;
  }

  lemma {:induction false} KeepPermutes(blocks: seq<Block>, side: Side, line1: int, line2: int)
    ensures multiset(Keep(blocks, side, line1, line2, BeforeChange))
          + multiset(Keep(blocks, side, line1, line2, Affected))
          + multiset(Keep(blocks, side, line1, line2, AfterChange)) == multiset(blocks)
  {
    if |blocks| > 0 {
      var b, tail := blocks[0], blocks[1..];
      KeepPermutes(tail, side, line1, line2);
      assert blocks == [b] + tail;
      KeepCons(blocks, side, line1, line2, BeforeChange);
      KeepCons(blocks, side, line1, line2, Affected);
      KeepCons(blocks, side, line1, line2, AfterChange);
      PlaceOne(b, Keep(tail, side, line1, line2, BeforeChange), Keep(tail, side, line1, line2, Affected),
               Keep(tail, side, line1, line2, AfterChange), tail, Classify(b, side, line1, line2));
    }
  }

  /** `Keep` on a non-empty list: the first block, when it is in `pos`,
      then the kept rest. */
  lemma KeepCons(blocks: seq<Block>, side: Side, line1: int, line2: int, pos: Position)
    requires |blocks| > 0
    ensures Keep(blocks, side, line1, line2, pos)
         == (if Classify(blocks[0], side, line1, line2) == pos then [blocks[0]] else [])
            + Keep(blocks[1..], side, line1, line2, pos)
  {
    if Classify(blocks[0], side, line1, line2) != pos {
      assert [] + Keep(blocks[1..], side, line1, line2, pos) == Keep(blocks[1..], side, line1, line2, pos);
    }
  }

  /** Adding one element to the part `pos` names adds it to the whole. */
  lemma PlaceOne<T>(b: T, x: seq<T>, y: seq<T>, z: seq<T>, rest: seq<T>, pos: Position)
    requires multiset(x) + multiset(y) + multiset(z) == multiset(rest)
    ensures multiset((if pos == BeforeChange then [b] else []) + x)
          + multiset((if pos == Affected then [b] else []) + y)
          + multiset((if pos == AfterChange then [b] else []) + z) == multiset([b] + rest)
  {
    assert multiset([b] + rest) == multiset{b} + multiset(rest);
    match pos
    case BeforeChange => assert multiset([b] + x) == multiset{b} + multiset(x);
    case Affected => assert multiset([b] + y) == multiset{b} + multiset(y);
    case AfterChange => assert multiset([b] + z) == multiset{b} + multiset(z);
  }

  /** On blocks ordered along `side`, the three parts are consecutive runs:
      the list is exactly before ++ affected ++ after. */
  lemma {:induction false} SortRangesSplits(blocks: seq<Block>, side: Side, line1: int, line2: int)
    requires OrderedOn(blocks, side)
    requires line1 <= line2
    ensures var p := SortRanges(blocks, side, line1, line2);
            blocks == p.before + p.affected + p.after
  {
    if |blocks| == 0 {
      assert SortRanges(blocks, side, line1, line2) == Partition([], [], []);
    } else {
      var n := |blocks| - 1;
      var init := blocks[..n];
      assert blocks == init + [blocks[n]];
      assert OrderedOn(init, side) by {
        forall i | 0 <= i < |init| ensures init[i] == blocks[i] { }
      }
      SortRangesSplits(init, side, line1, line2);
      SortRangesSplitsStep(init, blocks[n], side, line1, line2);
    }
  }

  /** The inductive step: appending a block that comes after all others. */
  lemma SortRangesSplitsStep(init: seq<Block>, b: Block, side: Side, line1: int, line2: int)
    requires OrderedOn(init + [b], side)
    requires line1 <= line2
    requires var p := SortRanges(init, side, line1, line2);
             init == p.before + p.affected + p.after
    ensures var q := SortRanges(init + [b], side, line1, line2);
            init + [b] == q.before + q.affected + q.after
  {
    var p := SortRanges(init, side, line1, line2);
    var pos := Classify(b, side, line1, line2);
    if pos == BeforeChange {
      if |p.affected| + |p.after| > 0 {
        LaterPartsEndLate(init, b, side, line1, line2, |p.before|);
      }
      AppendBefore(init, b, side, line1, line2);
    } else if pos == Affected {
      if |p.after| > 0 {
        AfterPartStartsLate(init, b, side, line1, line2, |p.before| + |p.affected|);
      }
      AppendAffected(init, b, side, line1, line2);
    } else {
      AppendAfter(init, b, side, line1, line2);
    }
  }

  lemma AppendBefore(init: seq<Block>, b: Block, side: Side, line1: int, line2: int)
    requires Classify(b, side, line1, line2) == BeforeChange
    requires var p := SortRanges(init, side, line1, line2);
             init == p.before && p.affected == [] && p.after == []
    ensures var q := SortRanges(init + [b], side, line1, line2);
            init + [b] == q.before + q.affected + q.after
  {
    var p := SortRanges(init, side, line1, line2);
    KeepAppendOne(init, b, side, line1, line2, BeforeChange);
    KeepAppendOne(init, b, side, line1, line2, Affected);
    KeepAppendOne(init, b, side, line1, line2, AfterChange);
    assert init + [b] == (p.before + [b]) + [] + [];
  }

  lemma AppendAffected(init: seq<Block>, b: Block, side: Side, line1: int, line2: int)
    requires Classify(b, side, line1, line2) == Affected
    requires var p := SortRanges(init, side, line1, line2);
             init == p.before + p.affected && p.after == []
    ensures var q := SortRanges(init + [b], side, line1, line2);
            init + [b] == q.before + q.affected + q.after
  {
    var p := SortRanges(init, side, line1, line2);
    KeepAppendOne(init, b, side, line1, line2, BeforeChange);
    KeepAppendOne(init, b, side, line1, line2, Affected);
    KeepAppendOne(init, b, side, line1, line2, AfterChange);
    ConcatAssoc(p.before, p.affected, [b]);
  }

  lemma ConcatAssoc(a: seq<Block>, b: seq<Block>, c: seq<Block>)
    ensures (a + b) + c == a + (b + c) && a + (b + c) + [] == a + (b + c)
  {
  }

  lemma AppendAfter(init: seq<Block>, b: Block, side: Side, line1: int, line2: int)
    requires Classify(b, side, line1, line2) == AfterChange
    requires var p := SortRanges(init, side, line1, line2);
             init == p.before + p.affected + p.after
    ensures var q := SortRanges(init + [b], side, line1, line2);
            init + [b] == q.before + q.affected + q.after
  {
    var p := SortRanges(init, side, line1, line2);
    KeepAppendOne(init, b, side, line1, line2, BeforeChange);
    KeepAppendOne(init, b, side, line1, line2, Affected);
    KeepAppendOne(init, b, side, line1, line2, AfterChange);
    assert init + [b] == p.before + p.affected + (p.after + [b]);
  }

  /** A block after the edit's first line forces every later block there too. */
  lemma LaterPartsEndLate(init: seq<Block>, b: Block, side: Side, line1: int, line2: int, k: int)
    requires OrderedOn(init + [b], side)
    requires 0 <= k < |init|
    requires Classify(init[k], side, line1, line2) != BeforeChange
    ensures Classify(b, side, line1, line2) != BeforeChange
  {
    assert (init + [b])[k] == init[k] && (init + [b])[|init|] == b;
  }

  /** A block past the edit's last line forces every later block there too. */
  lemma AfterPartStartsLate(init: seq<Block>, b: Block, side: Side, line1: int, line2: int, k: int)
    requires OrderedOn(init + [b], side)
    requires 0 <= k < |init|
    requires Classify(init[k], side, line1, line2) == AfterChange
    ensures Classify(b, side, line1, line2) == AfterChange
  {
    assert (init + [b])[k] == init[k] && (init + [b])[|init|] == b;
  }

  /** Offset from `side` to the other side at the end of the last block that
      precedes the edit; zero when there is none. */
  function OurToOtherShift(side: Side, beforeBlocks: seq<Block>): int {
    if |beforeBlocks| == 0 then 0
    else
      var last := beforeBlocks[|beforeBlocks| - 1].range;
      last.End(side.Other()) - last.End(side)
  }

  /** The shift carries a line of `side` that lies past the blocks before the
      edit over to the other side: in a line diff, the next block starts that
      far away on the other side. The shift read from the other side is its
      negation. */
  lemma OurToOtherShiftAligns(blocks: seq<Block>, side: Side, k: int)
    requires WellFormed(blocks) && 0 <= k < |blocks|
    ensures blocks[k].range.Start(side.Other()) == blocks[k].range.Start(side) + OurToOtherShift(side, blocks[..k])
    ensures OurToOtherShift(side.Other(), blocks[..k]) == -OurToOtherShift(side, blocks[..k])
  {
    assert side.Other().Other() == side;
    if k > 0 {
      assert blocks[..k][k - 1] == blocks[k - 1];
      assert Precedes(blocks[k - 1].range, blocks[k].range);
      PrecedesSided(blocks[k - 1].range, blocks[k].range, side);
    }
  }

  function Min(a: int, b: int): int { if a <= b then a else b }
  function Max(a: int, b: int): int { if a >= b then a else b }

  /** The one dirty block that replaces every block the edit touches. */
  function NewAffectedBlock(side: Side, startLine: int, endLine: int, rangeSizeDelta: int,
                            ourToOtherShift: int, affected: seq<Block>): (r: Block)
    ensures r.isDirty
    ensures r.isTooBig <==> AnyTooBig(affected)
    ensures |affected| == 0 ==>
              && r.range.Start(side) == startLine
              && r.range.End(side) == endLine + rangeSizeDelta
              && r.range.Start(side.Other()) == startLine + ourToOtherShift
              && r.range.End(side.Other()) == endLine + ourToOtherShift
    ensures |affected| > 0 ==>
              var first := affected[0].range;
              var last := affected[|affected| - 1].range;
              // on the edited side: the union of the edit and the touched blocks
              && r.range.Start(side) == Min(first.Start(side), startLine)
              && r.range.End(side) == Max(last.End(side), endLine) + rangeSizeDelta
              // on the other side: aligned as the first and last touched blocks were
              && r.range.Start(side.Other()) - r.range.Start(side) == first.Start(side.Other()) - first.Start(side)
              && r.range.End(side.Other()) - (r.range.End(side) - rangeSizeDelta)
                 == last.End(side.Other()) - last.End(side)
  {
    var other := side.Other();
    var isTooBig := AnyTooBig(affected);
    if |affected| == 0 then
      Block(CreateRange(side, startLine, endLine + rangeSizeDelta,
                        startLine + ourToOtherShift, endLine + ourToOtherShift), true, isTooBig)
    else
      var firstAffected := affected[0].range;
      var lastAffected := affected[|affected| - 1].range;
      var affectedStart := firstAffected.Start(side);
      var affectedStartOther := firstAffected.Start(other);
      var affectedEnd := lastAffected.End(side);
      var affectedEndOther := lastAffected.End(other);
      var rangeStart := if affectedStart <= startLine then affectedStart else startLine;
      var rangeStartOther :=
        if affectedStart <= startLine then affectedStartOther
        else startLine + (affectedStartOther - affectedStart);
      var rangeEnd := if affectedEnd >= endLine then affectedEnd + rangeSizeDelta else endLine + rangeSizeDelta;
      var rangeEndOther :=
        if affectedEnd >= endLine then affectedEndOther
        else endLine + (affectedEndOther - affectedEnd);
      Block(CreateRange(side, rangeStart, rangeEnd, rangeStartOther, rangeEndOther), true, isTooBig)
  }

  /** Everything `run` computes for the tracker and its handler. */
  datatype RunResult = RunResult(beforeBlocks: seq<Block>, newBlocks: seq<Block>,
                                 affectedBlocks: seq<Block>, afterBlocks: seq<Block>,
                                 newAffectedBlock: Block, newAfterBlocks: seq<Block>)

  /** Rebuilds the block list after lines [startLine, startLine + beforeLength)
      of `side` were replaced by `afterLength` lines. */
  function Run(blocks: seq<Block>, side: Side, startLine: int, beforeLength: int, afterLength: int): (r: RunResult)
    ensures r.beforeBlocks == Keep(blocks, side, startLine, startLine + beforeLength, BeforeChange)
    ensures r.affectedBlocks == Keep(blocks, side, startLine, startLine + beforeLength, Affected)
    ensures r.afterBlocks == Keep(blocks, side, startLine, startLine + beforeLength, AfterChange)
    ensures r.newBlocks == r.beforeBlocks + [r.newAffectedBlock] + r.newAfterBlocks
    ensures |r.newBlocks| == |r.beforeBlocks| + |r.afterBlocks| + 1
    ensures |r.newAfterBlocks| == |r.afterBlocks|
    ensures forall i | 0 <= i < |r.afterBlocks| ::
              && r.newAfterBlocks[i].range.Start(side) == r.afterBlocks[i].range.Start(side) + (afterLength - beforeLength)
              && r.newAfterBlocks[i].range.End(side) == r.afterBlocks[i].range.End(side) + (afterLength - beforeLength)
              && r.newAfterBlocks[i].range.Start(side.Other()) == r.afterBlocks[i].range.Start(side.Other())
              && r.newAfterBlocks[i].range.End(side.Other()) == r.afterBlocks[i].range.End(side.Other())
              && r.newAfterBlocks[i].isDirty == r.afterBlocks[i].isDirty
              && r.newAfterBlocks[i].isTooBig == r.afterBlocks[i].isTooBig
    ensures r.newAffectedBlock == NewAffectedBlock(side, startLine, startLine + beforeLength,
                                                   afterLength - beforeLength,
                                                   OurToOtherShift(side, r.beforeBlocks), r.affectedBlocks)
  {
    var endLine := startLine + beforeLength;
    var rangeSizeDelta := afterLength - beforeLength;
    var parts := SortRanges(blocks, side, startLine, endLine);
    var ourToOtherShift := OurToOtherShift(side, parts.before);
    var newAffectedBlock := NewAffectedBlock(side, startLine, endLine, rangeSizeDelta, ourToOtherShift, parts.affected);
    var newAfterBlocks := seq(|parts.after|, i requires 0 <= i < |parts.after| => ShiftBlock(parts.after[i], side, rangeSizeDelta));
    RunResult(parts.before, parts.before + [newAffectedBlock] + newAfterBlocks,
              parts.affected, parts.after, newAffectedBlock, newAfterBlocks)
  }

  /** The edit keeps the tracker's blocks a line diff: if the blocks were the
      diff of the two documents, the rebuilt list is a diff of the edited
      document and the other one. */
  lemma RunPreservesWellFormed(blocks: seq<Block>, side: Side, startLine: int, beforeLength: int, afterLength: int)
    requires WellFormed(blocks)
    requires beforeLength >= 0 && afterLength >= 0
    ensures WellFormed(Run(blocks, side, startLine, beforeLength, afterLength).newBlocks)
  {
    var r := Run(blocks, side, startLine, beforeLength, afterLength);
    RunPartsChained(blocks, side, startLine, beforeLength, afterLength);
    RunPartsAround(blocks, side, startLine, beforeLength, afterLength);
    ShiftedChain(r.afterBlocks, r.newAfterBlocks, side, afterLength - beforeLength);
    Assemble(r.beforeBlocks, r.affectedBlocks, r.afterBlocks, r.newAfterBlocks, side, startLine, beforeLength, afterLength);
  }

  /** The three parts of `run` on a line diff keep the diff's seams. */
  lemma RunPartsChained(blocks: seq<Block>, side: Side, startLine: int, beforeLength: int, afterLength: int)
    requires WellFormed(blocks)
    requires beforeLength >= 0
    ensures var r := Run(blocks, side, startLine, beforeLength, afterLength);
            PartsChained(r.beforeBlocks, r.affectedBlocks, r.afterBlocks)
  {
    ChainIsOrdered(blocks, side);
    RunSplits(blocks, side, startLine, beforeLength, afterLength);
    var r := Run(blocks, side, startLine, beforeLength, afterLength);
    ChainParts(r.beforeBlocks, r.affectedBlocks, r.afterBlocks);
  }

  /** The blocks before the edit end above it, those after start below it. */
  lemma RunPartsAround(blocks: seq<Block>, side: Side, startLine: int, beforeLength: int, afterLength: int)
    ensures var r := Run(blocks, side, startLine, beforeLength, afterLength);
            && (|r.beforeBlocks| > 0 ==> r.beforeBlocks[|r.beforeBlocks| - 1].range.End(side) < startLine)
            && (|r.afterBlocks| > 0 ==> r.afterBlocks[0].range.Start(side) > startLine + beforeLength)
  {
    var r := Run(blocks, side, startLine, beforeLength, afterLength);
    if |r.afterBlocks| > 0 {
      assert Classify(r.afterBlocks[0], side, startLine, startLine + beforeLength) == AfterChange;
    }
    if |r.beforeBlocks| > 0 {
      assert Classify(r.beforeBlocks[|r.beforeBlocks| - 1], side, startLine, startLine + beforeLength) == BeforeChange;
    }
  }

  /** On ordered blocks the three parts of `run` are consecutive runs. */
  lemma RunSplits(blocks: seq<Block>, side: Side, startLine: int, beforeLength: int, afterLength: int)
    requires OrderedOn(blocks, side)
    requires beforeLength >= 0
    ensures var r := Run(blocks, side, startLine, beforeLength, afterLength);
            blocks == r.beforeBlocks + r.affectedBlocks + r.afterBlocks
  {
    SortRangesSplits(blocks, side, startLine, startLine + beforeLength);
  }

  /** The facts about three consecutive parts of a line diff that the
      rebuilt list depends on. */
  predicate PartsChained(x: seq<Block>, y: seq<Block>, z: seq<Block>) {
    && Chain(x) && Chain(z)
    && (|x| > 0 && |y| > 0 ==> Precedes(x[|x| - 1].range, y[0].range))
    && (|y| > 0 && |z| > 0 ==> Precedes(y[|y| - 1].range, z[0].range))
    && (|x| > 0 && |y| == 0 && |z| > 0 ==> Precedes(x[|x| - 1].range, z[0].range))
    && (|x| > 0 ==> x[0].range.start1 == x[0].range.start2)
    && (|x| == 0 && |y| > 0 ==> y[0].range.start1 == y[0].range.start2)
    && (|x| == 0 && |y| == 0 && |z| > 0 ==> z[0].range.start1 == z[0].range.start2)
    && (|y| > 0 ==> y[0].range.start1 <= y[|y| - 1].range.end1 && y[0].range.start2 <= y[|y| - 1].range.end2)
  }

  lemma ChainParts(x: seq<Block>, y: seq<Block>, z: seq<Block>)
    requires WellFormed(x + y + z)
    ensures PartsChained(x, y, z)
  {
    var b := x + y + z;
    var k, m := |x|, |x| + |y|;
    assert x == b[..k] && z == b[m..];
    ChainSlice(b, 0, k);
    ChainSlice(b, m, |b|);
    if |y| > 0 {
      assert y[0] == b[k] && y[|y| - 1] == b[m - 1];
      ChainIsOrdered(b, Left);
      ChainIsOrdered(b, Right);
      assert b[k].range.Start(Left) <= b[m - 1].range.End(Left);
      assert b[k].range.Start(Right) <= b[m - 1].range.End(Right);
    }
    if |x| > 0 {
      assert x[k - 1] == b[k - 1] && x[0] == b[0];
    }
    if |z| > 0 {
      assert z[0] == b[m];
    }
  }

  /** The rebuilt list is a line diff, from facts about its three parts. */
  lemma Assemble(before: seq<Block>, affected: seq<Block>, after: seq<Block>, newAfter: seq<Block>,
                 side: Side, startLine: int, beforeLength: int, afterLength: int)
    requires beforeLength >= 0 && afterLength >= 0
    requires PartsChained(before, affected, after) && Chain(newAfter)
    requires |before| > 0 ==> before[|before| - 1].range.End(side) < startLine
    requires |after| > 0 ==> after[0].range.Start(side) > startLine + beforeLength
    requires |newAfter| == |after|
    requires |after| > 0 ==>
               && newAfter[0].range.Start(side) == after[0].range.Start(side) + (afterLength - beforeLength)
               && newAfter[0].range.Start(side.Other()) == after[0].range.Start(side.Other())
    ensures WellFormed(before + [NewAffectedBlock(side, startLine, startLine + beforeLength, afterLength - beforeLength,
                                                  OurToOtherShift(side, before), affected)] + newAfter)
  {
    var n := NewAffectedBlock(side, startLine, startLine + beforeLength, afterLength - beforeLength,
                              OurToOtherShift(side, before), affected);
    if |affected| > 0 {
      ProperSided(affected[0].range, side);
      ProperSided(affected[|affected| - 1].range, side);
    }
    NewBlockProper(side, startLine, beforeLength, afterLength, OurToOtherShift(side, before), affected);
    SeamBefore(before, affected, side, startLine, startLine + beforeLength, afterLength - beforeLength);
    SeamAfter(before, affected, after, newAfter, side, startLine, startLine + beforeLength, afterLength - beforeLength);
    assert Chain([n]);
    ChainConcat(before, [n]);
    ChainConcat(before + [n], newAfter);
    assert (before + [n] + newAfter)[0] == (if |before| > 0 then before[0] else n);
  }

  /** The seam between the blocks before the edit and the new block. */
  lemma SeamBefore(before: seq<Block>, affected: seq<Block>, side: Side, startLine: int, endLine: int, delta: int)
    requires |before| > 0 && |affected| > 0 ==> Precedes(before[|before| - 1].range, affected[0].range)
    requires |before| == 0 && |affected| > 0 ==> affected[0].range.start1 == affected[0].range.start2
    requires |before| > 0 ==> before[|before| - 1].range.End(side) < startLine
    ensures var n := NewAffectedBlock(side, startLine, endLine, delta, OurToOtherShift(side, before), affected);
            && (|before| > 0 ==> Precedes(before[|before| - 1].range, n.range))
            && (|before| == 0 ==> n.range.start1 == n.range.start2)
  {
    var n := NewAffectedBlock(side, startLine, endLine, delta, OurToOtherShift(side, before), affected);
    if |before| > 0 {
      var last := before[|before| - 1].range;
      if |affected| > 0 {
        PrecedesSided(last, affected[0].range, side);
      }
      JoinBefore(last, side, startLine, endLine, delta, affected);
      PrecedesSided(last, n.range, side);
    } else {
      NewBlockAligned(side, startLine, endLine, delta, affected);
    }
  }

  /** The seam between the new block and the shifted blocks after the edit. */
  lemma SeamAfter(before: seq<Block>, affected: seq<Block>, after: seq<Block>, newAfter: seq<Block>,
                  side: Side, startLine: int, endLine: int, delta: int)
    requires |affected| > 0 && |after| > 0 ==> Precedes(affected[|affected| - 1].range, after[0].range)
    requires |before| > 0 && |affected| == 0 && |after| > 0 ==> Precedes(before[|before| - 1].range, after[0].range)
    requires |before| == 0 && |affected| == 0 && |after| > 0 ==> after[0].range.start1 == after[0].range.start2
    requires |after| > 0 ==> after[0].range.Start(side) > endLine
    requires |newAfter| == |after|
    requires |after| > 0 ==>
               && newAfter[0].range.Start(side) == after[0].range.Start(side) + delta
               && newAfter[0].range.Start(side.Other()) == after[0].range.Start(side.Other())
    ensures |after| > 0 ==>
              Precedes(NewAffectedBlock(side, startLine, endLine, delta, OurToOtherShift(side, before), affected).range,
                       newAfter[0].range)
  {
    if |after| > 0 {
      var n := NewAffectedBlock(side, startLine, endLine, delta, OurToOtherShift(side, before), affected);
      var first := after[0].range;
      if |affected| > 0 {
        PrecedesSided(affected[|affected| - 1].range, first, side);
      } else if |before| > 0 {
        PrecedesSided(before[|before| - 1].range, first, side);
      }
      JoinAfter(side, startLine, endLine, delta, OurToOtherShift(side, before), affected, first);
      PrecedesSided(n.range, newAfter[0].range, side);
    }
  }

  /** Blocks all shifted on one side by the same amount still form a chain. */
  lemma ShiftedChain(blocks: seq<Block>, shifted: seq<Block>, side: Side, delta: int)
    requires Chain(blocks)
    requires |shifted| == |blocks|
    requires forall i | 0 <= i < |blocks| ::
               && shifted[i].range.Start(side) == blocks[i].range.Start(side) + delta
               && shifted[i].range.End(side) == blocks[i].range.End(side) + delta
               && shifted[i].range.Start(side.Other()) == blocks[i].range.Start(side.Other())
               && shifted[i].range.End(side.Other()) == blocks[i].range.End(side.Other())
    ensures Chain(shifted)
  {
    forall i | 0 <= i < |shifted|
      ensures Proper(shifted[i].range)
    {
      ProperSided(blocks[i].range, side);
      ProperSided(shifted[i].range, side);
    }
    forall i, j | 0 <= i < |shifted| && j == i + 1 && j < |shifted|
      ensures Precedes(shifted[i].range, shifted[j].range)
    {
      PrecedesSided(blocks[i].range, blocks[j].range, side);
      PrecedesSided(shifted[i].range, shifted[j].range, side);
    }
  }

  /** The new block is proper as long as the edit has non-negative lengths. */
  lemma NewBlockProper(side: Side, startLine: int, beforeLength: int, afterLength: int, shift: int,
                       affected: seq<Block>)
    requires beforeLength >= 0 && afterLength >= 0
    requires |affected| > 0 ==>
               && affected[0].range.Start(side) <= affected[|affected| - 1].range.End(side)
               && affected[0].range.Start(side.Other()) <= affected[|affected| - 1].range.End(side.Other())
    ensures Proper(NewAffectedBlock(side, startLine, startLine + beforeLength, afterLength - beforeLength,
                                    shift, affected).range)
  {
    var n := NewAffectedBlock(side, startLine, startLine + beforeLength, afterLength - beforeLength, shift, affected);
    ProperSided(n.range, side);
  }

  /** The block preceding the edit also precedes the new block. */
  lemma JoinBefore(last: Range, side: Side, startLine: int, endLine: int, delta: int, affected: seq<Block>)
    requires last.End(side) < startLine
    requires |affected| > 0 ==> PrecedesOn(last, affected[0].range, side)
    ensures PrecedesOn(last, NewAffectedBlock(side, startLine, endLine, delta,
                                              last.End(side.Other()) - last.End(side), affected).range, side)
  {
  }

  /** With nothing before the edit, the new block starts aligned. */
  lemma NewBlockAligned(side: Side, startLine: int, endLine: int, delta: int, affected: seq<Block>)
    requires |affected| > 0 ==> affected[0].range.start1 == affected[0].range.start2
    ensures var n := NewAffectedBlock(side, startLine, endLine, delta, 0, affected);
            n.range.start1 == n.range.start2
  {
  }

  /** The new block precedes the first block after the edit, once that block
      is shifted by the edit's delta. */
  lemma JoinAfter(side: Side, startLine: int, endLine: int, delta: int, shift: int,
                  affected: seq<Block>, first: Range)
    requires first.Start(side) > endLine
    requires |affected| > 0 ==> PrecedesOn(affected[|affected| - 1].range, first, side)
    requires |affected| == 0 ==> first.Start(side.Other()) - first.Start(side) == shift
    ensures PrecedesOn(NewAffectedBlock(side, startLine, endLine, delta, shift, affected).range,
                       ShiftRange(first, side, delta), side)
  {
  }
}
