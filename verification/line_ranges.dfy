/** Line ranges and blocks of the document tracker: a change between two
    documents, written as a pair of half-open line intervals, one per side. */
module LineRanges {

  /** Which of the two tracked documents. */
  datatype Side = Left | Right {

    function Other(): (r: Side)
      ensures r != this
    {
      if Left? then Right else Left
    }

    /** The value for this side out of a (left, right) pair. */
    function Select<T>(left: T, right: T): T {
      if Left? then left else right
    }
  }

  /** Lines [start1, end1) of the first document correspond to lines
      [start2, end2) of the second. */
  datatype Range = Range(start1: int, end1: int, start2: int, end2: int) {

    function Start(side: Side): int {
      side.Select(start1, start2)
    }

    function End(side: Side): int {
      side.Select(end1, end2)
    }

    /** Number of lines the range spans on `side`. */
    function Length(side: Side): int {
      End(side) - Start(side)
    }

    predicate IsEmpty() {
      start1 == end1 && start2 == end2
    }
  }

  /** A tracked change: its range plus the flags the tracker keeps. */
  datatype Block = Block(range: Range, isDirty: bool, isTooBig: bool)

  /** True when some block waits to be re-diffed. */
  predicate AnyDirty(blocks: seq<Block>) {
    exists i | 0 <= i < |blocks| :: blocks[i].isDirty
  }

  /** True when some block is marked too big to diff exactly. */
  predicate AnyTooBig(blocks: seq<Block>) {
    exists i | 0 <= i < |blocks| :: blocks[i].isTooBig
  }

  /** Builds a range from coordinates given relative to `side`. */
  function CreateRange(side: Side, start: int, end: int, otherStart: int, otherEnd: int): (r: Range)
    ensures r.Start(side) == start && r.End(side) == end
    ensures r.Start(side.Other()) == otherStart && r.End(side.Other()) == otherEnd
  {
    Range(side.Select(start, otherStart), side.Select(end, otherEnd),
          side.Select(otherStart, start), side.Select(otherEnd, end))
  }

  /** Moves the first side by `shift1` lines and the second by `shift2`. */
  function ShiftRangeBy(range: Range, shift1: int, shift2: int): (r: Range)
    ensures r.Length(Left) == range.Length(Left) && r.Length(Right) == range.Length(Right)
    ensures r.start1 == range.start1 + shift1 && r.start2 == range.start2 + shift2
    ensures r.end1 == range.end1 + shift1 && r.end2 == range.end2 + shift2
  {
    Range(range.start1 + shift1, range.end1 + shift1, range.start2 + shift2, range.end2 + shift2)
  }

  /** Two shifts add up, and shifting back undoes a shift. */
  lemma ShiftRangeByCompose(range: Range, a1: int, a2: int, b1: int, b2: int)
    ensures ShiftRangeBy(ShiftRangeBy(range, a1, a2), b1, b2) == ShiftRangeBy(range, a1 + b1, a2 + b2)
    ensures ShiftRangeBy(ShiftRangeBy(range, a1, a2), -a1, -a2) == range
  {
  }

  /** Shifting two ranges alike keeps them proper and keeps their order and
      the unchanged stretch between them, in both directions. */
  lemma ShiftRangeByKeepsOrder(a: Range, b: Range, shift1: int, shift2: int)
    ensures Proper(ShiftRangeBy(a, shift1, shift2)) <==> Proper(a)
    ensures Precedes(ShiftRangeBy(a, shift1, shift2), ShiftRangeBy(b, shift1, shift2)) <==> Precedes(a, b)
  {
  }

  /** Moves only `side` by `shift` lines. */
  function ShiftRange(range: Range, side: Side, shift: int): (r: Range)
    ensures r.Start(side) == range.Start(side) + shift
    ensures r.End(side) == range.End(side) + shift
    ensures r.Start(side.Other()) == range.Start(side.Other())
    ensures r.End(side.Other()) == range.End(side.Other())
  {
    ShiftRangeBy(range, side.Select(shift, 0), side.Select(0, shift))
  }

  /** `ShiftRange` lifted to blocks: the flags are carried over. */
  function ShiftBlock(block: Block, side: Side, shift: int): (r: Block)
    ensures r.range == ShiftRange(block.range, side, shift)
    ensures r.isDirty == block.isDirty && r.isTooBig == block.isTooBig
  {
    Block(ShiftRange(block.range, side, shift), block.isDirty, block.isTooBig)
  }

  /** By how many lines `side` grows once the block's other-side content is
      copied over it: inserted lines minus deleted lines. */
  function RangeDelta(range: Range, side: Side): (r: int)
    ensures range.Length(side) + r == range.Length(side.Other())
    ensures r > 0 <==> range.Length(side.Other()) > range.Length(side)
  {
    range.Length(side.Other()) - range.Length(side)
  }

  /** Shifting a range moves it, and never resizes it, on both sides. */
  lemma ShiftPreservesLengths(range: Range, side: Side, shift: int, s: Side)
    ensures ShiftRange(range, side, shift).Length(s) == range.Length(s)
    ensures RangeDelta(ShiftRange(range, side, shift), s) == RangeDelta(range, s)
  {
  }

  /** Applying a block on one side and on the other are opposite edits. */
  lemma RangeDeltaAntisymmetric(range: Range, side: Side)
    ensures RangeDelta(range, side.Other()) == -RangeDelta(range, side)
  {
    assert side.Other().Other() == side;
  }

  /** A line interval is valid in a document of `lineCount` lines. */
  predicate IsValidLineRange(lineCount: int, start: int, end: int) {
    0 <= start <= end <= lineCount
  }

  /** The first check of a frozen state: every range fits both documents. */
  predicate RangesFit(ranges: seq<Range>, lineCount1: int, lineCount2: int) {
    forall i | 0 <= i < |ranges| ::
      IsValidLineRange(lineCount1, ranges[i].start1, ranges[i].end1) &&
      IsValidLineRange(lineCount2, ranges[i].start2, ranges[i].end2)
  }

  /** The ranges of a block list, in order. */
  function RangesOf(blocks: seq<Block>): (r: seq<Range>)
    ensures |r| == |blocks|
    ensures forall i | 0 <= i < |r| :: r[i] == blocks[i].range
  {
    seq(|blocks|, i requires 0 <= i < |blocks| => blocks[i].range)
  }

  /** The ranges of a chain fit two documents exactly when the first block
      starts inside both and the last one ends inside both. */
  lemma ChainFits(blocks: seq<Block>, lineCount1: int, lineCount2: int)
    requires Chain(blocks) && |blocks| > 0
    ensures RangesFit(RangesOf(blocks), lineCount1, lineCount2) <==>
              && blocks[0].range.start1 >= 0 && blocks[0].range.start2 >= 0
              && blocks[|blocks| - 1].range.end1 <= lineCount1
              && blocks[|blocks| - 1].range.end2 <= lineCount2
  {
    var n := |blocks|;
    var first := blocks[0].range;
    var last := blocks[n - 1].range;
    if first.start1 >= 0 && first.start2 >= 0 && last.end1 <= lineCount1 && last.end2 <= lineCount2 {
      ChainIsOrdered(blocks, Left);
      ChainIsOrdered(blocks, Right);
      var ranges := RangesOf(blocks);
      forall i | 0 <= i < n
        ensures IsValidLineRange(lineCount1, ranges[i].start1, ranges[i].end1)
        ensures IsValidLineRange(lineCount2, ranges[i].start2, ranges[i].end2)
      {
        if i > 0 {
          assert first.End(Left) <= blocks[i].range.Start(Left);
          assert first.End(Right) <= blocks[i].range.Start(Right);
        }
        if i < n - 1 {
          assert blocks[i].range.End(Left) <= last.Start(Left);
          assert blocks[i].range.End(Right) <= last.Start(Right);
        }
      }
    }
    if RangesFit(RangesOf(blocks), lineCount1, lineCount2) {
      assert RangesOf(blocks)[0] == first && RangesOf(blocks)[n - 1] == last;
    }
  }

  /** Both intervals of the range are proper. */
  predicate Proper(range: Range) {
    range.start1 <= range.end1 && range.start2 <= range.end2
  }

  /** `a` ends before `b` starts, on both sides, and the unchanged stretch
      between them is equally long on both sides. */
  predicate Precedes(a: Range, b: Range) {
    && a.end1 <= b.start1
    && a.end2 <= b.start2
    && b.start1 - a.end1 == b.start2 - a.end2
  }

  /** `Precedes`, read from `side`. */
  predicate PrecedesOn(a: Range, b: Range, side: Side) {
    var other := side.Other();
    && a.End(side) <= b.Start(side)
    && a.End(other) <= b.Start(other)
    && b.Start(side) - a.End(side) == b.Start(other) - a.End(other)
  }

  lemma PrecedesSided(a: Range, b: Range, side: Side)
    ensures Precedes(a, b) <==> PrecedesOn(a, b, side)
  {
  }

  lemma ProperSided(range: Range, side: Side)
    ensures Proper(range) <==>
            range.Start(side) <= range.End(side) && range.Start(side.Other()) <= range.End(side.Other())
  {
  }

  /** Consecutive blocks of a line diff, wherever it starts. */
  predicate Chain(blocks: seq<Block>) {
    && (forall i | 0 <= i < |blocks| :: Proper(blocks[i].range))
    && (forall i, j | 0 <= i < |blocks| && j == i + 1 && j < |blocks| :: Precedes(blocks[i].range, blocks[j].range))
  }

  /** The block list of a line diff between two whole documents: a chain whose
      unchanged stretch before the first block is equally long on both sides. */
  predicate WellFormed(blocks: seq<Block>) {
    Chain(blocks) && (|blocks| > 0 ==> blocks[0].range.start1 == blocks[0].range.start2)
  }

  /** On one side, every block ends before any later block starts. */
  predicate OrderedOn(blocks: seq<Block>, side: Side) {
    && (forall i | 0 <= i < |blocks| :: blocks[i].range.Start(side) <= blocks[i].range.End(side))
    && (forall i, j | 0 <= i < j < |blocks| :: blocks[i].range.End(side) <= blocks[j].range.Start(side))
  }

  /** A chain is ordered on each side. */
  lemma {:induction false} ChainIsOrdered(blocks: seq<Block>, side: Side)
    requires Chain(blocks)
    ensures OrderedOn(blocks, side)
  {
    if |blocks| > 1 {
      var tail := blocks[1..];
      assert Chain(tail) by {
        forall i | 0 <= i < |tail| - 1
          ensures Precedes(tail[i].range, tail[i + 1].range)
        {
          assert tail[i] == blocks[i + 1] && tail[i + 1] == blocks[i + 2];
        }
      }
      ChainIsOrdered(tail, side);
      forall i, j | 0 <= i < j < |blocks|
        ensures blocks[i].range.End(side) <= blocks[j].range.Start(side)
      {
        if i > 0 {
          assert blocks[i] == tail[i - 1] && blocks[j] == tail[j - 1];
        } else {
          assert Precedes(blocks[0].range, blocks[1].range);
          if j > 1 {
            assert blocks[1] == tail[0] && blocks[j] == tail[j - 1];
          }
        }
      }
    }
  }

  /** Two chains joined where the first ends before the second starts. */
  lemma ChainConcat(a: seq<Block>, b: seq<Block>)
    requires Chain(a) && Chain(b)
    requires |a| > 0 && |b| > 0 ==> Precedes(a[|a| - 1].range, b[0].range)
    ensures Chain(a + b)
  {
    var ab := a + b;
    forall i | 0 <= i < |ab| - 1
      ensures Precedes(ab[i].range, ab[i + 1].range)
    {
      if i + 1 < |a| {
        assert ab[i] == a[i] && ab[i + 1] == a[i + 1];
      } else if i + 1 == |a| {
        assert ab[i] == a[|a| - 1] && ab[i + 1] == b[0];
      } else {
        assert ab[i] == b[i - |a|] && ab[i + 1] == b[i - |a| + 1];
      }
    }
  }

  /** The head of a chain is proper and precedes the next block; the rest
      is a chain. */
  lemma ChainTail(blocks: seq<Block>)
    requires Chain(blocks) && |blocks| > 0
    ensures Proper(blocks[0].range) && Chain(blocks[1..])
    ensures |blocks| > 1 ==> Precedes(blocks[0].range, blocks[1].range)
  {
    ChainSlice(blocks, 1, |blocks|);
  }

  /** A slice of a chain is a chain. */
  lemma ChainSlice(blocks: seq<Block>, lo: int, hi: int)
    requires Chain(blocks)
    requires 0 <= lo <= hi <= |blocks|
    ensures Chain(blocks[lo..hi])
  {
    var s := blocks[lo..hi];
    forall i | 0 <= i < |s| - 1
      ensures Precedes(s[i].range, s[i + 1].range)
    {
      assert s[i] == blocks[lo + i] && s[i + 1] == blocks[lo + i + 1];
    }
  }
}
