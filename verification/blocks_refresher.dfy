/** Re-diffing of dirty blocks: neighbouring blocks separated only by
    whitespace are grouped, the blocks of a group with a dirty member are
    merged (unless the handler vetoes a merge), and each merged block is
    replaced by a fresh diff of its lines. The diff algorithms, the whitespace
    test and the handler's veto are parameters. */
module BlocksRefresher {
  import opened Wrappers
  import opened Seqs
  import opened LineRanges

  /** The collaborators of a refresh the model does not look into. */
  datatype Refresher = Refresher(
    /** True when only whitespace lies between the two blocks on side 1. */
    whitespaceOnlySeparated: (Block, Block) -> bool,
    /** The handler's consent to a merge of two blocks into the third. */
    onRangesMerged: (Block, Block, Block) -> bool,
    /** Exact line diff of a range, relative to its start; None when it is too big. */
    tryCompareLines: Range -> Option<seq<Range>>,
    /** Coarse line diff of a range, relative to its start; always succeeds. */
    fastCompareLines: Range -> seq<Range>)

  /** The block spanning `b1`'s start to `b2`'s end, unless the handler vetoes it. */
  function MergeBlocks(b1: Block, b2: Block, onRangesMerged: (Block, Block, Block) -> bool): (r: Option<Block>)
    ensures r.Some? ==>
              && r.value.range.start1 == b1.range.start1 && r.value.range.start2 == b1.range.start2
              && r.value.range.end1 == b2.range.end1 && r.value.range.end2 == b2.range.end2
              && (r.value.isDirty <==> b1.isDirty || b2.isDirty)
              && (r.value.isTooBig <==> b1.isTooBig || b2.isTooBig)
    ensures r.Some? <==> onRangesMerged(b1, b2, r.GetOr(Span(b1, b2)))
  {
    var merged := Span(b1, b2);
    if !onRangesMerged(b1, b2, merged) then None else Some(merged)
  }

  /** The candidate merge of two blocks, before the handler is asked. */
  function Span(b1: Block, b2: Block): Block {
    Block(Range(b1.range.start1, b2.range.end1, b1.range.start2, b2.range.end2),
          b1.isDirty || b2.isDirty, b1.isTooBig || b2.isTooBig)
  }

  /** Merging two neighbours of a line diff leaves a proper range that still
      follows whatever preceded the first and precedes whatever followed the
      second. */
  lemma SpanOfNeighbours(a: Block, b: Block)
    requires Proper(a.range) && Proper(b.range) && Precedes(a.range, b.range)
    ensures Proper(Span(a, b).range)
    ensures Span(a, b).range.Length(Left) == a.range.Length(Left) + (b.range.start1 - a.range.end1) + b.range.Length(Left)
    ensures forall c: Range :: Precedes(b.range, c) ==> Precedes(Span(a, b).range, c)
    ensures forall c: Range :: Precedes(c, a.range) ==> Precedes(c, Span(a, b).range)
  {
  }

  /** A block's flags followed by a sequence's, in either predicate. */
  lemma FlagsCons(b: Block, s: seq<Block>)
    ensures AnyDirty([b] + s) <==> b.isDirty || AnyDirty(s)
    ensures AnyTooBig([b] + s) <==> b.isTooBig || AnyTooBig(s)
  {
    var r := [b] + s;
    assert r[0] == b;
    if AnyDirty(s) {
      var i :| 0 <= i < |s| && s[i].isDirty;
      assert r[i + 1] == s[i];
    }
    if AnyDirty(r) {
      var i :| 0 <= i < |r| && r[i].isDirty;
      if i > 0 { assert s[i - 1] == r[i]; }
    }
    if AnyTooBig(s) {
      var i :| 0 <= i < |s| && s[i].isTooBig;
      assert r[i + 1] == s[i];
    }
    if AnyTooBig(r) {
      var i :| 0 <= i < |r| && r[i].isTooBig;
      if i > 0 { assert s[i - 1] == r[i]; }
    }
  }

  /** The loop of `processMergedBlocks` from the block merged so far: returns
      the blocks handed on, each as large as the handler allowed. */
  function MergeFrom(merged: Block, rest: seq<Block>, onRangesMerged: (Block, Block, Block) -> bool): (r: seq<Block>)
    ensures 1 <= |r| <= |rest| + 1
    ensures r[0].range.start1 == merged.range.start1 && r[0].range.start2 == merged.range.start2
    ensures |rest| == 0 ==> r == [merged]
    ensures |rest| > 0 ==> r[|r| - 1].range.end1 == rest[|rest| - 1].range.end1
                           && r[|r| - 1].range.end2 == rest[|rest| - 1].range.end2
    ensures AnyDirty(r) <==> merged.isDirty || AnyDirty(rest)
    ensures AnyTooBig(r) <==> merged.isTooBig || AnyTooBig(rest)
    decreases |rest|
  {
    if |rest| == 0 then [merged]
    else
      FlagsCons(rest[0], rest[1..]);
      assert [rest[0]] + rest[1..] == rest;
      match MergeBlocks(merged, rest[0], onRangesMerged)
      case Some(m) => MergeFrom(m, rest[1..], onRangesMerged)
      case None =>
        var tail := MergeFrom(rest[0], rest[1..], onRangesMerged);
        FlagsCons(merged, tail);
        [merged] + tail
  }

  /** `processMergedBlocks`: the blocks of a non-empty group, merged left to right. */
  function MergedBlocks(group: seq<Block>, onRangesMerged: (Block, Block, Block) -> bool): (r: seq<Block>)
    requires |group| > 0
    ensures 1 <= |r| <= |group|
    ensures AnyDirty(r) <==> AnyDirty(group)
  {
    FlagsCons(group[0], group[1..]);
    assert [group[0]] + group[1..] == group;
    MergeFrom(group[0], group[1..], onRangesMerged)
  }

  /** Merging the blocks of a chain leaves a chain. */
  lemma {:induction false} MergeFromChain(merged: Block, rest: seq<Block>, onRangesMerged: (Block, Block, Block) -> bool)
    requires Chain([merged] + rest)
    ensures Chain(MergeFrom(merged, rest, onRangesMerged))
    decreases |rest|
  {
    if |rest| > 0 {
      ChainUncons(merged, rest);
      match MergeBlocks(merged, rest[0], onRangesMerged)
      case Some(m) =>
        SpanOfNeighbours(merged, rest[0]);
        assert m.range == Span(merged, rest[0]).range;
        ChainNewHead(m, rest);
        MergeFromChain(m, rest[1..], onRangesMerged);
      case None =>
        var tail := MergeFrom(rest[0], rest[1..], onRangesMerged);
        MergeFromChain(rest[0], rest[1..], onRangesMerged);
        ChainConcat([merged], tail);
    } else {
      assert [merged] + rest == [merged];
    }
  }

  /** The head of a chain precedes the next block, and the rest is a chain. */
  lemma ChainUncons(head: Block, rest: seq<Block>)
    requires Chain([head] + rest) && |rest| > 0
    ensures Proper(head.range) && Precedes(head.range, rest[0].range)
    ensures Chain(rest) && Chain([rest[0]] + rest[1..])
  {
    var all := [head] + rest;
    assert all[0] == head && all[1] == rest[0];
    ChainSlice(all, 1, |all|);
    assert all[1..] == rest == [rest[0]] + rest[1..];
  }

  /** A chain's head may be replaced by a proper block that still precedes
      the second one. */
  lemma ChainNewHead(m: Block, rest: seq<Block>)
    requires Chain(rest) && |rest| > 0 && Proper(m.range)
    requires |rest| > 1 ==> Precedes(m.range, rest[1].range)
    ensures Chain([m] + rest[1..])
  {
    ChainSlice(rest, 1, |rest|);
    ChainConcat([m], rest[1..]);
  }

  /** When the handler accepts every merge, a group collapses into the one
      block spanning all of it. */
  lemma {:induction false} MergeFromAllAccepted(merged: Block, rest: seq<Block>, onRangesMerged: (Block, Block, Block) -> bool)
    requires forall a, b, c :: onRangesMerged(a, b, c)
    ensures |MergeFrom(merged, rest, onRangesMerged)| == 1
    decreases |rest|
  {
    if |rest| > 0 {
      assert onRangesMerged(merged, rest[0], Span(merged, rest[0]));
      MergeFromAllAccepted(Span(merged, rest[0]), rest[1..], onRangesMerged);
    }
  }

  /** The last block of a sequence. */
  function Last(blocks: seq<Block>): Block
    requires |blocks| > 0
  {
    blocks[|blocks| - 1]
  }

  /** `groups` cut `blocks` into maximal runs in which each block is
      whitespace-only separated from the next. */
  predicate GroupsOf(groups: seq<seq<Block>>, blocks: seq<Block>, separated: (Block, Block) -> bool) {
    && Flatten(groups) == blocks
    && (forall k | 0 <= k < |groups| :: |groups[k]| > 0)
    && (forall k, i | 0 <= k < |groups| && 0 <= i < |groups[k]| - 1 :: separated(groups[k][i], groups[k][i + 1]))
    && (forall k | 0 <= k < |groups| - 1 :: !separated(Last(groups[k]), groups[k + 1][0]))
  }

  /** `processMergeableGroups`: the blocks cut into maximal runs in which each
      block is whitespace-only separated from the next. */
  function MergeableGroups(blocks: seq<Block>, separated: (Block, Block) -> bool): (r: seq<seq<Block>>)
    ensures GroupsOf(r, blocks, separated)
    decreases |blocks|
  {
    if |blocks| == 0 then []
    else if |blocks| == 1 then
      assert Flatten([blocks]) == blocks + Flatten([blocks][1..]);
      [blocks]
    else
      var rest := MergeableGroups(blocks[1..], separated);
      if separated(blocks[0], blocks[1]) then
        JoinFirstGroup(blocks, rest, separated);
        [[blocks[0]] + rest[0]] + rest[1..]
      else
        NewFirstGroup(blocks, rest, separated);
        [[blocks[0]]] + rest
  }

  /** The groups of the tail start with the tail's first block. */
  lemma GroupsStart(blocks: seq<Block>, rest: seq<seq<Block>>, separated: (Block, Block) -> bool)
    requires |blocks| > 1 && GroupsOf(rest, blocks[1..], separated)
    ensures |rest| > 0 && rest[0][0] == blocks[1]
    ensures Flatten(rest) == rest[0] + Flatten(rest[1..])
  {
  }

  lemma JoinFirstGroup(blocks: seq<Block>, rest: seq<seq<Block>>, separated: (Block, Block) -> bool)
    requires |blocks| > 1 && GroupsOf(rest, blocks[1..], separated)
    requires separated(blocks[0], blocks[1])
    ensures GroupsOf([[blocks[0]] + rest[0]] + rest[1..], blocks, separated)
  {
    GroupsStart(blocks, rest, separated);
    var r := [[blocks[0]] + rest[0]] + rest[1..];
    assert r[1..] == rest[1..];
    calc {
      Flatten(r);
      ([blocks[0]] + rest[0]) + Flatten(rest[1..]);
      { ConcatAssoc3([blocks[0]], rest[0], Flatten(rest[1..])); }
      [blocks[0]] + blocks[1..];
      blocks;
    }
    forall k, i | 0 <= k < |r| && 0 <= i < |r[k]| - 1
      ensures separated(r[k][i], r[k][i + 1])
    {
      if k == 0 {
        if i > 0 { assert r[0][i] == rest[0][i - 1] && r[0][i + 1] == rest[0][i]; }
      } else {
        assert r[k] == rest[k];
      }
    }
    forall k | 0 <= k < |r| - 1
      ensures !separated(Last(r[k]), r[k + 1][0])
    {
      assert r[k + 1] == rest[k + 1];
      if k == 0 { assert Last(r[0]) == Last(rest[0]); } else { assert r[k] == rest[k]; }
    }
  }

  lemma NewFirstGroup(blocks: seq<Block>, rest: seq<seq<Block>>, separated: (Block, Block) -> bool)
    requires |blocks| > 1 && GroupsOf(rest, blocks[1..], separated)
    requires !separated(blocks[0], blocks[1])
    ensures GroupsOf([[blocks[0]]] + rest, blocks, separated)
  {
    GroupsStart(blocks, rest, separated);
    var r := [[blocks[0]]] + rest;
    assert r[1..] == rest;
    assert Flatten(r) == [blocks[0]] + Flatten(rest);
    forall k | 0 <= k < |r| - 1
      ensures !separated(Last(r[k]), r[k + 1][0])
    {
      assert r[k + 1] == rest[k];
      if k > 0 { assert r[k] == rest[k - 1]; }
    }
    forall k, i | 0 <= k < |r| && 0 <= i < |r[k]| - 1
      ensures separated(r[k][i], r[k][i + 1])
    {
      assert k > 0 && r[k] == rest[k - 1];
    }
  }

  lemma ConcatAssoc3(a: seq<Block>, b: seq<Block>, c: seq<Block>)
    ensures (a + b) + c == a + (b + c)
  {
  }

  /** The diff a block is refreshed with, relative to its start, and whether
      it had to fall back to the coarse algorithm. */
  function LocalDiff(block: Block, fastRefresh: bool, refresher: Refresher): (seq<Range>, bool) {
    if block.isTooBig && fastRefresh then (refresher.fastCompareLines(block.range), true)
    else match refresher.tryCompareLines(block.range)
      case Some(changes) => (changes, false)
      case None => (refresher.fastCompareLines(block.range), true)
  }

  /** `refreshBlock`: the fresh, clean blocks of one merged block, moved from
      block-relative to document lines. */
  function RefreshBlock(block: Block, fastRefresh: bool, refresher: Refresher): (r: seq<Block>)
    ensures block.range.IsEmpty() ==> r == []
    ensures forall i | 0 <= i < |r| :: !r[i].isDirty
    ensures forall i | 0 <= i < |r| ::
              r[i].isTooBig <==> (block.isTooBig && fastRefresh) || refresher.tryCompareLines(block.range).None?
    ensures !block.range.IsEmpty() ==>
              var changes := LocalDiff(block, fastRefresh, refresher).0;
              |r| == |changes| &&
              forall i | 0 <= i < |r| ::
                r[i].range.Length(Left) == changes[i].Length(Left) &&
                r[i].range.Length(Right) == changes[i].Length(Right) &&
                r[i].range.start1 - block.range.start1 == changes[i].start1 &&
                r[i].range.start2 - block.range.start2 == changes[i].start2
  {
    if block.range.IsEmpty() then []
    else
      var (changes, isTooBig) := LocalDiff(block, fastRefresh, refresher);
      seq(|changes|, i requires 0 <= i < |changes| =>
        Block(ShiftRangeBy(changes[i], block.range.start1, block.range.start2), false, isTooBig))
  }

  /** The fresh blocks of each merged block, in order. */
  function RefreshAll(merged: seq<Block>, fastRefresh: bool, refresher: Refresher): (r: seq<Block>)
    ensures !AnyDirty(r)
  {
    if |merged| == 0 then []
    else
      var head := RefreshBlock(merged[0], fastRefresh, refresher);
      var tail := RefreshAll(merged[1..], fastRefresh, refresher);
      CleanConcat(head, tail);
      head + tail
  }

  lemma CleanConcat(a: seq<Block>, b: seq<Block>)
    requires !AnyDirty(a) && !AnyDirty(b)
    ensures !AnyDirty(a + b)
  {
  }

  /** What one group becomes: a group with a dirty block is merged and
      re-diffed, a clean group is kept as it is. */
  function RefreshGroup(group: seq<Block>, fastRefresh: bool, refresher: Refresher): (r: seq<Block>)
    requires |group| > 0
    ensures !AnyDirty(r)
  {
    if AnyDirty(group) then RefreshAll(MergedBlocks(group, refresher.onRangesMerged), fastRefresh, refresher) else group
  }

  /** The loop of `refresh` over the groups. */
  function RefreshGroups(groups: seq<seq<Block>>, fastRefresh: bool, refresher: Refresher): (r: seq<Block>)
    requires NonEmptyGroups(groups)
    ensures AllClean(groups) ==> r == Flatten(groups)
    ensures !AnyDirty(r)
  {
    if |groups| == 0 then []
    else
      var head := RefreshGroup(groups[0], fastRefresh, refresher);
      var tail := RefreshGroups(groups[1..], fastRefresh, refresher);
      CleanConcat(head, tail);
      assert forall k | 0 <= k < |groups[1..]| :: groups[1..][k] == groups[k + 1];
      head + tail
  }

  /** A single group: a clean one is kept, a dirty one is replaced by the
      fresh diff of its merged blocks. */
  lemma RefreshOneGroup(group: seq<Block>, fastRefresh: bool, refresher: Refresher)
    requires |group| > 0
    ensures !AnyDirty(group) ==> RefreshGroups([group], fastRefresh, refresher) == group
    ensures AnyDirty(group) ==>
              RefreshGroups([group], fastRefresh, refresher)
              == RefreshAll(MergedBlocks(group, refresher.onRangesMerged), fastRefresh, refresher)
  {
    assert [group][1..] == [];
    assert RefreshGroup(group, fastRefresh, refresher) + [] == RefreshGroup(group, fastRefresh, refresher);
  }

  /** No group holds a dirty block. */
  predicate AllClean(groups: seq<seq<Block>>) {
    forall k | 0 <= k < |groups| :: !AnyDirty(groups[k])
  }

  /** Every group holds a block. */
  predicate NonEmptyGroups(groups: seq<seq<Block>>) {
    forall k | 0 <= k < |groups| :: |groups[k]| > 0
  }

  lemma NonEmptyConcat(a: seq<seq<Block>>, b: seq<seq<Block>>)
    requires NonEmptyGroups(a) && NonEmptyGroups(b)
    ensures NonEmptyGroups(a + b)
    ensures |a| > 0 ==> NonEmptyGroups(a[1..])
  {
    forall k | 0 <= k < |a + b| ensures |(a + b)[k]| > 0 {
      if k < |a| { assert (a + b)[k] == a[k]; } else { assert (a + b)[k] == b[k - |a|]; }
    }
    if |a| > 0 {
      forall k | 0 <= k < |a[1..]| ensures |a[1..][k]| > 0 { assert a[1..][k] == a[k + 1]; }
    }
  }

  /** The groups are processed independently, each in its place. */
  lemma {:induction false} RefreshGroupsAppend(a: seq<seq<Block>>, b: seq<seq<Block>>, fastRefresh: bool, refresher: Refresher)
    requires NonEmptyGroups(a) && NonEmptyGroups(b)
    ensures NonEmptyGroups(a + b)
    ensures RefreshGroups(a + b, fastRefresh, refresher)
            == RefreshGroups(a, fastRefresh, refresher) + RefreshGroups(b, fastRefresh, refresher)
  {
    NonEmptyConcat(a, b);
    if |a| == 0 {
      assert a + b == b;
    } else {
      RefreshGroupsAppend(a[1..], b, fastRefresh, refresher);
      AppendStep(a, b, fastRefresh, refresher);
    }
  }

  /** The inductive step of `RefreshGroupsAppend`: the first group of `a`
      is refreshed first either way. */
  lemma AppendStep(a: seq<seq<Block>>, b: seq<seq<Block>>, fastRefresh: bool, refresher: Refresher)
    requires |a| > 0 && NonEmptyGroups(a) && NonEmptyGroups(b) && NonEmptyGroups(a + b)
    requires NonEmptyGroups(a[1..]) && NonEmptyGroups(a[1..] + b)
    requires RefreshGroups(a[1..] + b, fastRefresh, refresher)
             == RefreshGroups(a[1..], fastRefresh, refresher) + RefreshGroups(b, fastRefresh, refresher)
    ensures RefreshGroups(a + b, fastRefresh, refresher)
            == RefreshGroups(a, fastRefresh, refresher) + RefreshGroups(b, fastRefresh, refresher)
  {
    var head := RefreshGroup(a[0], fastRefresh, refresher);
    GroupSlices(a, b);
    RefreshGroupsCons(a + b, fastRefresh, refresher);
    RefreshGroupsCons(a, fastRefresh, refresher);
    ConcatAssoc3(head, RefreshGroups(a[1..], fastRefresh, refresher), RefreshGroups(b, fastRefresh, refresher));
  }

  lemma RefreshGroupsCons(groups: seq<seq<Block>>, fastRefresh: bool, refresher: Refresher)
    requires NonEmptyGroups(groups) && |groups| > 0
    ensures NonEmptyGroups(groups[1..])
    ensures RefreshGroups(groups, fastRefresh, refresher)
            == RefreshGroup(groups[0], fastRefresh, refresher) + RefreshGroups(groups[1..], fastRefresh, refresher)
  {
    NonEmptyConcat(groups, []);
  }

  lemma GroupSlices(a: seq<seq<Block>>, b: seq<seq<Block>>)
    requires |a| > 0
    ensures (a + b)[0] == a[0] && (a + b)[1..] == a[1..] + b
  {
  }

  /** `refresh`: the block list after every dirty group is re-diffed. */
  function Refresh(blocks: seq<Block>, fastRefresh: bool, refresher: Refresher): (r: seq<Block>)
    ensures !AnyDirty(r)
    ensures !AnyDirty(blocks) ==> r == blocks
  {
    var groups := MergeableGroups(blocks, refresher.whitespaceOnlySeparated);
    CleanGroups(groups);
    RefreshGroups(groups, fastRefresh, refresher)
  }

  /** Where two neighbouring blocks are not whitespace-only separated, the
      grouping of the whole list is the grouping of either part. */
  lemma {:induction false} MergeableGroupsSplit(a: seq<Block>, b: seq<Block>, separated: (Block, Block) -> bool)
    requires |a| > 0 && |b| > 0 && !separated(Last(a), b[0])
    ensures MergeableGroups(a + b, separated) == MergeableGroups(a, separated) + MergeableGroups(b, separated)
    decreases |a|
  {
    if |a| == 1 {
      SplitAfterOne(a, b, separated);
    } else {
      assert Last(a[1..]) == Last(a);
      MergeableGroupsSplit(a[1..], b, separated);
      SplitStep(a, b, separated);
    }
  }

  lemma SplitAfterOne(a: seq<Block>, b: seq<Block>, separated: (Block, Block) -> bool)
    requires |a| == 1 && |b| > 0 && !separated(a[0], b[0])
    ensures MergeableGroups(a + b, separated) == [a] + MergeableGroups(b, separated)
  {
    var ab := a + b;
    assert ab[1..] == b && ab[0] == a[0] && ab[1] == b[0];
    GroupsUnfold(ab, separated);
    assert [ab[0]] == a;
  }

  lemma SplitStep(a: seq<Block>, b: seq<Block>, separated: (Block, Block) -> bool)
    requires |a| > 1 && |b| > 0
    requires MergeableGroups(a[1..] + b, separated) == MergeableGroups(a[1..], separated) + MergeableGroups(b, separated)
    ensures MergeableGroups(a + b, separated) == MergeableGroups(a, separated) + MergeableGroups(b, separated)
  {
    var ab := a + b;
    ConcatSlices(a, b);
    GroupsUnfold(ab, separated);
    GroupsUnfold(a, separated);
    ConsGroupAppend(a[0], MergeableGroups(a[1..], separated), MergeableGroups(b, separated));
  }

  lemma ConcatSlices(a: seq<Block>, b: seq<Block>)
    requires |a| > 0
    ensures (a + b)[0] == a[0] && (a + b)[1..] == a[1..] + b
    ensures |a| > 1 ==> (a + b)[1] == a[1]
    ensures |a| == 1 && |b| > 0 ==> (a + b)[1] == b[0]
  {
  }

  /** Prefixing a block, to the first group or as a group of its own, commutes
      with appending further groups. */
  lemma ConsGroupAppend(x: Block, restA: seq<seq<Block>>, restB: seq<seq<Block>>)
    requires |restA| > 0
    ensures [[x] + (restA + restB)[0]] + (restA + restB)[1..] == ([[x] + restA[0]] + restA[1..]) + restB
    ensures [[x]] + (restA + restB) == ([[x]] + restA) + restB
  {
    assert (restA + restB)[0] == restA[0];
    assert (restA + restB)[1..] == restA[1..] + restB;
  }

  /** One step of `MergeableGroups`, with the tail's groups non-empty. */
  lemma GroupsUnfold(blocks: seq<Block>, separated: (Block, Block) -> bool)
    requires |blocks| > 1
    ensures var rest := MergeableGroups(blocks[1..], separated);
            && |rest| > 0
            && MergeableGroups(blocks, separated)
               == if separated(blocks[0], blocks[1]) then [[blocks[0]] + rest[0]] + rest[1..] else [[blocks[0]]] + rest
  {
    GroupsStart(blocks, MergeableGroups(blocks[1..], separated), separated);
  }

  /** A refresh never reaches across two blocks that are not whitespace-only
      separated: the list is refreshed as the two parts on either side. */
  lemma RefreshSplit(a: seq<Block>, b: seq<Block>, fastRefresh: bool, refresher: Refresher)
    requires |a| > 0 && |b| > 0 && !refresher.whitespaceOnlySeparated(Last(a), b[0])
    ensures Refresh(a + b, fastRefresh, refresher) == Refresh(a, fastRefresh, refresher) + Refresh(b, fastRefresh, refresher)
  {
    var sep := refresher.whitespaceOnlySeparated;
    MergeableGroupsSplit(a, b, sep);
    RefreshGroupsAppend(MergeableGroups(a, sep), MergeableGroups(b, sep), fastRefresh, refresher);
    CleanGroups(MergeableGroups(a, sep));
  }

  /** A run of blocks each whitespace-only separated from the next is one
      group: clean, it is kept; dirty, it becomes the fresh diff of its
      merged blocks. */
  lemma {:induction false} RefreshOneRun(blocks: seq<Block>, fastRefresh: bool, refresher: Refresher)
    requires |blocks| > 0
    requires forall i | 0 <= i < |blocks| - 1 :: refresher.whitespaceOnlySeparated(blocks[i], blocks[i + 1])
    ensures !AnyDirty(blocks) ==> Refresh(blocks, fastRefresh, refresher) == blocks
    ensures AnyDirty(blocks) ==>
              Refresh(blocks, fastRefresh, refresher)
              == RefreshAll(MergedBlocks(blocks, refresher.onRangesMerged), fastRefresh, refresher)
  {
    OneRunGroups(blocks, refresher.whitespaceOnlySeparated);
    RefreshOneGroup(blocks, fastRefresh, refresher);
  }

  lemma {:induction false} OneRunGroups(blocks: seq<Block>, separated: (Block, Block) -> bool)
    requires |blocks| > 0
    requires forall i | 0 <= i < |blocks| - 1 :: separated(blocks[i], blocks[i + 1])
    ensures MergeableGroups(blocks, separated) == [blocks]
    decreases |blocks|
  {
    if |blocks| > 1 {
      var tail := blocks[1..];
      forall i | 0 <= i < |tail| - 1 ensures separated(tail[i], tail[i + 1]) {
        assert tail[i] == blocks[i + 1] && tail[i + 1] == blocks[i + 2];
      }
      OneRunGroups(tail, separated);
      GroupsUnfold(blocks, separated);
      assert separated(blocks[0], blocks[1]);
      assert [blocks[0]] + tail == blocks;
    }
  }

  /** The groups of a clean list are clean. */
  lemma CleanGroups(groups: seq<seq<Block>>)
    ensures !AnyDirty(Flatten(groups)) ==> AllClean(groups)
  {
    if !AnyDirty(Flatten(groups)) {
      forall k | 0 <= k < |groups| ensures !AnyDirty(groups[k]) {
        if AnyDirty(groups[k]) {
          var i :| 0 <= i < |groups[k]| && groups[k][i].isDirty;
          FlattenMember(groups, k, i);
        }
      }
    }
  }

  /** Every element of every group occurs in the concatenation. */
  lemma {:induction false} FlattenMember(groups: seq<seq<Block>>, k: int, i: int)
    requires 0 <= k < |groups| && 0 <= i < |groups[k]|
    ensures exists j | 0 <= j < |Flatten(groups)| :: Flatten(groups)[j] == groups[k][i]
  {
    var f := Flatten(groups);
    assert f == groups[0] + Flatten(groups[1..]);
    if k == 0 {
      assert f[i] == groups[0][i];
    } else {
      assert groups[1..][k - 1] == groups[k];
      FlattenMember(groups[1..], k - 1, i);
      var j :| 0 <= j < |Flatten(groups[1..])| && Flatten(groups[1..])[j] == groups[k][i];
      assert f[|groups[0]| + j] == groups[k][i];
    }
  }
}
