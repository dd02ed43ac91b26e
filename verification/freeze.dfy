/** `FreezeHelper`: nested freezing of either side of the document tracker.
    While a side is frozen the tracker keeps the side's text as it was when
    the outermost freeze began; a counter records the nesting depth. */
module Freeze {
  import opened Wrappers
  import opened LineRanges

  /** The text a side had when it was frozen, and the nesting depth. */
  datatype FreezeData = FreezeData(textBeforeFreeze: string, counter: int)

  /** What the helper makes the tracker and its handler do. */
  datatype Event =
    | OnFreezeSide(side: Side)
    | OnFreeze
    | OnUnfreezeSide(side: Side)
    | OnUnfreeze
      /** Replays, on the block list, the edits made to `side` since `oldText`. */
    | ReplayEdits(side: Side, oldText: string)
      /** The tracker's `refreshDirty(fastRefresh = false)` taking effect. The
          call returns at once while a side is still frozen, so the event
          only appears once both sides are thawed. */
    | RefreshDirty
      /** The error logged for an unfreeze without a matching freeze. */
    | NotFrozenError(side: Side)

  datatype FreezeHelper = FreezeHelper(data1: Option<FreezeData>, data2: Option<FreezeData>) {

    function GetData(side: Side): Option<FreezeData> {
      side.Select(data1, data2)
    }

    function SetData(side: Side, data: Option<FreezeData>): (r: FreezeHelper)
      ensures r.GetData(side) == data
      ensures r.GetData(side.Other()) == GetData(side.Other())
    {
      if side.Left? then this.(data1 := data) else this.(data2 := data)
    }

    predicate IsFrozenSide(side: Side) {
      GetData(side).Some?
    }

    predicate IsFrozen() {
      IsFrozenSide(Left) || IsFrozenSide(Right)
    }

    /** Every frozen side has been frozen at least once more than unfrozen. */
    predicate Valid() {
      forall side: Side :: GetData(side).Some? ==> GetData(side).value.counter >= 1
    }
  }

  const Unfrozen := FreezeHelper(None, None)

  /** The helper and the events one call produced. */
  datatype Step = Step(helper: FreezeHelper, events: seq<Event>)

  /** `freeze` as the source writes it: the whole-tracker `onFreeze()` fires
      when the tracker WAS already frozen. */
  function FreezeAsWritten(h: FreezeHelper, side: Side, document: string): (r: Step)
    ensures h.IsFrozenSide(side) ==> r.events == []
    ensures !h.IsFrozenSide(side) ==>
              r.events == (if h.IsFrozen() then [OnFreeze] else []) + [OnFreezeSide(side)]
  {
    var wasFrozen := h.IsFrozen();
    match h.GetData(side)
    case None =>
      Step(h.SetData(side, Some(FreezeData(document, 1))),
           (if wasFrozen then [OnFreeze] else []) + [OnFreezeSide(side)])
    case Some(data) =>
      Step(h.SetData(side, Some(data.(counter := data.counter + 1))), [])
  }

  /** `freeze`: the first freeze of a side snapshots its text with depth 1 and
      announces it; later ones only deepen the nesting. `onFreeze()` fires when
      the tracker as a whole becomes frozen. */
  function Freeze(h: FreezeHelper, side: Side, document: string): (r: Step)
    ensures r.helper.GetData(side.Other()) == h.GetData(side.Other())
    ensures r.helper.IsFrozenSide(side) && r.helper.IsFrozen()
    ensures h.GetData(side).None? ==>
              && r.helper.GetData(side) == Some(FreezeData(document, 1))
              && r.events == (if h.IsFrozen() then [] else [OnFreeze]) + [OnFreezeSide(side)]
    ensures h.GetData(side).Some? ==>
              && r.helper.GetData(side).value.textBeforeFreeze == h.GetData(side).value.textBeforeFreeze
              && r.helper.GetData(side).value.counter == h.GetData(side).value.counter + 1
              && r.events == []
  {
    var wasFrozen := h.IsFrozen();
    match h.GetData(side)
    case None =>
      Step(h.SetData(side, Some(FreezeData(document, 1))),
           (if !wasFrozen then [OnFreeze] else []) + [OnFreezeSide(side)])
    case Some(data) =>
      Step(h.SetData(side, Some(data.(counter := data.counter + 1))), [])
  }

  /** `unfreeze`: one level of nesting is undone; at depth 0 the side thaws
      and its edits are replayed; the blocks are refreshed when no side is
      frozen any more. Unfreezing a side that is not frozen only logs an
      error. */
  function Unfreeze(h: FreezeHelper, side: Side): (r: Step)
    ensures r.helper.GetData(side.Other()) == h.GetData(side.Other())
    ensures (h.GetData(side).None? || h.GetData(side).value.counter == 0) ==>
              r.helper == h && r.events == [NotFrozenError(side)]
    ensures h.GetData(side).Some? && h.GetData(side).value.counter > 1 ==>
              && r.helper.GetData(side) == Some(h.GetData(side).value.(counter := h.GetData(side).value.counter - 1))
              && r.events == []
    ensures h.GetData(side).Some? && h.GetData(side).value.counter == 1 ==>
              && !r.helper.IsFrozenSide(side)
              && r.events == if h.IsFrozenSide(side.Other())
                             then [ReplayEdits(side, h.GetData(side).value.textBeforeFreeze), OnUnfreezeSide(side)]
                             else [ReplayEdits(side, h.GetData(side).value.textBeforeFreeze), RefreshDirty,
                                   OnUnfreezeSide(side), OnUnfreeze]
  {
    match h.GetData(side)
    case None => Step(h, [NotFrozenError(side)])
    case Some(data) =>
      if data.counter == 0 then Step(h, [NotFrozenError(side)])
      else if data.counter - 1 != 0 then Step(h.SetData(side, Some(data.(counter := data.counter - 1))), [])
      else
        var thawed := h.SetData(side, None);
        var refreshed := if thawed.IsFrozen() then [] else [RefreshDirty];
        Step(thawed, [ReplayEdits(side, data.textBeforeFreeze)] + refreshed + [OnUnfreezeSide(side)]
                     + (if !thawed.IsFrozen() then [OnUnfreeze] else []))
  }

  /** The blocks are refreshed by an unfreeze exactly when it leaves the
      tracker with no frozen side. */
  lemma UnfreezeRefreshesWhenThawed(h: FreezeHelper, side: Side)
    requires h.Valid()
    ensures var r := Unfreeze(h, side);
            RefreshDirty in r.events <==> h.IsFrozenSide(side) && h.GetData(side).value.counter == 1 && !r.helper.IsFrozen()
  {
    var r := Unfreeze(h, side);
    assert r.helper.IsFrozen() <==> r.helper.IsFrozenSide(side) || r.helper.IsFrozenSide(side.Other());
  }

  /** `getFrozenContent`: the snapshot, while the side is frozen. */
  function GetFrozenContent(h: FreezeHelper, side: Side): (r: Option<string>)
    ensures r.Some? <==> h.IsFrozenSide(side)
    ensures r.Some? ==> r.value == h.GetData(side).value.textBeforeFreeze
  {
    match h.GetData(side)
    case None => None
    case Some(data) => Some(data.textBeforeFreeze)
  }

  /** `setFrozenContent`: the snapshot is replaced and the depth kept. The
      source dereferences the side's data unchecked, so on a side that is not
      frozen it throws; that outcome is `None`. */
  function SetFrozenContent(h: FreezeHelper, side: Side, newContent: string): (r: Option<FreezeHelper>)
    ensures r.Some? <==> h.IsFrozenSide(side)
    ensures r.Some? ==>
              && r.value.GetData(side) == Some(FreezeData(newContent, h.GetData(side).value.counter))
              && r.value.GetData(side.Other()) == h.GetData(side.Other())
  {
    match h.GetData(side)
    case None => None
    case Some(data) => Some(h.SetData(side, Some(FreezeData(newContent, data.counter))))
  }

  /** `getContent` of the tracker: the snapshot while frozen, otherwise the
      side's current document text. */
  function GetContent(h: FreezeHelper, side: Side, document1: string, document2: string): (r: string)
    ensures h.IsFrozenSide(side) ==> r == h.GetData(side).value.textBeforeFreeze
    ensures !h.IsFrozenSide(side) ==> r == side.Select(document1, document2)
  {
    GetFrozenContent(h, side).GetOr(side.Select(document1, document2))
  }

  /** While a side stays frozen its content is the text it had when first
      frozen, whatever the documents hold now. */
  lemma FrozenContentIsSnapshot(h: FreezeHelper, side: Side, document: string, now1: string, now2: string)
    requires !h.IsFrozenSide(side)
    ensures GetContent(Freeze(h, side, document).helper, side, now1, now2) == document
  {
  }

  /** Freeze and unfreeze preserve the helper's invariant. */
  lemma FreezeValid(h: FreezeHelper, side: Side, document: string)
    requires h.Valid()
    ensures Freeze(h, side, document).helper.Valid()
  {
    var r := Freeze(h, side, document).helper;
    forall s: Side | r.GetData(s).Some? ensures r.GetData(s).value.counter >= 1 {
      if s != side { assert s == side.Other(); }
    }
  }

  lemma UnfreezeValid(h: FreezeHelper, side: Side)
    requires h.Valid()
    ensures Unfreeze(h, side).helper.Valid()
  {
    var r := Unfreeze(h, side).helper;
    forall s: Side | r.GetData(s).Some? ensures r.GetData(s).value.counter >= 1 {
      if s != side { assert s == side.Other(); }
    }
  }

  /** Unfreeze undoes freeze. */
  lemma UnfreezeUndoesFreeze(h: FreezeHelper, side: Side, document: string)
    requires h.Valid()
    ensures Unfreeze(Freeze(h, side, document).helper, side).helper == h
  {
    var f := Freeze(h, side, document).helper;
    var u := Unfreeze(f, side).helper;
    assert u.GetData(side) == h.GetData(side);
    assert u.GetData(side.Other()) == h.GetData(side.Other());
    if side.Left? { assert u.data1 == h.data1 && u.data2 == h.data2; }
    else { assert u.data2 == h.data2 && u.data1 == h.data1; }
  }

  /** Whole-tracker freezes announced minus whole-tracker unfreezes announced. */
  function Balance(events: seq<Event>): int {
    if |events| == 0 then 0
    else (if events[0].OnFreeze? then 1 else if events[0].OnUnfreeze? then -1 else 0) + Balance(events[1..])
  }

  lemma {:induction false} BalanceAppend(a: seq<Event>, b: seq<Event>)
    ensures Balance(a + b) == Balance(a) + Balance(b)
  {
    if |a| == 0 {
      assert a + b == b;
    } else {
      assert (a + b)[1..] == a[1..] + b;
      BalanceAppend(a[1..], b);
    }
  }

  /** Events other than the whole-tracker announcements do not count. */
  lemma {:induction false} BalanceQuiet(events: seq<Event>)
    requires forall i | 0 <= i < |events| :: !events[i].OnFreeze? && !events[i].OnUnfreeze?
    ensures Balance(events) == 0
  {
    if |events| > 0 {
      BalanceQuiet(events[1..]);
    }
  }

  lemma BalanceOne(e: Event)
    ensures Balance([e]) == (if e.OnFreeze? then 1 else if e.OnUnfreeze? then -1 else 0)
  {
    assert [e][1..] == [];
  }

  function FrozenCount(h: FreezeHelper): int {
    if h.IsFrozen() then 1 else 0
  }

  datatype Op = FreezeOp(side: Side, document: string) | UnfreezeOp(side: Side)

  function Apply(h: FreezeHelper, op: Op): Step {
    match op
    case FreezeOp(side, document) => Freeze(h, side, document)
    case UnfreezeOp(side) => Unfreeze(h, side)
  }

  /** Runs a sequence of calls, collecting their events in order. */
  function Replay(h: FreezeHelper, ops: seq<Op>): (r: Step)
    decreases |ops|
  {
    if |ops| == 0 then Step(h, [])
    else
      var first := Apply(h, ops[0]);
      var rest := Replay(first.helper, ops[1..]);
      Step(rest.helper, first.events + rest.events)
  }

  /** Each call announces exactly the change of the whole tracker's frozen state. */
  lemma ApplyBalance(h: FreezeHelper, op: Op)
    requires h.Valid()
    ensures Apply(h, op).helper.Valid()
    ensures Balance(Apply(h, op).events) == FrozenCount(Apply(h, op).helper) - FrozenCount(h)
  {
    var r := Apply(h, op);
    match op
    case FreezeOp(side, document) =>
      FreezeValid(h, side, document);
      assert h.IsFrozen() <==> h.IsFrozenSide(side) || h.IsFrozenSide(side.Other());
      if h.GetData(side).None? {
        var pre: seq<Event> := if h.IsFrozen() then [] else [OnFreeze];
        BalanceAppend(pre, [OnFreezeSide(side)]);
        BalanceOne(OnFreezeSide(side));
        if pre != [] { BalanceOne(OnFreeze); }
      }
    case UnfreezeOp(side) =>
      UnfreezeValid(h, side);
      assert h.IsFrozen() <==> h.IsFrozenSide(side) || h.IsFrozenSide(side.Other());
      assert r.helper.IsFrozen() <==> r.helper.IsFrozenSide(side) || r.helper.IsFrozenSide(side.Other());
      if h.GetData(side).Some? && h.GetData(side).value.counter == 1 {
        var d := h.GetData(side).value;
        if h.IsFrozenSide(side.Other()) {
          BalanceQuiet(r.events);
        } else {
          var quiet := [ReplayEdits(side, d.textBeforeFreeze), RefreshDirty, OnUnfreezeSide(side)];
          assert r.events == quiet + [OnUnfreeze];
          BalanceAppend(quiet, [OnUnfreeze]);
          BalanceQuiet(quiet);
          BalanceOne(OnUnfreeze);
        }
      }
  }

  /** Over any sequence of calls the announcements pair up: `onUnfreeze()`
      never outnumbers `onFreeze()`, and the difference is whether the
      tracker is frozen at the end. */
  lemma {:induction false} ReplayBalance(h: FreezeHelper, ops: seq<Op>)
    requires h.Valid()
    ensures Replay(h, ops).helper.Valid()
    ensures Balance(Replay(h, ops).events) == FrozenCount(Replay(h, ops).helper) - FrozenCount(h)
    decreases |ops|
  {
    if |ops| > 0 {
      var first := Apply(h, ops[0]);
      ApplyBalance(h, ops[0]);
      ReplayBalance(first.helper, ops[1..]);
      BalanceAppend(first.events, Replay(first.helper, ops[1..]).events);
    }
  }

  /** As written, freezing and unfreezing one side from the unfrozen state
      announces `onUnfreeze()` without any `onFreeze()`. */
  lemma FreezeAsWrittenUnbalanced()
    ensures var f := FreezeAsWritten(Unfrozen, Left, "");
            var u := Unfreeze(f.helper, Left);
            && OnUnfreeze in u.events
            && OnFreeze !in f.events
            && Balance(f.events + u.events) == -1
            && !u.helper.IsFrozen()
  {
    var f := FreezeAsWritten(Unfrozen, Left, "");
    var u := Unfreeze(f.helper, Left);
    assert f.events == [OnFreezeSide(Left)];
    assert u.events == [ReplayEdits(Left, ""), RefreshDirty, OnUnfreezeSide(Left), OnUnfreeze];
    var quiet := [ReplayEdits(Left, ""), RefreshDirty, OnUnfreezeSide(Left)];
    assert u.events == quiet + [OnUnfreeze];
    BalanceAppend(f.events, u.events);
    BalanceQuiet(f.events);
    BalanceAppend(quiet, [OnUnfreeze]);
    BalanceQuiet(quiet);
    BalanceOne(OnUnfreeze);
  }
}
