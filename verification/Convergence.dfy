/**
 * What one scheduler tick guarantees and what repeated ticks on a fixed target
 * converge to, for every committed state, target and nonzero budget
 * (crates/sim-lib-stream-halo/src/frame_budget.rs:166-203).
 */
module Convergence {
  import opened Wrappers
  import opened Machine
  import opened Ordered
  import opened Sequences
  import opened FirstFit
  import opened LuaRender
  import opened FrameBudget
  import opened Scheduler

  // ---------------------------------------------------------------- one tick

  lemma ChangesHaveEffect(previous: LuaFrameState, target: LuaFrameState)
    ensures forall c :: c in Changes(previous, target) ==> Effect(c) == Get(target, c.key)
  {
    ChangesCharacterized(previous, target);
  }

  /** No changes are left exactly when the display state is the target. */
  lemma NoChangesMeansEqual(previous: LuaFrameState, target: LuaFrameState)
    ensures Changes(previous, target) == [] <==> previous == target
  {
    ChangesCharacterized(previous, target);
    if previous == target {
      assert forall c :: c !in Changes(previous, target);
      EmptyTogether(Changes(previous, target), []);
    } else if Changes(previous, target) == [] {
      forall k: CellKey
        ensures Get(previous, k) == Get(target, k)
      {
        var change := ChangeAt(previous, target, k);
        assert change.Some? ==> IsChange(previous, target, change.value);
      }
      assert forall k :: k in previous ==> Get(previous, k) == Get(target, k);
      assert forall k :: k in target ==> Get(previous, k) == Get(target, k);
    }
  }

  lemma {:induction false} SelectedKeepOrder<T>(rank: T -> int, items: seq<T>, mask: seq<bool>, keep: bool)
    requires |items| == |mask| && Ascending(rank, items)
    ensures Ascending(rank, Select(items, mask, keep))
    ensures forall x :: x in Select(items, mask, keep) ==> x in items
  {
    if items != [] {
      HeadIsLeast(rank, items);
      SelectedKeepOrder(rank, items[1..], mask[1..], keep);
      if mask[0] == keep {
        ConsAscending(rank, items[0], Select(items[1..], mask[1..], keep));
      }
    }
  }

  /** Sent and deferred cells are each in schedule order and share no cell. */
  lemma TickLists(changes: seq<LuaCell>, budget: nat)
    requires Ascending(CellRank, changes)
    ensures var t := Pass(SizeOf(), changes, budget, 0);
            && Ascending(CellRank, t.sent) && Ascending(CellRank, t.deferred)
            && (forall c :: c in t.sent ==> c in changes && c !in t.deferred)
            && (forall c :: c in t.deferred ==> c in changes)
            && (forall c :: c in changes ==> c in t.sent || c in t.deferred)
  {
    var t := Pass(SizeOf(), changes, budget, 0);
    var mask := Fates(SizeOf(), changes, budget, 0);
    PassSelects(SizeOf(), changes, budget, 0);
    SelectedKeepOrder(CellRank, changes, mask, true);
    SelectedKeepOrder(CellRank, changes, mask, false);
    PassPartitions(SizeOf(), changes, budget, 0);
    AscendingCounts(CellRank, changes);
    forall c | c in changes
      ensures (c in t.sent || c in t.deferred) && (c in t.sent ==> c !in t.deferred)
    {
      assert c in multiset(changes);
      assert multiset(changes)[c] == multiset(t.sent)[c] + multiset(t.deferred)[c] == 1;
    }
  }

  lemma {:induction false} AscendingCounts<T>(rank: T -> int, s: seq<T>)
    requires Ascending(rank, s)
    ensures forall x :: x in s ==> multiset(s)[x] == 1
  {
    if s != [] {
      HeadIsLeast(rank, s);
      AscendingCounts(rank, s[1..]);
      assert s == [s[0]] + s[1..];
      assert s[0] !in s[1..];
    }
  }

  /**
   * Carry-over: after a tick towards `target`, the change list towards the same
   * target is exactly the list the tick deferred - same cells, glyphs, priorities
   * and order.
   */
  lemma CarryOver(committed: LuaFrameState, target: LuaFrameState, budget: nat)
    ensures var t := Pass(SizeOf(), Changes(committed, target), budget, 0);
            Changes(ApplyCells(committed, t.sent), target) == t.deferred
  {
    var changes := Changes(committed, target);
    var t := Pass(SizeOf(), changes, budget, 0);
    var after := ApplyCells(committed, t.sent);
    ChangesCharacterized(committed, target);
    ChangesCharacterized(after, target);
    TickLists(changes, budget);
    ChangesHaveEffect(committed, target);
    forall c: LuaCell
      ensures c in t.deferred <==> IsChange(after, target, c)
    {
      ApplyCellsLookup(committed, t.sent, target, c.key);
      if Touches(t.sent, c.key) {
        var s :| s in t.sent && s.key == c.key;
        assert IsChange(committed, target, s);
        assert c in t.deferred ==> s == c;
      } else {
        assert ChangeAt(after, target, c.key) == ChangeAt(committed, target, c.key);
      }
    }
    AscendingIsUnique(CellRank, Changes(after, target), t.deferred);
  }

  /** Every successful tick reports the exact length of its encoded frame, within budget. */
  lemma TickBytesAreExact(committed: LuaFrameState, next: Scene, budget: u32)
    requires ScheduleStep(committed, next, budget).1.Ok?
    ensures var diff := ScheduleStep(committed, next, budget).1.value;
            diff.bytes == |Frame(diff.cells)| <= budget
  {
    var target := TargetOf(next).value;
    PassBytes(SizeOf(), Changes(committed, target), budget, 0);
    FrameLength(Pass(SizeOf(), Changes(committed, target), budget, 0).sent);
  }

  /**
   * One tick: the cells sent and deferred are the changes, split without loss and both
   * kept in schedule order; no deferred cell would still fit; and the choice of
   * cells dominates every other choice the budget affords.
   */
  lemma TickIsFirstFit(committed: LuaFrameState, next: Scene, budget: u32, choice: seq<bool>)
    requires ScheduleStep(committed, next, budget).1.Ok?
    requires |choice| == |Changes(committed, TargetOf(next).value)|
    ensures var changes := Changes(committed, TargetOf(next).value);
            var diff := ScheduleStep(committed, next, budget).1.value;
            var fates := Fates(SizeOf(), changes, budget, 0);
            && diff.cells == Select(changes, fates, true) && diff.deferred == Select(changes, fates, false)
            && InScheduleOrder(diff.cells) && InScheduleOrder(diff.deferred)
            && (forall d :: d in diff.deferred ==> budget < diff.bytes + SizeOf()(d))
            && (Total(SizeOf(), Select(changes, choice, true)) <= budget ==> choice == fates || Dominates(fates, choice))
  {
    var changes := Changes(committed, TargetOf(next).value);
    PassSelects(SizeOf(), changes, budget, 0);
    ChangesCharacterized(committed, TargetOf(next).value);
    TickLists(changes, budget);
    AscendingIsScheduleOrder(Pass(SizeOf(), changes, budget, 0).sent);
    AscendingIsScheduleOrder(Pass(SizeOf(), changes, budget, 0).deferred);
    NothingDeferredFits(SizeOf(), changes, budget, 0);
    if choice != Fates(SizeOf(), changes, budget, 0) && Total(SizeOf(), Select(changes, choice, true)) <= budget {
      FirstFitDominates(SizeOf(), changes, budget, 0, choice);
    }
  }

  /** The change scheduled before all others waits iff it alone exceeds the budget. */
  lemma FirstChangeSentExactly(committed: LuaFrameState, next: Scene, budget: u32)
    requires ScheduleStep(committed, next, budget).1.Ok?
    requires Changes(committed, TargetOf(next).value) != []
    ensures var changes := Changes(committed, TargetOf(next).value);
            var first := changes[0];
            && (forall c :: c in changes[1..] ==> Before(first, c))
            && (first in ScheduleStep(committed, next, budget).1.value.cells <==> SizeOf()(first) <= budget)
            && (first in ScheduleStep(committed, next, budget).1.value.deferred <==> budget < SizeOf()(first))
  {
    var changes := Changes(committed, TargetOf(next).value);
    ChangesCharacterized(committed, TargetOf(next).value);
    TickLists(changes, budget);
    PassHead(SizeOf(), changes[0], changes[1..], budget, 0);
    assert changes == [changes[0]] + changes[1..] && changes[0] in changes;
  }

  ghost function IsWarrant(): LuaCell -> bool {
    (c: LuaCell) => c.priority == WarrantFirst
  }

  /**
   * Warrant content is attempted first: once all of it together is within the budget, a
   * tick sends every warrant change, whatever else has changed.
   */
  lemma WarrantContentGoesFirst(committed: LuaFrameState, next: Scene, budget: u32)
    requires ScheduleStep(committed, next, budget).1.Ok?
    requires Total(SizeOf(), Filter(Changes(committed, TargetOf(next).value), IsWarrant())) <= budget
    ensures forall c :: c in Changes(committed, TargetOf(next).value) && c.priority == WarrantFirst
              ==> c in ScheduleStep(committed, next, budget).1.value.cells
  {
    var target := TargetOf(next).value;
    var changes := Changes(committed, target);
    ChangesCharacterized(committed, target);
    WarrantsLead(changes);
    AffordedFirstAreSent(SizeOf(), changes, IsWarrant(), budget, 0);
    StepSends(committed, next, target, budget);
    forall c | c in changes && c.priority == WarrantFirst
      ensures c in Pass(SizeOf(), changes, budget, 0).sent
    {
      assert IsWarrant()(c);
    }
  }

  lemma WarrantsLead(cells: seq<LuaCell>)
    requires InScheduleOrder(cells)
    ensures forall i, j :: 0 <= i < j < |cells| && IsWarrant()(cells[j]) ==> IsWarrant()(cells[i])
  {
    forall i, j | 0 <= i < j < |cells| && IsWarrant()(cells[j])
      ensures IsWarrant()(cells[i])
    {
      assert Before(cells[i], cells[j]);
    }
  }

  lemma StepSends(committed: LuaFrameState, next: Scene, target: LuaFrameState, budget: u32)
    requires ScheduleStep(committed, next, budget).1.Ok? && TargetOf(next) == Ok(target)
    ensures ScheduleStep(committed, next, budget).1.value.cells == Pass(SizeOf(), Changes(committed, target), budget, 0).sent
  {
  }

  /** A zero budget is refused before the scene is read, and an unreadable scene before anything is compared. */
  lemma RefusedUnread(committed: LuaFrameState, next: Scene, budget: u32)
    ensures budget == 0 ==> ScheduleStep(committed, next, budget) == (committed, Err(ZeroBudget))
    ensures budget > 0 && TargetOf(next).Err? ==>
              ScheduleStep(committed, next, budget) == (committed, Err(TargetOf(next).error))
  {
  }

  /** A tick is refused for its budget iff there are changes and none of them can ever fit. */
  lemma CannotFitExactly(committed: LuaFrameState, next: Scene, budget: u32)
    requires budget > 0 && TargetOf(next).Ok?
    ensures var changes := Changes(committed, TargetOf(next).value);
            ScheduleStep(committed, next, budget).1.Err?
            <==> changes != [] && forall c :: c in changes ==> budget < c.ByteLen()
    ensures ScheduleStep(committed, next, budget).1.Err? ==>
            && ScheduleStep(committed, next, budget).0 == committed
            && ScheduleStep(committed, next, budget).1.error
                 == CannotFit(Smallest(Changes(committed, TargetOf(next).value)))
            && budget < ScheduleStep(committed, next, budget).1.error.smallest
  {
    var changes := Changes(committed, TargetOf(next).value);
    PassProgress(SizeOf(), changes, budget, 0);
    PassPartitions(SizeOf(), changes, budget, 0);
    NoneFits(changes, budget);
    if ScheduleStep(committed, next, budget).1.Err? {
      SmallestIsMember(changes);
    }
  }

  lemma {:induction false} NoneFits(cells: seq<LuaCell>, budget: nat)
    ensures CountFit(SizeOf(), cells, budget) == 0 <==> forall c :: c in cells ==> budget < c.ByteLen()
  {
    if cells != [] {
      assert cells == [cells[0]] + cells[1..];
      NoneFits(cells[1..], budget);
    }
  }

  /** The size reported with a refusal is that of a smallest cell. */
  lemma {:induction false} SmallestIsMember(cells: seq<LuaCell>)
    requires cells != []
    ensures exists c :: c in cells && c.ByteLen() == Smallest(cells)
    ensures forall c :: c in cells ==> Smallest(cells) <= c.ByteLen()
  {
    assert cells == [cells[0]] + cells[1..];
    if |cells| > 1 {
      SmallestIsMember(cells[1..]);
    }
  }

  // ---------------------------------------------------------------- repeated ticks

  /** The cells an answer reports as sent; a refusal sends none. */
  ghost function SentBy(r: Result<FrameDiff, FrameError>): seq<LuaCell> {
    match r
    case Ok(diff) => diff.cells
    case Err(_) => []
  }

  /** One tick towards `next`, as a function of the committed state. */
  ghost function Ticking(next: Scene, budget: u32): LuaFrameState -> LuaFrameState {
    (committed: LuaFrameState) => ScheduleStep(committed, next, budget).0
  }

  ghost function Sending(next: Scene, budget: u32): LuaFrameState -> seq<LuaCell> {
    (committed: LuaFrameState) => SentBy(ScheduleStep(committed, next, budget).1)
  }

  /** The committed state after scheduling `next` for `n` ticks. */
  ghost function After(committed: LuaFrameState, next: Scene, budget: u32, n: nat): LuaFrameState {
    Iterate(Ticking(next, budget), committed, n)
  }

  /** The cells tick number `n`, counted from zero, sends. */
  ghost function CellsOfTick(committed: LuaFrameState, next: Scene, budget: u32, n: nat): seq<LuaCell> {
    Sending(next, budget)(After(committed, next, budget, n))
  }

  /** The cells the first `n` ticks send, in order. */
  ghost function CellsOfTicks(committed: LuaFrameState, next: Scene, budget: u32, n: nat): seq<LuaCell> {
    Outputs(Ticking(next, budget), Sending(next, budget), committed, n)
  }

  /** A tick, refused or not, leaves the pass's deferred cells as the change list. */
  lemma StepIsPass(committed: LuaFrameState, next: Scene, target: LuaFrameState, budget: u32)
    requires budget > 0 && TargetOf(next) == Ok(target)
    ensures var t := Pass(SizeOf(), Changes(committed, target), budget, 0);
            && Changes(ScheduleStep(committed, next, budget).0, target) == t.deferred
            && SentBy(ScheduleStep(committed, next, budget).1) == t.sent
  {
    CarryOver(committed, target, budget);
    assert ApplyCells(committed, []) == committed;
  }

  /** The changes, tick outputs and accumulated outputs are those of repeated first-fit passes. */
  lemma TicksArePasses(committed: LuaFrameState, next: Scene, target: LuaFrameState, budget: u32, n: nat)
    requires budget > 0 && TargetOf(next) == Ok(target)
    ensures Changes(After(committed, next, budget, n), target)
         == Pending(SizeOf(), Changes(committed, target), budget, n)
    ensures CellsOfTick(committed, next, budget, n) == SentIn(SizeOf(), Changes(committed, target), budget, n)
    ensures CellsOfTicks(committed, next, budget, n) == SentUpTo(SizeOf(), Changes(committed, target), budget, n)
  {
    var work := (state: LuaFrameState) => Changes(state, target);
    forall state
      ensures work(Ticking(next, budget)(state)) == Pass(SizeOf(), work(state), budget, 0).deferred
      ensures Sending(next, budget)(state) == Pass(SizeOf(), work(state), budget, 0).sent
    {
      StepIsPass(state, next, target, budget);
    }
    IterateIsPending(Ticking(next, budget), work, Sending(next, budget), SizeOf(), budget, committed, n);
  }

  /**
   * Convergence: within as many ticks as there are cells that can fit, the changes
   * left are exactly the oversize ones, in order.  If there are none the target is
   * shown and ticks answer with an empty complete diff; otherwise every further tick
   * is refused and changes nothing.
   */
  lemma SchedulingConverges(committed: LuaFrameState, next: Scene, target: LuaFrameState, budget: u32, n: nat)
    requires budget > 0 && TargetOf(next) == Ok(target)
    requires CountFit(SizeOf(), Changes(committed, target), budget) <= n
    ensures var after := After(committed, next, budget, n);
            var stuck := Oversize(SizeOf(), Changes(committed, target), budget);
            && Changes(after, target) == stuck
            && (after == target <==> stuck == [])
            && ScheduleStep(after, next, budget).0 == after
            && (if stuck == [] then ScheduleStep(after, next, budget).1 == Ok(FrameDiff([], 0, []))
                else ScheduleStep(after, next, budget).1.Err?)
  {
    var after := After(committed, next, budget, n);
    var changes := Changes(committed, target);
    assert Changes(after, target) == Oversize(SizeOf(), changes, budget) by {
      TicksArePasses(committed, next, target, budget, n);
      PendingConverges(SizeOf(), changes, budget, n);
    }
    NoChangesMeansEqual(after, target);
    OversizeNeverFits(SizeOf(), changes, budget);
    StuckTick(after, next, target, budget);
  }

  /** A tick with no change that fits is complete and empty, or refused; either way it changes nothing. */
  lemma StuckTick(state: LuaFrameState, next: Scene, target: LuaFrameState, budget: u32)
    requires budget > 0 && TargetOf(next) == Ok(target)
    requires CountFit(SizeOf(), Changes(state, target), budget) == 0
    ensures ScheduleStep(state, next, budget).0 == state
    ensures if Changes(state, target) == [] then ScheduleStep(state, next, budget).1 == Ok(FrameDiff([], 0, []))
            else ScheduleStep(state, next, budget).1.Err?
  {
    PassProgress(SizeOf(), Changes(state, target), budget, 0);
  }

  lemma {:induction false} OversizeNeverFits<T>(size: T -> nat, items: seq<T>, budget: nat)
    ensures CountFit(size, Oversize(size, items, budget), budget) == 0
  {
    if items != [] {
      var rest := Oversize(size, items[1..], budget);
      OversizeNeverFits(size, items[1..], budget);
      assert ([items[0]] + rest)[1..] == rest;
    }
  }

  /** With a budget of at least 43 bytes every glance is shown completely. */
  lemma AmpleBudgetCompletes(committed: LuaFrameState, next: Scene, target: LuaFrameState, budget: u32, n: nat)
    requires budget >= 43 && TargetOf(next) == Ok(target)
    requires |Changes(committed, target)| <= n
    ensures After(committed, next, budget, n) == target
  {
    AllFit(Changes(committed, target), budget);
    SchedulingConverges(committed, next, target, budget, n);
  }

  lemma {:induction false} AllFit(cells: seq<LuaCell>, budget: nat)
    requires budget >= 43
    ensures CountFit(SizeOf(), cells, budget) == |cells| && Oversize(SizeOf(), cells, budget) == []
  {
    if cells != [] {
      PrimitiveLength(cells[0]);
      AllFit(cells[1..], budget);
    }
  }

  /**
   * Tick bound: while the target is not reached after `n` ticks, the original
   * changes cost strictly more than `n * (budget + 1 - longest)` bytes.
   */
  lemma TickBound(
    committed: LuaFrameState, next: Scene, target: LuaFrameState, budget: u32, longest: nat, n: nat)
    requires budget > 0 && TargetOf(next) == Ok(target) && longest <= budget
    requires forall c :: c in Changes(committed, target) ==> c.ByteLen() <= longest
    requires After(committed, next, budget, n) != target
    ensures n * (budget + 1 - longest) < Total(SizeOf(), Changes(committed, target))
  {
    var changes := Changes(committed, target);
    TicksArePasses(committed, next, target, budget, n);
    NoChangesMeansEqual(After(committed, next, budget, n), target);
    forall c | c in changes
      ensures 1 <= SizeOf()(c) <= longest
    {
      PrimitiveLength(c);
    }
    UnfinishedPassesCost(SizeOf(), changes, budget, longest, n);
  }

  /** A cell that fits the budget is sent no later than its rank among such cells, plus one tick. */
  lemma SentWithinRank(committed: LuaFrameState, next: Scene, target: LuaFrameState, budget: u32, i: nat)
    requires budget > 0 && TargetOf(next) == Ok(target)
    requires i < |Changes(committed, target)|
    requires Changes(committed, target)[i].ByteLen() <= budget
    ensures var changes := Changes(committed, target);
            exists n :: 0 <= n <= CountFit(SizeOf(), changes[..i], budget) <= i
                        && changes[i] in CellsOfTick(committed, next, budget, n)
  {
    var changes := Changes(committed, target);
    var n := SentByPosition(SizeOf(), changes, i, budget);
    TicksArePasses(committed, next, target, budget, n);
  }

  /** The ticks together send each originally changed cell at most once, and nothing else. */
  lemma TicksConserveChanges(committed: LuaFrameState, next: Scene, target: LuaFrameState, budget: u32, n: nat)
    requires budget > 0 && TargetOf(next) == Ok(target)
    ensures multiset(CellsOfTicks(committed, next, budget, n))
              + multiset(Changes(After(committed, next, budget, n), target))
            == multiset(Changes(committed, target))
  {
    var work := (state: LuaFrameState) => Changes(state, target);
    var tick, sent := Ticking(next, budget), Sending(next, budget);
    forall state {:trigger tick(state)}
      ensures multiset(sent(state)) + multiset(work(tick(state))) == multiset(work(state))
    {
      StepIsPass(state, next, target, budget);
      PassPartitions(SizeOf(), work(state), budget, 0);
    }
    OutputsConserveWork(tick, work, sent, committed, n);
  }
}
