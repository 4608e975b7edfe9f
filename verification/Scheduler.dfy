/**
 * The diff scheduler: changed cells in schedule order and one budgeted tick
 * (crates/sim-lib-stream-halo/src/frame_budget.rs).
 */
module Scheduler {
  import opened Wrappers
  import opened Machine
  import opened Ordered
  import opened Sequences
  import opened FirstFit
  import opened LuaRender
  import opened FrameBudget

  // ---------------------------------------------------------------- orders

  /** Number of addressable cells. */
  const KEY_SPACE: nat := 6 * REGION_CELLS

  /** Rank of an address in the derived order: region first, then index. */
  function KeyRank(k: CellKey): (n: int)
    ensures 0 <= n < KEY_SPACE
  {
    k.region.Ordinal() * REGION_CELLS + k.index
  }

  /** Rank of a change in schedule order: priority first, then address. */
  function CellRank(c: LuaCell): (n: int)
    ensures 0 <= n < 3 * KEY_SPACE
  {
    c.priority.Ordinal() * KEY_SPACE + KeyRank(c.key)
  }

  lemma OrdinalsDiffer(a: LuaRegion, b: LuaRegion)
    requires a.Ordinal() == b.Ordinal()
    ensures a == b
  {
  }

  lemma KeyRankIsInjective(a: CellKey, b: CellKey)
    requires KeyRank(a) == KeyRank(b)
    ensures a == b
  {
    OrdinalsDiffer(a.region, b.region);
  }

  /** Warrant content before anything else, urgent content before normal content. */
  ghost predicate Outranks(a: LuaCellPriority, b: LuaCellPriority) {
    match b
    case WarrantFirst => false
    case Urgent => a == WarrantFirst
    case Normal => a == WarrantFirst || a == Urgent
  }

  /** Regions from the title down to the warrant marker. */
  ghost predicate Above(a: LuaRegion, b: LuaRegion) {
    match b
    case Title => false
    case MetricLabel => a == Title
    case MetricValue => a == Title || a == MetricLabel
    case ActionLabel => a == Title || a == MetricLabel || a == MetricValue
    case Urgency => a != Urgency && a != Warrant
    case Warrant => a != Warrant
  }

  /** Does `a` come strictly before `b` in schedule order: by priority, then region, then index? */
  ghost predicate Before(a: LuaCell, b: LuaCell) {
    || Outranks(a.priority, b.priority)
    || (a.priority == b.priority && Above(a.key.region, b.key.region))
    || (a.priority == b.priority && a.key.region == b.key.region && a.key.index < b.key.index)
  }

  ghost predicate InScheduleOrder(cells: seq<LuaCell>) {
    forall i, j :: 0 <= i < j < |cells| ==> Before(cells[i], cells[j])
  }

  /** The numeric rank orders cells as the schedule does. */
  lemma CellRankIsLexicographic(a: LuaCell, b: LuaCell)
    ensures CellRank(a) < CellRank(b) <==> Before(a, b)
  {
    RanksByPriority(a, b);
    RanksByRegion(a.key, b.key);
  }

  lemma RanksByPriority(a: LuaCell, b: LuaCell)
    ensures a.priority == b.priority ==> (CellRank(a) < CellRank(b) <==> KeyRank(a.key) < KeyRank(b.key))
    ensures a.priority != b.priority ==> (CellRank(a) < CellRank(b) <==> Outranks(a.priority, b.priority))
  {
  }

  lemma RanksByRegion(a: CellKey, b: CellKey)
    ensures a.region == b.region ==> (KeyRank(a) < KeyRank(b) <==> a.index < b.index)
    ensures a.region != b.region ==> (KeyRank(a) < KeyRank(b) <==> Above(a.region, b.region))
  {
  }

  lemma AscendingIsScheduleOrder(cells: seq<LuaCell>)
    ensures Ascending(CellRank, cells) <==> InScheduleOrder(cells)
  {
    forall i, j | 0 <= i < j < |cells|
      ensures CellRank(cells[i]) < CellRank(cells[j]) <==> Before(cells[i], cells[j])
    {
      CellRankIsLexicographic(cells[i], cells[j]);
    }
  }

  // ---------------------------------------------------------------- changes

  /** What a cell update leaves at its address. */
  function Effect(c: LuaCell): Option<StateCell> {
    match c.glyph
    case Some(g) => Some(StateCell(g, c.priority))
    case None => None
  }

  /** The change at one address, if the two states differ there. */
  function ChangeAt(previous: LuaFrameState, target: LuaFrameState, k: CellKey): Option<LuaCell> {
    var was, wanted := Get(previous, k), Get(target, k);
    if was == wanted then None
    else
      match wanted
      case Some(cell) => Some(LuaCell(k, Some(cell.glyph), cell.priority))
      case None => Some(LuaCell(k, None, was.value.priority))
  }

  function ChangesAt(previous: LuaFrameState, target: LuaFrameState, keys: seq<CellKey>): seq<LuaCell> {
    if keys == [] then []
    else
      var rest := ChangesAt(previous, target, keys[1..]);
      match ChangeAt(previous, target, keys[0])
      case Some(c) => [c] + rest
      case None => rest
  }

  /** Every differing address, in address order. */
  ghost function ChangedCells(previous: LuaFrameState, target: LuaFrameState): seq<LuaCell> {
    ChangesAt(previous, target, Listing(KeyRank, previous.Keys + target.Keys))
  }

  /** The changes in schedule order. */
  ghost function Changes(previous: LuaFrameState, target: LuaFrameState): seq<LuaCell> {
    SortBy(CellRank, ChangedCells(previous, target))
  }

  /**
   * Is `c` the update that takes its address from `previous` to `target`?  A write
   * carries the glyph and priority wanted there; a clear, the priority of the cell it
   * removes.
   */
  ghost predicate IsChange(previous: LuaFrameState, target: LuaFrameState, c: LuaCell) {
    if c.key in target then
      && (c.key in previous ==> previous[c.key] != target[c.key])
      && c.glyph == Some(target[c.key].glyph) && c.priority == target[c.key].priority
    else
      c.key in previous && c.glyph == None && c.priority == previous[c.key].priority
  }

  /** Does the diff compute `c` at its address? */
  ghost predicate Computes(previous: LuaFrameState, target: LuaFrameState, c: LuaCell) {
    ChangeAt(previous, target, c.key) == Some(c)
  }

  lemma ComputesChanges(previous: LuaFrameState, target: LuaFrameState, c: LuaCell)
    ensures Computes(previous, target, c) <==> IsChange(previous, target, c)
  {
  }

  lemma {:induction false} ChangesAtMembers(previous: LuaFrameState, target: LuaFrameState, keys: seq<CellKey>)
    requires Ascending(KeyRank, keys)
    ensures forall c :: c in ChangesAt(previous, target, keys) ==> Computes(previous, target, c) && c.key in keys
    ensures forall c :: Computes(previous, target, c) && c.key in keys ==> c in ChangesAt(previous, target, keys)
    ensures Ascending((c: LuaCell) => KeyRank(c.key), ChangesAt(previous, target, keys))
  {
    if keys != [] {
      HeadIsLeast(KeyRank, keys);
      assert keys == [keys[0]] + keys[1..];
      ChangesAtMembers(previous, target, keys[1..]);
      var rest := ChangesAt(previous, target, keys[1..]);
      if ChangeAt(previous, target, keys[0]).Some? {
        ConsAscending((c: LuaCell) => KeyRank(c.key), ChangeAt(previous, target, keys[0]).value, rest);
      }
    }
  }

  lemma RanksDifferByKey(cells: seq<LuaCell>)
    requires Ascending((c: LuaCell) => KeyRank(c.key), cells)
    ensures RanksDiffer(CellRank, cells)
  {
    forall i, j | 0 <= i < j < |cells|
      ensures CellRank(cells[i]) != CellRank(cells[j])
    {
      assert KeyRank(cells[i].key) != KeyRank(cells[j].key) by {
        var rank := (c: LuaCell) => KeyRank(c.key);
        assert rank(cells[i]) < rank(cells[j]);
      }
    }
  }

  /**
   * The change list is exactly the set of differing addresses, each once, in strict
   * schedule order: warrant content first, then urgent, then normal.
   */
  lemma ChangesCharacterized(previous: LuaFrameState, target: LuaFrameState)
    ensures Ascending(CellRank, Changes(previous, target))
    ensures InScheduleOrder(Changes(previous, target))
    ensures forall c :: c in Changes(previous, target) ==> IsChange(previous, target, c)
    ensures forall c :: IsChange(previous, target, c) ==> c in Changes(previous, target)
  {
    var keys := previous.Keys + target.Keys;
    forall a, b | a in keys && b in keys && KeyRank(a) == KeyRank(b)
      ensures a == b
    {
      KeyRankIsInjective(a, b);
    }
    ListingIsAscending(KeyRank, keys);
    ChangesAtMembers(previous, target, Listing(KeyRank, keys));
    RanksDifferByKey(ChangedCells(previous, target));
    SortByAscending(CellRank, ChangedCells(previous, target));
    AscendingIsScheduleOrder(Changes(previous, target));
    forall c
      ensures c in Changes(previous, target) <==> IsChange(previous, target, c)
    {
      ComputesChanges(previous, target, c);
      assert IsChange(previous, target, c) ==> c.key in keys;
    }
  }

  // ---------------------------------------------------------------- applying cells

  function ApplyCell(state: LuaFrameState, c: LuaCell): LuaFrameState {
    match c.glyph
    case Some(g) => state[c.key := StateCell(g, c.priority)]
    case None => state - {c.key}
  }

  ghost function ApplyCells(state: LuaFrameState, cells: seq<LuaCell>): LuaFrameState {
    if cells == [] then state
    else ApplyCell(ApplyCells(state, cells[..|cells| - 1]), cells[|cells| - 1])
  }

  ghost predicate Touches(cells: seq<LuaCell>, k: CellKey) {
    exists c :: c in cells && c.key == k
  }

  /** Cells that lead to `target` move exactly their own addresses there. */
  lemma {:induction false} ApplyCellsLookup(
    state: LuaFrameState, cells: seq<LuaCell>, target: LuaFrameState, k: CellKey)
    requires forall c :: c in cells ==> Effect(c) == Get(target, c.key)
    ensures Get(ApplyCells(state, cells), k) == Get(if Touches(cells, k) then target else state, k)
  {
    if cells != [] {
      var init, last := cells[..|cells| - 1], cells[|cells| - 1];
      assert cells == init + [last];
      assert forall c :: c in init ==> c in cells;
      ApplyCellsLookup(state, init, target, k);
      assert last in cells && Effect(last) == Get(target, last.key);
      if last.key == k {
        assert Touches(cells, k);
      } else {
        assert Touches(cells, k) <==> Touches(init, k);
      }
    }
  }

  // ---------------------------------------------------------------- one tick

  ghost function Smallest(cells: seq<LuaCell>): nat
    requires cells != []
  {
    if |cells| == 1 then cells[0].ByteLen()
    else
      var rest := Smallest(cells[1..]);
      if cells[0].ByteLen() <= rest then cells[0].ByteLen() else rest
  }

  /** What one tick leaves committed and what it answers. */
  ghost function ScheduleStep(committed: LuaFrameState, next: Scene, budget: u32)
    : (LuaFrameState, Result<FrameDiff, FrameError>)
  {
    if budget == 0 then (committed, Err(ZeroBudget))
    else
      match TargetOf(next)
      case Err(e) => (committed, Err(e))
      case Ok(target) =>
        var t := Pass(SizeOf(), Changes(committed, target), budget, 0);
        PassBytes(SizeOf(), Changes(committed, target), budget, 0);
        if t.sent == [] && t.deferred != [] then (committed, Err(CannotFit(Smallest(t.deferred))))
        else (ApplyCells(committed, t.sent), Ok(FrameDiff(t.sent, t.bytes, t.deferred)))
  }

  lemma {:induction false} TotalAtMost(cells: seq<LuaCell>)
    ensures Total(SizeOf(), cells) <= 43 * |cells|
  {
    if cells != [] {
      TotalAtMost(cells[1..]);
      PrimitiveLength(cells[0]);
    }
  }

  /** No change list can make the 32-bit byte counter wrap. */
  lemma ChangesFitCounter(previous: LuaFrameState, target: LuaFrameState)
    ensures Total(SizeOf(), Changes(previous, target)) <= 43 * 3 * KEY_SPACE < U32_MAX
  {
    var changes := Changes(previous, target);
    ChangesCharacterized(previous, target);
    TotalAtMost(changes);
    if changes != [] {
      RankAtLeastPosition(CellRank, changes, |changes| - 1);
    }
  }

  method SmallestByteLen(cells: seq<LuaCell>) returns (smallest: nat)
    requires cells != []
    ensures smallest == Smallest(cells)
  {
    smallest := cells[|cells| - 1].ByteLen();
    for i := |cells| - 1 downto 0
      invariant smallest == Smallest(cells[i..])
    {
      assert cells[i..][1..] == cells[i + 1..];
      if cells[i].ByteLen() <= smallest {
        smallest := cells[i].ByteLen();
      }
    }
  }

  lemma ApplyCellsAppend(state: LuaFrameState, cells: seq<LuaCell>, c: LuaCell)
    ensures ApplyCells(state, cells + [c]) == ApplyCell(ApplyCells(state, cells), c)
  {
    assert (cells + [c])[..|cells|] == cells;
  }

  /** Applies only emitted cells to the state it believes committed. */
  class LuaFrameScheduler {
    var committed: LuaFrameState

    constructor Empty()
      ensures committed == map[]
    {
      committed := map[];
    }

    /** Commits each change that still fits and defers the others. */
    method SendFitting(changed: seq<LuaCell>, budget: u32)
      returns (cells: seq<LuaCell>, deferred: seq<LuaCell>, bytes: u32)
      requires Total(SizeOf(), changed) < U32_MAX
      modifies this
      ensures Tick(cells, deferred, bytes) == Pass(SizeOf(), changed, budget, 0)
      ensures committed == ApplyCells(old(committed), cells)
    {
      cells, deferred, bytes := [], [], 0;
      for i := 0 to |changed|
        invariant committed == ApplyCells(old(committed), cells)
        invariant Tick(cells, deferred, bytes) == Pass(SizeOf(), changed[..i], budget, 0)
      {
        var cell := changed[i];
        var cellBytes := cell.ByteLen();
        PassPrefixStep(SizeOf(), changed, i, budget);
        PassPrefixBytes(SizeOf(), changed, i, budget);
        if SaturatingAdd(bytes, cellBytes, U32_MAX) <= budget {
          ApplyCellsAppend(old(committed), cells, cell);
          bytes := bytes + cellBytes;
          committed := ApplyCell(committed, cell);
          cells := cells + [cell];
        } else {
          deferred := deferred + [cell];
        }
      }
      assert changed[..|changed|] == changed;
    }

    /** One tick towards `next`: diff, sort, send what fits. */
    method Schedule(next: Scene, budget: u32) returns (r: Result<FrameDiff, FrameError>)
      modifies this
      ensures (committed, r) == ScheduleStep(old(committed), next, budget)
    {
      if budget == 0 {
        return Err(ZeroBudget);
      }
      var scene := FromGlance(next);
      if scene.Err? {
        return Err(scene.error);
      }
      var target := scene.value;
      var changed := SortedChanges(committed, target);
      ChangesFitCounter(committed, target);
      var cells, deferred, bytes := SendFitting(changed, budget);
      if cells == [] && deferred != [] {
        var smallest := SmallestByteLen(deferred);
        return Err(CannotFit(smallest));
      }
      return Ok(FrameDiff(cells, bytes, deferred));
    }
  }

  /** Computes the change list in schedule order. */
  method SortedChanges(previous: LuaFrameState, target: LuaFrameState) returns (changed: seq<LuaCell>)
    ensures changed == Changes(previous, target)
  {
    var union := previous.Keys + target.Keys;
    forall a, b | a in union && b in union && KeyRank(a) == KeyRank(b)
      ensures a == b
    {
      KeyRankIsInjective(a, b);
    }
    var keys := List(KeyRank, union);
    changed := SortBy(CellRank, ChangesAt(previous, target, keys));
  }

  /** Diffs `next` against a fully committed previous frame. */
  method DiffGlance(previous: Scene, next: Scene, budget: u32) returns (r: Result<FrameDiff, FrameError>)
    ensures r == match TargetOf(previous)
                 case Err(e) => Err(e)
                 case Ok(state) => ScheduleStep(state, next, budget).1
  {
    var state := FromGlance(previous);
    if state.Err? {
      return Err(state.error);
    }
    var scheduler := new LuaFrameScheduler.Empty();
    scheduler.committed := state.value;
    r := scheduler.Schedule(next, budget);
  }
}
