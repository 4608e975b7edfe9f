/**
 * Whole runs of a Halo session: what the display shows after any interleaving of
 * start, stop, poll and invoke, and what polling returns
 * (crates/sim-lib-stream-halo/src/provider.rs:303-357).
 */
module HaloRuns {
  import opened Wrappers
  import opened Machine
  import opened Sequences
  import opened FirstFit
  import opened LuaRender
  import opened FrameBudget
  import opened Scheduler
  import opened Convergence
  import opened DeviceEffects
  import opened HaloSamples
  import opened HaloProvider

  datatype Op = Start | Stop | Poll(kind: string) | Invoke(request: HaloRequest)

  /**
   * What a session is opened with.  `effect` is the descriptor it authorizes frames
   * by; a Halo session always uses HALO_FRAME, but nothing below depends on which.
   */
  datatype Opening = Opening(effect: EffectDescriptor, route: HaloRouteKind, budget: u32, samples: seq<HaloSample>)

  ghost function Step(o: Opening, s: SessionState, op: Op): SessionState {
    match op
    case Start => s.(started := true)
    case Stop => s.(started := false)
    case Poll(kind) => PollStep(s, kind).0
    case Invoke(request) => InvokeFrame(o.effect, o.route, o.budget, s, request).0
  }

  /** The state a session opened with `o` reaches by `ops`. */
  ghost function Reached(o: Opening, ops: seq<Op>): SessionState {
    if ops == [] then SessionState(o.samples, map[], [], false)
    else Step(o, Reached(o, ops[..|ops| - 1]), ops[|ops| - 1])
  }

  /** The answer to invocation `i` of a run. */
  ghost function Answer(o: Opening, ops: seq<Op>, i: nat): Result<EffectReceipt, HaloError>
    requires i < |ops| && ops[i].Invoke?
  {
    InvokeFrame(o.effect, o.route, o.budget, Reached(o, ops[..i]), ops[i].request).1
  }

  // ---------------------------------------------------------------- what the remote display shows

  /** Glyphs on a screen, by address. */
  type Screen = map<CellKey, char>

  ghost function Draw(screen: Screen, u: Update): Screen {
    match u.glyph
    case Some(g) => screen[u.key := g]
    case None => screen - {u.key}
  }

  ghost function DrawAll(screen: Screen, us: seq<Update>): Screen {
    if us == [] then screen else Draw(DrawAll(screen, us[..|us| - 1]), us[|us| - 1])
  }

  /** What a blank screen shows after executing `bytes`; None when they are not protocol lines. */
  ghost function Interpret(bytes: string): Option<Screen> {
    match Parse(bytes)
    case Some(us) => Some(DrawAll(map[], us))
    case None => None
  }

  /** Every byte sent so far. */
  ghost function AllBytes(sent: seq<HaloFramePacket>): string {
    if sent == [] then "" else AllBytes(sent[..|sent| - 1]) + sent[|sent| - 1].lua
  }

  ghost function AllCells(sent: seq<HaloFramePacket>): seq<LuaCell> {
    if sent == [] then [] else AllCells(sent[..|sent| - 1]) + sent[|sent| - 1].diff.cells
  }

  /** The glyphs of a display state. */
  ghost function Glyphs(state: LuaFrameState): Screen {
    map k | k in state :: state[k].glyph
  }

  /** The text a region shows: its glyphs from index `from` up to the first gap. */
  ghost function ReadRegion(screen: Screen, region: LuaRegion, from: nat): string
    decreases REGION_CELLS - from
  {
    if from < REGION_CELLS && CellKey(region, from) in screen
    then [screen[CellKey(region, from)]] + ReadRegion(screen, region, from + 1)
    else ""
  }

  lemma DrawIsApply(state: LuaFrameState, c: LuaCell)
    ensures Draw(Glyphs(state), UpdateOf(c)) == Glyphs(ApplyCell(state, c))
  {
  }

  /** Drawing the printed updates follows the scheduler's own bookkeeping. */
  lemma {:induction false} DrawAllIsApplyCells(cells: seq<LuaCell>)
    ensures DrawAll(map[], Updates(cells)) == Glyphs(ApplyCells(map[], cells))
  {
    if cells == [] {
      assert Glyphs(map[]) == map[];
    } else {
      var init, last := cells[..|cells| - 1], cells[|cells| - 1];
      DrawAllIsApplyCells(init);
      assert Updates(cells)[..|cells| - 1] == Updates(init);
      DrawIsApply(ApplyCells(map[], init), last);
    }
  }

  lemma {:induction false} ApplyCellsConcat(state: LuaFrameState, a: seq<LuaCell>, b: seq<LuaCell>)
    ensures ApplyCells(state, a + b) == ApplyCells(ApplyCells(state, a), b)
  {
    if b == [] {
      assert a + b == a;
    } else {
      ApplyCellsConcat(state, a, b[..|b| - 1]);
      assert (a + b)[..|a + b| - 1] == a + b[..|b| - 1];
    }
  }

  ghost predicate EncodesCells(sent: seq<HaloFramePacket>) {
    forall i :: 0 <= i < |sent| ==> sent[i].lua == Frame(sent[i].diff.cells)
  }

  lemma {:induction false} BytesEncodeCells(sent: seq<HaloFramePacket>)
    requires EncodesCells(sent)
    ensures AllBytes(sent) == Frame(AllCells(sent))
  {
    if sent != [] {
      var init, last := sent[..|sent| - 1], sent[|sent| - 1];
      BytesEncodeCells(init);
      FrameConcat(AllCells(init), last.diff.cells);
    }
  }

  // ---------------------------------------------------------------- the run invariant

  /** Every packet carries its own encoded cells, counted exactly and within budget. */
  ghost predicate PacketsExact(o: Opening, sent: seq<HaloFramePacket>) {
    forall i :: 0 <= i < |sent| ==>
      && sent[i].route == o.route
      && sent[i].lua == Frame(sent[i].diff.cells)
      && |sent[i].lua| == sent[i].diff.bytes <= o.budget
  }

  ghost predicate InSync(o: Opening, s: SessionState) {
    PacketsExact(o, s.sent) && s.committed == ApplyCells(map[], AllCells(s.sent))
  }

  lemma FailedScheduleKeeps(committed: LuaFrameState, next: Scene, budget: u32)
    ensures ScheduleStep(committed, next, budget).1.Err? ==> ScheduleStep(committed, next, budget).0 == committed
    ensures ScheduleStep(committed, next, budget).1.Ok? ==>
              ScheduleStep(committed, next, budget).0
                == ApplyCells(committed, ScheduleStep(committed, next, budget).1.value.cells)
  {
  }

  /** The session's byte-count mismatch branch can never be taken. */
  lemma MismatchIsUnreachable(effect: EffectDescriptor, route: HaloRouteKind, budget: u32, s: SessionState, request: HaloRequest)
    ensures InvokeFrame(effect, route, budget, s, request).1 != Err(Host(ByteCountMismatch))
  {
    if ScheduleStep(s.committed, request.payload, budget).1.Ok? {
      TickBytesAreExact(s.committed, request.payload, budget);
    }
  }

  /** A refused invocation changes nothing at all. */
  lemma RefusalChangesNothing(effect: EffectDescriptor, route: HaloRouteKind, budget: u32, s: SessionState, request: HaloRequest)
    requires InvokeFrame(effect, route, budget, s, request).1.Err?
    ensures InvokeFrame(effect, route, budget, s, request).0 == s
  {
    MismatchIsUnreachable(effect, route, budget, s, request);
    FailedScheduleKeeps(s.committed, request.payload, budget);
  }

  /** A success appends one exact packet, and commits what that packet carries. */
  lemma SuccessSends(o: Opening, s: SessionState, request: HaloRequest) returns (packet: HaloFramePacket)
    requires InvokeFrame(o.effect, o.route, o.budget, s, request).1.Ok?
    ensures var after := InvokeFrame(o.effect, o.route, o.budget, s, request).0;
            && after.sent == s.sent + [packet]
            && after.committed == ApplyCells(s.committed, packet.diff.cells)
            && PacketsExact(o, [packet])
  {
    TickBytesAreExact(s.committed, request.payload, o.budget);
    FailedScheduleKeeps(s.committed, request.payload, o.budget);
    var diff := ScheduleStep(s.committed, request.payload, o.budget).1.value;
    packet := HaloFramePacket(o.route, diff, Frame(diff.cells));
  }

  lemma PacketKeepsSync(o: Opening, s: SessionState, after: SessionState, packet: HaloFramePacket)
    requires InSync(o, s) && PacketsExact(o, [packet])
    requires after.sent == s.sent + [packet] && after.committed == ApplyCells(s.committed, packet.diff.cells)
    ensures InSync(o, after)
  {
    assert [packet][0] == packet;
    assert after.sent[..|after.sent| - 1] == s.sent;
    ApplyCellsConcat(map[], AllCells(s.sent), packet.diff.cells);
  }

  lemma SendKeepsSync(o: Opening, s: SessionState, request: HaloRequest)
    requires InSync(o, s)
    ensures InSync(o, InvokeFrame(o.effect, o.route, o.budget, s, request).0)
  {
    var (after, r) := InvokeFrame(o.effect, o.route, o.budget, s, request);
    if r.Err? {
      RefusalChangesNothing(o.effect, o.route, o.budget, s, request);
    } else {
      var packet := SuccessSends(o, s, request);
      PacketKeepsSync(o, s, after, packet);
    }
  }

  lemma {:induction false} RunsStayInSync(o: Opening, ops: seq<Op>)
    ensures InSync(o, Reached(o, ops))
  {
    if ops != [] {
      var before, op := Reached(o, ops[..|ops| - 1]), ops[|ops| - 1];
      RunsStayInSync(o, ops[..|ops| - 1]);
      if op.Invoke? {
        SendKeepsSync(o, before, op.request);
      }
    }
  }

  /**
   * End to end, over every run: executing all Lua bytes sent so far on a blank
   * screen shows exactly the glyphs the scheduler believes committed.
   */
  lemma DisplayFollowsScheduler(o: Opening, ops: seq<Op>)
    ensures Interpret(AllBytes(Reached(o, ops).sent)) == Some(Glyphs(Reached(o, ops).committed))
  {
    var s := Reached(o, ops);
    RunsStayInSync(o, ops);
    BytesEncodeCells(s.sent);
    ParseInvertsEncode(AllCells(s.sent));
    DrawAllIsApplyCells(AllCells(s.sent));
  }

  /** Over every run, each packet's bytes are counted exactly and respect the budget. */
  lemma PacketsRespectBudget(o: Opening, ops: seq<Op>)
    ensures PacketsExact(o, Reached(o, ops).sent)
  {
    RunsStayInSync(o, ops);
  }

  // ---------------------------------------------------------------- what a complete diff shows

  lemma {:induction false} ReadsBack(screen: Screen, region: LuaRegion, text: string, from: nat)
    requires from <= |text| <= REGION_CELLS
    requires forall i :: 0 <= i < REGION_CELLS ==>
               if i < |text| then CellKey(region, i) in screen && screen[CellKey(region, i)] == text[i]
               else CellKey(region, i) !in screen
    ensures ReadRegion(screen, region, from) == text[from..]
    decreases |text| - from
  {
    if from < |text| {
      ReadsBack(screen, region, text, from + 1);
    }
  }

  /** Does a region read `text`, with no cell lit after it? */
  ghost predicate Reads(screen: Screen, region: LuaRegion, text: string) {
    ReadRegion(screen, region, 0) == text
    && forall k :: k in screen && k.region == region ==> k.index < |text|
  }

  lemma TextFits(card: GlanceCard, region: LuaRegion)
    requires Fits(card)
    ensures |TextOf(card, region)| <= REGION_CELLS
  {
  }

  /** The state of a card reads back the card's text in every region. */
  lemma CardReadsBack(card: GlanceCard, region: LuaRegion)
    requires Fits(card)
    ensures Reads(Glyphs(CardState(card)), region, TextOf(card, region))
  {
    var screen, text := Glyphs(CardState(card)), TextOf(card, region);
    TextFits(card, region);
    forall i | 0 <= i < REGION_CELLS
      ensures if i < |text| then CellKey(region, i) in screen && screen[CellKey(region, i)] == text[i]
              else CellKey(region, i) !in screen
    {
      RegionLookup(card, CellKey(region, i));
    }
    ReadsBack(screen, region, text, 0);
    assert text[0..] == text;
    forall k | k in screen && k.region == region
      ensures k.index < |text|
    {
      assert k == CellKey(region, k.index);
    }
  }

  /** A complete diff leaves exactly the target committed. */
  lemma CompleteMeansCommitted(committed: LuaFrameState, next: Scene, budget: u32)
    requires ScheduleStep(committed, next, budget).1.Ok?
    ensures TargetOf(next).Ok?
    ensures ScheduleStep(committed, next, budget).1.value.IsComplete()
            <==> ScheduleStep(committed, next, budget).0 == TargetOf(next).value
  {
    var target := TargetOf(next).value;
    CarryOver(committed, target, budget);
    NoChangesMeansEqual(ScheduleStep(committed, next, budget).0, target);
  }

  /**
   * Does a screen show exactly a card: title, metric and action, if any, and urgency, each
   * in its own region, with the warrant marker iff the card bypasses the budget?
   */
  ghost predicate Shows(screen: Screen, card: GlanceCard) {
    && Reads(screen, Title, card.title)
    && (match card.metric
        case Some(metric) => Reads(screen, MetricLabel, metric.labelText) && Reads(screen, MetricValue, metric.value)
        case None => Reads(screen, MetricLabel, "") && Reads(screen, MetricValue, ""))
    && (match card.action
        case Some(action) => Reads(screen, ActionLabel, action.labelText)
        case None => Reads(screen, ActionLabel, ""))
    && Reads(screen, Urgency, card.urgency)
    && Reads(screen, Warrant, if card.bypassBudget then "!" else "")
  }

  /** Is the last packet sent a complete diff? */
  ghost predicate CompletesLast(s: SessionState) {
    s.sent != [] && s.sent[|s.sent| - 1].diff.IsComplete()
  }

  /** A success sends a diff for a glance card, and a complete one commits the card's state. */
  lemma SuccessCommits(
    o: Opening, before: SessionState, request: HaloRequest, after: SessionState,
    r: Result<EffectReceipt, HaloError>)
    requires (after, r) == InvokeFrame(o.effect, o.route, o.budget, before, request) && r.Ok?
    ensures after.sent != [] && request.payload.Glance? && Fits(request.payload.card)
    ensures CompletesLast(after) ==> after.committed == CardState(request.payload.card)
  {
    MismatchIsUnreachable(o.effect, o.route, o.budget, before, request);
    CompleteMeansCommitted(before.committed, request.payload, o.budget);
  }

  lemma LastSuccessCommits(o: Opening, ops: seq<Op>)
    requires ops != [] && ops[|ops| - 1].Invoke? && Answer(o, ops, |ops| - 1).Ok?
    ensures var s, scene := Reached(o, ops), ops[|ops| - 1].request.payload;
            && s.sent != [] && scene.Glance? && Fits(scene.card)
            && (CompletesLast(s) ==> s.committed == CardState(scene.card))
  {
    var last := |ops| - 1;
    SuccessCommits(o, Reached(o, ops[..last]), ops[last].request, Reached(o, ops), Answer(o, ops, last));
  }

  /** A screen with a card's state reads back the card, warrant marker included. */
  lemma CardStateIsShown(card: GlanceCard)
    requires Fits(card)
    ensures Shows(Glyphs(CardState(card)), card)
  {
    CardReadsBack(card, Title);
    CardReadsBack(card, MetricLabel);
    CardReadsBack(card, MetricValue);
    CardReadsBack(card, ActionLabel);
    CardReadsBack(card, Urgency);
    CardReadsBack(card, Warrant);
  }

  /**
   * At the end of any run whose last operation is a successful invocation with a
   * complete diff, executing every byte sent on a blank screen shows the card.
   */
  lemma CompleteDiffShowsCard(o: Opening, ops: seq<Op>)
    requires ops != [] && ops[|ops| - 1].Invoke? && Answer(o, ops, |ops| - 1).Ok?
    ensures var sent, scene := Reached(o, ops).sent, ops[|ops| - 1].request.payload;
            && sent != [] && scene.Glance?
            && (CompletesLast(Reached(o, ops)) ==>
                  Interpret(AllBytes(sent)).Some? && Shows(Interpret(AllBytes(sent)).value, scene.card))
  {
    var s, scene := Reached(o, ops), ops[|ops| - 1].request.payload;
    LastSuccessCommits(o, ops);
    DisplayFollowsScheduler(o, ops);
    if CompletesLast(s) {
      CardStateIsShown(scene.card);
    }
  }

  // ---------------------------------------------------------------- sending one card until it is shown

  /** Do all invocations among `more` carry `scene`?  Starts, stops and polls are free. */
  ghost predicate Aims(more: seq<Op>, scene: Scene) {
    forall i :: 0 <= i < |more| && more[i].Invoke? ==> more[i].request.payload == scene
  }

  /** Is `op` an authorized invocation of a started session? */
  ghost predicate IsAttempt(o: Opening, s: SessionState, op: Op) {
    op.Invoke? && o.effect.Authorize(op.request).None? && s.started
  }

  /** How many of the operations `more`, performed after `ops`, are attempts. */
  ghost function Attempts(o: Opening, ops: seq<Op>, more: seq<Op>): nat {
    if more == [] then 0
    else
      var init, last := more[..|more| - 1], more[|more| - 1];
      Attempts(o, ops, init)
      + (if IsAttempt(o, Reached(o, ops + init), last) then 1 else 0)
  }

  lemma AttemptSends(o: Opening, s: SessionState, request: HaloRequest)
    ensures InvokeFrame(o.effect, o.route, o.budget, s, request).0
         == if s.started && o.effect.Authorize(request).None?
            then SendStep(o.effect, o.route, o.budget, s, request).0 else s
  {
  }

  lemma SendTicks(o: Opening, s: SessionState, request: HaloRequest)
    ensures var after := SendStep(o.effect, o.route, o.budget, s, request).0;
            after.started == s.started && after.committed == ScheduleStep(s.committed, request.payload, o.budget).0
  {
  }

  lemma TickingIsSchedule(scene: Scene, budget: u32, committed: LuaFrameState)
    ensures Ticking(scene, budget)(committed) == ScheduleStep(committed, scene, budget).0
  {
  }

  lemma ReachedLast(o: Opening, ops: seq<Op>, more: seq<Op>)
    requires more != []
    ensures Reached(o, ops + more) == Step(o, Reached(o, ops + more[..|more| - 1]), more[|more| - 1])
  {
    assert (ops + more)[..|ops + more| - 1] == ops + more[..|more| - 1];
  }

  lemma SendTicksOnce(o: Opening, s: SessionState, request: HaloRequest)
    ensures SendStep(o.effect, o.route, o.budget, s, request).0.committed
         == Ticking(request.payload, o.budget)(s.committed)
  {
    SendTicks(o, s, request);
    TickingIsSchedule(request.payload, o.budget, s.committed);
  }

  lemma InvokeTicks(o: Opening, s: SessionState, request: HaloRequest)
    ensures Step(o, s, Invoke(request)).committed
         == if s.started && o.effect.Authorize(request).None?
            then Ticking(request.payload, o.budget)(s.committed) else s.committed
  {
    AttemptSends(o, s, request);
    SendTicksOnce(o, s, request);
  }

  lemma OtherStepKeepsCommitted(o: Opening, s: SessionState, op: Op)
    requires !op.Invoke?
    ensures Step(o, s, op).committed == s.committed
  {
  }

  lemma StepTicks(o: Opening, s: SessionState, op: Op, scene: Scene)
    requires op.Invoke? ==> op.request.payload == scene
    ensures Step(o, s, op).committed
         == if IsAttempt(o, s, op) then Ticking(scene, o.budget)(s.committed) else s.committed
  {
    match op {
      case Invoke(request) => InvokeTicks(o, s, request);
      case _ => OtherStepKeepsCommitted(o, s, op);
    }
  }

  /**
   * Whatever starts, stops, polls and refused invocations come between them, each
   * attempt to send a scene is one scheduler tick towards it, and nothing else is.
   */
  lemma {:induction false} AttemptsTick(o: Opening, ops: seq<Op>, more: seq<Op>, scene: Scene)
    requires Aims(more, scene)
    ensures Reached(o, ops + more).committed
         == After(Reached(o, ops).committed, scene, o.budget, Attempts(o, ops, more))
    decreases |more|
  {
    if more == [] {
      assert ops + more == ops;
    } else {
      var init := more[..|more| - 1];
      AttemptsTick(o, ops, init, scene);
      ReachedLast(o, ops, more);
      StepTicks(o, Reached(o, ops + init), more[|more| - 1], scene);
    }
  }

  /**
   * Liveness, for every nonzero budget and any operations in between: once a session
   * has attempted one scene as often as cells differ that can fit, the bytes sent
   * show what is committed, and the changes still missing are exactly the oversize
   * ones, in order; if there are none the scene's own state is shown.
   */
  lemma AttemptsConverge(o: Opening, ops: seq<Op>, more: seq<Op>, scene: Scene, target: LuaFrameState)
    requires o.budget > 0 && Aims(more, scene) && TargetOf(scene) == Ok(target)
    requires CountFit(SizeOf(), Changes(Reached(o, ops).committed, target), o.budget)
          <= Attempts(o, ops, more)
    ensures var before, after := Reached(o, ops), Reached(o, ops + more);
            var stuck := Oversize(SizeOf(), Changes(before.committed, target), o.budget);
            && Interpret(AllBytes(after.sent)) == Some(Glyphs(after.committed))
            && Changes(after.committed, target) == stuck
            && (after.committed == target <==> stuck == [])
  {
    var before := Reached(o, ops).committed;
    AttemptsTick(o, ops, more, scene);
    SchedulingConverges(before, scene, target, o.budget, Attempts(o, ops, more));
    DisplayFollowsScheduler(o, ops + more);
  }

  /**
   * With a budget of at least 43 bytes the card itself is shown, after as many attempts
   * as cells differ.
   */
  lemma AmpleAttemptsShowCard(o: Opening, ops: seq<Op>, more: seq<Op>, card: GlanceCard)
    requires o.budget >= 43 && Aims(more, Glance(card)) && Fits(card)
    requires |Changes(Reached(o, ops).committed, CardState(card))| <= Attempts(o, ops, more)
    ensures Interpret(AllBytes(Reached(o, ops + more).sent)) == Some(Glyphs(CardState(card)))
    ensures Shows(Glyphs(CardState(card)), card)
  {
    AllFit(Changes(Reached(o, ops).committed, CardState(card)), o.budget);
    AttemptsConverge(o, ops, more, Glance(card), CardState(card));
    CardStateIsShown(card);
  }

  ghost function Repeat(request: HaloRequest, n: nat): seq<Op> {
    seq(n, _ => Invoke(request))
  }

  lemma StepKeepsStarted(o: Opening, s: SessionState, request: HaloRequest)
    ensures Step(o, s, Invoke(request)).started == s.started
  {
    AttemptSends(o, s, request);
    SendTicks(o, s, request);
  }

  /** In a started session every authorized invocation is an attempt. */
  lemma {:induction false} RepeatAttempts(o: Opening, ops: seq<Op>, request: HaloRequest, n: nat)
    requires Reached(o, ops).started && o.effect.Authorize(request).None?
    ensures Attempts(o, ops, Repeat(request, n)) == n && Reached(o, ops + Repeat(request, n)).started
    decreases n
  {
    var more := Repeat(request, n);
    if n == 0 {
      assert ops + more == ops;
    } else {
      RepeatAttempts(o, ops, request, n - 1);
      assert more[..n - 1] == Repeat(request, n - 1);
      ReachedLast(o, ops, more);
      StepKeepsStarted(o, Reached(o, ops + Repeat(request, n - 1)), request);
    }
  }

  /**
   * In particular a started session with 43 bytes or more a tick that keeps being
   * invoked with one card shows it within as many invocations as cells differ.
   */
  lemma RepeatedInvokesShowCard(o: Opening, ops: seq<Op>, request: HaloRequest, n: nat)
    requires Reached(o, ops).started && o.effect.Authorize(request).None? && o.budget >= 43
    requires request.payload.Glance? && Fits(request.payload.card)
    requires |Changes(Reached(o, ops).committed, CardState(request.payload.card))| <= n
    ensures Interpret(AllBytes(Reached(o, ops + Repeat(request, n)).sent))
         == Some(Glyphs(CardState(request.payload.card)))
    ensures Shows(Glyphs(CardState(request.payload.card)), request.payload.card)
  {
    RepeatAttempts(o, ops, request, n);
    AmpleAttemptsShowCard(o, ops, Repeat(request, n), request.payload.card);
  }

  // ---------------------------------------------------------------- receipts

  lemma SuccessAppends(effect: EffectDescriptor, route: HaloRouteKind, budget: u32, s: SessionState, request: HaloRequest)
    requires InvokeFrame(effect, route, budget, s, request).1.Ok?
    ensures var (after, r) := InvokeFrame(effect, route, budget, s, request);
            && |after.sent| == |s.sent| + 1
            && r.value == EffectReceipt(effect.receipt, effect.id, |s.sent| + 1)
  {
  }

  lemma {:induction false} SentOnlyGrows(o: Opening, ops: seq<Op>, i: nat)
    requires i <= |ops|
    ensures |Reached(o, ops[..i]).sent| <= |Reached(o, ops).sent|
    decreases |ops|
  {
    if i == |ops| {
      assert ops[..i] == ops;
    } else {
      var init, op := ops[..|ops| - 1], ops[|ops| - 1];
      assert init[..i] == ops[..i];
      SentOnlyGrows(o, init, i);
      if op.Invoke? {
        if InvokeFrame(o.effect, o.route, o.budget, Reached(o, init), op.request).1.Ok? {
          SuccessAppends(o.effect, o.route, o.budget, Reached(o, init), op.request);
        } else {
          RefusalChangesNothing(o.effect, o.route, o.budget, Reached(o, init), op.request);
        }
      }
    }
  }

  lemma SentOnlyGrowsBetween(o: Opening, ops: seq<Op>, i: nat, j: nat)
    requires i <= j <= |ops|
    ensures |Reached(o, ops[..i]).sent| <= |Reached(o, ops[..j]).sent|
  {
    SentOnlyGrows(o, ops[..j], i);
    assert ops[..j][..i] == ops[..i];
  }

  /** A receipt's number is how many packets its session has sent by then. */
  lemma ReceiptCountsSent(o: Opening, ops: seq<Op>, i: nat)
    requires i < |ops| && ops[i].Invoke? && Answer(o, ops, i).Ok?
    ensures Answer(o, ops, i).value.sequence == |Reached(o, ops[..i + 1]).sent| == |Reached(o, ops[..i]).sent| + 1
  {
    SuccessAppends(o.effect, o.route, o.budget, Reached(o, ops[..i]), ops[i].request);
    ReachedNext(o, ops, i);
  }

  lemma ReachedNext(o: Opening, ops: seq<Op>, i: nat)
    requires i < |ops|
    ensures Reached(o, ops[..i + 1]) == Step(o, Reached(o, ops[..i]), ops[i])
  {
    assert ops[..i + 1][..i] == ops[..i];
  }

  /**
   * Receipt numbers strictly increase along a run.  In particular a Halo session
   * never answers a repeated idempotence key with the earlier receipt.
   */
  lemma ReceiptsNeverRepeat(o: Opening, ops: seq<Op>, i: nat, j: nat)
    requires i < j < |ops| && ops[i].Invoke? && ops[j].Invoke?
    requires Answer(o, ops, i).Ok? && Answer(o, ops, j).Ok?
    ensures Answer(o, ops, i).value.sequence < Answer(o, ops, j).value.sequence
  {
    ReceiptCountsSent(o, ops, i);
    ReceiptCountsSent(o, ops, j);
    SentOnlyGrowsBetween(o, ops, i + 1, j);
  }

  const BLANK_CARD := GlanceCard("", None, None, "", false)

  const KEYED_REQUEST: HaloRequest :=
    EffectRequest(HALO_FRAME.id, Glance(BLANK_CARD), 0, Some("a"), Some("k"), ["device.effect.halo-frame"], 0, 0)

  lemma KeyedRequestIsAuthorized()
    ensures HALO_FRAME.Authorize(KEYED_REQUEST).None?
  {
    assert "device.effect." + "halo-frame" == "device.effect.halo-frame";
  }

  /** Does sending `scene` to a blank screen succeed with nothing to change? */
  ghost predicate IsBlank(scene: Scene, budget: u32) {
    ScheduleStep(map[], scene, budget) == (map[], Ok(FrameDiff([], 0, [])))
  }

  lemma BlankCardTick()
    ensures IsBlank(Glance(BLANK_CARD), 512)
  {
    assert CardState(BLANK_CARD) == map[];
    NoChangesMeansEqual(map[], map[]);
  }

  /** Is the session started with a blank screen committed, having sent `n` packets? */
  ghost predicate BlankAfter(s: SessionState, n: nat) {
    s.started && s.committed == map[] && |s.sent| == n
  }

  lemma BlankSceneSends(o: Opening, s: SessionState, request: HaloRequest, n: nat)
    requires o.effect.Authorize(request).None? && IsBlank(request.payload, o.budget) && BlankAfter(s, n)
    ensures var (after, r) := InvokeFrame(o.effect, o.route, o.budget, s, request);
            && r.Ok? && r.value.sequence == n + 1 && BlankAfter(after, n + 1) && CompletesLast(after)
  {
    assert Frame([]) == "";
  }

  lemma BlankSceneSendsNext(o: Opening, ops: seq<Op>, i: nat, request: HaloRequest, n: nat)
    requires o.effect.Authorize(request).None? && IsBlank(request.payload, o.budget)
    requires i < |ops| && ops[i] == Invoke(request) && BlankAfter(Reached(o, ops[..i]), n)
    ensures Answer(o, ops, i).Ok? && Answer(o, ops, i).value.sequence == n + 1
    ensures BlankAfter(Reached(o, ops[..i + 1]), n + 1) && CompletesLast(Reached(o, ops[..i + 1]))
  {
    BlankSceneSends(o, Reached(o, ops[..i]), request, n);
    ReachedNext(o, ops, i);
  }

  lemma StartsBlank(o: Opening, ops: seq<Op>)
    requires ops != [] && ops[0] == Start
    ensures BlankAfter(Reached(o, ops[..1]), 0)
  {
    ReachedNext(o, ops, 0);
    assert ops[..0] == [];
  }

  /** A session started and then invoked twice with one blank request answers with receipts 1 and 2. */
  lemma TwoInvokesSend(o: Opening, ops: seq<Op>, request: HaloRequest)
    requires o.effect.Authorize(request).None? && IsBlank(request.payload, o.budget)
    requires |ops| == 3 && ops[0] == Start && ops[1] == ops[2] == Invoke(request)
    ensures Answer(o, ops, 1).Ok? && Answer(o, ops, 1).value.sequence == 1
    ensures Answer(o, ops, 2).Ok? && Answer(o, ops, 2).value.sequence == 2
    ensures CompletesLast(Reached(o, ops))
  {
    StartsBlank(o, ops);
    BlankSceneSendsNext(o, ops, 1, request, 0);
    BlankSceneSendsNext(o, ops, 2, request, 1);
    assert ops[..3] == ops;
  }

  /** Such a run: a Halo session sends twice for one idempotence key of a keyed effect. */
  lemma KeyedInvokeSendsTwice()
    ensures var o := Opening(HALO_FRAME, Ble, 512, []);
            var ops := [Start, Invoke(KEYED_REQUEST), Invoke(KEYED_REQUEST)];
            && KEYED_REQUEST.idempotenceKey == Some("k") && o.effect.idempotence.Keyed?
            && Answer(o, ops, 1).Ok? && Answer(o, ops, 1).value.sequence == 1
            && Answer(o, ops, 2).Ok? && Answer(o, ops, 2).value.sequence == 2
            && CompletesLast(Reached(o, ops))
  {
    KeyedRequestIsAuthorized();
    BlankCardTick();
    TwoInvokesSend(
      Opening(HALO_FRAME, Ble, 512, []), [Start, Invoke(KEYED_REQUEST), Invoke(KEYED_REQUEST)], KEYED_REQUEST);
  }

  // ---------------------------------------------------------------- started and stopped sessions

  /** Was the last start or stop of a run a start? */
  ghost predicate EndsStarted(ops: seq<Op>) {
    exists k :: 0 <= k < |ops| && ops[k].Start? && forall j :: k < j < |ops| ==> !ops[j].Stop?
  }

  lemma EndsStartedNext(ops: seq<Op>, op: Op)
    ensures EndsStarted(ops + [op]) <==> op.Start? || (!op.Stop? && EndsStarted(ops))
  {
    var all := ops + [op];
    if op.Start? {
      assert all[|ops|].Start?;
    } else if !op.Stop? && EndsStarted(ops) {
      var k :| 0 <= k < |ops| && ops[k].Start? && forall j :: k < j < |ops| ==> !ops[j].Stop?;
      assert all[k].Start? && forall j :: k < j < |all| ==> !all[j].Stop?;
    }
    if EndsStarted(all) {
      var k :| 0 <= k < |all| && all[k].Start? && forall j :: k < j < |all| ==> !all[j].Stop?;
      if k < |ops| {
        assert ops[k].Start? && forall j :: k < j < |ops| ==> ops[j] == all[j];
      }
      assert all[|ops|] == op;
    }
  }

  lemma StepStarted(o: Opening, s: SessionState, op: Op)
    ensures Step(o, s, op).started <==> op.Start? || (!op.Stop? && s.started)
  {
    if op.Invoke? {
      StepKeepsStarted(o, s, op.request);
    }
  }

  lemma {:induction false} StartedExactly(o: Opening, ops: seq<Op>)
    ensures Reached(o, ops).started <==> EndsStarted(ops)
  {
    if ops != [] {
      var init, last := ops[..|ops| - 1], ops[|ops| - 1];
      StartedExactly(o, init);
      StepStarted(o, Reached(o, init), last);
      EndsStartedNext(init, last);
      assert ops == init + [last];
    }
  }

  /** What a Halo session demands of a request for its frame effect. */
  ghost predicate MaySendFrame(request: HaloRequest) {
    && request.descriptor == Symbol("device/effect", "halo-frame")
    && "device.effect.halo-frame" in request.grants
    && request.arm.Some? && request.arm.value != ""
    && request.armedAtMs <= request.invokedAtMs <= request.armedAtMs + 30_000
    && request.idempotenceKey.Some? && request.idempotenceKey.value != ""
    && request.payloadBytes <= 65_536
  }

  /**
   * The frame effect authorizes just the requests that name it, hold its capability, are
   * armed, come within thirty seconds of arming, carry a key and are small enough.
   */
  lemma FrameAuthorizedExactly(request: HaloRequest)
    ensures HALO_FRAME.Authorize(request).None? <==> MaySendFrame(request)
  {
    assert HALO_FRAME.capability == "device.effect.halo-frame";
  }

  /** Is the scene a glance card that fits the display and, if it changes anything, changes some cell within the budget? */
  ghost predicate Sendable(committed: LuaFrameState, scene: Scene, budget: u32) {
    && budget > 0 && scene.Glance? && Fits(scene.card)
    && (var changes := Changes(committed, CardState(scene.card));
        changes == [] || exists c :: c in changes && c.ByteLen() <= budget)
  }

  lemma SendableExactly(committed: LuaFrameState, scene: Scene, budget: u32)
    ensures ScheduleStep(committed, scene, budget).1.Ok? <==> Sendable(committed, scene, budget)
  {
    RefusedUnread(committed, scene, budget);
    TargetFailsExactly(scene);
    if budget > 0 && TargetOf(scene).Ok? {
      CannotFitExactly(committed, scene, budget);
    }
  }

  lemma SendAnswers(effect: EffectDescriptor, route: HaloRouteKind, budget: u32, s: SessionState, request: HaloRequest)
    requires effect.Authorize(request).None? && s.started
    ensures InvokeFrame(effect, route, budget, s, request).1.Ok?
            <==> ScheduleStep(s.committed, request.payload, budget).1.Ok?
    ensures InvokeFrame(effect, route, budget, s, request).1.Err? ==>
              InvokeFrame(effect, route, budget, s, request).1
                == Err(Host(FrameRefused(ScheduleStep(s.committed, request.payload, budget).1.error)))
  {
    MismatchIsUnreachable(effect, route, budget, s, request);
  }

  /**
   * What an invocation answers, over every run of a Halo session: a contract fault iff it
   * is not authorized, else a refusal iff the last start or stop was no start, else
   * the scheduler's refusal iff the scene cannot be sent.  A success carries the frame
   * effect's receipt, numbered by the packets sent.
   */
  lemma InvokeAnswersExactly(o: Opening, ops: seq<Op>, i: nat)
    requires o.effect == HALO_FRAME && i < |ops| && ops[i].Invoke?
    ensures var before, request, r := Reached(o, ops[..i]), ops[i].request, Answer(o, ops, i);
            && (r.Err? && r.error.Contract? <==> !MaySendFrame(request))
            && (r == Err(Host(NotStarted)) <==> MaySendFrame(request) && !EndsStarted(ops[..i]))
            && (r.Ok? <==> MaySendFrame(request) && EndsStarted(ops[..i])
                           && Sendable(before.committed, request.payload, o.budget))
            && (r.Ok? ==> r.value == EffectReceipt(Symbol("device/receipt", "halo-frame"), request.descriptor,
                                                   |before.sent| + 1))
  {
    var before, request := Reached(o, ops[..i]), ops[i].request;
    FrameAuthorizedExactly(request);
    StartedExactly(o, ops[..i]);
    if MaySendFrame(request) && before.started {
      SendAnswers(o.effect, o.route, o.budget, before, request);
      SendableExactly(before.committed, request.payload, o.budget);
      if Answer(o, ops, i).Ok? {
        SuccessAppends(o.effect, o.route, o.budget, before, request);
      }
    }
  }

  // ---------------------------------------------------------------- polling

  /** The sample one operation returns, if any. */
  ghost function PolledBy(s: SessionState, op: Op): seq<HaloSample> {
    if op.Poll? && PollStep(s, op.kind).1.Ok? && PollStep(s, op.kind).1.value.Some?
    then [PollStep(s, op.kind).1.value.value] else []
  }

  /** The samples a run's polls return, in order. */
  ghost function Polled(o: Opening, ops: seq<Op>): seq<HaloSample> {
    if ops == [] then []
    else
      var init := ops[..|ops| - 1];
      Polled(o, init) + PolledBy(Reached(o, init), ops[|ops| - 1])
  }

  lemma PollTakesFirst(s: SessionState, asked: string, kind: string)
    requires PollStep(s, asked).1.Ok? && PollStep(s, asked).1.value.Some?
    ensures var sample := PollStep(s, asked).1.value.value;
            var rest := OfKind(PollStep(s, asked).0.samples, kind);
            && sample.Kind() == asked
            && OfKind(s.samples, kind) == if asked == kind then [sample] + rest else rest
  {
    var i := Position(s.samples, asked);
    FilterTakeOut(s.samples, i, HasKind(kind));
  }

  /** A started session answers a poll with its first sample of that kind, and with none iff it has none. */
  lemma PollReturnsFirst(s: SessionState, kind: string)
    requires s.started
    ensures PollStep(s, kind).1
         == Ok(if OfKind(s.samples, kind) == [] then None else Some(OfKind(s.samples, kind)[0]))
  {
    var i := Position(s.samples, kind);
    if i < |s.samples| {
      PollTakesFirst(s, kind, kind);
    } else {
      FilterNone(s.samples, HasKind(kind));
    }
  }

  lemma InvokeKeepsSamples(o: Opening, s: SessionState, request: HaloRequest)
    ensures InvokeFrame(o.effect, o.route, o.budget, s, request).0.samples == s.samples
  {
  }

  lemma StepPolls(o: Opening, s: SessionState, op: Op, kind: string)
    ensures OfKind(s.samples, kind) == OfKind(PolledBy(s, op), kind) + OfKind(Step(o, s, op).samples, kind)
  {
    if op.Invoke? {
      InvokeKeepsSamples(o, s, op.request);
    }
    if PolledBy(s, op) != [] {
      PollTakesFirst(s, op.kind, kind);
      FilterOne(PolledBy(s, op)[0], HasKind(kind));
    }
  }

  lemma PolledMore(
    polled: seq<HaloSample>, got: seq<HaloSample>, before: seq<HaloSample>, after: seq<HaloSample>,
    all: seq<HaloSample>, kind: string)
    requires OfKind(polled, kind) + OfKind(before, kind) == all
    requires OfKind(before, kind) == OfKind(got, kind) + OfKind(after, kind)
    ensures OfKind(polled + got, kind) + OfKind(after, kind) == all
  {
    var a, b, c := OfKind(polled, kind), OfKind(got, kind), OfKind(after, kind);
    FilterConcat(polled, got, HasKind(kind));
    assert a + b + c == a + (b + c);
  }

  /** Samples of one kind leave the session in order: returned ones first, then the rest. */
  lemma {:induction false} PolledThenRemaining(o: Opening, ops: seq<Op>, kind: string)
    ensures OfKind(Polled(o, ops), kind) + OfKind(Reached(o, ops).samples, kind) == OfKind(o.samples, kind)
  {
    if ops != [] {
      var init, last := ops[..|ops| - 1], ops[|ops| - 1];
      var before, after := Reached(o, init), Reached(o, ops);
      PolledThenRemaining(o, init, kind);
      StepPolls(o, before, last, kind);
      PolledMore(
        Polled(o, init), PolledBy(before, last), before.samples, after.samples, OfKind(o.samples, kind), kind);
    }
  }

  /**
   * What a poll answers, over every run: unless the last start or stop was a start it is
   * refused and nothing changes; otherwise the answer is the first opened sample of the
   * kind not polled yet, or none once they are used up.
   */
  lemma PollAnswersExactly(o: Opening, ops: seq<Op>, kind: string)
    ensures var s, next := Reached(o, ops), |OfKind(Polled(o, ops), kind)|;
            if !EndsStarted(ops) then PollStep(s, kind) == (s, Err(Host(NotStarted)))
            else PollStep(s, kind).1
                 == Ok(if next < |OfKind(o.samples, kind)| then Some(OfKind(o.samples, kind)[next]) else None)
  {
    StartedExactly(o, ops);
    PolledThenRemaining(o, ops, kind);
    if EndsStarted(ops) {
      PollReturnsFirst(Reached(o, ops), kind);
    }
  }

  lemma StoppedStepPollsNothing(o: Opening, s: SessionState, op: Op)
    requires !s.started
    ensures PolledBy(s, op) == [] && Step(o, s, op).samples == s.samples
  {
    if op.Invoke? {
      InvokeKeepsSamples(o, s, op.request);
    }
  }

  lemma StoppedNext(o: Opening, ops: seq<Op>, op: Op)
    requires !EndsStarted(ops) && !op.Start?
    ensures !EndsStarted(ops + [op])
    ensures Polled(o, ops + [op]) == Polled(o, ops) && Reached(o, ops + [op]).samples == Reached(o, ops).samples
  {
    assert (ops + [op])[..|ops|] == ops;
    EndsStartedNext(ops, op);
    StartedExactly(o, ops);
    StoppedStepPollsNothing(o, Reached(o, ops), op);
  }

  /** From a stop to the next start, polls take nothing out. */
  lemma StoppedPollsNothing(o: Opening, ops: seq<Op>, more: seq<Op>)
    requires !EndsStarted(ops) && forall i :: 0 <= i < |more| ==> !more[i].Start?
    ensures !EndsStarted(ops + more)
    ensures Polled(o, ops + more) == Polled(o, ops)
    ensures Reached(o, ops + more).samples == Reached(o, ops).samples
  {
    var quiet := (later: seq<Op>) =>
      && !EndsStarted(later) && Polled(o, later) == Polled(o, ops)
      && Reached(o, later).samples == Reached(o, ops).samples;
    forall later: seq<Op>, op: Op | quiet(later) && !op.Start?
      ensures quiet(later + [op])
    {
      StoppedNext(o, later, op);
    }
    HoldsOnward(quiet, (op: Op) => !op.Start?, ops, more);
  }

  /**
   * Over every run of a session opened from acceptable samples, the samples polled
   * of one kind are a prefix of the opened samples of that kind, their sequence
   * numbers never decrease, and at most one camera sample is ever returned.
   */
  lemma PollsAreOrderedPrefixes(o: Opening, ops: seq<Op>, kind: string)
    requires Acceptable(o.samples)
    ensures OfKind(Polled(o, ops), kind) <= OfKind(o.samples, kind)
    ensures forall i, j :: 0 <= i < j < |OfKind(Polled(o, ops), kind)| ==>
              OfKind(Polled(o, ops), kind)[i].sequence <= OfKind(Polled(o, ops), kind)[j].sequence
    ensures |OfKind(Polled(o, ops), CAMERA_KIND)| <= 1
  {
    PolledThenRemaining(o, ops, kind);
    PolledThenRemaining(o, ops, CAMERA_KIND);
    OfKindOrdered(o.samples, kind);
    OneCamera(o.samples);
  }
}
