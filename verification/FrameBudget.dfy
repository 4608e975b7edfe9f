/**
 * Stateful, byte-budgeted glance diff scheduling
 * (crates/sim-lib-stream-halo/src/frame_budget.rs).
 */
module FrameBudget {
  import opened Wrappers
  import opened Machine
  import opened LuaRender

  // ---------------------------------------------------------------- glance cards and display state

  datatype Metric = Metric(labelText: string, value: string)
  datatype Action = Action(labelText: string)

  /** The fields of a glance card the scheduler reads. */
  datatype GlanceCard = GlanceCard(
    title: string,
    metric: Option<Metric>,
    action: Option<Action>,
    urgency: string,
    bypassBudget: bool)

  /** A scene expression: either not a glance card at all, or the card it holds. */
  datatype Scene = NotAGlance | Glance(card: GlanceCard)

  datatype StateCell = StateCell(glyph: char, priority: LuaCellPriority)

  /** Cells of a display, by address. */
  type LuaFrameState = map<CellKey, StateCell>

  datatype FrameError =
    | ZeroBudget
    | NotAScene
    | RegionTooLong(region: LuaRegion)
    | CannotFit(smallest: nat)

  /** What one tick sent, in how many bytes, and what it left for later. */
  datatype FrameDiff = FrameDiff(cells: seq<LuaCell>, bytes: u32, deferred: seq<LuaCell>) {
    predicate IsComplete() {
      deferred == []
    }
  }

  function Get<K, V>(m: map<K, V>, k: K): Option<V> {
    if k in m then Some(m[k]) else None
  }

  /** The most glyphs one region can hold: one for every 16-bit index. */
  const REGION_CELLS: nat := U16_MAX + 1

  /** What each region of a card should read. */
  function TextOf(card: GlanceCard, region: LuaRegion): string {
    match region
    case Title => card.title
    case MetricLabel => if card.metric.Some? then card.metric.value.labelText else ""
    case MetricValue => if card.metric.Some? then card.metric.value.value else ""
    case ActionLabel => if card.action.Some? then card.action.value.labelText else ""
    case Urgency => card.urgency
    case Warrant => if card.bypassBudget then "!" else ""
  }

  function ContentPriority(card: GlanceCard): LuaCellPriority {
    if card.bypassBudget then WarrantFirst else Normal
  }

  function UrgencyPriority(card: GlanceCard): LuaCellPriority {
    if card.bypassBudget || card.urgency == "warrant" then WarrantFirst
    else if card.urgency == "warn" || card.urgency == "error" || card.urgency == "critical" then Urgent
    else Normal
  }

  function PriorityOf(card: GlanceCard, region: LuaRegion): LuaCellPriority {
    match region
    case Urgency => UrgencyPriority(card)
    case Warrant => WarrantFirst
    case _ => ContentPriority(card)
  }

  /** `cells` with `text` written over the first cells of `region`. */
  ghost function Written(
    cells: LuaFrameState, region: LuaRegion, text: string, priority: LuaCellPriority): LuaFrameState
    requires |text| <= REGION_CELLS
  {
    if text == "" then cells
    else
      var last := |text| - 1;
      Written(cells, region, text[..last], priority)[CellKey(region, last) := StateCell(text[last], priority)]
  }

  /** The first region, in insertion order, whose text has no room. */
  function FirstTooLong(card: GlanceCard): Option<LuaRegion> {
    if |TextOf(card, Title)| > REGION_CELLS then Some(Title)
    else if |TextOf(card, MetricLabel)| > REGION_CELLS then Some(MetricLabel)
    else if |TextOf(card, MetricValue)| > REGION_CELLS then Some(MetricValue)
    else if |TextOf(card, ActionLabel)| > REGION_CELLS then Some(ActionLabel)
    else if |TextOf(card, Urgency)| > REGION_CELLS then Some(Urgency)
    else None
  }

  /** Has a field more glyphs than its region has indexes? */
  ghost predicate TooLong(text: string) {
    |text| > 65536
  }

  /** Does every region have room for the card's field? */
  ghost predicate Fits(card: GlanceCard) {
    && !TooLong(card.title)
    && (card.metric.Some? ==> !TooLong(card.metric.value.labelText) && !TooLong(card.metric.value.value))
    && (card.action.Some? ==> !TooLong(card.action.value.labelText))
    && !TooLong(card.urgency)
  }

  ghost function WithRegion(cells: LuaFrameState, card: GlanceCard, r: LuaRegion): LuaFrameState
    requires |TextOf(card, r)| <= REGION_CELLS
  {
    Written(cells, r, TextOf(card, r), PriorityOf(card, r))
  }

  /** The display state that shows a card. */
  ghost function CardState(card: GlanceCard): LuaFrameState
    requires Fits(card)
  {
    var s1 := WithRegion(map[], card, Title);
    var s2 := WithRegion(s1, card, MetricLabel);
    var s3 := WithRegion(s2, card, MetricValue);
    var s4 := WithRegion(s3, card, ActionLabel);
    var s5 := WithRegion(s4, card, Urgency);
    WithRegion(s5, card, Warrant)
  }

  /** The outcome of reading a scene, as a specification. */
  ghost function TargetOf(scene: Scene): Result<LuaFrameState, FrameError> {
    match scene
    case NotAGlance => Err(NotAScene)
    case Glance(card) =>
      match FirstTooLong(card)
      case Some(r) => Err(RegionTooLong(r))
      case None => Ok(CardState(card))
  }

  /** Writes `text` into `cells`, one glyph per index, until the indexes run out. */
  method InsertText(cells: LuaFrameState, region: LuaRegion, text: string, priority: LuaCellPriority)
    returns (r: Result<LuaFrameState, FrameError>)
    ensures r == if |text| <= REGION_CELLS then Ok(Written(cells, region, text, priority))
                 else Err(RegionTooLong(region))
  {
    var updated := cells;
    for index := 0 to |text|
      invariant index <= REGION_CELLS
      invariant updated == Written(cells, region, text[..index], priority)
    {
      if index > U16_MAX {
        return Err(RegionTooLong(region));
      }
      updated := updated[CellKey(region, index) := StateCell(text[index], priority)];
      assert text[..index + 1][..index] == text[..index];
    }
    assert text[..|text|] == text;
    return Ok(updated);
  }

  lemma WrittenOne(cells: LuaFrameState, region: LuaRegion, glyph: char, priority: LuaCellPriority)
    ensures Written(cells, region, [glyph], priority) == cells[CellKey(region, 0) := StateCell(glyph, priority)]
  {
    assert [glyph][..0] == "";
    assert Written(cells, region, "", priority) == cells;
  }

  /** Converts a scene to display cells. */
  method FromGlance(scene: Scene) returns (r: Result<LuaFrameState, FrameError>)
    ensures r == TargetOf(scene)
  {
    if scene.NotAGlance? {
      return Err(NotAScene);
    }
    var card := scene.card;
    var contentPriority := if card.bypassBudget then WarrantFirst else Normal;
    r := InsertText(map[], Title, card.title, contentPriority);
    if r.Err? { return; }
    if card.metric.Some? {
      r := InsertText(r.value, MetricLabel, card.metric.value.labelText, contentPriority);
      if r.Err? { return; }
      r := InsertText(r.value, MetricValue, card.metric.value.value, contentPriority);
      if r.Err? { return; }
    }
    if card.action.Some? {
      r := InsertText(r.value, ActionLabel, card.action.value.labelText, contentPriority);
      if r.Err? { return; }
    }
    var urgencyPriority :=
      if card.bypassBudget || card.urgency == "warrant" then WarrantFirst
      else if card.urgency == "warn" || card.urgency == "error" || card.urgency == "critical" then Urgent
      else Normal;
    r := InsertText(r.value, Urgency, card.urgency, urgencyPriority);
    if r.Err? { return; }
    if card.bypassBudget {
      WrittenOne(r.value, Warrant, '!', WarrantFirst);
      r := Ok(r.value[CellKey(Warrant, 0) := StateCell('!', WarrantFirst)]);
    }
  }

  lemma {:induction false} WrittenLookup(
    cells: LuaFrameState, region: LuaRegion, text: string, priority: LuaCellPriority, k: CellKey)
    requires |text| <= REGION_CELLS
    ensures Get(Written(cells, region, text, priority), k) ==
            if k.region == region && k.index < |text| then Some(StateCell(text[k.index], priority))
            else Get(cells, k)
  {
    if text != "" {
      WrittenLookup(cells, region, text[..|text| - 1], priority, k);
    }
  }

  lemma RegionLookup(card: GlanceCard, k: CellKey)
    requires Fits(card)
    ensures Get(CardState(card), k) == CellOf(TextOf(card, k.region), k.index, PriorityOf(card, k.region))
  {
    var s1 := WithRegion(map[], card, Title);
    var s2 := WithRegion(s1, card, MetricLabel);
    var s3 := WithRegion(s2, card, MetricValue);
    var s4 := WithRegion(s3, card, ActionLabel);
    var s5 := WithRegion(s4, card, Urgency);
    WrittenLookup(map[], Title, TextOf(card, Title), PriorityOf(card, Title), k);
    WrittenLookup(s1, MetricLabel, TextOf(card, MetricLabel), PriorityOf(card, MetricLabel), k);
    WrittenLookup(s2, MetricValue, TextOf(card, MetricValue), PriorityOf(card, MetricValue), k);
    WrittenLookup(s3, ActionLabel, TextOf(card, ActionLabel), PriorityOf(card, ActionLabel), k);
    WrittenLookup(s4, Urgency, TextOf(card, Urgency), PriorityOf(card, Urgency), k);
    WrittenLookup(s5, Warrant, TextOf(card, Warrant), PriorityOf(card, Warrant), k);
  }

  /** The cell at `index` of a region that reads `text`. */
  function CellOf(text: string, index: nat, priority: LuaCellPriority): Option<StateCell> {
    if index < |text| then Some(StateCell(text[index], priority)) else None
  }

  /** A warrant outranks every urgency; without one, warnings and worse are urgent. */
  ghost predicate Ranks(card: GlanceCard, region: LuaRegion, priority: LuaCellPriority) {
    if card.bypassBudget then priority == WarrantFirst
    else if region != Urgency then priority == Normal
    else if card.urgency == "warrant" then priority == WarrantFirst
    else priority == if card.urgency in {"warn", "error", "critical"} then Urgent else Normal
  }

  /** Does the cell at `k` show the field of the card that belongs there, at priority `p`? */
  ghost predicate ShowsField(card: GlanceCard, k: CellKey, cell: Option<StateCell>, p: LuaCellPriority) {
    match k.region
    case Title => cell == CellOf(card.title, k.index, p)
    case MetricLabel =>
      (match card.metric
       case Some(metric) => cell == CellOf(metric.labelText, k.index, p)
       case None => cell == None)
    case MetricValue =>
      (match card.metric
       case Some(metric) => cell == CellOf(metric.value, k.index, p)
       case None => cell == None)
    case ActionLabel =>
      (match card.action
       case Some(action) => cell == CellOf(action.labelText, k.index, p)
       case None => cell == None)
    case Urgency => cell == CellOf(card.urgency, k.index, p)
    case Warrant => cell == if card.bypassBudget && k.index == 0 then Some(StateCell('!', p)) else None
  }

  /** A card's state holds at each address the glyph of that region's field, ranked as the card is, and nothing else. */
  lemma CardStateLookup(card: GlanceCard, k: CellKey)
    requires Fits(card)
    ensures exists p :: Ranks(card, k.region, p) && ShowsField(card, k, Get(CardState(card), k), p)
  {
    RegionLookup(card, k);
    var p := if k.region == Warrant && !card.bypassBudget then Normal else PriorityOf(card, k.region);
    assert Ranks(card, k.region, p);
    assert ShowsField(card, k, Get(CardState(card), k), p);
  }

  /**
   * Reading a scene fails iff it is no glance card or some field has more than 65536
   * glyphs; the error names the region of the first such field, in card order.
   */
  lemma TargetFailsExactly(scene: Scene)
    ensures TargetOf(scene) == Err(NotAScene) <==> scene.NotAGlance?
    ensures scene.Glance? ==>
              var card, r := scene.card, TargetOf(scene);
              var inTitle := TooLong(card.title);
              var inLabel := card.metric.Some? && TooLong(card.metric.value.labelText);
              var inValue := card.metric.Some? && TooLong(card.metric.value.value);
              var inAction := card.action.Some? && TooLong(card.action.value.labelText);
              && (r.Ok? <==> Fits(card))
              && (inTitle ==> r == Err(RegionTooLong(Title)))
              && (inLabel && !inTitle ==> r == Err(RegionTooLong(MetricLabel)))
              && (inValue && !inTitle && !inLabel ==> r == Err(RegionTooLong(MetricValue)))
              && (inAction && !inTitle && !inLabel && !inValue ==> r == Err(RegionTooLong(ActionLabel)))
              && (r.Err? && !inTitle && !inLabel && !inValue && !inAction ==> r == Err(RegionTooLong(Urgency)))
  {
  }
}
