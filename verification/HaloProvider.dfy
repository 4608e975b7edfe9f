/**
 * Halo provider and session (crates/sim-lib-stream-halo/src/provider.rs): polling of
 * validated samples and glance frames sent as Lua packets.
 */
module HaloProvider {
  import opened Wrappers
  import opened Machine
  import opened LuaRender
  import opened FrameBudget
  import opened Scheduler
  import opened DeviceEffects
  import opened HaloSamples

  datatype HaloFault = NotStarted | FrameRefused(error: FrameError) | ByteCountMismatch

  type HaloError = DeviceError<SampleFault, HaloFault>

  datatype HaloRouteKind = Ble | WebBluetooth | Relay | Stub

  /** One Lua diff packet sent over a route. */
  datatype HaloFramePacket = HaloFramePacket(route: HaloRouteKind, diff: FrameDiff, lua: string)

  type HaloRequest = EffectRequest<Scene>

  /** The descriptor every device effect of the repository shares, but for its name. */
  function StandardEffectDescriptor(name: string): EffectDescriptor {
    EffectDescriptor(
      Symbol("device/effect", name), Symbol("shape/device-effect", name), "device.effect." + name,
      EffectBounds(64 * 1024, U64_MAX), true, 30_000_000_000,
      Symbol("device/receipt", name), Keyed, Irreversible, Symbol("device/effect", "stop"))
  }

  const HALO_FRAME := StandardEffectDescriptor("halo-frame")

  // ---------------------------------------------------------------- the session as a state machine

  datatype SessionState = SessionState(
    samples: seq<HaloSample>,
    committed: LuaFrameState,
    sent: seq<HaloFramePacket>,
    started: bool)

  /** Position of the first sample of `kind`, or the number of samples. */
  function Position(samples: seq<HaloSample>, kind: string): (i: nat)
    ensures i <= |samples|
    ensures i < |samples| ==> samples[i].Kind() == kind
    ensures forall j :: 0 <= j < i ==> samples[j].Kind() != kind
  {
    if samples == [] || samples[0].Kind() == kind then 0 else 1 + Position(samples[1..], kind)
  }

  ghost function PollStep(s: SessionState, kind: string)
    : (SessionState, Result<Option<HaloSample>, HaloError>)
  {
    if !s.started then (s, Err(Host(NotStarted)))
    else
      var i := Position(s.samples, kind);
      if i == |s.samples| then (s, Ok(None))
      else (s.(samples := s.samples[..i] + s.samples[i + 1..]), Ok(Some(s.samples[i])))
  }

  ghost function SendStep(effect: EffectDescriptor, route: HaloRouteKind, budget: u32, s: SessionState, request: HaloRequest)
    : (SessionState, Result<EffectReceipt, HaloError>)
  {
    var (committed, r) := ScheduleStep(s.committed, request.payload, budget);
    match r
    case Err(e) => (s.(committed := committed), Err(Host(FrameRefused(e))))
    case Ok(diff) =>
      var lua := Frame(diff.cells);
      if diff.bytes != |lua| then (s.(committed := committed), Err(Host(ByteCountMismatch)))
      else
        var sent := s.sent + [HaloFramePacket(route, diff, lua)];
        (s.(committed := committed, sent := sent), Ok(EffectReceipt(effect.receipt, effect.id, |sent|)))
  }

  ghost function InvokeFrame(effect: EffectDescriptor, route: HaloRouteKind, budget: u32, s: SessionState, request: HaloRequest)
    : (SessionState, Result<EffectReceipt, HaloError>)
  {
    match effect.Authorize(request)
    case Some(fault) => (s, Err(Contract(fault)))
    case None =>
      if !s.started then (s, Err(Host(NotStarted))) else SendStep(effect, route, budget, s, request)
  }

  /** A session: queued samples, a scheduler, and the packets sent so far. */
  class HaloSession {
    const route: HaloRouteKind
    const frameBudget: u32
    const scheduler: LuaFrameScheduler
    var samples: seq<HaloSample>
    var sent: seq<HaloFramePacket>
    var started: bool

    ghost function State(): SessionState
      reads this, scheduler
    {
      SessionState(samples, scheduler.committed, sent, started)
    }

    constructor (route: HaloRouteKind, samples: seq<HaloSample>, frameBudget: u32)
      ensures this.route == route && this.frameBudget == frameBudget && fresh(scheduler)
      ensures State() == SessionState(samples, map[], [], false)
    {
      this.route := route;
      this.frameBudget := frameBudget;
      this.samples := samples;
      scheduler := new LuaFrameScheduler.Empty();
      sent := [];
      started := false;
    }

    method Start()
      modifies this
      ensures State() == old(State()).(started := true)
    {
      started := true;
    }

    method Stop()
      modifies this
      ensures State() == old(State()).(started := false)
    {
      started := false;
    }

    method Poll(kind: string) returns (r: Result<Option<HaloSample>, HaloError>)
      modifies this
      ensures (State(), r) == PollStep(old(State()), kind)
    {
      if !started {
        return Err(Host(NotStarted));
      }
      var i := Position(samples, kind);
      if i == |samples| {
        return Ok(None);
      }
      r := Ok(Some(samples[i]));
      samples := samples[..i] + samples[i + 1..];
    }

    method Invoke(request: HaloRequest) returns (r: Result<EffectReceipt, HaloError>)
      modifies this, scheduler
      ensures (State(), r) == InvokeFrame(HALO_FRAME, route, frameBudget, old(State()), request)
    {
      var fault := HALO_FRAME.Authorize(request);
      if fault.Some? {
        return Err(Contract(fault.value));
      }
      if !started {
        return Err(Host(NotStarted));
      }
      r := Send(request);
    }

    method Send(request: HaloRequest) returns (r: Result<EffectReceipt, HaloError>)
      modifies this, scheduler
      ensures (State(), r) == SendStep(HALO_FRAME, route, frameBudget, old(State()), request)
    {
      var scheduled := scheduler.Schedule(request.payload, frameBudget);
      if scheduled.Err? {
        return Err(Host(FrameRefused(scheduled.error)));
      }
      var diff := scheduled.value;
      var lua := EncodeLuaCells(diff.cells);
      if diff.bytes != |lua| {
        return Err(Host(ByteCountMismatch));
      }
      sent := sent + [HaloFramePacket(route, diff, lua)];
      return Ok(EffectReceipt(HALO_FRAME.receipt, HALO_FRAME.id, |sent|));
    }
  }

  /**
   * A route with its frame budget.  `linked` stands for what opening the
   * route's link yields: its samples, or the link's own error.
   */
  datatype HaloProvider = HaloProvider(
    route: HaloRouteKind,
    linked: Result<seq<HaloSample>, HaloError>,
    frameBudget: u32)
  {
    /** Opens a session over validated samples. */
    method OpenSession() returns (r: Result<HaloSession, HaloError>)
      ensures r.Ok? <==> !route.Stub? && linked.Ok? && Acceptable(linked.value)
      ensures r.Ok? ==>
                && fresh(r.value) && fresh(r.value.scheduler)
                && r.value.route == route && r.value.frameBudget == frameBudget
                && r.value.State() == SessionState(linked.value, map[], [], false)
      ensures route.Stub? ==> r == Err(Unsupported)
      ensures !route.Stub? && linked.Err? ==> r == Err(linked.error)
      ensures !route.Stub? && linked.Ok? && r.Err? ==>
                r.error.Sample? && exists i :: IsFirstFault(linked.value, i, r.error.sample)
    {
      if route.Stub? {
        return Err(Unsupported);
      }
      if linked.Err? {
        return Err(linked.error);
      }
      var fault := ValidateSamples(linked.value);
      if fault.Some? {
        return Err(Sample(fault.value));
      }
      var session := new HaloSession(route, linked.value, frameBudget);
      return Ok(session);
    }
  }
}
