/**
 * Registered device effects: descriptors, authorization, the checked registry and
 * the hardware-free effect session (src/device.rs).
 */
module DeviceEffects {
  import opened Wrappers

  datatype Symbol = Symbol(namespace: string, name: string)

  // ---------------------------------------------------------------- errors

  datatype ContractFault =
    | Incomplete
    | ReversesItself
    | Duplicate(id: Symbol)
    | Forged
    | MissingCapability
    | NotArmed
    | ArmExpired
    | NoIdempotenceKey
    | TooLarge
    | NotRegistered
    | BoundExhausted

  /**
   * What providers and sessions answer with.  Sample and host faults are the
   * provider's own, contract faults are common to all.
   */
  datatype DeviceError<+S, +H> =
    | Unsupported
    | Sample(sample: S)
    | Host(host: H)
    | Contract(contract: ContractFault)

  /** The one host fault of an effect session. */
  datatype SessionFault = LocallyStopped

  type SessionError = DeviceError<(), SessionFault>

  // ---------------------------------------------------------------- descriptors and requests

  datatype IdempotencePolicy = Idempotent | Keyed | AtMostOnce

  datatype ReversalPolicy = Irreversible | Reverse(effect: Symbol)

  datatype EffectBounds = EffectBounds(maxRequestBytes: nat, maxInvocations: nat)

  /**
   * One invocation request.  `payloadBytes` stands for the length of the payload's
   * debug rendering, which is what the size bound is checked against.
   */
  datatype EffectRequest<P> = EffectRequest(
    descriptor: Symbol,
    payload: P,
    payloadBytes: nat,
    arm: Option<string>,
    idempotenceKey: Option<string>,
    grants: seq<string>,
    armedAtMs: nat,
    invokedAtMs: nat)

  datatype EffectReceipt = EffectReceipt(kind: Symbol, descriptor: Symbol, sequence: nat)

  predicate Blank(text: Option<string>) {
    text.None? || text.value == ""
  }

  /** Authority description of one effect; durations are in nanoseconds. */
  datatype EffectDescriptor = EffectDescriptor(
    id: Symbol,
    shape: Symbol,
    capability: string,
    bounds: EffectBounds,
    requiresArm: bool,
    expiresAfter: nat,
    receipt: Symbol,
    idempotence: IdempotencePolicy,
    reversal: ReversalPolicy,
    localStop: Symbol)
  {
    /** The fault in this descriptor, if any. */
    function Validate(): Option<ContractFault> {
      if || shape.name == "" || capability == "" || bounds.maxRequestBytes == 0
         || bounds.maxInvocations == 0 || expiresAfter == 0 || receipt.name == "" || localStop.name == ""
      then Some(Incomplete)
      else if reversal == Reverse(id) then Some(ReversesItself)
      else None
    }

    /** The first reason, in checking order, to turn `request` down, if any. */
    function Authorize<P>(request: EffectRequest<P>): Option<ContractFault> {
      if Validate().Some? then Validate()
      else if request.descriptor != id then Some(Forged)
      else if capability !in request.grants then Some(MissingCapability)
      else if requiresArm && Blank(request.arm) then Some(NotArmed)
      else if request.invokedAtMs < request.armedAtMs
           || (request.invokedAtMs - request.armedAtMs) * 1_000_000 > expiresAfter then Some(ArmExpired)
      else if idempotence.Keyed? && Blank(request.idempotenceKey) then Some(NoIdempotenceKey)
      else if request.payloadBytes > bounds.maxRequestBytes then Some(TooLarge)
      else None
    }
  }

  // ---------------------------------------------------------------- registry

  type EffectRegistry = map<Symbol, EffectDescriptor>

  /** Does a descriptor name a shape, a capability, a receipt and a local stop, and allow something for some time? */
  ghost predicate Complete(d: EffectDescriptor) {
    && d.shape.name != "" && d.capability != "" && d.receipt.name != "" && d.localStop.name != ""
    && d.bounds.maxRequestBytes > 0 && d.bounds.maxInvocations > 0 && d.expiresAfter > 0
  }

  lemma ValidateExactly(d: EffectDescriptor)
    ensures d.Validate() == if !Complete(d) then Some(Incomplete)
                            else if d.reversal == Reverse(d.id) then Some(ReversesItself) else None
  {
  }

  ghost predicate AllValid(ds: seq<EffectDescriptor>) {
    forall i :: 0 <= i < |ds| ==> Complete(ds[i]) && ds[i].reversal != Reverse(ds[i].id)
  }

  ghost predicate IdsDiffer(ds: seq<EffectDescriptor>) {
    forall i, j :: 0 <= i < j < |ds| ==> ds[i].id != ds[j].id
  }

  /** Is `m` the lookup table of `ds`? */
  ghost predicate Indexes(m: EffectRegistry, ds: seq<EffectDescriptor>) {
    && (forall i :: 0 <= i < |ds| ==> ds[i].id in m && m[ds[i].id] == ds[i])
    && (forall id :: id in m ==> m[id] in ds && m[id].id == id)
  }

  /** The fault of the first descriptor that cannot join those before it. */
  ghost predicate FirstFault(ds: seq<EffectDescriptor>, fault: ContractFault) {
    exists i :: 0 <= i < |ds| && AllValid(ds[..i]) && IdsDiffer(ds[..i])
                && (if !Complete(ds[i]) then fault == Incomplete
                    else if ds[i].reversal == Reverse(ds[i].id) then fault == ReversesItself
                    else fault == Duplicate(ds[i].id) && exists j :: 0 <= j < i && ds[j].id == ds[i].id)
  }

  /** Files each descriptor under its identity, stopping at the first that cannot be. */
  method NewRegistry(ds: seq<EffectDescriptor>) returns (r: Result<EffectRegistry, SessionError>)
    ensures r.Ok? <==> AllValid(ds) && IdsDiffer(ds)
    ensures r.Ok? ==> Indexes(r.value, ds)
    ensures r.Err? ==> r.error.Contract? && FirstFault(ds, r.error.contract)
  {
    var entries: EffectRegistry := map[];
    for n := 0 to |ds|
      invariant AllValid(ds[..n]) && IdsDiffer(ds[..n]) && Indexes(entries, ds[..n])
    {
      var d := ds[n];
      ValidateExactly(d);
      if d.Validate().Some? {
        assert !AllValid(ds);
        return Err(Contract(d.Validate().value));
      }
      if d.id in entries {
        var j :| 0 <= j < n && ds[..n][j] == entries[d.id];
        assert ds[j].id == ds[n].id;
        return Err(Contract(Duplicate(d.id)));
      }
      entries := entries[d.id := d];
      assert ds[..n + 1] == ds[..n] + [d];
    }
    assert ds[..|ds|] == ds;
    return Ok(entries);
  }

  // ---------------------------------------------------------------- session

  datatype EffectState = EffectState(
    receipts: map<string, EffectReceipt>,
    invocations: map<Symbol, nat>,
    stopped: bool,
    sequence: nat)
  {
    /** Invocations charged to an effect; an absent entry reads as zero. */
    function Count(id: Symbol): nat {
      if id in invocations then invocations[id] else 0
    }

    predicate Recorded(key: Option<string>) {
      key.Some? && key.value in receipts
    }
  }

  const FRESH_SESSION := EffectState(map[], map[], false, 0)

  /** One invocation: the state it leaves and its answer. */
  ghost function InvokeStep<P>(registry: EffectRegistry, s: EffectState, request: EffectRequest<P>)
    : (EffectState, Result<EffectReceipt, SessionError>)
  {
    if s.stopped then (s, Err(Host(LocallyStopped)))
    else if request.descriptor !in registry then (s, Err(Contract(NotRegistered)))
    else
      var descriptor := registry[request.descriptor];
      match descriptor.Authorize(request)
      case Some(fault) => (s, Err(Contract(fault)))
      case None =>
        var count := s.Count(request.descriptor);
        if count >= descriptor.bounds.maxInvocations then
          (s.(invocations := s.invocations[request.descriptor := count]), Err(Contract(BoundExhausted)))
        else if s.Recorded(request.idempotenceKey) then
          (s.(invocations := s.invocations[request.descriptor := count]),
           Ok(s.receipts[request.idempotenceKey.value]))
        else
          var receipt := EffectReceipt(descriptor.receipt, descriptor.id, s.sequence + 1);
          (s.(invocations := s.invocations[request.descriptor := count + 1],
              sequence := s.sequence + 1,
              receipts := if request.idempotenceKey.Some?
                          then s.receipts[request.idempotenceKey.value := receipt] else s.receipts),
           Ok(receipt))
  }

  /** Deterministic effect session over registered effects. */
  class FakeEffectSession<P> {
    const registry: EffectRegistry
    var receipts: map<string, EffectReceipt>
    var invocations: map<Symbol, nat>
    var stopped: bool
    var sequence: nat

    ghost function State(): EffectState
      reads this
    {
      EffectState(receipts, invocations, stopped, sequence)
    }

    constructor (registry: EffectRegistry)
      ensures this.registry == registry
      ensures State() == FRESH_SESSION
    {
      this.registry := registry;
      receipts := map[];
      invocations := map[];
      stopped := false;
      sequence := 0;
    }

    method Start()
      modifies this
      ensures State() == old(State()).(stopped := false)
    {
      stopped := false;
    }

    method Stop()
      modifies this
      ensures State() == old(State()).(stopped := true)
    {
      stopped := true;
    }

    method Invoke(request: EffectRequest<P>) returns (r: Result<EffectReceipt, SessionError>)
      modifies this
      ensures (State(), r) == InvokeStep(registry, old(State()), request)
    {
      if stopped {
        return Err(Host(LocallyStopped));
      }
      if request.descriptor !in registry {
        return Err(Contract(NotRegistered));
      }
      var descriptor := registry[request.descriptor];
      var fault := descriptor.Authorize(request);
      if fault.Some? {
        return Err(Contract(fault.value));
      }
      if request.descriptor !in invocations {
        invocations := invocations[request.descriptor := 0];
      }
      var count := invocations[request.descriptor];
      assert invocations == old(invocations)[request.descriptor := count];
      if count >= descriptor.bounds.maxInvocations {
        return Err(Contract(BoundExhausted));
      }
      if request.idempotenceKey.Some? && request.idempotenceKey.value in receipts {
        return Ok(receipts[request.idempotenceKey.value]);
      }
      invocations := invocations[request.descriptor := count + 1];
      assert invocations == old(invocations)[request.descriptor := count + 1];
      sequence := sequence + 1;
      var receipt := EffectReceipt(descriptor.receipt, descriptor.id, sequence);
      if request.idempotenceKey.Some? {
        receipts := receipts[request.idempotenceKey.value := receipt];
      }
      return Ok(receipt);
    }
  }
}
