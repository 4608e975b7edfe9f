/** Properties of whole runs of an effect session (src/device.rs:465-543). */
module EffectRuns {
  import opened Wrappers
  import opened Sequences
  import opened DeviceEffects

  datatype Op<P> = Start | Stop | Poll | Invoke(request: EffectRequest<P>)

  /** The state one operation leaves. */
  ghost function Step<P>(registry: EffectRegistry, s: EffectState, op: Op<P>): EffectState {
    match op
    case Start => s.(stopped := false)
    case Stop => s.(stopped := true)
    case Poll => s
    case Invoke(request) => InvokeStep(registry, s, request).0
  }

  /** The state a fresh session reaches by `ops`. */
  ghost function Reached<P>(registry: EffectRegistry, ops: seq<Op<P>>): EffectState {
    if ops == [] then FRESH_SESSION
    else Step(registry, Reached(registry, ops[..|ops| - 1]), ops[|ops| - 1])
  }

  /** The answer to invocation `i` of a run. */
  ghost function Answer<P>(registry: EffectRegistry, ops: seq<Op<P>>, i: nat)
    : Result<EffectReceipt, SessionError>
    requires i < |ops| && ops[i].Invoke?
  {
    InvokeStep(registry, Reached(registry, ops[..i]), ops[i].request).1
  }

  /** Does operation `i` succeed as an invocation carrying `key`? */
  ghost predicate SucceedsWithKey<P>(registry: EffectRegistry, ops: seq<Op<P>>, i: nat, key: string) {
    i < |ops| && ops[i].Invoke? && ops[i].request.idempotenceKey == Some(key) && Answer(registry, ops, i).Ok?
  }

  // ---------------------------------------------------------------- sums over maps

  ghost function Sum<K(!new)>(m: map<K, nat>): nat {
    if m == map[] then 0
    else
      var k :| k in m;
      m[k] + Sum(m - {k})
  }

  lemma {:induction false} SumWithout<K(!new)>(m: map<K, nat>, k: K)
    requires k in m
    ensures Sum(m) == m[k] + Sum(m - {k})
    decreases |m|
  {
    var j :| j in m && Sum(m) == m[j] + Sum(m - {j});
    if j != k {
      assert |m - {j}| < |m| && |m - {k}| < |m| by {
        assert (m - {j}).Keys == m.Keys - {j} && (m - {k}).Keys == m.Keys - {k};
        assert |m.Keys| == |m| && |(m - {j}).Keys| == |m - {j}| && |(m - {k}).Keys| == |m - {k}|;
      }
      SumWithout(m - {j}, k);
      SumWithout(m - {k}, j);
      assert m - {j} - {k} == m - {k} - {j};
    }
  }

  /** Setting one entry changes the sum by the difference it makes. */
  lemma SumUpdate<K(!new)>(m: map<K, nat>, k: K, v: nat)
    ensures Sum(m[k := v]) + (if k in m then m[k] else 0) == Sum(m) + v
  {
    SumWithout(m[k := v], k);
    assert m[k := v] - {k} == m - {k};
    if k in m {
      SumWithout(m, k);
    } else {
      assert m - {k} == m;
    }
  }

  // ---------------------------------------------------------------- accounting

  ghost predicate Numbered(s: EffectState) {
    && (forall k :: k in s.receipts ==> 1 <= s.receipts[k].sequence <= s.sequence)
    && (forall k, l :: k in s.receipts && l in s.receipts && s.receipts[k].sequence == s.receipts[l].sequence
                       ==> k == l)
  }

  ghost predicate WithinBounds(registry: EffectRegistry, s: EffectState) {
    forall id :: id in s.invocations ==>
      id in registry && s.invocations[id] <= registry[id].bounds.maxInvocations
  }

  /** What every reachable state satisfies. */
  ghost predicate Accounted(registry: EffectRegistry, s: EffectState) {
    s.sequence == Sum(s.invocations) && WithinBounds(registry, s) && Numbered(s)
  }

  lemma InvokeKeepsSum<P>(registry: EffectRegistry, s: EffectState, request: EffectRequest<P>)
    requires s.sequence == Sum(s.invocations)
    ensures var after := InvokeStep(registry, s, request).0;
            after.sequence == Sum(after.invocations)
  {
    var id := request.descriptor;
    SumUpdate(s.invocations, id, s.Count(id));
    SumUpdate(s.invocations, id, s.Count(id) + 1);
  }

  lemma InvokeKeepsNumbering<P>(registry: EffectRegistry, s: EffectState, request: EffectRequest<P>)
    requires Numbered(s)
    ensures Numbered(InvokeStep(registry, s, request).0)
  {
  }

  lemma InvokeKeepsBounds<P>(registry: EffectRegistry, s: EffectState, request: EffectRequest<P>)
    requires WithinBounds(registry, s)
    ensures WithinBounds(registry, InvokeStep(registry, s, request).0)
  {
  }

  lemma StepKeepsAccounts<P>(registry: EffectRegistry, s: EffectState, op: Op<P>)
    requires Accounted(registry, s)
    ensures Accounted(registry, Step(registry, s, op))
  {
    if op.Invoke? {
      InvokeKeepsSum(registry, s, op.request);
      InvokeKeepsNumbering(registry, s, op.request);
      InvokeKeepsBounds(registry, s, op.request);
    }
  }

  /**
   * Over every run: the sequence number is the total of all invocation counts, no
   * count exceeds its effect's bound, and receipts under different keys carry
   * different sequence numbers.
   */
  lemma {:induction false} RunsAreAccounted<P>(registry: EffectRegistry, ops: seq<Op<P>>)
    ensures Accounted(registry, Reached(registry, ops))
  {
    if ops != [] {
      RunsAreAccounted(registry, ops[..|ops| - 1]);
      StepKeepsAccounts(registry, Reached(registry, ops[..|ops| - 1]), ops[|ops| - 1]);
    }
  }

  // ---------------------------------------------------------------- what leaves no trace

  /** Do two states agree on everything but whether unused counts are present? */
  ghost predicate Same(s: EffectState, t: EffectState) {
    && s.receipts == t.receipts && s.sequence == t.sequence && s.stopped == t.stopped
    && forall id :: s.Count(id) == t.Count(id)
  }

  /** Does operation `op` issue a new receipt in state `s`? */
  ghost predicate Issues<P>(registry: EffectRegistry, s: EffectState, op: Op<P>) {
    op.Invoke? && InvokeStep(registry, s, op.request).1.Ok? && !s.Recorded(op.request.idempotenceKey)
  }

  /** A run without the invocations that failed or were answered from a recorded receipt. */
  ghost function Effective<P>(registry: EffectRegistry, ops: seq<Op<P>>): seq<Op<P>> {
    if ops == [] then []
    else
      var init, last := ops[..|ops| - 1], ops[|ops| - 1];
      if last.Invoke? && !Issues(registry, Reached(registry, init), last) then Effective(registry, init)
      else Effective(registry, init) + [last]
  }

  lemma StepRespectsSame<P>(registry: EffectRegistry, s: EffectState, t: EffectState, op: Op<P>)
    requires Same(s, t)
    ensures Same(Step(registry, s, op), Step(registry, t, op))
    ensures Issues(registry, s, op) == Issues(registry, t, op)
  {
    if op.Invoke? {
      assert s.Count(op.request.descriptor) == t.Count(op.request.descriptor);
      if Issues(registry, s, op) {
        FreshReceiptContents(registry, s, op.request);
        FreshReceiptContents(registry, t, op.request);
      } else {
        QuietStep(registry, s, op);
        QuietStep(registry, t, op);
      }
    }
    forall id
      ensures Step(registry, s, op).Count(id) == Step(registry, t, op).Count(id)
    {
      assert s.Count(id) == t.Count(id);
    }
  }

  /**
   * Failed and deduplicated invocations leave no trace: dropping them all from a run
   * leads to the same receipts, numbers and counts.
   */
  lemma {:induction false} OnlyIssuesLeaveTraces<P>(registry: EffectRegistry, ops: seq<Op<P>>)
    ensures Same(Reached(registry, ops), Reached(registry, Effective(registry, ops)))
  {
    if ops != [] {
      var init, last := ops[..|ops| - 1], ops[|ops| - 1];
      var kept := Effective(registry, init);
      OnlyIssuesLeaveTraces(registry, init);
      if last.Invoke? && !Issues(registry, Reached(registry, init), last) {
        assert Same(Step(registry, Reached(registry, init), last), Reached(registry, init));
      } else {
        assert (kept + [last])[..|kept|] == kept;
        StepRespectsSame(registry, Reached(registry, init), Reached(registry, kept), last);
      }
    }
  }

  /** From a stop to the next start, if any, every invocation is refused and nothing changes. */
  lemma {:induction false} StoppedIsInert<P>(registry: EffectRegistry, ops: seq<Op<P>>, i: nat)
    requires i < |ops| && ops[i].Stop? && forall j :: i < j < |ops| ==> !ops[j].Start?
    ensures Reached(registry, ops) == Reached(registry, ops[..i + 1]) && Reached(registry, ops).stopped
    ensures forall request: EffectRequest<P> ::
              InvokeStep(registry, Reached(registry, ops), request)
                == (Reached(registry, ops), Err(Host(LocallyStopped)))
    decreases |ops|
  {
    if i + 1 == |ops| {
      assert ops[..i + 1] == ops;
    } else {
      var init := ops[..|ops| - 1];
      assert init[..i + 1] == ops[..i + 1];
      StoppedIsInert(registry, init, i);
    }
  }

  // ---------------------------------------------------------------- numbering of fresh receipts

  /** The receipts newly issued along a run, in order. */
  ghost function Issued<P>(registry: EffectRegistry, ops: seq<Op<P>>): seq<EffectReceipt> {
    if ops == [] then []
    else
      var init, last := ops[..|ops| - 1], ops[|ops| - 1];
      if Issues(registry, Reached(registry, init), last)
      then Issued(registry, init) + [InvokeStep(registry, Reached(registry, init), last.request).1.value]
      else Issued(registry, init)
  }

  ghost function Names(id: Symbol): EffectReceipt -> bool {
    (r: EffectReceipt) => r.descriptor == id
  }

  /** A fresh success carries the requested effect, its registered kind and the next number. */
  lemma FreshReceiptContents<P>(registry: EffectRegistry, s: EffectState, request: EffectRequest<P>)
    requires Issues(registry, s, Invoke(request))
    ensures request.descriptor in registry
    ensures var (after, r) := InvokeStep(registry, s, request);
            && r.value == EffectReceipt(registry[request.descriptor].receipt, request.descriptor, s.sequence + 1)
            && after.sequence == s.sequence + 1
            && forall id :: after.Count(id) == s.Count(id) + (if id == request.descriptor then 1 else 0)
  {
  }

  lemma QuietStep<P>(registry: EffectRegistry, s: EffectState, op: Op<P>)
    requires !Issues(registry, s, op)
    ensures Step(registry, s, op).sequence == s.sequence
    ensures forall id :: Step(registry, s, op).Count(id) == s.Count(id)
  {
  }

  /**
   * Receipts issued along a run are numbered 1, 2, 3, ... without gaps up to the
   * session's sequence, each of its effect's registered kind.
   */
  lemma {:induction false} IssuedAreConsecutive<P>(registry: EffectRegistry, ops: seq<Op<P>>)
    ensures |Issued(registry, ops)| == Reached(registry, ops).sequence
    ensures forall n :: 0 <= n < |Issued(registry, ops)| ==>
              var r := Issued(registry, ops)[n];
              r.sequence == n + 1 && r.descriptor in registry && r.kind == registry[r.descriptor].receipt
  {
    if ops != [] {
      var before, last := Reached(registry, ops[..|ops| - 1]), ops[|ops| - 1];
      IssuedAreConsecutive(registry, ops[..|ops| - 1]);
      if Issues(registry, before, last) {
        FreshReceiptContents(registry, before, last.request);
      } else {
        QuietStep(registry, before, last);
      }
    }
  }

  /** The invocations charged to an effect are exactly the receipts issued for it. */
  lemma {:induction false} CountsAreReceiptsIssued<P>(registry: EffectRegistry, ops: seq<Op<P>>, id: Symbol)
    ensures Reached(registry, ops).Count(id) == |Filter(Issued(registry, ops), Names(id))|
  {
    if ops != [] {
      var init, last := ops[..|ops| - 1], ops[|ops| - 1];
      var before := Reached(registry, init);
      CountsAreReceiptsIssued(registry, init, id);
      if Issues(registry, before, last) {
        var receipt := InvokeStep(registry, before, last.request).1.value;
        FreshReceiptContents(registry, before, last.request);
        FilterConcat(Issued(registry, init), [receipt], Names(id));
        FilterOne(receipt, Names(id));
      } else {
        QuietStep(registry, before, last);
      }
    }
  }

  // ---------------------------------------------------------------- authority

  /** Everything a complete descriptor demands of a request. */
  ghost predicate Entitled<P>(d: EffectDescriptor, request: EffectRequest<P>) {
    && request.descriptor == d.id
    && d.capability in request.grants
    && (d.requiresArm ==> request.arm.Some? && request.arm.value != "")
    && request.armedAtMs <= request.invokedAtMs
    && request.invokedAtMs * 1_000_000 <= request.armedAtMs * 1_000_000 + d.expiresAfter
    && (d.idempotence == Keyed ==> request.idempotenceKey.Some? && request.idempotenceKey.value != "")
    && request.payloadBytes <= d.bounds.maxRequestBytes
  }

  /** Is every registered descriptor complete and filed under its own identity? */
  ghost predicate Checked(registry: EffectRegistry) {
    forall id :: id in registry ==>
      Complete(registry[id]) && registry[id].reversal != Reverse(id) && registry[id].id == id
  }

  /** What the registry constructor accepts is checked. */
  lemma IndexedIsChecked(registry: EffectRegistry, ds: seq<EffectDescriptor>)
    requires Indexes(registry, ds) && AllValid(ds)
    ensures Checked(registry)
  {
    forall id | id in registry
      ensures Complete(registry[id]) && registry[id].reversal != Reverse(id) && registry[id].id == id
    {
      var i :| 0 <= i < |ds| && ds[i] == registry[id];
    }
  }

  /** One invocation succeeds iff the session runs and the request is entitled to an effect not used up. */
  lemma StepSucceedsExactly<P>(registry: EffectRegistry, s: EffectState, request: EffectRequest<P>)
    requires Checked(registry)
    ensures InvokeStep(registry, s, request).1.Ok? <==>
            && !s.stopped && request.descriptor in registry
            && Entitled(registry[request.descriptor], request)
            && s.Count(request.descriptor) < registry[request.descriptor].bounds.maxInvocations
  {
    if request.descriptor in registry {
      assert Complete(registry[request.descriptor]);
    }
  }

  /** Was the last start or stop of a run a stop? */
  ghost predicate EndsStopped<P>(ops: seq<Op<P>>) {
    exists k :: 0 <= k < |ops| && ops[k].Stop? && forall j :: k < j < |ops| ==> !ops[j].Start?
  }

  lemma {:induction false} StoppedExactly<P>(registry: EffectRegistry, ops: seq<Op<P>>)
    ensures Reached(registry, ops).stopped <==> EndsStopped(ops)
  {
    if ops != [] {
      var init, last := ops[..|ops| - 1], ops[|ops| - 1];
      StoppedExactly(registry, init);
      EndsStoppedNext(init, last);
      assert ops == init + [last];
    }
  }

  lemma EndsStoppedNext<P>(ops: seq<Op<P>>, op: Op<P>)
    ensures EndsStopped(ops + [op]) <==> op.Stop? || (!op.Start? && EndsStopped(ops))
  {
    var all := ops + [op];
    if op.Stop? {
      assert all[|ops|].Stop?;
    } else if !op.Start? && EndsStopped(ops) {
      var k :| 0 <= k < |ops| && ops[k].Stop? && forall j :: k < j < |ops| ==> !ops[j].Start?;
      assert all[k].Stop? && forall j :: k < j < |all| ==> !all[j].Start?;
    }
    if EndsStopped(all) {
      var k :| 0 <= k < |all| && all[k].Stop? && forall j :: k < j < |all| ==> !all[j].Start?;
      if k < |ops| {
        assert ops[k].Stop? && forall j :: k < j < |ops| ==> ops[j] == all[j];
      }
      assert all[|ops|] == op;
    }
  }

  /**
   * For a session over accepted descriptors, in terms of the run alone: an invocation
   * succeeds iff the last start or stop before it was no stop, and some descriptor
   * entitles the request and has had fewer receipts issued than its bound.
   */
  lemma InvokeSucceedsExactly<P>(registry: EffectRegistry, ds: seq<EffectDescriptor>, ops: seq<Op<P>>, i: nat)
    requires Indexes(registry, ds) && AllValid(ds) && i < |ops| && ops[i].Invoke?
    ensures Answer(registry, ops, i).Ok? <==>
            && !EndsStopped(ops[..i])
            && exists d :: d in ds && Entitled(d, ops[i].request)
                 && |Filter(Issued(registry, ops[..i]), Names(d.id))| < d.bounds.maxInvocations
  {
    var request := ops[i].request;
    IndexedIsChecked(registry, ds);
    StepSucceedsExactly(registry, Reached(registry, ops[..i]), request);
    StoppedExactly(registry, ops[..i]);
    CountsAreReceiptsIssued(registry, ops[..i], request.descriptor);
    EntitlingDescriptor(registry, ds, request);
  }

  /** Does a request break the demand a fault stands for? */
  ghost predicate Breaks<P>(d: EffectDescriptor, request: EffectRequest<P>, fault: ContractFault) {
    match fault
    case Forged => request.descriptor != d.id
    case MissingCapability => d.capability !in request.grants
    case NotArmed => d.requiresArm && (request.arm == None || request.arm == Some(""))
    case ArmExpired =>
      || request.invokedAtMs < request.armedAtMs
      || request.invokedAtMs * 1_000_000 > request.armedAtMs * 1_000_000 + d.expiresAfter
    case NoIdempotenceKey =>
      d.idempotence == Keyed && (request.idempotenceKey == None || request.idempotenceKey == Some(""))
    case TooLarge => request.payloadBytes > d.bounds.maxRequestBytes
    case _ => false
  }

  /** The demands on a request in the order they are checked. */
  const CHECKS := [Forged, MissingCapability, NotArmed, ArmExpired, NoIdempotenceKey, TooLarge]

  /** The fault a complete descriptor answers with is the first demand, in checking order, the request breaks. */
  lemma AuthorizeNamesFirstFault<P>(d: EffectDescriptor, request: EffectRequest<P>)
    requires Complete(d) && d.reversal != Reverse(d.id)
    ensures match d.Authorize(request)
            case None => Entitled(d, request)
            case Some(fault) => exists i :: 0 <= i < |CHECKS| && CHECKS[i] == fault && Breaks(d, request, CHECKS[i])
                                            && forall j :: 0 <= j < i ==> !Breaks(d, request, CHECKS[j])
  {
    match d.Authorize(request) {
      case None =>
      case Some(fault) =>
        var i := Check(fault);
        assert CHECKS[i] == fault && Breaks(d, request, CHECKS[i]);
        assert !Breaks(d, request, CHECKS[0]) || i == 0;
        assert !Breaks(d, request, CHECKS[1]) || i <= 1;
        assert !Breaks(d, request, CHECKS[2]) || i <= 2;
        assert !Breaks(d, request, CHECKS[3]) || i <= 3;
        assert !Breaks(d, request, CHECKS[4]) || i <= 4;
    }
  }

  ghost function Check(fault: ContractFault): nat {
    match fault
    case Forged => 0
    case MissingCapability => 1
    case NotArmed => 2
    case ArmExpired => 3
    case NoIdempotenceKey => 4
    case _ => 5
  }

  /**
   * Why an invocation is refused, over every run of a session with accepted descriptors:
   * the session is stopped; else no descriptor has the requested identity; else its
   * descriptor does not entitle the request; else all its invocations are used up.
   */
  lemma RefusalNamesReason<P>(registry: EffectRegistry, ds: seq<EffectDescriptor>, ops: seq<Op<P>>, i: nat)
    requires Indexes(registry, ds) && AllValid(ds) && i < |ops| && ops[i].Invoke?
    requires Answer(registry, ops, i).Err?
    ensures var error, request := Answer(registry, ops, i).error, ops[i].request;
            if EndsStopped(ops[..i]) then error == Host(LocallyStopped)
            else if forall d :: d in ds ==> d.id != request.descriptor then error == Contract(NotRegistered)
            else exists d :: d in ds && d.id == request.descriptor
                   && if Entitled(d, request)
                      then error == Contract(BoundExhausted)
                           && |Filter(Issued(registry, ops[..i]), Names(d.id))| >= d.bounds.maxInvocations
                      else d.Authorize(request).Some? && error == Contract(d.Authorize(request).value)
  {
    var request := ops[i].request;
    IndexedIsChecked(registry, ds);
    StoppedExactly(registry, ops[..i]);
    if request.descriptor in registry {
      var d := registry[request.descriptor];
      assert d in ds && d.id == request.descriptor;
      AuthorizeNamesFirstFault(d, request);
      CountsAreReceiptsIssued(registry, ops[..i], request.descriptor);
      StepSucceedsExactly(registry, Reached(registry, ops[..i]), request);
    }
  }

  /** Only the descriptor registered under the requested identity can entitle a request. */
  lemma EntitlingDescriptor<P>(registry: EffectRegistry, ds: seq<EffectDescriptor>, request: EffectRequest<P>)
    requires Indexes(registry, ds)
    ensures forall d :: d in ds && Entitled(d, request) ==>
              request.descriptor in registry && d == registry[request.descriptor]
    ensures request.descriptor in registry ==> registry[request.descriptor] in ds
  {
  }

  // ---------------------------------------------------------------- keyed deduplication

  lemma {:induction false} ReceiptsPersist<P>(registry: EffectRegistry, ops: seq<Op<P>>, i: nat, key: string)
    requires i <= |ops| && key in Reached(registry, ops[..i]).receipts
    ensures key in Reached(registry, ops).receipts
    ensures Reached(registry, ops).receipts[key] == Reached(registry, ops[..i]).receipts[key]
    decreases |ops|
  {
    if i == |ops| {
      assert ops[..i] == ops;
    } else {
      var init := ops[..|ops| - 1];
      assert init[..i] == ops[..i];
      ReceiptsPersist(registry, init, i, key);
    }
  }

  lemma SuccessIsRecorded<P>(registry: EffectRegistry, ops: seq<Op<P>>, i: nat, key: string)
    requires SucceedsWithKey(registry, ops, i, key)
    ensures key in Reached(registry, ops[..i + 1]).receipts
    ensures Reached(registry, ops[..i + 1]).receipts[key] == Answer(registry, ops, i).value
  {
    assert ops[..i + 1][..i] == ops[..i];
  }

  /**
   * Keyed at-most-once, across stops and restarts: any two successes with one key
   * return the same receipt, and the later one charges no count, issues no number
   * and records nothing - whichever effect it names.
   */
  lemma KeyedAtMostOnce<P>(registry: EffectRegistry, ops: seq<Op<P>>, i: nat, j: nat, key: string)
    requires i < j && SucceedsWithKey(registry, ops, i, key) && SucceedsWithKey(registry, ops, j, key)
    ensures Answer(registry, ops, j) == Answer(registry, ops, i)
    ensures var before, after := Reached(registry, ops[..j]), Reached(registry, ops[..j + 1]);
            && after.sequence == before.sequence && after.receipts == before.receipts
            && forall id :: after.Count(id) == before.Count(id)
  {
    SuccessIsRecorded(registry, ops, i, key);
    assert ops[..j][..i + 1] == ops[..i + 1];
    ReceiptsPersist(registry, ops[..j], i + 1, key);
    assert ops[..j + 1][..j] == ops[..j];
  }

  // ---------------------------------------------------------------- where deduplication stops short

  /**
   * The bound is checked before the recorded receipts are: once a key has succeeded, a
   * later entitled invocation with it in a running session returns the same receipt
   * iff the effect it names still has invocations left.
   */
  lemma RetryReturnsReceiptExactly<P>(registry: EffectRegistry, ops: seq<Op<P>>, i: nat, j: nat, key: string)
    requires i < j < |ops| && SucceedsWithKey(registry, ops, i, key)
    requires ops[j].Invoke? && ops[j].request.idempotenceKey == Some(key)
    requires !Reached(registry, ops[..j]).stopped && ops[j].request.descriptor in registry
    requires registry[ops[j].request.descriptor].Authorize(ops[j].request).None?
    ensures var id := ops[j].request.descriptor;
            Answer(registry, ops, j) == Answer(registry, ops, i)
            <==> Reached(registry, ops[..j]).Count(id) < registry[id].bounds.maxInvocations
  {
    SuccessIsRecorded(registry, ops, i, key);
    assert ops[..j][..i + 1] == ops[..i + 1];
    ReceiptsPersist(registry, ops[..j], i + 1, key);
  }

  /**
   * Keys are shared by all effects of a session: a later success with a key names the
   * effect it asked for iff the key was issued for that same effect.
   */
  lemma ReceiptNamesRequestExactly<P>(registry: EffectRegistry, ops: seq<Op<P>>, i: nat, j: nat, key: string)
    requires i < j && SucceedsWithKey(registry, ops, i, key) && SucceedsWithKey(registry, ops, j, key)
    requires Issues(registry, Reached(registry, ops[..i]), ops[i])
    ensures Answer(registry, ops, j).value.descriptor == ops[j].request.descriptor
            <==> ops[i].request.descriptor == ops[j].request.descriptor
  {
    KeyedAtMostOnce(registry, ops, i, j, key);
    FreshReceiptContents(registry, Reached(registry, ops[..i]), ops[i].request);
  }

  function SampleDescriptor(name: string, bound: nat): EffectDescriptor {
    EffectDescriptor(
      Symbol("device/effect", name), Symbol("shape", "s"), "grant", EffectBounds(1, bound), false, 1,
      Symbol("receipt", name), Keyed, Irreversible, Symbol("device/effect", "stop"))
  }

  function SampleRequest(name: string): EffectRequest<bool> {
    EffectRequest(Symbol("device/effect", name), true, 1, None, Some("k"), ["grant"], 0, 0)
  }

  /** With a bound of one, the retry of a successful keyed invocation is refused. */
  lemma RetryAfterLastInvocationFails()
    ensures var d := SampleDescriptor("a", 1);
            var registry := map[d.id := d];
            var ops := [Invoke(SampleRequest("a")), Invoke(SampleRequest("a"))];
            && Answer(registry, ops, 0).Ok?
            && Answer(registry, ops, 1) == Err(Contract(BoundExhausted))
  {
    var d := SampleDescriptor("a", 1);
    var registry := map[d.id := d];
    var ops := [Invoke(SampleRequest("a")), Invoke(SampleRequest("a"))];
    assert ops[..0] == [] && ops[..1] == [ops[0]] && ops[..1][..0] == [];
    assert Reached(registry, ops[..1]) == Step(registry, FRESH_SESSION, ops[0]);
  }

  /** Reusing a key for a second effect returns the first effect's receipt. */
  lemma KeyReuseReturnsOtherReceipt()
    ensures var a, b := SampleDescriptor("a", 2), SampleDescriptor("b", 2);
            var registry := map[a.id := a, b.id := b];
            var ops := [Invoke(SampleRequest("a")), Invoke(SampleRequest("b"))];
            && Answer(registry, ops, 1).Ok?
            && Answer(registry, ops, 1).value.descriptor == a.id != b.id
  {
    var a, b := SampleDescriptor("a", 2), SampleDescriptor("b", 2);
    var registry := map[a.id := a, b.id := b];
    var ops := [Invoke(SampleRequest("a")), Invoke(SampleRequest("b"))];
    assert ops[..0] == [] && ops[..1] == [ops[0]] && ops[..1][..0] == [];
    assert "a"[0] != "b"[0];
    assert Reached(registry, ops[..1]) == Step(registry, FRESH_SESSION, ops[0]);
  }
}
