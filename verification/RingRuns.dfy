/** Whole runs of the process ring, through the FIFO it refines (src/ring.rs:77-122). */
module RingRuns {
  import opened Wrappers
  import opened Machine
  import opened ProcessRing

  datatype Op<T> = Push(item: T) | Pop | Close | Cancel

  ghost function Step<T>(f: Fifo<T>, op: Op<T>): Fifo<T> {
    match op
    case Push(item) => f.Push(item).0
    case Pop => f.Pop().0
    case Close => f.Close()
    case Cancel => f.Cancel()
  }

  /** The buffer a fresh ring holds after `ops`. */
  ghost function Reached<T>(capacity: nat, ops: seq<Op<T>>): Fifo<T> {
    if ops == [] then EmptyFifo(capacity)
    else Step(Reached(capacity, ops[..|ops| - 1]), ops[|ops| - 1])
  }

  // ---------------------------------------------------------------- logs of one step and of a run

  /** The item a step takes in, if any. */
  ghost function TakenIn<T>(f: Fifo<T>, op: Op<T>): seq<T> {
    if op.Push? && f.Push(op.item).1 == RingPush<T>.Accepted then [op.item] else []
  }

  /** The items a step takes out: the one popped, or all those a cancellation drains. */
  ghost function TakenOut<T>(f: Fifo<T>, op: Op<T>): seq<T> {
    match op
    case Pop => (match f.Pop().1 case Some(item) => [item] case None => [])
    case Cancel => f.items
    case _ => []
  }

  ghost function AcceptedLog<T>(capacity: nat, ops: seq<Op<T>>): seq<T> {
    if ops == [] then []
    else
      var init := ops[..|ops| - 1];
      AcceptedLog(capacity, init) + TakenIn(Reached(capacity, init), ops[|ops| - 1])
  }

  ghost function RemovedLog<T>(capacity: nat, ops: seq<Op<T>>): seq<T> {
    if ops == [] then []
    else
      var init := ops[..|ops| - 1];
      RemovedLog(capacity, init) + TakenOut(Reached(capacity, init), ops[|ops| - 1])
  }

  /** How many pushes of a run met a given answer. */
  datatype Tally = Tally(pushes: nat, dropped: nat, rejected: nat)

  ghost function Counting<T>(t: Tally, f: Fifo<T>, op: Op<T>): Tally {
    match op
    case Push(item) =>
      (match f.Push(item).1
       case Accepted => t.(pushes := t.pushes + 1)
       case DroppedNewest(_) => t.(pushes := t.pushes + 1, dropped := t.dropped + 1)
       case Closed(_) => t.(pushes := t.pushes + 1, rejected := t.rejected + 1))
    case _ => t
  }

  ghost function Count<T>(capacity: nat, ops: seq<Op<T>>): Tally {
    if ops == [] then Tally(0, 0, 0)
    else Counting(Count(capacity, ops[..|ops| - 1]), Reached(capacity, ops[..|ops| - 1]), ops[|ops| - 1])
  }

  // ---------------------------------------------------------------- draining

  function Clamp(n: nat): u64 {
    if n <= U64_MAX then n else U64_MAX
  }

  /** Draining empties the buffer, counts each item as yielded, and changes nothing else. */
  lemma {:induction false} DrainYieldsAll<T>(f: Fifo<T>, yielded: nat)
    requires f.stats.yielded == Clamp(yielded)
    ensures f.Drain() == f.(items := [], stats := f.stats.(yielded := Clamp(yielded + |f.items|)))
    decreases |f.items|
  {
    if f.items != [] {
      DrainYieldsAll(f.Pop().0, yielded + 1);
    }
  }

  /** After a cancellation the ring is empty, closed, and marked cancelled. */
  lemma CancelEmpties<T>(f: Fifo<T>)
    ensures f.Cancel().items == [] && f.Cancel().closed
    ensures f.Cancel().stats.closed && f.Cancel().stats.cancelled
    ensures f.Cancel().stats.yielded == Clamp(f.stats.yielded + |f.items|)
  {
    DrainYieldsAll(f, f.stats.yielded);
  }

  // ---------------------------------------------------------------- order

  lemma StepKeepsOrder<T>(f: Fifo<T>, op: Op<T>)
    ensures f.items + TakenIn(f, op) == TakenOut(f, op) + Step(f, op).items
    ensures Step(f, op).capacity == f.capacity
    ensures |f.items| <= f.capacity ==> |Step(f, op).items| <= f.capacity
  {
    if op.Cancel? {
      DrainYieldsAll(f, f.stats.yielded);
    }
  }

  /**
   * First in, first out, over every run and capacity: the items accepted are the
   * items removed followed by those still buffered, and the buffer never outgrows
   * its capacity.
   */
  lemma {:induction false} RunsAreFifo<T>(capacity: nat, ops: seq<Op<T>>)
    ensures AcceptedLog(capacity, ops) == RemovedLog(capacity, ops) + Reached(capacity, ops).items
    ensures Reached(capacity, ops).capacity == capacity
    ensures |Reached(capacity, ops).items| <= capacity
  {
    if ops != [] {
      var init, op := ops[..|ops| - 1], ops[|ops| - 1];
      var f := Reached(capacity, init);
      RunsAreFifo(capacity, init);
      StepKeepsOrder(f, op);
      Reassociate(RemovedLog(capacity, init), f.items, TakenIn(f, op), TakenOut(f, op), Step(f, op).items);
    }
  }

  lemma Reassociate<T>(a: seq<T>, b: seq<T>, c: seq<T>, d: seq<T>, e: seq<T>)
    requires b + c == d + e
    ensures a + b + c == a + d + e
  {
    assert a + b + c == a + (b + c) == a + (d + e) == a + d + e;
  }

  // ---------------------------------------------------------------- closing

  lemma {:induction false} ClosedStaysClosed<T>(capacity: nat, ops: seq<Op<T>>, i: nat)
    requires i <= |ops| && Reached(capacity, ops[..i]).closed
    ensures Reached(capacity, ops).closed
    ensures AcceptedLog(capacity, ops) == AcceptedLog(capacity, ops[..i])
    decreases |ops|
  {
    if i == |ops| {
      assert ops[..i] == ops;
    } else {
      var init := ops[..|ops| - 1];
      assert init[..i] == ops[..i];
      ClosedStaysClosed(capacity, init, i);
      CancelEmpties(Reached(capacity, init));
    }
  }

  /** Nothing is accepted after a close or a cancellation: every later push gets its item back. */
  lemma NothingAcceptedAfterClose<T>(capacity: nat, ops: seq<Op<T>>, i: nat, item: T)
    requires i < |ops| && (ops[i].Close? || ops[i].Cancel?)
    ensures AcceptedLog(capacity, ops) == AcceptedLog(capacity, ops[..i])
    ensures Reached(capacity, ops).Push(item).1 == Closed(item)
    ensures Reached(capacity, ops).Push(item).0.items == Reached(capacity, ops).items
  {
    assert ops[..i + 1][..i] == ops[..i];
    CancelEmpties(Reached(capacity, ops[..i]));
    ClosedStaysClosed(capacity, ops, i + 1);
  }

  /** Was the ring closed or cancelled along a run? */
  ghost predicate EverClosed<T>(ops: seq<Op<T>>) {
    exists i :: 0 <= i < |ops| && (ops[i].Close? || ops[i].Cancel?)
  }

  lemma EverClosedNext<T>(ops: seq<Op<T>>, op: Op<T>)
    ensures EverClosed(ops + [op]) <==> EverClosed(ops) || op.Close? || op.Cancel?
  {
    var all := ops + [op];
    assert all[|ops|] == op;
    if EverClosed(ops) {
      var i :| 0 <= i < |ops| && (ops[i].Close? || ops[i].Cancel?);
      assert all[i] == ops[i];
    }
  }

  lemma {:induction false} OpenUntilClosed<T>(capacity: nat, ops: seq<Op<T>>)
    ensures Reached(capacity, ops).closed <==> EverClosed(ops)
  {
    if ops != [] {
      var init, op := ops[..|ops| - 1], ops[|ops| - 1];
      OpenUntilClosed(capacity, init);
      EverClosedNext(init, op);
      CancelEmpties(Reached(capacity, init));
      assert ops == init + [op];
    }
  }

  /** A push is accepted iff no close or cancellation came before it and fewer items than slots are held. */
  lemma PushAcceptedExactly<T>(capacity: nat, ops: seq<Op<T>>, item: T)
    ensures Reached(capacity, ops).Push(item).1 == Accepted <==>
            && !EverClosed(ops)
            && |AcceptedLog(capacity, ops)| < |RemovedLog(capacity, ops)| + capacity
  {
    OpenUntilClosed(capacity, ops);
    RunsAreFifo(capacity, ops);
  }

  /**
   * Every push of a run answers in exactly one of three ways, and one that is not
   * accepted hands back the very item pushed and leaves the buffer alone.
   */
  lemma PushAnswersExactly<T>(capacity: nat, ops: seq<Op<T>>, item: T)
    ensures var f := Reached(capacity, ops);
            f.Push(item).1
              == if EverClosed(ops) then Closed(item)
                 else if |AcceptedLog(capacity, ops)| == |RemovedLog(capacity, ops)| + capacity then DroppedNewest(item)
                 else Accepted
    ensures Reached(capacity, ops).Push(item).0.items
         == Reached(capacity, ops).items
            + (if Reached(capacity, ops).Push(item).1 == Accepted then [item] else [])
  {
    OpenUntilClosed(capacity, ops);
    RunsAreFifo(capacity, ops);
  }

  /** Every pop of a run answers with the oldest accepted item not taken out yet, closed or not, and with none iff there is none. */
  lemma PopReturnsNextAccepted<T>(capacity: nat, ops: seq<Op<T>>)
    ensures var next := |RemovedLog(capacity, ops)|;
            Reached(capacity, ops).Pop().1
              == if next < |AcceptedLog(capacity, ops)| then Some(AcceptedLog(capacity, ops)[next]) else None
  {
    RunsAreFifo(capacity, ops);
  }

  /** The flags report whether the ring was ever closed or cancelled, and whether it was ever cancelled. */
  lemma {:induction false} FlagsTellHistory<T>(capacity: nat, ops: seq<Op<T>>)
    ensures Reached(capacity, ops).stats.closed <==> EverClosed(ops)
    ensures Reached(capacity, ops).stats.cancelled <==> exists i :: 0 <= i < |ops| && ops[i].Cancel?
  {
    if ops != [] {
      var init, op := ops[..|ops| - 1], ops[|ops| - 1];
      FlagsTellHistory(capacity, init);
      OpenUntilClosed(capacity, init);
      EverClosedNext(init, op);
      CancelEmpties(Reached(capacity, init));
      DrainYieldsAll(Reached(capacity, init), Reached(capacity, init).stats.yielded);
      assert ops == init + [op];
      if exists i :: 0 <= i < |ops| && ops[i].Cancel? {
        var i :| 0 <= i < |ops| && ops[i].Cancel?;
        assert i < |init| ==> init[i].Cancel?;
      }
      assert ops[|init|] == op && forall i :: 0 <= i < |init| ==> ops[i] == init[i];
    }
  }

  // ---------------------------------------------------------------- counters

  /** Do the saturating counters hold the given true counts, clamped to 64 bits? */
  ghost predicate Holds(stats: StreamStats, t: Tally, accepted: nat, removed: nat) {
    && stats.pushed == Clamp(t.pushes)
    && stats.accepted == Clamp(accepted)
    && stats.yielded == Clamp(removed)
    && stats.droppedNewest == Clamp(t.dropped)
    && t.pushes == accepted + t.dropped + t.rejected
  }

  lemma StepCounts<T>(f: Fifo<T>, op: Op<T>, t: Tally, accepted: nat, removed: nat)
    requires Holds(f.stats, t, accepted, removed)
    ensures Holds(Step(f, op).stats, Counting(t, f, op), accepted + |TakenIn(f, op)|, removed + |TakenOut(f, op)|)
  {
    if op.Cancel? {
      DrainYieldsAll(f, removed);
    }
  }

  /**
   * Over every run each counter is the true count clamped to 64 bits, and every push
   * was accepted, dropped or rejected.
   */
  lemma {:induction false} RunsAreCounted<T>(capacity: nat, ops: seq<Op<T>>)
    ensures Holds(Reached(capacity, ops).stats, Count(capacity, ops),
                  |AcceptedLog(capacity, ops)|, |RemovedLog(capacity, ops)|)
  {
    if ops != [] {
      var init, op := ops[..|ops| - 1], ops[|ops| - 1];
      RunsAreCounted(capacity, init);
      StepCounts(Reached(capacity, init), op, Count(capacity, init),
                 |AcceptedLog(capacity, init)|, |RemovedLog(capacity, init)|);
    }
  }

  /**
   * The counters satisfy accepted = yielded + len iff no more than 2^64 - 1 items
   * were ever accepted or the ring is empty.
   */
  lemma AcceptedIsYieldedPlusLenExactly<T>(capacity: nat, ops: seq<Op<T>>)
    ensures var f := Reached(capacity, ops);
            f.stats.accepted == f.stats.yielded + |f.items|
            <==> |AcceptedLog(capacity, ops)| <= U64_MAX || f.items == []
  {
    RunsAreFifo(capacity, ops);
    RunsAreCounted(capacity, ops);
  }

  lemma {:induction false} DropsNeedAcceptance<T>(capacity: nat, ops: seq<Op<T>>)
    requires capacity > 0
    ensures Count(capacity, ops).dropped > 0 ==> AcceptedLog(capacity, ops) != []
  {
    if ops != [] {
      DropsNeedAcceptance(capacity, ops[..|ops| - 1]);
      RunsAreFifo(capacity, ops[..|ops| - 1]);
    }
  }

  /**
   * The counters satisfy pushed = accepted + dropped + rejected iff no more than
   * 2^64 - 1 pushes were made or every push was accepted.
   */
  lemma PushedIsAccountedExactly<T>(capacity: nat, ops: seq<Op<T>>)
    requires capacity > 0
    ensures var stats, tally := Reached(capacity, ops).stats, Count(capacity, ops);
            stats.pushed == stats.accepted + stats.droppedNewest + tally.rejected
            <==> tally.pushes <= U64_MAX || (tally.dropped == 0 && tally.rejected == 0)
  {
    RunsAreCounted(capacity, ops);
    DropsNeedAcceptance(capacity, ops);
  }
}
