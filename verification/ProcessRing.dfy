/** A circular buffer of fixed capacity, with close, cancel and counters (src/ring.rs). */
module ProcessRing {
  import opened Wrappers
  import opened Machine

  datatype RingPush<T> = Accepted | DroppedNewest(item: T) | Closed(item: T)

  datatype RingError = ZeroCapacity

  /** The running counters the ring keeps. */
  datatype StreamStats = StreamStats(
    pushed: u64, accepted: u64, yielded: u64, droppedNewest: u64, closed: bool, cancelled: bool)

  const ZERO_STATS := StreamStats(0, 0, 0, 0, false, false)

  function Bump(n: u64): u64 {
    SaturatingAdd(n, 1, U64_MAX)
  }

  // ---------------------------------------------------------------- the bounded FIFO it refines

  /** A bounded first-in first-out buffer with its counters. */
  datatype Fifo<T> = Fifo(capacity: nat, items: seq<T>, closed: bool, stats: StreamStats) {

    function Push(item: T): (Fifo<T>, RingPush<T>) {
      var counted := stats.(pushed := Bump(stats.pushed));
      if closed then (this.(stats := counted.(closed := true)), Closed(item))
      else if |items| == capacity then
        (this.(stats := counted.(droppedNewest := Bump(stats.droppedNewest))), DroppedNewest(item))
      else
        (this.(items := items + [item], stats := counted.(accepted := Bump(stats.accepted))), Accepted)
    }

    function Pop(): (Fifo<T>, Option<T>) {
      if items == [] then (this, None)
      else (this.(items := items[1..], stats := stats.(yielded := Bump(stats.yielded))), Some(items[0]))
    }

    function Close(): Fifo<T> {
      this.(closed := true, stats := stats.(closed := true))
    }

    /** Pops until empty. */
    function Drain(): Fifo<T>
      decreases |items|
    {
      if items == [] then this else Pop().0.Drain()
    }

    function Cancel(): Fifo<T> {
      var drained := Drain();
      drained.(closed := true, stats := drained.stats.(closed := true, cancelled := true))
    }
  }

  function EmptyFifo<T>(capacity: nat): Fifo<T> {
    Fifo(capacity, [], false, ZERO_STATS)
  }

  // ---------------------------------------------------------------- positions in the ring

  /** Slot `i` places after `head` in a ring of `n` slots. */
  function Slot(head: nat, i: nat, n: nat): nat
    requires n > 0
  {
    (head + i) % n
  }

  lemma ModBelow(x: nat, n: nat)
    requires x < n
    ensures x % n == x
  {
  }

  lemma ModOnceAround(x: nat, n: nat)
    requires n <= x < 2 * n
    ensures x % n == x - n
  {
    assert x == 1 * n + (x - n);
  }

  lemma SlotUnwrapped(head: nat, i: nat, n: nat)
    requires head < n && i <= n
    ensures Slot(head, i, n) == if head + i < n then head + i else head + i - n
  {
    var x := head + i;
    if x < n {
      ModBelow(x, n);
    } else {
      ModOnceAround(x, n);
    }
  }

  /** Distinct places of the window are distinct slots. */
  lemma SlotsDiffer(head: nat, i: nat, j: nat, n: nat)
    requires head < n && i < j < n
    ensures Slot(head, i, n) != Slot(head, j, n)
  {
    SlotUnwrapped(head, i, n);
    SlotUnwrapped(head, j, n);
  }

  /** Moving the head on by one shifts every place by one. */
  lemma SlotShift(head: nat, i: nat, n: nat)
    requires head < n && i < n
    ensures Slot(head, 1, n) < n
    ensures Slot(Slot(head, 1, n), i, n) == Slot(head, i + 1, n)
  {
    SlotUnwrapped(head, 1, n);
    SlotUnwrapped(head, i + 1, n);
    SlotUnwrapped(Slot(head, 1, n), i, n);
  }

  /** Every slot is some place counted from the head. */
  lemma SlotPlace(head: nat, s: nat, n: nat) returns (i: nat)
    requires head < n && s < n
    ensures i < n && Slot(head, i, n) == s
  {
    i := if s >= head then s - head else s + n - head;
    SlotUnwrapped(head, i, n);
  }

  // ---------------------------------------------------------------- window contents

  /** Are exactly the `len` slots from `head` on occupied? */
  ghost predicate WindowOccupied<T>(slots: seq<Option<T>>, head: nat, len: nat) {
    && 0 < |slots| && head < |slots| && len <= |slots|
    && (forall i :: 0 <= i < len ==> slots[Slot(head, i, |slots|)].Some?)
    && (forall i :: len <= i < |slots| ==> slots[Slot(head, i, |slots|)].None?)
  }

  ghost function Window<T>(slots: seq<Option<T>>, head: nat, len: nat): seq<T>
    requires WindowOccupied(slots, head, len)
  {
    seq(len, i requires 0 <= i < len => slots[Slot(head, i, |slots|)].value)
  }

  /** Slots outside the window are empty. */
  lemma OutsideWindowIsEmpty<T>(slots: seq<Option<T>>, head: nat, len: nat, s: nat)
    requires WindowOccupied(slots, head, len) && s < |slots|
    ensures slots[s].Some? <==> exists i :: 0 <= i < len && Slot(head, i, |slots|) == s
  {
    var i := SlotPlace(head, s, |slots|);
    if slots[s].Some? {
      assert i < len;
    }
  }

  lemma WindowAfterPush<T>(slots: seq<Option<T>>, head: nat, len: nat, item: T)
    requires WindowOccupied(slots, head, len) && len < |slots|
    ensures var tail := Slot(head, len, |slots|);
            var filled := slots[tail := Some(item)];
            && WindowOccupied(filled, head, len + 1)
            && Window(filled, head, len + 1) == Window(slots, head, len) + [item]
  {
    var n, tail := |slots|, Slot(head, len, |slots|);
    var filled := slots[tail := Some(item)];
    forall i | 0 <= i < n && i != len
      ensures filled[Slot(head, i, n)] == slots[Slot(head, i, n)]
    {
      if i < len {
        SlotsDiffer(head, i, len, n);
      } else {
        SlotsDiffer(head, len, i, n);
      }
    }
    assert forall i :: 0 <= i < len ==> filled[Slot(head, i, n)] == slots[Slot(head, i, n)];
  }

  lemma WindowAfterPop<T>(slots: seq<Option<T>>, head: nat, len: nat)
    requires WindowOccupied(slots, head, len) && len > 0
    ensures slots[head].Some? && slots[head].value == Window(slots, head, len)[0]
    ensures var next := Slot(head, 1, |slots|);
            var emptied := slots[head := None];
            && WindowOccupied(emptied, next, len - 1)
            && Window(emptied, next, len - 1) == Window(slots, head, len)[1..]
  {
    var n, next := |slots|, Slot(head, 1, |slots|);
    var emptied := slots[head := None];
    SlotUnwrapped(head, 0, n);
    SlotUnwrapped(head, 1, n);
    forall i | 0 <= i < n
      ensures Slot(next, i, n) == if i == n - 1 then head else Slot(head, i + 1, n)
      ensures i < n - 1 ==> emptied[Slot(next, i, n)] == slots[Slot(head, i + 1, n)]
    {
      SlotShift(head, i, n);
      SlotUnwrapped(head, i + 1, n);
      if i < n - 1 {
        SlotsDiffer(head, 0, i + 1, n);
      }
    }
  }

  // ---------------------------------------------------------------- the ring

  class ProcessSharedRing<T> {
    const slots: array<Option<T>>
    var head: nat
    var len: nat
    var closed: bool
    var stats: StreamStats

    ghost predicate Valid()
      reads this, slots
    {
      WindowOccupied(slots[..], head, len)
    }

    /** The FIFO this ring holds. */
    ghost function View(): Fifo<T>
      reads this, slots
      requires Valid()
    {
      Fifo(slots.Length, Window(slots[..], head, len), closed, stats)
    }

    constructor Preallocated(capacity: nat)
      requires capacity > 0
      ensures Valid() && fresh(slots) && View() == EmptyFifo(capacity)
    {
      slots := new Option<T>[capacity](_ => None);
      head := 0;
      len := 0;
      closed := false;
      stats := ZERO_STATS;
    }

    /** Creates a ring for `capacity` items, refusing zero. */
    static method WithCapacity(capacity: nat) returns (r: Result<ProcessSharedRing<T>, RingError>)
      ensures if capacity == 0 then r == Err(ZeroCapacity)
              else r.Ok? && fresh(r.value) && fresh(r.value.slots) && r.value.Valid()
                   && r.value.View() == EmptyFifo(capacity)
    {
      if capacity == 0 {
        return Err(ZeroCapacity);
      }
      var ring := new ProcessSharedRing<T>.Preallocated(capacity);
      return Ok(ring);
    }

    /** Stores an item, or hands it back when the ring is full or closed. */
    method TryPush(item: T) returns (r: RingPush<T>)
      requires Valid()
      modifies this, slots
      ensures Valid()
      ensures (View(), r) == old(View()).Push(item)
      ensures r != Accepted ==> slots[..] == old(slots[..])
    {
      stats := stats.(pushed := Bump(stats.pushed));
      if closed {
        stats := stats.(closed := true);
        return Closed(item);
      }
      if len == slots.Length {
        stats := stats.(droppedNewest := Bump(stats.droppedNewest));
        return DroppedNewest(item);
      }
      WindowAfterPush(slots[..], head, len, item);
      var tail := (head + len) % slots.Length;
      slots[tail] := Some(item);
      len := len + 1;
      stats := stats.(accepted := Bump(stats.accepted));
      return Accepted;
    }

    /** Takes the oldest item, if any. */
    method TryPop() returns (r: Option<T>)
      requires Valid()
      modifies this, slots
      ensures Valid()
      ensures (View(), r) == old(View()).Pop()
      ensures closed == old(closed)
    {
      if len == 0 {
        return None;
      }
      WindowAfterPop(slots[..], head, len);
      r := slots[head];
      slots[head] := None;
      head := (head + 1) % slots.Length;
      len := len - 1;
      if r.Some? {
        stats := stats.(yielded := Bump(stats.yielded));
      }
    }

    /** From now on every push is handed back. */
    method Close()
      requires Valid()
      modifies this
      ensures Valid() && View() == old(View()).Close()
    {
      closed := true;
      stats := stats.(closed := true);
    }

    /** Drains the ring, closes it and records the cancellation. */
    method Cancel()
      requires Valid()
      modifies this, slots
      ensures Valid() && View() == old(View()).Cancel()
    {
      var item := TryPop();
      while item.Some?
        invariant Valid()
        invariant View().Drain() == old(View()).Drain()
        invariant item.None? ==> View().items == []
        decreases len, item.Some?
      {
        item := TryPop();
      }
      closed := true;
      stats := stats.(closed := true, cancelled := true);
    }
  }
}
