/**
 * First-fit selection under a byte ceiling, and its repetition on what is left over.
 *
 * This is the list theory behind one scheduler tick: `Pass` is the loop of
 * frame_budget.rs:180-189 as a function of the sorted change list, `Pending` what
 * the list has shrunk to after n ticks.
 */
module FirstFit {
  import opened Sequences

  datatype Tick<T> = Tick(sent: seq<T>, deferred: seq<T>, bytes: nat)

  /** One pass: send each item that still fits, defer the others. */
  ghost function Pass<T>(size: T -> nat, items: seq<T>, budget: nat, used: nat): Tick<T> {
    if items == [] then Tick([], [], used)
    else if used + size(items[0]) <= budget then
      var t := Pass(size, items[1..], budget, used + size(items[0]));
      t.(sent := [items[0]] + t.sent)
    else
      var t := Pass(size, items[1..], budget, used);
      t.(deferred := [items[0]] + t.deferred)
  }

  // ---------------------------------------------------------------- one pass

  /** The bytes reported are those of the items sent, and respect the ceiling. */
  lemma {:induction false} PassBytes<T>(size: T -> nat, items: seq<T>, budget: nat, used: nat)
    requires used <= budget
    ensures var t := Pass(size, items, budget, used);
            t.bytes == used + Total(size, t.sent) <= budget
  {
    if items != [] {
      if used + size(items[0]) <= budget {
        var t := Pass(size, items[1..], budget, used + size(items[0]));
        PassBytes(size, items[1..], budget, used + size(items[0]));
        assert ([items[0]] + t.sent)[1..] == t.sent;
      } else {
        PassBytes(size, items[1..], budget, used);
      }
    }
  }

  /** Sent and deferred together are the items, each exactly once. */
  lemma {:induction false} PassPartitions<T>(size: T -> nat, items: seq<T>, budget: nat, used: nat)
    ensures var t := Pass(size, items, budget, used);
            multiset(t.sent) + multiset(t.deferred) == multiset(items)
            && |t.sent| + |t.deferred| == |items|
            && Total(size, t.sent) + Total(size, t.deferred) == Total(size, items)
  {
    if items != [] {
      assert items == [items[0]] + items[1..];
      var next := if used + size(items[0]) <= budget then used + size(items[0]) else used;
      var t := Pass(size, items[1..], budget, next);
      PassPartitions(size, items[1..], budget, next);
      assert ([items[0]] + t.sent)[1..] == t.sent;
      assert ([items[0]] + t.deferred)[1..] == t.deferred;
    }
  }

  /**
   * A pass over `a` then `b` treats `a` as if `b` were not there: an item's fate
   * depends only on the items ranked before it.
   */
  lemma {:induction false} PassConcat<T>(size: T -> nat, a: seq<T>, b: seq<T>, budget: nat, used: nat)
    ensures var ta := Pass(size, a, budget, used);
            var tb := Pass(size, b, budget, ta.bytes);
            Pass(size, a + b, budget, used)
              == Tick(ta.sent + tb.sent, ta.deferred + tb.deferred, tb.bytes)
  {
    if a == [] {
      assert a + b == b;
    } else {
      assert (a + b)[1..] == a[1..] + b;
      var next := if used + size(a[0]) <= budget then used + size(a[0]) else used;
      PassConcat(size, a[1..], b, budget, next);
    }
  }

  lemma {:induction false} PassOnlyAdds<T>(size: T -> nat, items: seq<T>, budget: nat, used: nat)
    ensures used <= Pass(size, items, budget, used).bytes
  {
    if items != [] {
      var next := if used + size(items[0]) <= budget then used + size(items[0]) else used;
      PassOnlyAdds(size, items[1..], budget, next);
    }
  }

  /** At the end of a pass no deferred item would still fit. */
  lemma {:induction false} NothingDeferredFits<T>(size: T -> nat, items: seq<T>, budget: nat, used: nat)
    ensures var t := Pass(size, items, budget, used);
            forall d :: d in t.deferred ==> budget < t.bytes + size(d)
  {
    if items != [] {
      var next := if used + size(items[0]) <= budget then used + size(items[0]) else used;
      NothingDeferredFits(size, items[1..], budget, next);
      PassOnlyAdds(size, items[1..], budget, next);
    }
  }

  /** Items that come before all others are all sent when together they fit. */
  lemma {:induction false} AffordedFirstAreSent<T>(
    size: T -> nat, items: seq<T>, first: T -> bool, budget: nat, used: nat)
    requires forall i, j :: 0 <= i < j < |items| && first(items[j]) ==> first(items[i])
    requires used + Total(size, Filter(items, first)) <= budget
    ensures forall x :: x in items && first(x) ==> x in Pass(size, items, budget, used).sent
  {
    if items != [] {
      assert items == [items[0]] + items[1..];
      if first(items[0]) {
        var rest := Filter(items[1..], first);
        assert ([items[0]] + rest)[1..] == rest;
        AffordedFirstAreSent(size, items[1..], first, budget, used + size(items[0]));
      } else {
        assert forall x :: x in items[1..] ==> !first(x);
      }
    }
  }

  /** How a pass over one more item extends the pass so far. */
  lemma PassPrefixStep<T>(size: T -> nat, items: seq<T>, i: nat, budget: nat)
    requires i < |items|
    ensures var done := Pass(size, items[..i], budget, 0);
            var item := items[i];
            Pass(size, items[..i + 1], budget, 0) ==
            if done.bytes + size(item) <= budget
            then Tick(done.sent + [item], done.deferred, done.bytes + size(item))
            else Tick(done.sent, done.deferred + [item], done.bytes)
  {
    PassConcat(size, items[..i], [items[i]], budget, 0);
    assert items[..i + 1] == items[..i] + [items[i]];
    assert [items[i]][1..] == [];
  }

  /** The bytes of a pass so far and of its next item never exceed the total of all items. */
  lemma PassPrefixBytes<T>(size: T -> nat, items: seq<T>, i: nat, budget: nat)
    requires i < |items|
    ensures Pass(size, items[..i], budget, 0).bytes + size(items[i]) <= Total(size, items)
  {
    PassBytes(size, items[..i], budget, 0);
    PassPartitions(size, items[..i], budget, 0);
    TotalConcat(size, items[..i], items[i..]);
    assert items == items[..i] + items[i..] && items[i..][0] == items[i];
  }

  // ---------------------------------------------------------------- which items are sent

  /** The decision taken for each item. */
  ghost function Fates<T>(size: T -> nat, items: seq<T>, budget: nat, used: nat): (mask: seq<bool>)
    ensures |mask| == |items|
  {
    if items == [] then []
    else if used + size(items[0]) <= budget then
      [true] + Fates(size, items[1..], budget, used + size(items[0]))
    else
      [false] + Fates(size, items[1..], budget, used)
  }

  /** The items whose mask bit is `keep`, in order. */
  ghost function Select<T>(items: seq<T>, mask: seq<bool>, keep: bool): seq<T>
    requires |items| == |mask|
  {
    if items == [] then []
    else if mask[0] == keep then [items[0]] + Select(items[1..], mask[1..], keep)
    else Select(items[1..], mask[1..], keep)
  }

  /** Sent and deferred are complementary sublists of the items. */
  lemma {:induction false} PassSelects<T>(size: T -> nat, items: seq<T>, budget: nat, used: nat)
    ensures var t := Pass(size, items, budget, used);
            var mask := Fates(size, items, budget, used);
            t.sent == Select(items, mask, true) && t.deferred == Select(items, mask, false)
  {
    if items != [] {
      var next := if used + size(items[0]) <= budget then used + size(items[0]) else used;
      PassSelects(size, items[1..], budget, next);
      assert Fates(size, items, budget, used)[1..] == Fates(size, items[1..], budget, next);
    }
  }

  /** Does `a` choose to send at the first position where the two masks differ? */
  ghost predicate Dominates(a: seq<bool>, b: seq<bool>)
    requires |a| == |b|
  {
    exists i :: 0 <= i < |a| && a[..i] == b[..i] && a[i] && !b[i]
  }

  /**
   * First-fit is the lexicographically greatest choice within the ceiling: any
   * other affordable choice gives up an item first-fit sends, before it gains one.
   */
  lemma {:induction false} FirstFitDominates<T>(
    size: T -> nat, items: seq<T>, budget: nat, used: nat, mask: seq<bool>)
    requires |mask| == |items|
    requires used + Total(size, Select(items, mask, true)) <= budget
    requires mask != Fates(size, items, budget, used)
    ensures Dominates(Fates(size, items, budget, used), mask)
  {
    var fates := Fates(size, items, budget, used);
    assert items != [];
    assert mask == [mask[0]] + mask[1..] && fates == [fates[0]] + fates[1..];
    var chosen := Select(items[1..], mask[1..], true);
    assert ([items[0]] + chosen)[1..] == chosen;
    if fates[0] == mask[0] {
      var next := if fates[0] then used + size(items[0]) else used;
      FirstFitDominates(size, items[1..], budget, next, mask[1..]);
      var i :| 0 <= i < |fates[1..]| && fates[1..][..i] == mask[1..][..i] && fates[1..][i] && !mask[1..][i];
      assert fates[..i + 1] == [fates[0]] + fates[1..][..i];
      assert mask[..i + 1] == [mask[0]] + mask[1..][..i];
      assert fates[i + 1] && !mask[i + 1];
    } else {
      assert fates[..0] == mask[..0] && fates[0] && !mask[0];
    }
  }

  // ---------------------------------------------------------------- repeated passes

  /** What is left of `items` after `n` passes, each on the previous leftovers. */
  ghost function Pending<T>(size: T -> nat, items: seq<T>, budget: nat, n: nat): seq<T>
    decreases n
  {
    if n == 0 then items
    else Pending(size, Pass(size, items, budget, 0).deferred, budget, n - 1)
  }

  /** What pass number `n`, counted from zero, sends. */
  ghost function SentIn<T>(size: T -> nat, items: seq<T>, budget: nat, n: nat): seq<T> {
    Pass(size, Pending(size, items, budget, n), budget, 0).sent
  }

  /** Everything the first `n` passes send, in order. */
  ghost function SentUpTo<T>(size: T -> nat, items: seq<T>, budget: nat, n: nat): seq<T> {
    if n == 0 then [] else SentUpTo(size, items, budget, n - 1) + SentIn(size, items, budget, n - 1)
  }

  /** The items too long for any pass. */
  ghost function Oversize<T>(size: T -> nat, items: seq<T>, budget: nat): seq<T> {
    if items == [] then []
    else if budget < size(items[0]) then [items[0]] + Oversize(size, items[1..], budget)
    else Oversize(size, items[1..], budget)
  }

  /** How many items are short enough for some pass. */
  ghost function CountFit<T>(size: T -> nat, items: seq<T>, budget: nat): nat {
    if items == [] then 0
    else (if size(items[0]) <= budget then 1 else 0) + CountFit(size, items[1..], budget)
  }

  lemma {:induction false} PendingStep<T>(size: T -> nat, items: seq<T>, budget: nat, n: nat)
    ensures Pending(size, items, budget, n + 1)
         == Pass(size, Pending(size, items, budget, n), budget, 0).deferred
    decreases n
  {
    if n > 0 {
      PendingStep(size, Pass(size, items, budget, 0).deferred, budget, n - 1);
    }
  }

  /** Every pass sends something while some item can fit; otherwise it changes nothing. */
  lemma {:induction false} PassProgress<T>(size: T -> nat, items: seq<T>, budget: nat, used: nat)
    ensures var t := Pass(size, items, budget, used);
            CountFit(size, t.deferred, budget) <= CountFit(size, items, budget)
            && (used == 0 && CountFit(size, items, budget) > 0
                ==> t.sent != [] && CountFit(size, t.deferred, budget) < CountFit(size, items, budget))
            && (CountFit(size, items, budget) == 0 ==> t == Tick([], items, used))
  {
    if items != [] {
      var next := if used + size(items[0]) <= budget then used + size(items[0]) else used;
      var t := Pass(size, items[1..], budget, next);
      PassProgress(size, items[1..], budget, next);
      assert ([items[0]] + t.deferred)[1..] == t.deferred;
      assert items == [items[0]] + items[1..];
    }
  }

  lemma {:induction false} PassKeepsOversize<T>(size: T -> nat, items: seq<T>, budget: nat, used: nat)
    ensures Oversize(size, Pass(size, items, budget, used).deferred, budget) == Oversize(size, items, budget)
  {
    if items != [] {
      var next := if used + size(items[0]) <= budget then used + size(items[0]) else used;
      var t := Pass(size, items[1..], budget, next);
      PassKeepsOversize(size, items[1..], budget, next);
      assert ([items[0]] + t.deferred)[1..] == t.deferred;
    }
  }

  lemma {:induction false} NoFitMeansOversize<T>(size: T -> nat, items: seq<T>, budget: nat)
    requires CountFit(size, items, budget) == 0
    ensures Oversize(size, items, budget) == items
  {
    if items != [] {
      NoFitMeansOversize(size, items[1..], budget);
    }
  }

  /**
   * Convergence: after as many passes as there are items that can fit, exactly the
   * oversize items are left, in their original order, and it stays that way.
   */
  lemma {:induction false} PendingConverges<T>(size: T -> nat, items: seq<T>, budget: nat, n: nat)
    requires CountFit(size, items, budget) <= n
    ensures Pending(size, items, budget, n) == Oversize(size, items, budget)
    decreases n
  {
    PassProgress(size, items, budget, 0);
    if n == 0 {
      NoFitMeansOversize(size, items, budget);
    } else {
      PassKeepsOversize(size, items, budget, 0);
      PendingConverges(size, Pass(size, items, budget, 0).deferred, budget, n - 1);
    }
  }

  lemma PassHead<T>(size: T -> nat, item: T, after: seq<T>, budget: nat, used: nat)
    ensures var t := Pass(size, [item] + after, budget, used);
            if used + size(item) <= budget then t.sent != [] && t.sent[0] == item
            else t.deferred == [item] + Pass(size, after, budget, used).deferred
  {
    assert ([item] + after)[1..] == after;
  }

  lemma PassAroundShape<T>(size: T -> nat, before: seq<T>, item: T, after: seq<T>, budget: nat)
    ensures var all := Pass(size, before + [item] + after, budget, 0);
            var t := Pass(size, before, budget, 0);
            if t.bytes + size(item) <= budget then item in all.sent
            else all.deferred == t.deferred + [item] + Pass(size, after, budget, t.bytes).deferred
  {
    var t := Pass(size, before, budget, 0);
    var u := Pass(size, [item] + after, budget, t.bytes);
    assert before + [item] + after == before + ([item] + after);
    PassConcat(size, before, [item] + after, budget, 0);
    PassHead(size, item, after, budget, t.bytes);
    if t.bytes + size(item) <= budget {
      assert item in u.sent;
    } else {
      var later := Pass(size, after, budget, t.bytes).deferred;
      assert t.deferred + ([item] + later) == t.deferred + [item] + later;
    }
  }

  /** One pass either sends a given item or keeps it with fewer fitting items ahead of it. */
  lemma PassAround<T>(size: T -> nat, before: seq<T>, item: T, after: seq<T>, budget: nat)
    returns (before': seq<T>, after': seq<T>)
    requires size(item) <= budget
    ensures var t := Pass(size, before + [item] + after, budget, 0);
            || item in t.sent
            || (t.deferred == before' + [item] + after'
                && CountFit(size, before', budget) < CountFit(size, before, budget))
  {
    PassAroundShape(size, before, item, after, budget);
    PassProgress(size, before, budget, 0);
    var t := Pass(size, before, budget, 0);
    before', after' := t.deferred, Pass(size, after, budget, t.bytes).deferred;
  }

  /** An item that can fit is sent no later than its rank among those that can. */
  lemma {:induction false} SentByRank<T>(
    size: T -> nat, before: seq<T>, item: T, after: seq<T>, budget: nat) returns (n: nat)
    requires size(item) <= budget
    ensures n <= CountFit(size, before, budget)
    ensures item in SentIn(size, before + [item] + after, budget, n)
    decreases CountFit(size, before, budget)
  {
    var items := before + [item] + after;
    if item in Pass(size, items, budget, 0).sent {
      n := 0;
    } else {
      var before', after' := PassAround(size, before, item, after, budget);
      var m := SentByRank(size, before', item, after', budget);
      n := m + 1;
      assert Pending(size, items, budget, n) == Pending(size, before' + [item] + after', budget, m);
    }
  }

  lemma {:induction false} CountFitAtMost<T>(size: T -> nat, items: seq<T>, budget: nat)
    ensures CountFit(size, items, budget) <= |items|
  {
    if items != [] {
      CountFitAtMost(size, items[1..], budget);
    }
  }

  lemma SentByPosition<T>(size: T -> nat, items: seq<T>, i: nat, budget: nat) returns (n: nat)
    requires i < |items| && size(items[i]) <= budget
    ensures n <= CountFit(size, items[..i], budget) <= i
    ensures items[i] in SentIn(size, items, budget, n)
  {
    assert items == items[..i] + [items[i]] + items[i + 1..];
    n := SentByRank(size, items[..i], items[i], items[i + 1..], budget);
    CountFitAtMost(size, items[..i], budget);
  }

  lemma {:induction false} BoundedAfterPass<T>(size: T -> nat, items: seq<T>, budget: nat, used: nat, lo: nat, hi: nat)
    requires forall x :: x in items ==> lo <= size(x) <= hi
    ensures forall x :: x in Pass(size, items, budget, used).deferred ==> lo <= size(x) <= hi
  {
    PassPartitions(size, items, budget, used);
    var t := Pass(size, items, budget, used);
    forall x | x in t.deferred
      ensures lo <= size(x) <= hi
    {
      assert x in multiset(t.deferred);
      assert x in multiset(items);
    }
  }

  /**
   * Tick bound: with every size between 1 and `longest <= budget`, each unfinished
   * pass sends at least `budget + 1 - longest` bytes, so `n` unfinished passes need
   * strictly more than `n` times that many bytes to begin with.
   */
  lemma {:induction false} UnfinishedPassesCost<T>(
    size: T -> nat, items: seq<T>, budget: nat, longest: nat, n: nat)
    requires longest <= budget
    requires forall x :: x in items ==> 1 <= size(x) <= longest
    requires Pending(size, items, budget, n) != []
    ensures n * (budget + 1 - longest) < Total(size, items)
    decreases n
  {
    if n == 0 {
    } else {
      var t := Pass(size, items, budget, 0);
      BoundedAfterPass(size, items, budget, 0, 1, longest);
      UnfinishedPassesCost(size, t.deferred, budget, longest, n - 1);
      if t.deferred == [] {
        EmptyStaysEmpty(size, budget, n - 1);
        assert false;
      }
      PassPartitions(size, items, budget, 0);
      NothingDeferredFits(size, items, budget, 0);
      PassBytes(size, items, budget, 0);
      assert t.deferred[0] in t.deferred;
      assert n * (budget + 1 - longest) == (n - 1) * (budget + 1 - longest) + (budget + 1 - longest);
    }
  }

  lemma {:induction false} EmptyStaysEmpty<T>(size: T -> nat, budget: nat, n: nat)
    ensures Pending<T>(size, [], budget, n) == []
  {
    if n > 0 {
      EmptyStaysEmpty(size, budget, n - 1);
    }
  }

  // ---------------------------------------------------------------- any machine whose steps are passes

  /** The state after `n` steps. */
  ghost function Iterate<S>(step: S -> S, s: S, n: nat): S {
    if n == 0 then s else step(Iterate(step, s, n - 1))
  }

  /** Everything the first `n` steps output, in order. */
  ghost function Outputs<S, T>(step: S -> S, output: S -> seq<T>, s: S, n: nat): seq<T> {
    if n == 0 then [] else Outputs(step, output, s, n - 1) + output(Iterate(step, s, n - 1))
  }

  /** Does each step do one pass over the work of its state, outputting what is sent? */
  ghost predicate StepsArePasses<S(!new), T>(
    step: S -> S, work: S -> seq<T>, output: S -> seq<T>, size: T -> nat, budget: nat)
  {
    && (forall s {:trigger step(s)} :: work(step(s)) == Pass(size, work(s), budget, 0).deferred)
    && (forall s {:trigger output(s)} :: output(s) == Pass(size, work(s), budget, 0).sent)
  }

  lemma {:induction false} IterateIsPending<S(!new), T>(
    step: S -> S, work: S -> seq<T>, output: S -> seq<T>, size: T -> nat, budget: nat, s: S, n: nat)
    requires StepsArePasses(step, work, output, size, budget)
    ensures work(Iterate(step, s, n)) == Pending(size, work(s), budget, n)
    ensures output(Iterate(step, s, n)) == SentIn(size, work(s), budget, n)
    ensures Outputs(step, output, s, n) == SentUpTo(size, work(s), budget, n)
  {
    if n > 0 {
      IterateIsPending(step, work, output, size, budget, s, n - 1);
      PendingStep(size, work(s), budget, n - 1);
    }
  }

  /** If each step's output and remaining work make up its work, then so do those of any run of steps. */
  lemma {:induction false} OutputsConserveWork<S(!new), T>(
    step: S -> S, work: S -> seq<T>, output: S -> seq<T>, s: S, n: nat)
    requires forall s {:trigger step(s)} :: multiset(output(s)) + multiset(work(step(s))) == multiset(work(s))
    ensures multiset(Outputs(step, output, s, n)) + multiset(work(Iterate(step, s, n))) == multiset(work(s))
  {
    if n > 0 {
      OutputsConserveWork(step, work, output, s, n - 1);
      var before := Iterate(step, s, n - 1);
      assert multiset(output(before)) + multiset(work(step(before))) == multiset(work(before));
      assert multiset(Outputs(step, output, s, n - 1) + output(before))
          == multiset(Outputs(step, output, s, n - 1)) + multiset(output(before));
    }
  }
}
