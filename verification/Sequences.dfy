/** Sums over lists and filtering of lists. */
module Sequences {

  /** Sum of the sizes of a list of items. */
  ghost function Total<T>(size: T -> nat, items: seq<T>): nat {
    if items == [] then 0 else size(items[0]) + Total(size, items[1..])
  }

  lemma {:induction false} TotalConcat<T>(size: T -> nat, a: seq<T>, b: seq<T>)
    ensures Total(size, a + b) == Total(size, a) + Total(size, b)
  {
    if a == [] {
      assert a + b == b;
    } else {
      TotalConcat(size, a[1..], b);
      assert (a + b)[1..] == a[1..] + b;
    }
  }

  /** The members of `s` that satisfy `p`, in order. */
  function Filter<T>(s: seq<T>, p: T -> bool): seq<T> {
    if s == [] then []
    else if p(s[0]) then [s[0]] + Filter(s[1..], p)
    else Filter(s[1..], p)
  }

  lemma {:induction false} FilterConcat<T>(a: seq<T>, b: seq<T>, p: T -> bool)
    ensures Filter(a + b, p) == Filter(a, p) + Filter(b, p)
  {
    if a == [] {
      assert a + b == b;
    } else {
      assert (a + b)[1..] == a[1..] + b;
      FilterConcat(a[1..], b, p);
      assert [a[0]] + (Filter(a[1..], p) + Filter(b, p)) == [a[0]] + Filter(a[1..], p) + Filter(b, p);
    }
  }

  lemma {:induction false} FilterNone<T>(s: seq<T>, p: T -> bool)
    requires forall i :: 0 <= i < |s| ==> !p(s[i])
    ensures Filter(s, p) == []
  {
    if s != [] {
      FilterNone(s[1..], p);
    }
  }

  lemma {:induction false} FilterAll<T>(s: seq<T>, p: T -> bool)
    requires forall i :: 0 <= i < |s| ==> p(s[i])
    ensures Filter(s, p) == s
  {
    if s != [] {
      FilterAll(s[1..], p);
    }
  }

  lemma {:induction false} FilterMembers<T>(s: seq<T>, p: T -> bool)
    ensures forall x :: x in Filter(s, p) ==> x in s && p(x)
    ensures forall x :: x in s && p(x) ==> x in Filter(s, p)
  {
    if s != [] {
      assert s == [s[0]] + s[1..];
      FilterMembers(s[1..], p);
    }
  }

  lemma FilterOne<T>(x: T, p: T -> bool)
    ensures Filter([x], p) == if p(x) then [x] else []
  {
    assert [x][1..] == [];
    assert Filter([x][1..], p) == [];
  }

  /** Taking out element `i`, which no earlier element resembles under `p`, splits the filtered list. */
  lemma {:induction false} FilterTakeOut<T>(s: seq<T>, i: nat, p: T -> bool)
    requires i < |s|
    requires p(s[i]) ==> forall j :: 0 <= j < i ==> !p(s[j])
    ensures var rest := Filter(s[..i] + s[i + 1..], p);
            Filter(s, p) == if p(s[i]) then [s[i]] + rest else rest
  {
    var others := s[..i] + s[i + 1..];
    if i == 0 {
      assert others == s[1..];
    } else {
      assert others[1..] == s[1..][..i - 1] + s[1..][i..];
      FilterTakeOut(s[1..], i - 1, p);
    }
  }

  /** Filtering twice is filtering once by both conditions. */
  lemma {:induction false} FilterBoth<T>(s: seq<T>, p: T -> bool, q: T -> bool, both: T -> bool)
    requires forall x :: x in s ==> both(x) == (p(x) && q(x))
    ensures Filter(Filter(s, p), q) == Filter(s, both)
  {
    if s != [] {
      assert s == [s[0]] + s[1..] && s[0] in s;
      FilterBoth(s[1..], p, q, both);
      assert ([s[0]] + Filter(s[1..], p))[1..] == Filter(s[1..], p);
    }
  }

  lemma TotalOne<T>(size: T -> nat, x: T)
    ensures Total(size, [x]) == size(x)
  {
    assert [x][1..] == [];
    assert Total(size, [x][1..]) == 0;
  }

  lemma TotalTakeOut<T>(size: T -> nat, s: seq<T>, i: nat)
    requires i < |s|
    ensures Total(size, s) == size(s[i]) + Total(size, s[..i] + s[i + 1..])
  {
    assert s == s[..i] + [s[i]] + s[i + 1..];
    TotalConcat(size, s[..i] + [s[i]], s[i + 1..]);
    TotalConcat(size, s[..i], [s[i]]);
    TotalConcat(size, s[..i], s[i + 1..]);
    TotalOne(size, s[i]);
  }

  lemma CountsTakeOut<T>(s: seq<T>, i: nat, x: T)
    requires i < |s|
    ensures multiset(s)[x] == multiset(s[..i] + s[i + 1..])[x] + (if x == s[i] then 1 else 0)
  {
    assert s == s[..i] + [s[i]] + s[i + 1..];
  }

  /** A total does not depend on order. */
  lemma {:induction false} TotalPermuted<T>(size: T -> nat, a: seq<T>, b: seq<T>)
    requires multiset(a) == multiset(b)
    ensures Total(size, a) == Total(size, b)
  {
    if a == [] {
      assert |multiset(b)| == 0;
    } else {
      assert a[0] in multiset(b);
      var i :| 0 <= i < |b| && b[i] == a[0];
      var rest := b[..i] + b[i + 1..];
      assert a[..0] + a[1..] == a[1..];
      forall x
        ensures multiset(a[1..])[x] == multiset(rest)[x]
      {
        CountsTakeOut(a, 0, x);
        CountsTakeOut(b, i, x);
      }
      assert multiset(a[1..]) == multiset(rest);
      TotalPermuted(size, a[1..], rest);
      TotalTakeOut(size, b, i);
    }
  }

  ghost predicate Distinct<T>(s: seq<T>) {
    forall i, j :: 0 <= i < j < |s| ==> s[i] != s[j]
  }

  lemma {:induction false} DistinctCounts<T>(s: seq<T>, x: T)
    requires Distinct(s)
    ensures multiset(s)[x] == if x in s then 1 else 0
  {
    if s != [] {
      assert s == [s[0]] + s[1..];
      DistinctCounts(s[1..], x);
    }
  }

  /** Duplicate-free lists with the same members are permutations of each other. */
  lemma DistinctPermuted<T>(a: seq<T>, b: seq<T>)
    requires Distinct(a) && Distinct(b)
    requires forall x :: x in a ==> x in b
    requires forall x :: x in b ==> x in a
    ensures multiset(a) == multiset(b)
  {
    forall x: T
      ensures multiset(a)[x] == multiset(b)[x]
    {
      DistinctCounts(a, x);
      DistinctCounts(b, x);
    }
  }

  /** What a filter keeps and what its complement keeps add up to the whole. */
  lemma {:induction false} FilterSplitsTotal<T>(size: T -> nat, s: seq<T>, p: T -> bool, q: T -> bool)
    requires forall x :: x in s ==> q(x) == !p(x)
    ensures Total(size, Filter(s, p)) + Total(size, Filter(s, q)) == Total(size, s)
  {
    if s != [] {
      assert s == [s[0]] + s[1..];
      FilterSplitsTotal(size, s[1..], p, q);
      assert s[0] in s;
      assert ([s[0]] + Filter(s[1..], p))[1..] == Filter(s[1..], p);
      assert ([s[0]] + Filter(s[1..], q))[1..] == Filter(s[1..], q);
    }
  }

  lemma {:induction false} FilterAgrees<T>(s: seq<T>, p: T -> bool, q: T -> bool)
    requires forall x :: x in s ==> p(x) == q(x)
    ensures Filter(s, p) == Filter(s, q)
  {
    if s != [] {
      assert s == [s[0]] + s[1..] && s[0] in s;
      FilterAgrees(s[1..], p, q);
    }
  }

  /** What every allowed extension by one item keeps, every allowed extension keeps. */
  lemma {:induction false} HoldsOnward<T(!new)>(keeps: seq<T> -> bool, allowed: T -> bool, s: seq<T>, more: seq<T>)
    requires keeps(s) && forall i :: 0 <= i < |more| ==> allowed(more[i])
    requires forall t, x :: keeps(t) && allowed(x) ==> keeps(t + [x])
    ensures keeps(s + more)
  {
    if more == [] {
      assert s + more == s;
    } else {
      HoldsOnward(keeps, allowed, s, more[..|more| - 1]);
      assert s + more == s + more[..|more| - 1] + [more[|more| - 1]];
    }
  }
}
