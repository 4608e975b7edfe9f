/**
 * Lists ordered by a numeric rank: enumeration of a set in ascending order (what
 * iterating a BTreeMap or BTreeSet yields) and stable sorting by key.
 */
module Ordered {
  import opened Sequences

  ghost predicate Ascending<T>(rank: T -> int, s: seq<T>) {
    forall i, j :: 0 <= i < j < |s| ==> rank(s[i]) < rank(s[j])
  }

  ghost predicate SameMembers<T>(a: seq<T>, b: seq<T>) {
    (forall x :: x in a ==> x in b) && (forall x :: x in b ==> x in a)
  }

  /** No two positions share a rank. */
  ghost predicate RanksDiffer<T>(rank: T -> int, s: seq<T>) {
    forall i, j :: 0 <= i < j < |s| ==> rank(s[i]) != rank(s[j])
  }

  ghost predicate InjectiveOn<T(!new)>(rank: T -> int, s: set<T>) {
    forall a, b :: a in s && b in s && rank(a) == rank(b) ==> a == b
  }

  // ---------------------------------------------------------------- enumerating a set

  ghost predicate IsLeast<T>(rank: T -> int, s: set<T>, x: T) {
    x in s && forall y :: y in s ==> rank(x) <= rank(y)
  }

  lemma {:induction false} LeastExists<T>(rank: T -> int, s: set<T>) returns (least: T)
    requires s != {}
    ensures IsLeast(rank, s, least)
  {
    var x :| x in s;
    if s == {x} {
      least := x;
    } else {
      var rest := LeastExists(rank, s - {x});
      least := if rank(x) <= rank(rest) then x else rest;
    }
  }

  ghost function Least<T(!new)>(rank: T -> int, s: set<T>): (least: T)
    requires s != {}
    ensures IsLeast(rank, s, least)
  {
    assert exists x :: IsLeast(rank, s, x) by {
      var x := LeastExists(rank, s);
    }
    var x :| IsLeast(rank, s, x);
    x
  }

  /** The members of `s` from least to greatest rank. */
  ghost function Listing<T(!new)>(rank: T -> int, s: set<T>): seq<T> {
    if s == {} then []
    else
      var x := Least(rank, s);
      [x] + Listing(rank, s - {x})
  }

  lemma {:induction false} ListingIsAscending<T(!new)>(rank: T -> int, s: set<T>)
    requires InjectiveOn(rank, s)
    ensures Ascending(rank, Listing(rank, s))
    ensures forall x :: x in Listing(rank, s) ==> x in s
    ensures forall x :: x in s ==> x in Listing(rank, s)
  {
    if s != {} {
      var x := Least(rank, s);
      ListingIsAscending(rank, s - {x});
      var rest := Listing(rank, s - {x});
      forall i, j | 0 <= i < j < |rest| + 1
        ensures rank(([x] + rest)[i]) < rank(([x] + rest)[j])
      {
        assert rest[j - 1] in rest;
      }
    }
  }

  /** Computes the listing of a set by repeated selection of the least member. */
  method List<T(!new)>(rank: T -> int, s: set<T>) returns (items: seq<T>)
    requires InjectiveOn(rank, s)
    ensures items == Listing(rank, s)
  {
    items := [];
    var rest := s;
    while rest != {}
      invariant rest <= s
      invariant items + Listing(rank, rest) == Listing(rank, s)
      decreases rest
    {
      var least :| least in rest;
      var others := rest - {least};
      while others != {}
        invariant least in rest && others <= rest
        invariant forall y :: y in rest - others ==> rank(least) <= rank(y)
        decreases others
      {
        var y :| y in others;
        if rank(y) < rank(least) {
          least := y;
        }
        others := others - {y};
      }
      assert IsLeast(rank, rest, Least(rank, rest)) && IsLeast(rank, rest, least);
      items := items + [least];
      rest := rest - {least};
    }
  }

  // ---------------------------------------------------------------- sorting

  /** Inserts `x` before the first element of no smaller rank. */
  function InsertBy<T>(rank: T -> int, x: T, s: seq<T>): seq<T> {
    if s == [] || rank(x) <= rank(s[0]) then [x] + s
    else [s[0]] + InsertBy(rank, x, s[1..])
  }

  /** Stable sort by rank, standing for `sort_by_key`. */
  function SortBy<T>(rank: T -> int, s: seq<T>): seq<T> {
    if s == [] then [] else InsertBy(rank, s[0], SortBy(rank, s[1..]))
  }

  lemma {:induction false} InsertByMembers<T>(rank: T -> int, x: T, s: seq<T>)
    ensures forall y :: y in InsertBy(rank, x, s) ==> y == x || y in s
    ensures x in InsertBy(rank, x, s) && forall y :: y in s ==> y in InsertBy(rank, x, s)
  {
    if s != [] && rank(x) > rank(s[0]) {
      assert s == [s[0]] + s[1..];
      InsertByMembers(rank, x, s[1..]);
    }
  }

  lemma ConsAscending<T>(rank: T -> int, x: T, s: seq<T>)
    requires Ascending(rank, s)
    requires forall y :: y in s ==> rank(x) < rank(y)
    ensures Ascending(rank, [x] + s)
  {
    var r := [x] + s;
    forall i, j | 0 <= i < j < |r|
      ensures rank(r[i]) < rank(r[j])
    {
      assert s[j - 1] in s;
    }
  }

  lemma HeadIsLeast<T>(rank: T -> int, s: seq<T>)
    requires Ascending(rank, s) && s != []
    ensures Ascending(rank, s[1..])
    ensures forall y :: y in s[1..] ==> rank(s[0]) < rank(y)
  {
    forall y | y in s[1..]
      ensures rank(s[0]) < rank(y)
    {
      var k :| 0 <= k < |s[1..]| && s[1..][k] == y;
      assert s[k + 1] == y;
    }
  }

  lemma {:induction false} InsertByAscending<T>(rank: T -> int, x: T, s: seq<T>)
    requires Ascending(rank, s)
    requires forall y :: y in s ==> rank(y) != rank(x)
    ensures Ascending(rank, InsertBy(rank, x, s))
  {
    if s != [] {
      HeadIsLeast(rank, s);
      assert s == [s[0]] + s[1..] && s[0] in s;
      if rank(x) <= rank(s[0]) {
        ConsAscending(rank, x, s);
      } else {
        InsertByAscending(rank, x, s[1..]);
        InsertByMembers(rank, x, s[1..]);
        ConsAscending(rank, s[0], InsertBy(rank, x, s[1..]));
      }
    }
  }

  lemma {:induction false} SortByAscending<T>(rank: T -> int, s: seq<T>)
    requires RanksDiffer(rank, s)
    ensures Ascending(rank, SortBy(rank, s))
    ensures SameMembers(SortBy(rank, s), s)
  {
    if s != [] {
      assert s == [s[0]] + s[1..];
      SortByAscending(rank, s[1..]);
      var sorted := SortBy(rank, s[1..]);
      forall y | y in sorted
        ensures rank(y) != rank(s[0])
      {
        assert y in s[1..];
        var k :| 0 <= k < |s[1..]| && s[1..][k] == y;
        assert s[k + 1] == y;
      }
      InsertByMembers(rank, s[0], sorted);
      InsertByAscending(rank, s[0], sorted);
    }
  }

  lemma TailKeepsMembers<T>(rank: T -> int, a: seq<T>, b: seq<T>)
    requires Ascending(rank, a) && SameMembers(a, b) && a != [] && b != [] && a[0] == b[0]
    ensures forall x :: x in a[1..] ==> x in b[1..]
  {
    forall x | x in a[1..]
      ensures x in b[1..]
    {
      var k :| 0 <= k < |a[1..]| && a[1..][k] == x;
      assert a[k + 1] == x && rank(a[0]) < rank(x);
      assert x in a && x in b;
      assert b == [b[0]] + b[1..];
    }
  }

  lemma EmptyTogether<T>(a: seq<T>, b: seq<T>)
    requires SameMembers(a, b)
    ensures a == [] <==> b == []
  {
    assert a != [] ==> a[0] in a;
    assert b != [] ==> b[0] in b;
  }

  /** An ascending list is determined by its members. */
  lemma {:induction false} AscendingIsUnique<T>(rank: T -> int, a: seq<T>, b: seq<T>)
    requires Ascending(rank, a) && Ascending(rank, b)
    requires SameMembers(a, b)
    ensures a == b
  {
    EmptyTogether(a, b);
    if a != [] {
      assert a[0] in b;
      var i :| 0 <= i < |b| && b[i] == a[0];
      assert b[0] in a;
      var j :| 0 <= j < |a| && a[j] == b[0];
      assert i == 0 && j == 0;
      TailKeepsMembers(rank, a, b);
      TailKeepsMembers(rank, b, a);
      AscendingIsUnique(rank, a[1..], b[1..]);
      assert a == [a[0]] + a[1..] && b == [b[0]] + b[1..];
    }
  }

  /** Ascending non-negative ranks grow at least as fast as positions. */
  lemma {:induction false} RankAtLeastPosition<T>(rank: T -> int, s: seq<T>, i: nat)
    requires Ascending(rank, s) && i < |s|
    requires forall x :: x in s ==> 0 <= rank(x)
    ensures i <= rank(s[i])
  {
    if i > 0 {
      RankAtLeastPosition(rank, s, i - 1);
    }
  }

  lemma {:induction false} FilterAscending<T>(rank: T -> int, s: seq<T>, p: T -> bool)
    requires Ascending(rank, s)
    ensures Ascending(rank, Filter(s, p))
  {
    if s != [] {
      HeadIsLeast(rank, s);
      FilterAscending(rank, s[1..], p);
      if p(s[0]) {
        FilterMembers(s[1..], p);
        ConsAscending(rank, s[0], Filter(s[1..], p));
      }
    }
  }
}
