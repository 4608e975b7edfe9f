/** Printing a list item by item and concatenating the results. */
module Strings {

  function Flatten(parts: seq<string>): string {
    if parts == [] then "" else Flatten(parts[..|parts| - 1]) + parts[|parts| - 1]
  }

  lemma FlattenAppend(parts: seq<string>, part: string)
    ensures Flatten(parts + [part]) == Flatten(parts) + part
  {
    assert (parts + [part])[..|parts|] == parts;
  }

  lemma {:induction false} FlattenConcat(a: seq<string>, b: seq<string>)
    ensures Flatten(a + b) == Flatten(a) + Flatten(b)
  {
    if b == [] {
      assert a + b == a;
    } else {
      FlattenConcat(a, b[..|b| - 1]);
      assert (a + b)[..|a + b| - 1] == a + b[..|b| - 1];
    }
  }

  lemma FlattenHead(parts: seq<string>)
    requires parts != []
    ensures Flatten(parts) == parts[0] + Flatten(parts[1..])
  {
    FlattenConcat([parts[0]], parts[1..]);
    assert parts == [parts[0]] + parts[1..];
    assert [parts[0]][..0] == [];
    assert Flatten([parts[0]]) == parts[0];
  }

  ghost function Print<T>(one: T -> string, items: seq<T>): seq<string> {
    seq(|items|, i requires 0 <= i < |items| => one(items[i]))
  }

  lemma PrintConcat<T>(one: T -> string, a: seq<T>, b: seq<T>)
    ensures Flatten(Print(one, a + b)) == Flatten(Print(one, a)) + Flatten(Print(one, b))
  {
    FlattenConcat(Print(one, a), Print(one, b));
    assert Print(one, a + b) == Print(one, a) + Print(one, b);
  }

  lemma PrintTakeNext<T>(one: T -> string, items: seq<T>, i: nat)
    requires i < |items|
    ensures Flatten(Print(one, items[..i + 1])) == Flatten(Print(one, items[..i])) + one(items[i])
  {
    FlattenAppend(Print(one, items[..i]), one(items[i]));
    assert Print(one, items[..i + 1]) == Print(one, items[..i]) + [one(items[i])];
  }
}
