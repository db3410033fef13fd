/** Ordering rows by a timestamp column, as `ORDER BY created_at DESC` (or
    `ASC`) does. Rows are identified by their primary key; `key` maps each key
    to the value sorted on. Ascending order is descending order on the
    negated key. The order among rows with equal keys is not promised. */
module Sorting {

  /** Every element of `xs` has a sort key. */
  predicate Keyed(xs: seq<nat>, key: map<nat, int>) {
    forall i | 0 <= i < |xs| :: xs[i] in key
  }

  /** Keys never increase from left to right. */
  ghost predicate SortedDesc(xs: seq<nat>, key: map<nat, int>)
    requires Keyed(xs, key)
  {
    forall i, j | 0 <= i < j < |xs| :: key[xs[i]] >= key[xs[j]]
  }

  /** Inserts `x` into a list already sorted by `key`, in front of the first
      element whose key is not larger. */
  function Insert(x: nat, xs: seq<nat>, key: map<nat, int>): (r: seq<nat>)
    requires x in key && Keyed(xs, key) && SortedDesc(xs, key)
    ensures Keyed(r, key)
    ensures multiset(r) == multiset(xs) + multiset{x}
    ensures SortedDesc(r, key)
  {
    if xs == [] || key[x] >= key[xs[0]] then
      [x] + xs
    else
      var rest := Insert(x, xs[1..], key);
      assert xs == [xs[0]] + xs[1..];
      ConsSorted(xs[0], rest, key);
      [xs[0]] + rest
  }

  /** A key no smaller than the head of a sorted list can go in front. */
  lemma ConsSorted(y: nat, rest: seq<nat>, key: map<nat, int>)
    requires y in key && Keyed(rest, key) && SortedDesc(rest, key)
    requires rest != [] ==> key[rest[0]] <= key[y]
    ensures Keyed([y] + rest, key)
    ensures SortedDesc([y] + rest, key)
  {
    var r := [y] + rest;
    forall i, j | 0 <= i < j < |r|
      ensures key[r[i]] >= key[r[j]]
    {
      if i == 0 {
        assert r[j] == rest[j - 1];
        assert key[rest[0]] >= key[rest[j - 1]];
      } else {
        assert r[i] == rest[i - 1] && r[j] == rest[j - 1];
      }
    }
  }

  /** Insertion sort by `key`, largest key first. */
  function SortDesc(xs: seq<nat>, key: map<nat, int>): (r: seq<nat>)
    requires Keyed(xs, key)
    ensures Keyed(r, key)
    ensures multiset(r) == multiset(xs)
    ensures SortedDesc(r, key)
  {
    if xs == [] then []
    else
      assert xs == [xs[0]] + xs[1..];
      Insert(xs[0], SortDesc(xs[1..], key), key)
  }

  /** Lists the elements of a finite set, each exactly once, in no
      particular order. */
  method Enumerate(s: set<nat>) returns (xs: seq<nat>)
    ensures multiset(xs) == multiset(s)
  {
    xs := [];
    var rest := s;
    while rest != {}
      invariant rest <= s
      invariant multiset(xs) + multiset(rest) == multiset(s)
      decreases |rest|
    {
      var k :| k in rest;
      assert multiset(rest) == multiset(rest - {k}) + multiset{k};
      xs := xs + [k];
      rest := rest - {k};
    }
  }
}
