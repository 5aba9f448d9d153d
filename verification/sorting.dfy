/** Python's stable `sorted(xs, key=key, reverse=descending)`, written as an
    insertion sort. An element is inserted in front of the first element it
    does not come strictly after, so elements with equal keys keep their input
    order in both directions, as Python guarantees. */
module Sorting {
  import opened Base

  predicate Precedes(a: real, b: real, descending: bool)
  {
    if descending then a >= b else a <= b
  }

  ghost predicate SortedBy<T>(s: seq<T>, key: T -> real, descending: bool)
  {
    forall i, j :: 0 <= i < j < |s| ==> Precedes(key(s[i]), key(s[j]), descending)
  }

  function Insert<T>(x: T, s: seq<T>, key: T -> real, descending: bool): (r: seq<T>)
    requires SortedBy(s, key, descending)
    ensures SortedBy(r, key, descending)
    ensures multiset(r) == multiset(s) + multiset{x}
    ensures |r| == |s| + 1
  {
    if s == [] then [x]
    else if Precedes(key(x), key(s[0]), descending) then
      SortedCons(x, s, key, descending);
      [x] + s
    else
      var rest := Insert(x, s[1..], key, descending);
      assert s == [s[0]] + s[1..];
      forall k | 0 <= k < |rest| ensures Precedes(key(s[0]), key(rest[k]), descending) {
        assert rest[k] in multiset(rest);
        if rest[k] != x {
          assert rest[k] in multiset(s[1..]);
        }
      }
      SortedCons(s[0], rest, key, descending);
      [s[0]] + rest
  }

  lemma SortedCons<T>(a: T, s: seq<T>, key: T -> real, descending: bool)
    requires SortedBy(s, key, descending)
    requires s != [] ==> Precedes(key(a), key(s[0]), descending)
    ensures SortedBy([a] + s, key, descending)
  {
  }

  function Sort<T>(xs: seq<T>, key: T -> real, descending: bool): (r: seq<T>)
    ensures SortedBy(r, key, descending)
    ensures multiset(r) == multiset(xs)
    ensures |r| == |xs|
  {
    if xs == [] then []
    else
      assert xs == [xs[0]] + xs[1..];
      Insert(xs[0], Sort(xs[1..], key, descending), key, descending)
  }

  lemma SortKeepsElements<T>(xs: seq<T>, key: T -> real, descending: bool)
    ensures forall x :: x in Sort(xs, key, descending) <==> x in xs
  {
    var r := Sort(xs, key, descending);
    forall x ensures x in r <==> x in xs {
      assert x in r <==> x in multiset(r);
      assert x in xs <==> x in multiset(xs);
    }
  }

  lemma SortNoDuplicates<T>(xs: seq<T>, key: T -> real, descending: bool)
    requires NoDuplicates(xs)
    ensures NoDuplicates(Sort(xs, key, descending))
  {
    var r := Sort(xs, key, descending);
    forall i, j | 0 <= i < j < |r| ensures r[i] != r[j] {
      if r[i] == r[j] {
        MultisetTwoPositions(r, i, j);
        DistinctMultiset(xs, r[i]);
      }
    }
  }

  lemma MultisetTwoPositions<T>(s: seq<T>, i: int, j: int)
    requires 0 <= i < j < |s| && s[i] == s[j]
    ensures multiset(s)[s[i]] >= 2
  {
    assert s == s[..i] + [s[i]] + s[i + 1..j] + [s[j]] + s[j + 1..];
  }

  lemma {:induction false} DistinctMultiset<T>(s: seq<T>, x: T)
    requires NoDuplicates(s)
    ensures multiset(s)[x] <= 1
  {
    if s != [] {
      assert s == [s[0]] + s[1..];
      DistinctMultiset(s[1..], x);
      if s[0] == x {
        assert x !in s[1..];
      }
    }
  }

  /** Taking `s[0:n]` of a sorted sequence keeps the best `n`: whatever is cut off
      does not come strictly before anything kept. */
  lemma PrefixOfSorted<T>(s: seq<T>, key: T -> real, descending: bool, n: int, x: T, y: T)
    requires SortedBy(s, key, descending)
    requires x in Prefix(s, n) && y in s && y !in Prefix(s, n)
    ensures Precedes(key(x), key(y), descending)
  {
    var p := Prefix(s, n);
    var i :| 0 <= i < |p| && p[i] == x;
    var j :| 0 <= j < |s| && s[j] == y;
    assert s[i] == x;
    assert i < j;
  }
}
