/** Small sequence utilities shared by the whole model: an option type for the
    source's KeyError paths, occurrence counting, first-occurrence
    de-duplication (the key order of a Python dict filled from a sequence),
    flattening, and Python's `s[0:n]` slice. */
module Base {

  datatype Option<+T> = None | Some(value: T)

  /** Number of occurrences of `x` in `s`, i.e. `collections.Counter(s)[x]`. */
  function Count<T(==)>(s: seq<T>, x: T): nat
  {
    multiset(s)[x]
  }

  predicate NoDuplicates<T(==)>(s: seq<T>)
  {
    forall i, j :: 0 <= i < j < |s| ==> s[i] != s[j]
  }

  /** The distinct elements of `s` in order of first occurrence. */
  function Distinct<T(==,!new)>(s: seq<T>): (r: seq<T>)
    ensures NoDuplicates(r)
    ensures forall x :: x in r <==> x in s
    ensures |r| <= |s|
  {
    if s == [] then []
    else
      var r := Distinct(s[..|s| - 1]);
      if s[|s| - 1] in r then r else r + [s[|s| - 1]]
  }

  lemma DistinctAppend<T(!new)>(s: seq<T>, x: T)
    ensures Distinct(s + [x]) == if x in Distinct(s) then Distinct(s) else Distinct(s) + [x]
  {
    assert (s + [x])[..|s + [x]| - 1] == s;
  }

  /** The first components of a list of pairs, in order: the terms of
      `(term, tf)` pairs, or the document ids of a posting list. */
  function Firsts<A, B>(ps: seq<(A, B)>): (r: seq<A>)
    ensures |r| == |ps|
    ensures forall i :: 0 <= i < |r| ==> r[i] == ps[i].0
  {
    seq(|ps|, i requires 0 <= i < |ps| => ps[i].0)
  }

  /** Concatenation of a sequence of sequences. */
  function Flatten<T>(ss: seq<seq<T>>): (r: seq<T>)
    ensures |ss| == 0 ==> r == []
  {
    if ss == [] then [] else ss[0] + Flatten(ss[1..])
  }

  lemma FlattenAppend<T>(a: seq<seq<T>>, b: seq<seq<T>>)
    ensures Flatten(a + b) == Flatten(a) + Flatten(b)
  {
    if a != [] {
      assert (a + b)[1..] == a[1..] + b;
      FlattenAppend(a[1..], b);
    } else {
      assert a + b == b;
    }
  }

  /** Python's `s[0:n]`: a negative `n` counts from the end of `s`. */
  function Prefix<T>(s: seq<T>, n: int): (r: seq<T>)
    ensures r <= s
    ensures n >= 0 ==> |r| == if n < |s| then n else |s|
    ensures n < 0 ==> |r| == if |s| + n > 0 then |s| + n else 0
  {
    if n >= |s| then s
    else if n >= 0 then s[..n]
    else if |s| + n > 0 then s[..|s| + n]
    else []
  }

  /** Growing a slice by one element adds exactly that element. */
  lemma SliceGrows<T>(s: seq<T>, k: int)
    requires 0 <= k < |s|
    ensures s[..k + 1] == s[..k] + [s[k]]
    ensures forall x :: x in s[..k + 1] <==> x in s[..k] || x == s[k]
  {
    assert s[..k + 1] == s[..k] + [s[k]];
  }

  lemma PrefixNoDuplicates<T>(s: seq<T>, n: int)
    requires NoDuplicates(s)
    ensures NoDuplicates(Prefix(s, n))
  {
  }

  /** Sum of integers. */
  function IntSum(xs: seq<int>): int
  {
    if xs == [] then 0 else IntSum(xs[..|xs| - 1]) + xs[|xs| - 1]
  }

  lemma {:induction false} IntSumAppend(a: seq<int>, b: seq<int>)
    ensures IntSum(a + b) == IntSum(a) + IntSum(b)
    decreases |b|
  {
    if b == [] {
      assert a + b == a;
    } else {
      assert (a + b)[..|a + b| - 1] == a + b[..|b| - 1];
      IntSumAppend(a, b[..|b| - 1]);
    }
  }

  /** Replacing one element changes the sum by the difference. */
  lemma {:induction false} IntSumUpdate(xs: seq<int>, p: nat, v: int)
    requires p < |xs|
    ensures IntSum(xs[p := v]) == IntSum(xs) - xs[p] + v
    decreases |xs|
  {
    var n := |xs|;
    var ys := xs[p := v];
    if p < n - 1 {
      assert ys[..n - 1] == xs[..n - 1][p := v];
      IntSumUpdate(xs[..n - 1], p, v);
    } else {
      assert ys[..n - 1] == xs[..n - 1];
    }
  }
}
