/** A Python `dict` (and `collections.Counter`): a finite map together with the
    insertion order of its keys, which is the order in which the dict is
    iterated. Assigning to an existing key keeps its position; a new key goes
    to the end. */
module Dicts {
  import opened Base

  datatype Dict<K, V> = Dict(keys: seq<K>, m: map<K, V>)
  {
    /** The key sequence lists every key of the map exactly once. */
    ghost predicate Valid()
    {
      && NoDuplicates(keys)
      && (forall i :: 0 <= i < |keys| ==> keys[i] in m)
      && |keys| == |m|
    }

    /** `d[k]` with the KeyError path as `None`. */
    function Get(k: K): (r: Option<V>)
      ensures r.Some? <==> k in m
      ensures r.Some? ==> r.value == m[k]
    {
      if k in m then Some(m[k]) else None
    }

    /** `d.get(k, default)`, also what `defaultdict` and `Counter` read for a missing key. */
    function GetOr(k: K, default: V): (r: V)
      ensures k in m ==> r == m[k]
      ensures k !in m ==> r == default
    {
      if k in m then m[k] else default
    }

    /** `d[k] = v`. */
    function Put(k: K, v: V): (r: Dict<K, V>)
      requires Valid()
      ensures r.Valid()
      ensures r.m == m[k := v]
      ensures r.keys == if k in m then keys else keys + [k]
    {
      if k in m then Dict(keys, m[k := v]) else Dict(keys + [k], m[k := v])
    }

    /** `list(d.items())`. */
    function Items(): (r: seq<(K, V)>)
      requires forall i :: 0 <= i < |keys| ==> keys[i] in m
      ensures |r| == |keys|
      ensures forall i :: 0 <= i < |r| ==> r[i] == (keys[i], m[keys[i]])
    {
      seq(|keys|, i requires 0 <= i < |keys| => (keys[i], m[keys[i]]))
    }

    /** `list(d.values())`, in iteration order. */
    function Values(): (r: seq<V>)
      requires forall i :: 0 <= i < |keys| ==> keys[i] in m
      ensures |r| == |keys|
      ensures forall i :: 0 <= i < |r| ==> r[i] == m[keys[i]]
    {
      seq(|keys|, i requires 0 <= i < |keys| => m[keys[i]])
    }
  }

  function Empty<K, V>(): (r: Dict<K, V>)
    ensures r.Valid()
    ensures r.keys == [] && r.m == map[]
  {
    Dict([], map[])
  }

  /** In a valid dict, the key sequence and the map have the same keys. */
  lemma KeysCoverMap<K, V>(d: Dict<K, V>)
    requires d.Valid()
    ensures forall k :: k in d.m <==> k in d.keys
  {
    var ks := set i | 0 <= i < |d.keys| :: d.keys[i];
    assert ks <= d.m.Keys;
    DistinctCard(d.keys);
    assert |ks| == |d.m.Keys|;
    SubsetSameCard(ks, d.m.Keys);
    forall k | k in d.m ensures k in d.keys {
      assert k in ks;
    }
  }

  lemma {:induction false} DistinctCard<K>(s: seq<K>)
    requires NoDuplicates(s)
    ensures |set i | 0 <= i < |s| :: s[i]| == |s|
  {
    if s != [] {
      var s' := s[..|s| - 1];
      DistinctCard(s');
      var a := set i | 0 <= i < |s'| :: s'[i];
      var b := set i | 0 <= i < |s| :: s[i];
      assert b == a + {s[|s| - 1]};
      assert s[|s| - 1] !in a;
    }
  }

  lemma SubsetSameCard<K>(a: set<K>, b: set<K>)
    requires a <= b && |a| == |b|
    ensures a == b
  {
    var rest := b - a;
    assert b == a + rest;
    assert a * rest == {};
    assert |rest| == 0;
    forall x | x in b ensures x in a {
      assert x !in rest;
    }
  }

  /** `dict(items)`: later items overwrite earlier ones with the same key. */
  function FromItems<K, V>(items: seq<(K, V)>): (r: Dict<K, V>)
    ensures r.Valid()
    ensures forall i :: 0 <= i < |items| ==> items[i].0 in r.m
  {
    if items == [] then Empty()
    else
      var last := items[|items| - 1];
      FromItems(items[..|items| - 1]).Put(last.0, last.1)
  }

  /** The dict without its last-inserted key. */
  function DropLast<K, V>(d: Dict<K, V>): (r: Dict<K, V>)
    requires d.Valid() && d.keys != []
    ensures r.Valid()
    ensures r.keys == d.keys[..|d.keys| - 1]
    ensures r.m == d.m - {d.keys[|d.keys| - 1]}
    ensures d.keys[|d.keys| - 1] !in r.m
  {
    var n := |d.keys|;
    var k := d.keys[n - 1];
    KeysCoverMap(d);
    var r := Dict(d.keys[..n - 1], d.m - {k});
    assert forall i :: 0 <= i < n - 1 ==> r.keys[i] != k;
    assert d.m.Keys == r.m.Keys + {k};
    r
  }

  /** Iterating a dict and rebuilding it from its items gives the same dict back. */
  lemma {:induction false} FromItemsOfItems<K, V>(d: Dict<K, V>)
    requires d.Valid()
    ensures FromItems(d.Items()) == d
    decreases |d.keys|
  {
    if d.keys != [] {
      var n := |d.keys|;
      var k := d.keys[n - 1];
      var d' := DropLast(d);
      FromItemsOfItems(d');
      assert d.Items()[..n - 1] == d'.Items();
      assert d'.keys + [k] == d.keys;
      assert d'.m[k := d.m[k]] == d.m;
    }
  }
}
