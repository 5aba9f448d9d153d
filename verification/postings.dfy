/** The set-valued inverted index of hw3.py, word by word: the inner loop of
    `create_inverted_index`, which adds one text position under every token. */
module Postings {
  import opened Base
  import opened Dicts

  type SetIndex = Dict<string, set<int>>

  /** One step of the inner loop of `create_inverted_index`. */
  function AddPosition(index: SetIndex, w: string, i: int): (r: SetIndex)
    requires index.Valid()
    ensures r.Valid()
    ensures r.m == index.m[w := index.GetOr(w, {}) + {i}]
    ensures r.keys == if w in index.m then index.keys else index.keys + [w]
  {
    if w in index.m then index.Put(w, index.m[w] + {i})
    else
      assert index.GetOr(w, {}) + {i} == {i};
      index.Put(w, {i})
  }

  /** What the inner loop has built after the tokens `seen`, starting from `index`
      whose keys are the distinct words of `done`. */
  ghost predicate AddedPositions(r: SetIndex, index: SetIndex, i: int, done: seq<string>, seen: seq<string>)
  {
    && r.Valid()
    && r.keys == Distinct(done + seen)
    && (forall w :: w in r.m <==> w in done || w in seen)
    && (forall w :: w in r.m ==> r.m[w] == index.GetOr(w, {}) + (if w in seen then {i} else {}))
  }

  lemma AddPositionKeys(r: SetIndex, done: seq<string>, seen: seq<string>, w: string, i: int)
    requires r.Valid()
    requires r.keys == Distinct(done + seen)
    ensures AddPosition(r, w, i).keys == Distinct(done + (seen + [w]))
  {
    assert done + (seen + [w]) == (done + seen) + [w];
    DistinctAppend(done + seen, w);
    KeysCoverMap(r);
  }

  lemma AddPositionValue(r: SetIndex, index: SetIndex, i: int, seen: seq<string>, w: string, v: string)
    requires r.Valid()
    requires v in AddPosition(r, w, i).m
    requires v in r.m ==> r.m[v] == index.GetOr(v, {}) + (if v in seen then {i} else {})
    requires v !in r.m ==> v !in index.m
    ensures AddPosition(r, w, i).m[v] == index.GetOr(v, {}) + (if v in seen + [w] then {i} else {})
  {
    assert v in seen + [w] <==> v in seen || v == w;
    if v == w {
      if w in r.m {
        assert AddPosition(r, w, i).m[v] == r.m[w] + {i};
      } else {
        assert AddPosition(r, w, i).m[v] == {i};
      }
    } else {
      assert AddPosition(r, w, i).m[v] == r.m[v];
    }
  }

  lemma AddPositionValues(r: SetIndex, index: SetIndex, i: int, done: seq<string>, seen: seq<string>, w: string)
    requires AddedPositions(r, index, i, done, seen)
    requires forall v :: v in index.m <==> v in done
    ensures forall v :: v in AddPosition(r, w, i).m ==>
              AddPosition(r, w, i).m[v] == index.GetOr(v, {}) + (if v in seen + [w] then {i} else {})
  {
    forall v | v in AddPosition(r, w, i).m
      ensures AddPosition(r, w, i).m[v] == index.GetOr(v, {}) + (if v in seen + [w] then {i} else {})
    {
      AddPositionValue(r, index, i, seen, w, v);
    }
  }

  lemma AddPositionStep(r: SetIndex, index: SetIndex, i: int, done: seq<string>, tokens: seq<string>, j: int)
    requires 0 <= j < |tokens|
    requires AddedPositions(r, index, i, done, tokens[..j])
    requires forall v :: v in index.m <==> v in done
    ensures AddedPositions(AddPosition(r, tokens[j], i), index, i, done, tokens[..j + 1])
  {
    assert tokens[..j + 1] == tokens[..j] + [tokens[j]];
    AddPositionKeeps(r, index, i, done, tokens[..j], tokens[j]);
  }

  lemma AddPositionKeeps(r: SetIndex, index: SetIndex, i: int, done: seq<string>, seen: seq<string>, w: string)
    requires AddedPositions(r, index, i, done, seen)
    requires forall v :: v in index.m <==> v in done
    ensures AddedPositions(AddPosition(r, w, i), index, i, done, seen + [w])
  {
    var r' := AddPosition(r, w, i);
    AddPositionKeys(r, done, seen, w, i);
    AddPositionValues(r, index, i, done, seen, w);
    forall v ensures v in r'.m <==> v in done || v in seen + [w] {
      assert v in seen + [w] <==> v in seen || v == w;
    }
  }

  lemma AddedPositionsStart(index: SetIndex, i: int, done: seq<string>, tokens: seq<string>)
    requires index.Valid()
    requires index.keys == Distinct(done)
    requires forall w :: w in index.m <==> w in done
    ensures AddedPositions(index, index, i, done, tokens[..0])
  {
    assert done + tokens[..0] == done;
  }

  /** The inner loop of `create_inverted_index`: add position `i` under every token of one text. */
  method AddText(index: SetIndex, i: int, tokens: seq<string>, ghost done: seq<string>)
    returns (r: SetIndex)
    requires index.Valid()
    requires index.keys == Distinct(done)
    requires forall w :: w in index.m <==> w in done
    ensures AddedPositions(r, index, i, done, tokens)
  {
    r := index;
    var j := 0;
    AddedPositionsStart(index, i, done, tokens);
    while j < |tokens|
      invariant 0 <= j <= |tokens|
      invariant AddedPositions(r, index, i, done, tokens[..j])
    {
      AddPositionStep(r, index, i, done, tokens, j);
      r := AddPosition(r, tokens[j], i);
      j := j + 1;
    }
    assert tokens[..j] == tokens;
  }

}
