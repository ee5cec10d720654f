/** Python dictionaries with string keys, which remember the order keys were first stored in. */
module Dicts {
  /** A `dict` with string keys: its entries, and its keys in insertion order. */
  datatype Dict<V> = Dict(keys: seq<string>, entries: map<string, V>)
  {
    /** Each key once, and the key list and the entries agree. */
    ghost predicate Valid() {
      && (forall i, j :: 0 <= i < j < |keys| ==> keys[i] != keys[j])
      && (forall k :: k in entries <==> k in keys)
    }
  }

  /** `d[k] = v`: a new key goes to the end, an existing key keeps its place. */
  function Store<V>(d: Dict<V>, k: string, v: V): (r: Dict<V>)
    ensures r.entries == d.entries[k := v]
    ensures d.Valid() ==> r.Valid() && r.keys == if k in d.keys then d.keys else d.keys + [k]
  {
    if k in d.entries then Dict(d.keys, d.entries[k := v]) else Dict(d.keys + [k], d.entries[k := v])
  }

  /** The elements of `s` in order of first occurrence, as the keys of a `dict` filled from `s`. */
  function Distinct(s: seq<string>): seq<string> {
    if s == [] then []
    else
      var d := Distinct(s[..|s| - 1]);
      if s[|s| - 1] in d then d else d + [s[|s| - 1]]
  }

  /** `Distinct` keeps every element once and nothing else. */
  lemma {:induction false} DistinctSpec(s: seq<string>)
    ensures forall x :: x in Distinct(s) <==> x in s
    ensures forall i, j :: 0 <= i < j < |Distinct(s)| ==> Distinct(s)[i] != Distinct(s)[j]
    decreases |s|
  {
    if s != [] {
      var init := s[..|s| - 1];
      DistinctSpec(init);
      assert s == init + [s[|s| - 1]];
    }
  }
}
