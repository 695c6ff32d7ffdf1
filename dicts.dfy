/**
 * Python's `dict`, which remembers the order in which keys were first
 * inserted: overwriting a key keeps its place, a new key goes last.
 * The galaxy parser depends on that order where it takes "the first item"
 * of a dictionary and where a later assignment overwrites an earlier one.
 */
module Dicts {

  datatype ODict<K(==,!new), V> = ODict(keys: seq<K>, m: map<K, V>) {

    /** The keys are listed once each, and exactly the keys of the map are listed. */
    ghost predicate Valid() {
      && (forall i, j :: 0 <= i < j < |keys| ==> keys[i] != keys[j])
      && (forall k :: k in m <==> k in keys)
    }

    /** `len(d)`. */
    function Size(): nat { |keys| }

    /** `d[k] = v`. */
    function Put(k: K, v: V): (r: ODict<K, V>)
      requires Valid()
      ensures r.Valid()
      ensures r.m == m[k := v]
      ensures r.keys == if k in m then keys else keys + [k]
    {
      if k in m then ODict(keys, m[k := v]) else ODict(keys + [k], m[k := v])
    }

    /** `list(d.values())`, in key order. */
    function Values(): (vs: seq<V>)
      requires Valid()
      ensures |vs| == |keys| && forall i :: 0 <= i < |keys| ==> vs[i] == m[keys[i]]
    {
      seq(|keys|, i requires 0 <= i < |keys| && Valid() => m[keys[i]])
    }

    /** The keys of `ks` that are not keys of this dictionary, in order. */
    function NewKeys(ks: seq<K>): (r: seq<K>)
      ensures forall x :: x in r <==> x in ks && x !in m
      ensures (forall i, j :: 0 <= i < j < |ks| ==> ks[i] != ks[j]) ==>
              forall i, j :: 0 <= i < j < |r| ==> r[i] != r[j]
    {
      if ks == [] then []
      else (if ks[0] in m then [] else [ks[0]]) + NewKeys(ks[1..])
    }

    /** `d |= e`: every pair of `e` is put into `d`; keys new to `d` go last, in `e`'s order. */
    function Update(e: ODict<K, V>): (r: ODict<K, V>)
      requires Valid() && e.Valid()
      ensures r.Valid()
      ensures r.m == m + e.m
      ensures |keys| <= |r.keys| && r.keys[..|keys|] == keys
      ensures r.keys[|keys|..] == NewKeys(e.keys)
    {
      var added := NewKeys(e.keys);
      var r := ODict(keys + added, m + e.m);
      assert r.Valid() by {
        forall i, j | 0 <= i < j < |r.keys| ensures r.keys[i] != r.keys[j] {
          if j >= |keys| {
            assert r.keys[j] == added[j - |keys|];
            if i < |keys| {
              assert r.keys[i] == keys[i] && keys[i] in m;
            } else {
              assert r.keys[i] == added[i - |keys|];
            }
          }
        }
        forall k ensures k in r.m <==> k in r.keys {
          assert k in r.keys <==> k in keys || k in added;
        }
      }
      assert r.keys[..|keys|] == keys;
      r
    }
  }

  function Empty<K(==,!new), V>(): (d: ODict<K, V>)
    ensures d.Valid() && d.keys == []
  {
    ODict([], map[])
  }

  /** `{k: v}`. */
  function Singleton<K(==,!new), V>(k: K, v: V): (d: ODict<K, V>)
    ensures d.Valid() && d.keys == [k] && d.m == map[k := v]
  {
    ODict([k], map[k := v])
  }
}
