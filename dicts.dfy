/**
 * Python dictionaries keep their keys in insertion order; where that order is observable
 * (the per-hash results of a probe worker, the needed-media descriptor) the model uses this
 * insertion-ordered dictionary instead of Dafny's unordered `map`.
 */
module Dicts {
  import opened Common

  datatype Dict<K(==,!new), V> = Dict(items: seq<(K, V)>) {

    /** The keys in insertion order. */
    function Keys(): (ks: seq<K>)
      ensures |ks| == |items|
      ensures forall i :: 0 <= i < |items| ==> ks[i] == items[i].0
    {
      seq(|items|, i requires 0 <= i < |items| => items[i].0)
    }

    /** `k in d` */
    predicate Contains(k: K) {
      Get(k).Some?
    }

    /** `d.get(k)`: the value stored under `k`, or None. */
    function Get(k: K): Option<V> {
      Find(items, k)
    }

    /** `d[k] = v`: an existing key keeps its position, a new key goes last. */
    function Put(k: K, v: V): (d: Dict<K, V>)
      ensures d.Get(k) == Some(v)
      ensures forall k' :: k' != k ==> d.Get(k') == Get(k')
      ensures Contains(k) ==> d.Keys() == Keys()
      ensures !Contains(k) ==> d.Keys() == Keys() + [k]
    {
      if Contains(k) then
        var d := Dict(Replace(items, k, v));
        ReplaceFind(items, k, v);
        ReplaceKeys(items, k, v);
        d
      else
        var d := Dict(items + [(k, v)]);
        AppendFind(items, k, v);
        assert d.Keys() == Keys() + [k];
        d
    }

    predicate IsEmpty() {
      |items| == 0
    }
  }

  /** The value of the first entry for `k`, from the front. */
  function Find<K(==), V>(items: seq<(K, V)>, k: K): Option<V>
    decreases |items|
  {
    if items == [] then None
    else if items[0].0 == k then Some(items[0].1)
    else Find(items[1..], k)
  }

  /** The entries with the first entry for `k` given the value `v`. */
  function Replace<K(==), V>(items: seq<(K, V)>, k: K, v: V): (r: seq<(K, V)>)
    ensures |r| == |items|
    decreases |items|
  {
    if items == [] then []
    else if items[0].0 == k then [(k, v)] + items[1..]
    else [items[0]] + Replace(items[1..], k, v)
  }

  lemma {:induction false} ReplaceFind<K, V>(items: seq<(K, V)>, k: K, v: V)
    requires Find(items, k).Some?
    ensures Find(Replace(items, k, v), k) == Some(v)
    ensures forall k' :: k' != k ==> Find(Replace(items, k, v), k') == Find(items, k')
    decreases |items|
  {
    var r := Replace(items, k, v);
    if items[0].0 != k {
      ReplaceFind(items[1..], k, v);
      assert r[1..] == Replace(items[1..], k, v);
    } else {
      assert r[1..] == items[1..];
    }
  }

  lemma {:induction false} ReplaceKeys<K, V>(items: seq<(K, V)>, k: K, v: V)
    ensures forall i :: 0 <= i < |items| ==> Replace(items, k, v)[i].0 == items[i].0
    decreases |items|
  {
    if items != [] && items[0].0 != k {
      ReplaceKeys(items[1..], k, v);
      var r := Replace(items, k, v);
      forall i | 1 <= i < |items| ensures r[i].0 == items[i].0 {
        assert r[i] == Replace(items[1..], k, v)[i - 1];
      }
    }
  }

  lemma {:induction false} AppendFind<K, V>(items: seq<(K, V)>, k: K, v: V)
    requires Find(items, k).None?
    ensures Find(items + [(k, v)], k) == Some(v)
    ensures forall k' :: k' != k ==> Find(items + [(k, v)], k') == Find(items, k')
    decreases |items|
  {
    if items != [] {
      assert (items + [(k, v)])[1..] == items[1..] + [(k, v)];
      AppendFind(items[1..], k, v);
    }
  }

  /** A dictionary holds a key exactly when the key is among its keys. */
  lemma {:induction false} ContainsKey<K(!new), V>(items: seq<(K, V)>, k: K)
    ensures Find(items, k).Some? <==> k in Dict(items).Keys()
    decreases |items|
  {
    if items != [] {
      ContainsKey(items[1..], k);
      assert Dict(items).Keys() == [items[0].0] + Dict(items[1..]).Keys();
    }
  }

  /** No key occurs twice: true of every dictionary built from `Dict([])` by `Put`. */
  predicate DistinctKeys<K(==)>(ks: seq<K>) {
    forall i, j :: 0 <= i < j < |ks| ==> ks[i] != ks[j]
  }

  lemma PutKeepsDistinct<K(!new), V>(d: Dict<K, V>, k: K, v: V)
    requires DistinctKeys(d.Keys())
    ensures DistinctKeys(d.Put(k, v).Keys())
  {
    ContainsKey(d.items, k);
  }
}
