/** Python dictionaries as the converter uses them: insertion-ordered,
    where assigning to a present key replaces its value in place and
    assigning to an absent key appends it. */
module Dicts {

  datatype Option<T> = None | Some(value: T)
  {
    function GetOr(default: T): T
    {
      match this
      case Some(v) => v
      case None => default
    }
  }

  /** Entries in insertion order. */
  type Dict<K(==), V> = seq<(K, V)>

  predicate Distinct<K(==)>(s: seq<K>)
  {
    forall i, j :: 0 <= i < j < |s| ==> s[i] != s[j]
  }

  /** The keys in insertion order (what iterating the dict yields). */
  function Keys<K(==), V>(d: Dict<K, V>): (ks: seq<K>)
    ensures |ks| == |d|
  {
    if d == [] then [] else [d[0].0] + Keys(d[1..])
  }

  /** `d.get(k)`: the value stored under `k`, if any. */
  function Get<K(==), V>(d: Dict<K, V>, k: K): (r: Option<V>)
    ensures r.None? <==> k !in Keys(d)
  {
    if d == [] then None
    else if d[0].0 == k then Some(d[0].1)
    else Get(d[1..], k)
  }

  /** `d[k] = v`. */
  function Put<K(==), V>(d: Dict<K, V>, k: K, v: V): Dict<K, V>
  {
    if d == [] then [(k, v)]
    else if d[0].0 == k then [(k, v)] + d[1..]
    else [d[0]] + Put(d[1..], k, v)
  }

  /** `d[k] = v` keeps the key order and appends `k` when it is new. */
  lemma {:induction false} KeysPut<K, V>(d: Dict<K, V>, k: K, v: V)
    ensures Keys(Put(d, k, v)) == if k in Keys(d) then Keys(d) else Keys(d) + [k]
  {
    if d != [] && d[0].0 != k {
      KeysPut(d[1..], k, v);
      var rest := Put(d[1..], k, v);
      assert Put(d, k, v) == [d[0]] + rest;
      assert ([d[0]] + rest)[1..] == rest;
      assert Keys(d) == [d[0].0] + Keys(d[1..]);
    }
  }

  /** The key order after `d[k] = v` on a dict whose keys are `ks`. */
  function AddKey<K(==)>(ks: seq<K>, k: K): seq<K>
  {
    if k in ks then ks else ks + [k]
  }

  /** The key order after assigning to each of `added` in turn. */
  function AddKeys<K(==)>(ks: seq<K>, added: seq<K>): seq<K>
    decreases |added|
  {
    if added == [] then ks else AddKeys(AddKey(ks, added[0]), added[1..])
  }

  /** Assigning to each of `added` in turn keeps the keys distinct, keeps the
      old keys as a prefix and adds exactly the assigned keys. */
  lemma {:induction false} AddKeysExtends<K>(ks: seq<K>, added: seq<K>)
    requires Distinct(ks)
    ensures Distinct(AddKeys(ks, added))
    ensures ks <= AddKeys(ks, added)
    ensures forall x :: x in AddKeys(ks, added) <==> x in ks || x in added
    decreases |added|
  {
    if added != [] {
      var once := AddKey(ks, added[0]);
      AddKeysExtends(once, added[1..]);
      PrefixTransitive(ks, once, AddKeys(ks, added));
      assert added == [added[0]] + added[1..];
    }
  }

  /** After `d[k] = v`, `k` maps to `v` and every other key keeps its value. */
  lemma {:induction false} GetPut<K, V>(d: Dict<K, V>, k: K, v: V, q: K)
    ensures Get(Put(d, k, v), q) == if q == k then Some(v) else Get(d, q)
  {
    if d != [] && d[0].0 != k {
      GetPut(d[1..], k, v, q);
      assert Put(d, k, v)[1..] == Put(d[1..], k, v);
    }
  }

  /** Assignment never creates a second entry for a key. */
  lemma PutKeepsKeysDistinct<K, V>(d: Dict<K, V>, k: K, v: V)
    requires Distinct(Keys(d))
    ensures Distinct(Keys(Put(d, k, v)))
    ensures Keys(d) <= Keys(Put(d, k, v))
    ensures forall x :: x in Keys(Put(d, k, v)) <==> x in Keys(d) || x == k
  {
    KeysPut(d, k, v);
  }

  lemma PrefixTransitive<T>(a: seq<T>, b: seq<T>, c: seq<T>)
    requires a <= b && b <= c
    ensures a <= c
  {
    assert a == b[..|a|] == c[..|b|][..|a|] == c[..|a|];
  }

  /** The sum of the values of a counting dictionary. */
  function Total<K(==)>(d: Dict<K, nat>): nat
  {
    if d == [] then 0 else d[0].1 + Total(d[1..])
  }

  /** Assigning `v` to `k` changes the total by `v` minus the value it replaces. */
  lemma {:induction false} PutTotal<K>(d: Dict<K, nat>, k: K, v: nat)
    ensures Total(Put(d, k, v)) == Total(d) - Get(d, k).GetOr(0) + v
  {
    if d != [] && d[0].0 != k {
      PutTotal(d[1..], k, v);
      assert Put(d, k, v)[1..] == Put(d[1..], k, v);
    }
  }
}
