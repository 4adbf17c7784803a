/** A JavaScript `Map`: a Dafny `map` of the entries together with the
    order in which their keys were first inserted. `set` on a present key
    replaces the value and keeps the key's place; on a new key it appends
    the key. `delete` removes the entry. `values()` and `forEach` visit the
    entries in key order. */
module JsMap {
  import opened Js

  datatype OrderedMap<K, V> = OrderedMap(order: seq<K>, entries: map<K, V>)

  /** Every key is listed once, and the listed keys are the map's keys. */
  ghost predicate Valid<K(!new), V>(m: OrderedMap<K, V>) {
    Distinct(m.order)
    && (forall k :: k in m.entries <==> k in m.order)
  }

  function Empty<K(==,!new), V>(): (m: OrderedMap<K, V>)
    ensures Valid(m) && m.order == []
  {
    OrderedMap([], map[])
  }

  /** `m.get(k)` */
  function Get<K(==,!new), V>(m: OrderedMap<K, V>, k: K): Option<V> {
    if k in m.entries then Some(m.entries[k]) else None
  }

  /** `m.set(k, v)` */
  function Set<K(==,!new), V>(m: OrderedMap<K, V>, k: K, v: V): (r: OrderedMap<K, V>)
    requires Valid(m)
    ensures Valid(r)
    ensures r.entries == m.entries[k := v]
    ensures k in m.entries ==> r.order == m.order
    ensures k !in m.entries ==> r.order == m.order + [k]
  {
    if k in m.entries then OrderedMap(m.order, m.entries[k := v])
    else OrderedMap(m.order + [k], m.entries[k := v])
  }

  /** The keys of `s` other than `k`, in their order. */
  function Remove<K(==,!new)>(s: seq<K>, k: K): (r: seq<K>)
    ensures forall x :: x in r <==> x in s && x != k
    ensures |r| <= |s|
  {
    if s == [] then [] else (if s[0] == k then [] else [s[0]]) + Remove(s[1..], k)
  }

  ghost predicate Distinct<K>(s: seq<K>) {
    forall i, j :: 0 <= i < j < |s| ==> s[i] != s[j]
  }

  lemma {:induction false} RemoveDistinct<K(!new)>(s: seq<K>, k: K)
    requires Distinct(s)
    ensures Distinct(Remove(s, k))
  {
    if s != [] {
      RemoveDistinct(s[1..], k);
      var t := Remove(s[1..], k);
      assert s[0] !in s[1..];
      assert s[0] !in t;
      var r := Remove(s, k);
      if s[0] != k {
        assert r == [s[0]] + t;
        forall i, j | 0 <= i < j < |r| ensures r[i] != r[j] {
          if i == 0 { assert r[j] == t[j - 1]; assert r[j] in t; }
          else { assert r[i] == t[i - 1] && r[j] == t[j - 1]; }
        }
      } else {
        assert r == t;
      }
    }
  }

  /** With distinct keys, removing a key that is not listed changes
      nothing, and removing the key at index `i` drops exactly that one. */
  lemma {:induction false} RemoveAt<K(!new)>(s: seq<K>, i: nat)
    requires Distinct(s) && i < |s|
    ensures Remove(s, s[i]) == s[..i] + s[i + 1..]
  {
    if i == 0 {
      RemoveAbsent(s[1..], s[0]);
    } else {
      RemoveAt(s[1..], i - 1);
      assert s[1..][..i - 1] + s[1..][i..] == s[1..i] + s[i + 1..];
      assert s[..i] == [s[0]] + s[1..i];
    }
  }

  lemma {:induction false} RemoveAbsent<K(!new)>(s: seq<K>, k: K)
    requires k !in s
    ensures Remove(s, k) == s
  {
    if s != [] {
      RemoveAbsent(s[1..], k);
      assert s == [s[0]] + s[1..];
    }
  }

  /** `m.delete(k)` */
  function Delete<K(==,!new), V>(m: OrderedMap<K, V>, k: K): (r: OrderedMap<K, V>)
    requires Valid(m)
    ensures Valid(r)
    ensures r.entries == m.entries - {k}
    ensures r.order == Remove(m.order, k)
  {
    RemoveDistinct(m.order, k);
    OrderedMap(Remove(m.order, k), m.entries - {k})
  }

  /** `Array.from(m.values())`: the values in key order. */
  function Values<K(==,!new), V>(m: OrderedMap<K, V>): (r: seq<V>)
    requires Valid(m)
    ensures |r| == |m.order|
    ensures forall i :: 0 <= i < |r| ==> r[i] == m.entries[m.order[i]]
  {
    ValuesOf(m.order, m.entries)
  }

  function ValuesOf<K(==,!new), V>(order: seq<K>, entries: map<K, V>): (r: seq<V>)
    requires forall k :: k in order ==> k in entries
    ensures |r| == |order|
    ensures forall i :: 0 <= i < |r| ==> r[i] == entries[order[i]]
  {
    if order == [] then [] else [entries[order[0]]] + ValuesOf(order[1..], entries)
  }

  /** Overwriting a present key keeps every value's place and changes only
      the value at that key's index; a new key adds its value at the end. */
  lemma SetValues<K(!new), V>(m: OrderedMap<K, V>, k: K, v: V)
    requires Valid(m)
    ensures k !in m.entries ==> Values(Set(m, k, v)) == Values(m) + [v]
    ensures forall i :: 0 <= i < |m.order| && m.order[i] == k ==>
              Values(Set(m, k, v)) == Values(m)[i := v]
  {
  }
}
