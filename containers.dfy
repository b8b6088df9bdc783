/** The container operations the editor's registries rely on: std::map's
    find, insert and erase over Dafny maps, and a distinctness predicate for
    key lists. */
module Containers {

  datatype Option<+T> = None | Some(value: T)

  /** `m.find(k)`: the mapped value, or none when `k` is not a key. */
  function Find<K, V>(m: map<K, V>, k: K): (r: Option<V>)
    ensures r.Some? <==> k in m
    ensures r.Some? ==> r.value == m[k]
  {
    if k in m then Some(m[k]) else None
  }

  /** `m.insert(std::make_pair(k, v))`: a key that is already mapped keeps
      its value, so the first value inserted under a key wins. */
  function Insert<K, V>(m: map<K, V>, k: K, v: V): (r: map<K, V>)
    ensures r.Keys == m.Keys + {k}
    ensures k !in m ==> r[k] == v
    ensures forall j :: j in m ==> r[j] == m[j]
  {
    if k in m then m else m[k := v]
  }

  /** `m.erase(it)` for the entry of `k`; nothing happens when `k` is absent. */
  function Erase<K, V>(m: map<K, V>, k: K): (r: map<K, V>)
    ensures r.Keys == m.Keys - {k}
    ensures forall j :: j in r ==> r[j] == m[j]
  {
    m - {k}
  }

  /** No element occurs twice. */
  predicate Distinct<T(==)>(s: seq<T>)
  {
    forall i, j :: 0 <= i < j < |s| ==> s[i] != s[j]
  }

  /** `s` lists the elements of `elems`, each exactly once. */
  predicate Enumerates<T(==)>(s: seq<T>, elems: set<T>)
  {
    && Distinct(s)
    && (forall x :: x in s ==> x in elems)
    && (forall x :: x in elems ==> x in s)
  }
}
