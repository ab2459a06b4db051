/** A JavaScript `Map`: values by key, iterated in the order in which their keys were first set. */
module InsertionMap {

  ghost predicate Distinct<T>(s: seq<T>) {
    forall i, j :: 0 <= i < j < |s| ==> s[i] != s[j]
  }

  datatype InsertionMap<K(==), V> = InsertionMap(keys: seq<K>, vals: map<K, V>) {

    ghost predicate Valid() {
      && Distinct(keys)
      && vals.Keys == (set k | k in keys)
    }

    predicate Has(k: K) {
      k in vals
    }

    /** Setting a key that is there keeps its place and replaces its value. */
    function Set(k: K, v: V): InsertionMap<K, V> {
      InsertionMap(if k in vals then keys else keys + [k], vals[k := v])
    }

    function Delete(k: K): InsertionMap<K, V> {
      InsertionMap(Without(keys, k), vals - {k})
    }

    function DeleteAll(ks: seq<K>): InsertionMap<K, V>
      decreases |ks|
    {
      if ks == [] then this else DeleteAll(ks[..|ks| - 1]).Delete(ks[|ks| - 1])
    }

    /** `[...map.values()]` */
    function Values(): (vs: seq<V>)
      requires Valid()
      ensures |vs| == |keys|
      ensures forall i :: 0 <= i < |keys| ==> vs[i] == vals[keys[i]]
    {
      seq(|keys|, i requires 0 <= i < |keys| => vals[keys[i]])
    }
  }

  function Empty<K, V>(): InsertionMap<K, V> {
    InsertionMap([], map[])
  }

  function Without<K(==)>(keys: seq<K>, k: K): seq<K> {
    if keys == [] then [] else (if keys[0] == k then [] else [keys[0]]) + Without(keys[1..], k)
  }

  lemma {:induction false} WithoutAbsent<K>(keys: seq<K>, k: K)
    requires k !in keys
    ensures Without(keys, k) == keys
  {
    if keys != [] {
      WithoutAbsent(keys[1..], k);
    }
  }

  lemma {:induction false} WithoutElements<K>(keys: seq<K>, k: K, x: K)
    ensures x in Without(keys, k) <==> x in keys && x != k
  {
    if keys != [] {
      WithoutElements(keys[1..], k, x);
    }
  }

  lemma {:induction false} WithoutDistinct<K>(keys: seq<K>, k: K)
    requires Distinct(keys)
    ensures Distinct(Without(keys, k))
  {
    if keys != [] {
      WithoutDistinct(keys[1..], k);
      WithoutElements(keys[1..], k, keys[0]);
      assert keys[0] !in keys[1..];
    }
  }

  lemma SetValid<K, V>(m: InsertionMap<K, V>, k: K, v: V)
    requires m.Valid()
    ensures m.Set(k, v).Valid()
  {
  }

  lemma DeleteValid<K, V>(m: InsertionMap<K, V>, k: K)
    requires m.Valid()
    ensures m.Delete(k).Valid()
  {
    WithoutDistinct(m.keys, k);
    forall x | x in m.keys ensures x in Without(m.keys, k) <==> x != k {
      WithoutElements(m.keys, k, x);
    }
    forall x | x in Without(m.keys, k) ensures x in m.keys {
      WithoutElements(m.keys, k, x);
    }
  }

  /** Deleting the first keys, one after the other, leaves exactly the rest, in order and with their values. */
  lemma {:induction false} DeletePrefix<K, V>(m: InsertionMap<K, V>, n: nat)
    requires m.Valid() && n <= |m.keys|
    ensures var r := m.DeleteAll(m.keys[..n]);
      && r.Valid() && r.keys == m.keys[n..]
      && forall k :: k in r.vals ==> k in m.vals && r.vals[k] == m.vals[k]
  {
    if n > 0 {
      var k := m.keys[n - 1];
      assert m.keys[..n][..n - 1] == m.keys[..n - 1];
      DeletePrefix(m, n - 1);
      var before := m.DeleteAll(m.keys[..n - 1]);
      assert before.keys[0] == k && before.keys[1..] == m.keys[n..];
      assert k !in m.keys[n..];
      WithoutAbsent(m.keys[n..], k);
      assert Without(before.keys, k) == m.keys[n..];
      DeleteValid(before, k);
      hide Distinct, Without;
      assert m.DeleteAll(m.keys[..n]) == before.Delete(k);
    }
  }

  lemma DeletePrefixValues<K, V>(m: InsertionMap<K, V>, n: nat)
    requires m.Valid() && n <= |m.keys|
    ensures m.DeleteAll(m.keys[..n]).Valid() && m.DeleteAll(m.keys[..n]).Values() == m.Values()[n..]
  {
    DeletePrefix(m, n);
    var r := m.DeleteAll(m.keys[..n]);
    forall i | 0 <= i < |r.keys| ensures r.Values()[i] == m.Values()[n..][i] {
      assert r.keys[i] in r.vals;
    }
  }
}
