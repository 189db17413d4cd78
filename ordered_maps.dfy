/**
 A plain JavaScript object used as a dictionary (`users`, `typingUsers`):
 assigning to a new key adds it after the existing ones, assigning to an
 existing key keeps its position, `delete` removes it, and `Object.values`
 lists the values in key order. Keys are assumed never to look like array
 indices, so the order is plain insertion order.
 */
module OrderedMaps {
  import opened Lists

  datatype OrderedMap<K(==, !new), V> = OrderedMap(keys: seq<K>, entries: map<K, V>)
  {
    /** The keys are listed once each, and exactly the keys that have an entry. */
    ghost predicate Valid() {
      && Distinct(keys)
      && (forall k :: k in entries <==> k in keys)
    }

    /** `Object.values(obj)`: one value per key, each at its key's position. */
    function Values(): (r: seq<V>)
      requires Valid()
      ensures |r| == |keys|
      ensures forall i :: 0 <= i < |keys| ==> r[i] == entries[keys[i]]
    {
      ValuesOf(keys, entries)
    }

    /** `obj[k] = v`. */
    function Put(k: K, v: V): (r: OrderedMap<K, V>)
      requires Valid()
      ensures r.Valid()
      ensures k in r.entries && r.entries[k] == v
      ensures forall j :: j != k ==> (j in r.entries <==> j in entries)
      ensures forall j :: j != k && j in entries ==> r.entries[j] == entries[j]
      ensures k in entries ==> r.keys == keys
      ensures k !in entries ==> r.keys == keys + [k]
    {
      OrderedMap(if k in entries then keys else keys + [k], entries[k := v])
    }

    /** `delete obj[k]`; a missing key is a no-op. */
    function Remove(k: K): (r: OrderedMap<K, V>)
      requires Valid()
      ensures r.Valid()
      ensures k !in r.entries
      ensures forall j :: j != k ==> (j in r.entries <==> j in entries)
      ensures forall j :: j != k && j in entries ==> r.entries[j] == entries[j]
      ensures k !in entries ==> r == this
      ensures k in entries ==>
        var i := IndexOf(keys, k);
        r.keys == keys[..i] + keys[i + 1..]
    {
      if k !in entries then this
      else
        var i := IndexOf(keys, k);
        var rest := keys[..i] + keys[i + 1..];
        RemoveAt(keys, i);
        OrderedMap(rest, entries - {k})
    }
  }

  /** The values filed under `ks`, in the order of `ks`. */
  function ValuesOf<K, V>(ks: seq<K>, entries: map<K, V>): (r: seq<V>)
    requires forall k :: k in ks ==> k in entries
    ensures |r| == |ks|
    ensures forall i :: 0 <= i < |ks| ==> r[i] == entries[ks[i]]
  {
    if ks == [] then [] else [entries[ks[0]]] + ValuesOf(ks[1..], entries)
  }

  /** Overwriting an existing key changes its value in place; a new key's value goes last. */
  lemma ValuesAfterPut<K(!new), V>(m: OrderedMap<K, V>, k: K, v: V)
    requires m.Valid()
    ensures k !in m.entries ==> m.Put(k, v).Values() == m.Values() + [v]
    ensures k in m.entries ==> m.Put(k, v).Values() == m.Values()[IndexOf(m.keys, k) := v]
  {
    var r := m.Put(k, v);
    if k in m.entries {
      var i := IndexOf(m.keys, k);
      forall j | 0 <= j < |m.keys| ensures r.Values()[j] == m.Values()[i := v][j] {
        assert m.keys[j] == k <==> j == i;
      }
    }
  }

  /** Skipping the key at `i` skips its value, whatever the other keys map to. */
  lemma ValuesOfSkip<K, V>(ks: seq<K>, entries: map<K, V>, rest: map<K, V>, i: nat)
    requires i < |ks|
    requires forall k :: k in ks ==> k in entries
    requires forall k :: k in ks[..i] + ks[i + 1..] ==> k in rest && rest[k] == entries[k]
    ensures ValuesOf(ks[..i] + ks[i + 1..], rest) == ValuesOf(ks, entries)[..i] + ValuesOf(ks, entries)[i + 1..]
  {
    var skipped := ks[..i] + ks[i + 1..];
    var vs := ValuesOf(ks, entries);
    var rs := ValuesOf(skipped, rest);
    var expected := vs[..i] + vs[i + 1..];
    forall j | 0 <= j < |rs| ensures rs[j] == expected[j] {
      var j' := if j < i then j else j + 1;
      assert skipped[j] == ks[j'] && expected[j] == vs[j'];
    }
  }

  /** Deleting a key removes its value and keeps the order of the others. */
  lemma ValuesAfterRemove<K(!new), V>(m: OrderedMap<K, V>, k: K)
    requires m.Valid()
    ensures k !in m.entries ==> m.Remove(k).Values() == m.Values()
    ensures k in m.entries ==>
      var i := IndexOf(m.keys, k);
      m.Remove(k).Values() == m.Values()[..i] + m.Values()[i + 1..]
  {
    if k in m.entries {
      var i := IndexOf(m.keys, k);
      var r := m.Remove(k);
      assert r.keys == m.keys[..i] + m.keys[i + 1..];
      forall j | j in r.keys ensures j in r.entries && r.entries[j] == m.entries[j] {
        assert j != k;
      }
      ValuesOfSkip(m.keys, m.entries, r.entries, i);
    }
  }
}
