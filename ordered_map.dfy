/**
 * A JavaScript `Map` with value semantics: the keys in insertion order plus
 * the value stored for each key. `Set` on a present key keeps that key's
 * position; `Set` on an absent key appends it; `Delete` removes it and keeps
 * the order of the others.
 */
module OrderedMaps {

  /** Position of `x` in `s`. */
  function IndexOf<K(==)>(s: seq<K>, x: K): (i: nat)
    requires x in s
    ensures i < |s| && s[i] == x
    ensures forall j :: 0 <= j < i ==> s[j] != x
  {
    if s[0] == x then 0 else 1 + IndexOf(s[1..], x)
  }

  ghost predicate Distinct<K>(s: seq<K>)
  {
    forall i, j :: 0 <= i < j < |s| ==> s[i] != s[j]
  }

  datatype OrderedMap<K(==, !new), V> = OrderedMap(keys: seq<K>, values: map<K, V>) {

    /** Every key occurs once in the order, and the order lists exactly the stored keys. */
    ghost predicate Valid()
    {
      && Distinct(keys)
      && forall k :: k in values <==> k in keys
    }

    predicate Has(k: K)
    {
      k in values
    }

    function Size(): nat
    {
      |keys|
    }

    /** Map.prototype.set */
    function Set(k: K, v: V): (r: OrderedMap<K, V>)
      requires Valid()
      ensures r.Valid()
      ensures r.Has(k) && r.values[k] == v
      ensures forall j :: j != k ==> (r.Has(j) <==> Has(j))
      ensures forall j :: j != k && j in values ==> j in r.values && r.values[j] == values[j]
      ensures Has(k) ==> r.keys == keys
      ensures !Has(k) ==> r.keys == keys + [k]
    {
      OrderedMap(if k in values then keys else keys + [k], values[k := v])
    }

    /** Map.prototype.delete */
    function Delete(k: K): (r: OrderedMap<K, V>)
      requires Valid()
      ensures r.Valid()
      ensures !r.Has(k)
      ensures forall j :: j != k ==> (r.Has(j) <==> Has(j))
      ensures forall j :: j != k && j in values ==> j in r.values && r.values[j] == values[j]
      ensures !Has(k) ==> r == this
      ensures Has(k) ==> |r.keys| == |keys| - 1
      ensures Has(k) ==> exists i :: 0 <= i < |keys| && keys[i] == k && r.keys == keys[..i] + keys[i + 1..]
    {
      if k !in values then this
      else
        var i := IndexOf(keys, k);
        RemoveAt(keys, i);
        OrderedMap(keys[..i] + keys[i + 1..], values - {k})
    }
  }

  /** Removing position `i` of a duplicate-free order removes exactly its key. */
  lemma RemoveAt<K>(keys: seq<K>, i: nat)
    requires Distinct(keys) && i < |keys|
    ensures var rest := keys[..i] + keys[i + 1..];
      && |rest| == |keys| - 1
      && Distinct(rest)
      && forall j :: j in rest <==> j in keys && j != keys[i]
  {
    var rest := keys[..i] + keys[i + 1..];
    assert forall a :: 0 <= a < |rest| ==> rest[a] == keys[if a < i then a else a + 1];
    forall j | j in keys && j != keys[i] ensures j in rest {
      var a :| 0 <= a < |keys| && keys[a] == j;
      if a < i { assert rest[a] == j; } else { assert rest[a - 1] == j; }
    }
  }

  function Empty<K(==, !new), V>(): (r: OrderedMap<K, V>)
    ensures r.Valid() && r.Size() == 0
    ensures forall k :: !r.Has(k)
  {
    OrderedMap([], map[])
  }

  /** `size == 0` exactly when no key is stored. */
  lemma SizeZeroIffEmpty<K(!new), V>(m: OrderedMap<K, V>)
    requires m.Valid()
    ensures m.Size() == 0 <==> m.values == map[]
  {
    if m.Size() != 0 {
      assert m.keys[0] in m.values;
    }
  }
}
