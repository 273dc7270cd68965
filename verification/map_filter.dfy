/**
 * An insertion-ordered map (JavaScript's `Map`) and `mapFilter` from the utilities
 * package, which copies the entries a callback accepts into a new map.
 */
module MapFilter {

  /**
   * A JavaScript `Map`: `keys` lists the keys in insertion order, `values` gives each key's value.
   * Setting a key that is already present keeps its position and replaces its value.
   */
  datatype OrderedMap<K(==,!new), V> = OrderedMap(keys: seq<K>, values: map<K, V>) {

    ghost predicate Valid() {
      (forall i, j :: 0 <= i < j < |keys| ==> keys[i] != keys[j]) &&
      (forall k :: k in values <==> k in keys)
    }

    /** `map.set( key, value )`. */
    function Set(k: K, v: V): (r: OrderedMap<K, V>)
      requires Valid()
      ensures r.Valid()
      ensures r.values == values[k := v]
      ensures k in values ==> r.keys == keys
      ensures k !in values ==> r.keys == keys + [k]
    {
      if k in values then OrderedMap(keys, values[k := v]) else OrderedMap(keys + [k], values[k := v])
    }

    /** `Array.from( map.values() )`: the values in key order. */
    function ValuesInOrder(): (r: seq<V>)
      requires Valid()
      ensures |r| == |keys|
      ensures forall i :: 0 <= i < |keys| ==> r[i] == values[keys[i]]
    {
      seq(|keys|, i requires 0 <= i < |keys| && Valid() => values[keys[i]])
    }
  }

  function EmptyMap<K(==,!new), V>(): (m: OrderedMap<K, V>)
    ensures m.Valid() && m.keys == [] && m.values == map[]
  {
    OrderedMap([], map[])
  }

  /** The keys the callback accepts, in their original order. */
  function KeptKeys<K(==,!new), V>(callback: (K, V) -> bool, keys: seq<K>, values: map<K, V>): seq<K>
    requires forall k :: k in keys ==> k in values
  {
    if keys == [] then []
    else
      var last := keys[|keys| - 1];
      KeptKeys(callback, keys[..|keys| - 1], values) + (if callback(last, values[last]) then [last] else [])
  }

  /** Every kept key is an accepted key of the input. */
  lemma {:induction false} KeptKeysAreAccepted<K(!new), V>(callback: (K, V) -> bool, keys: seq<K>, values: map<K, V>)
    requires forall k :: k in keys ==> k in values
    ensures forall k :: k in KeptKeys(callback, keys, values) <==> k in keys && callback(k, values[k])
  {
    if keys != [] {
      var init := keys[..|keys| - 1];
      KeptKeysAreAccepted(callback, init, values);
      assert keys == init + [keys[|keys| - 1]];
    }
  }

  /**
   * `mapFilter( callback, map )`: a new map holding exactly the entries for which the callback
   * returns true, with their values unchanged, in their original insertion order.
   */
  method MapFilter<K(==,!new), V>(callback: (K, V) -> bool, m: OrderedMap<K, V>) returns (output: OrderedMap<K, V>)
    requires m.Valid()
    ensures output.Valid()
    ensures output.keys == KeptKeys(callback, m.keys, m.values)
    ensures forall k :: k in output.values <==> k in m.values && callback(k, m.values[k])
    ensures forall k :: k in output.values ==> output.values[k] == m.values[k]
  {
    output := EmptyMap();
    var i := 0;
    while i < |m.keys|
      invariant 0 <= i <= |m.keys|
      invariant output.Valid()
      invariant output.keys == KeptKeys(callback, m.keys[..i], m.values)
      invariant forall k :: k in output.values <==> k in m.keys[..i] && callback(k, m.values[k])
      invariant forall k :: k in output.values ==> output.values[k] == m.values[k]
    {
      var key := m.keys[i];
      var value := m.values[key];
      assert m.keys[..i + 1] == m.keys[..i] + [key];
      assert key !in m.keys[..i];
      if callback(key, value) {
        output := output.Set(key, value);
      }
      i := i + 1;
    }
    assert m.keys[..i] == m.keys;
  }

  /** A callback that accepts everything copies the map unchanged, keys in the same order. */
  lemma {:induction false} KeepAllKeepsKeys<K(!new), V>(keys: seq<K>, values: map<K, V>)
    requires forall k :: k in keys ==> k in values
    ensures KeptKeys((k: K, v: V) => true, keys, values) == keys
  {
    if keys != [] {
      KeepAllKeepsKeys(keys[..|keys| - 1], values);
      assert keys[..|keys| - 1] + [keys[|keys| - 1]] == keys;
    }
  }

  /** A callback that accepts nothing leaves no keys. */
  lemma {:induction false} KeepNoneDropsAll<K(!new), V>(keys: seq<K>, values: map<K, V>)
    requires forall k :: k in keys ==> k in values
    ensures KeptKeys((k: K, v: V) => false, keys, values) == []
  {
    if keys != [] {
      KeepNoneDropsAll(keys[..|keys| - 1], values);
    }
  }

  /** Filtering never lengthens the key list. */
  lemma {:induction false} KeptKeysShorter<K(!new), V>(callback: (K, V) -> bool, keys: seq<K>, values: map<K, V>)
    requires forall k :: k in keys ==> k in values
    ensures |KeptKeys(callback, keys, values)| <= |keys|
  {
    if keys != [] {
      KeptKeysShorter(callback, keys[..|keys| - 1], values);
    }
  }

  /** The callback of the utility's tests: it rejects the keys `a` and `b`. */
  predicate NotAOrB(k: string, v: int) {
    k != "a" && k != "b"
  }

  /** The map of the utility's tests, with the object value of `foo` replaced by the number 7. */
  const Sample := OrderedMap(["a", "b", "foo"], map["a" := 123, "b" := 555, "foo" := 7])

  /** What `mapFilter` promises, applied to the example, pins its result down. */
  lemma SampleFiltered(output: OrderedMap<string, int>)
    requires output.keys == KeptKeys(NotAOrB, Sample.keys, Sample.values)
    requires forall k :: k in output.values <==> k in Sample.values && NotAOrB(k, Sample.values[k])
    requires forall k :: k in output.values ==> output.values[k] == Sample.values[k]
    ensures output.keys == ["foo"] && output.values == map["foo" := 7]
  {
    assert Sample.keys[..2] == ["a", "b"] && ["a", "b"][..1] == ["a"] && ["a"][..0] == [];
    assert KeptKeys(NotAOrB, ["a"], Sample.values) == [];
    assert KeptKeys(NotAOrB, ["a", "b"], Sample.values) == [];
    assert output.values.Keys == {"foo"} by {
      assert "foo" in Sample.values && NotAOrB("foo", 7);
    }
  }

  /**
   * The utility's test: from `{ a: 123, b: 555, foo: 7 }` dropping the keys `a` and `b` leaves
   * only `foo`, still mapped to its value.
   */
  method FilterOutAAndB() returns (output: OrderedMap<string, int>)
    ensures output.keys == ["foo"]
    ensures output.values == map["foo" := 7]
  {
    assert Sample.Valid() by {
      assert "a" != "b" && "a" != "foo" && "b" != "foo";
    }
    output := MapFilter(NotAOrB, Sample);
    SampleFiltered(output);
  }
}
