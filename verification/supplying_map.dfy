/** `SupplyingMap`: a hash map whose `get` fills in a missing key with a value
    computed from the key, stores it, and returns it. */
module SupplyingMaps {
  import opened Wrappers

  datatype SupplyingMap<!K, V> = SupplyingMap(entries: map<K, V>, entrySupplier: K -> V)

  /** Why construction failed: `Objects.requireNonNull` threw. */
  datatype NullPointer = NullPointer(message: string)

  const NullSupplierMessage := "The function generating empty entries must not be null."

  /** The constructor: an empty map, or a `NullPointer` failure for a null
      supplier. */
  function NewSupplyingMap<K, V>(entrySupplier: Option<K -> V>): (r: Result<SupplyingMap<K, V>, NullPointer>)
    ensures entrySupplier.None? <==> r.Failure?
    ensures r.Failure? ==> r.error == NullPointer(NullSupplierMessage)
    ensures r.Success? ==> r.value.entries == map[] && r.value.entrySupplier == entrySupplier.value
  {
    match entrySupplier
    case None => Failure(NullPointer(NullSupplierMessage))
    case Some(f) => Success(SupplyingMap(map[], f))
  }

  /** `get`: the stored value if the key is present (the map is unchanged), else
      `entrySupplier(key)`, which is stored first. Either way the key is present
      afterwards, it is bound to the returned value, and no other key changes. */
  function Get<K, V>(m: SupplyingMap<K, V>, key: K): (r: (V, SupplyingMap<K, V>))
    ensures key in r.1.entries && r.1.entries[key] == r.0
    ensures key in m.entries ==> r.0 == m.entries[key] && r.1 == m
    ensures key !in m.entries ==> r.0 == m.entrySupplier(key)
    ensures r.1.entries.Keys == m.entries.Keys + {key}
    ensures forall k :: k in m.entries ==> r.1.entries[k] == m.entries[k]
    ensures r.1.entrySupplier == m.entrySupplier
  {
    var filled := if key in m.entries then m else m.(entries := m.entries[key := m.entrySupplier(key)]);
    (filled.entries[key], filled)
  }

  /** `get` is idempotent: a second `get` of the same key returns the same value
      and leaves the map as the first one left it. */
  lemma GetIdempotent<K, V>(m: SupplyingMap<K, V>, key: K)
    ensures var (v1, m1) := Get(m, key);
            var (v2, m2) := Get(m1, key);
            v2 == v1 && m2 == m1
  {
  }

  /** `get` on the keys in order, collecting the values returned. */
  function GetAll<K, V>(m: SupplyingMap<K, V>, keys: seq<K>): (r: (seq<V>, SupplyingMap<K, V>))
    decreases |keys|
  {
    if |keys| == 0 then ([], m)
    else
      var (v, m1) := Get(m, keys[0]);
      var (vs, m2) := GetAll(m1, keys[1..]);
      ([v] + vs, m2)
  }

  /** After a series of `get`s the keys are the old keys plus those read; old
      bindings are untouched; a key that was absent is bound to its supplied
      value; and every read returned what the key is finally bound to. */
  lemma {:induction false} GetAllGrowsMap<K, V>(m: SupplyingMap<K, V>, keys: seq<K>)
    ensures var (vs, m') := GetAll(m, keys);
      && |vs| == |keys|
      && m'.entries.Keys == m.entries.Keys + (set k | k in keys)
      && (forall k :: k in m.entries ==> m'.entries[k] == m.entries[k])
      && (forall k :: k in m'.entries && k !in m.entries ==> m'.entries[k] == m.entrySupplier(k))
      && (forall i :: 0 <= i < |keys| ==> vs[i] == m'.entries[keys[i]])
      && m'.entrySupplier == m.entrySupplier
    decreases |keys|
  {
    if |keys| > 0 {
      var (v, m1) := Get(m, keys[0]);
      GetAllGrowsMap(m1, keys[1..]);
      var (vs, m2) := GetAll(m1, keys[1..]);
      assert GetAll(m, keys) == ([v] + vs, m2);
      assert (set k | k in keys) == {keys[0]} + (set k | k in keys[1..]);
      assert m2.entries.Keys == m.entries.Keys + (set k | k in keys);
      assert forall i :: 0 <= i < |keys| ==> keys[i] in (set k | k in keys);
      GetAllValues(keys, v, vs, m2);
    }
  }

  /** The value read first and the values read afterwards, all equal to their
      keys' final bindings. */
  lemma GetAllValues<K, V>(keys: seq<K>, v: V, vs: seq<V>, m2: SupplyingMap<K, V>)
    requires |keys| > 0 && |vs| == |keys| - 1
    requires forall i :: 0 <= i < |keys| ==> keys[i] in m2.entries
    requires m2.entries[keys[0]] == v
    requires forall i :: 0 <= i < |keys| - 1 ==> vs[i] == m2.entries[keys[1..][i]]
    ensures forall i :: 0 <= i < |keys| ==> ([v] + vs)[i] == m2.entries[keys[i]]
  {
    forall i | 0 <= i < |keys| ensures ([v] + vs)[i] == m2.entries[keys[i]] {
      if i > 0 {
        assert keys[i] == keys[1..][i - 1];
      }
    }
  }
}
