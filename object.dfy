/**
 * Object key renaming: `rename` in src/object.ts.
 *
 * A plain object is a map from its own keys to values; `None` is the value
 * `undefined`, which a key can hold while still being present. Reading a key
 * that is absent also gives `undefined`.
 */
module Objects {
  import opened Wrappers

  /** `object[key]`: the stored value, or `undefined` when the key is absent. */
  function Get<K, V>(obj: map<K, Option<V>>, key: K): Option<V>
  {
    if key in obj then obj[key] else None
  }

  /**
   * `rename(object, oldKey, newKey)`. Equal keys give a plain copy. Otherwise
   * the copy gets `newKey` bound to `object[oldKey]` (overwriting any value
   * `newKey` had, and `undefined` when `oldKey` is absent) and then loses
   * `oldKey`. The input map is a value and is never changed.
   */
  function Rename<K, V>(obj: map<K, Option<V>>, oldKey: K, newKey: K): (r: map<K, Option<V>>)
    ensures oldKey == newKey ==> r == obj
    ensures oldKey != newKey ==> oldKey !in r
    ensures oldKey != newKey || oldKey in obj ==> newKey in r && r[newKey] == Get(obj, oldKey)
    ensures r.Keys - {oldKey, newKey} == obj.Keys - {oldKey, newKey}
    ensures forall k :: k in r && k != newKey ==> k in obj && r[k] == obj[k]
  {
    if oldKey == newKey then obj
    else obj[newKey := Get(obj, oldKey)] - {oldKey}
  }

  /** The keys after a rename: `oldKey` is replaced by `newKey`. */
  lemma RenameKeys<K, V>(obj: map<K, Option<V>>, oldKey: K, newKey: K)
    requires oldKey != newKey
    ensures Rename(obj, oldKey, newKey).Keys == obj.Keys - {oldKey} + {newKey}
  {
  }

  /**
   * The number of keys after renaming between distinct keys. Renaming a
   * present key onto an absent one keeps the count, and onto a present one
   * loses that key's old value and one key. Renaming an absent key adds the
   * new key (bound to `undefined`) when it was absent, and keeps the count
   * when it was present.
   */
  lemma RenameSize<K, V>(obj: map<K, Option<V>>, oldKey: K, newKey: K)
    requires oldKey != newKey
    ensures oldKey in obj && newKey !in obj ==> |Rename(obj, oldKey, newKey)| == |obj|
    ensures oldKey in obj && newKey in obj ==> |Rename(obj, oldKey, newKey)| == |obj| - 1
    ensures oldKey !in obj && newKey !in obj ==> |Rename(obj, oldKey, newKey)| == |obj| + 1
    ensures oldKey !in obj && newKey in obj ==> |Rename(obj, oldKey, newKey)| == |obj|
  {
  }

  /** `rename({c: 2}, 'b', 'a')` goes from one key to two: 'a' is added, bound to `undefined`. */
  lemma RenameAbsentOntoAbsentExample()
    ensures Rename(map["c" := Some(2)], "b", "a") == map["a" := None, "c" := Some(2)]
  {
  }

  /** Renaming back undoes a rename onto a fresh key. */
  lemma RenameRoundTrip<K, V>(obj: map<K, Option<V>>, oldKey: K, newKey: K)
    requires oldKey in obj && newKey !in obj
    ensures Rename(Rename(obj, oldKey, newKey), newKey, oldKey) == obj
  {
  }

  /** `rename({a: 1, c: 2}, 'a', 'b')` is `{b: 1, c: 2}`. */
  lemma RenameExample()
    ensures Rename(map["a" := Some(1), "c" := Some(2)], "a", "b") == map["b" := Some(1), "c" := Some(2)]
  {
  }

  /** `rename({a: 1, c: 2}, 'a', 'a')` is an equal copy. */
  lemma RenameSameKeyExample()
    ensures Rename(map["a" := Some(1), "c" := Some(2)], "a", "a") == map["a" := Some(1), "c" := Some(2)]
  {
  }

  /** `rename({a: 1, c: 2}, 'b', 'a')` is `{a: undefined, c: 2}`: the absent key reads as `undefined`. */
  lemma RenameAbsentKeyExample()
    ensures Rename(map["a" := Some(1), "c" := Some(2)], "b", "a") == map["a" := None, "c" := Some(2)]
  {
  }
}
