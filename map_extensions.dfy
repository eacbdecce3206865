// `transformValues` (src/lib/util/map-extensions.ts): a new Map with every
// value passed through a function. A Map is its list of entries in
// insertion order, with distinct keys.

module MapExtensions {
  import opened Wrappers

  /** The keys of a Map's entries, in insertion order. */
  function Keys<K, V>(entries: seq<(K, V)>): (keys: seq<K>)
    ensures |keys| == |entries|
    ensures forall i :: 0 <= i < |entries| ==> keys[i] == entries[i].0
  {
    if entries == [] then [] else [entries[0].0] + Keys(entries[1..])
  }

  /** `new Map([...map].map(([key, value]) => [key, transform(value)]))`. */
  function TransformValues<K, A, B>(entries: seq<(K, A)>, transform: A -> B): (r: seq<(K, B)>)
    ensures |r| == |entries|
    ensures forall i :: 0 <= i < |entries| ==> r[i] == (entries[i].0, transform(entries[i].1))
  {
    if entries == [] then [] else [(entries[0].0, transform(entries[0].1))] + TransformValues(entries[1..], transform)
  }

  /** `map.get(key)`: the value of the entry with that key. */
  function Get<K(==), V>(entries: seq<(K, V)>, key: K): (r: Option<V>)
    ensures r.Some? <==> key in Keys(entries)
  {
    if entries == [] then None
    else if entries[0].0 == key then Some(entries[0].1)
    else Get(entries[1..], key)
  }

  /** The result has the same keys in the same order, so the same key set and size. */
  lemma KeysKept<K, A, B>(entries: seq<(K, A)>, transform: A -> B)
    ensures Keys(TransformValues(entries, transform)) == Keys(entries)
  {
  }

  /** Looking a key up in the result gives the transformed value of looking it up in the input. */
  lemma {:induction false} GetTransformed<K, A, B>(entries: seq<(K, A)>, transform: A -> B, key: K)
    ensures Get(TransformValues(entries, transform), key) ==
            match Get(entries, key) case None => None case Some(v) => Some(transform(v))
  {
    if entries != [] {
      var r := TransformValues(entries, transform);
      assert r[1..] == TransformValues(entries[1..], transform);
      GetTransformed(entries[1..], transform, key);
    }
  }

  /** Transforming with the identity gives back the same entries. */
  lemma IdentityKeepsEntries<K, A>(entries: seq<(K, A)>)
    ensures TransformValues(entries, (v: A) => v) == entries
  {
  }
}
