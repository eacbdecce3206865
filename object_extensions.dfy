// `omit` (src/lib/util/object-extensions.ts): a copy of an object without
// some keys. The object is its list of own entries in `Object.entries`
// order; the copy is a new value, so the input is never changed.

module ObjectExtensions {
  /** The second argument: one key, or an array of keys (`Array.isArray`). */
  datatype KeyArg = One(key: string) | Many(keys: seq<string>)

  /** `Array.isArray(arg) ? arg : [arg]`. */
  function KeyList(arg: KeyArg): (keys: seq<string>)
    ensures arg.One? ==> keys == [arg.key]
    ensures arg.Many? ==> keys == arg.keys
  {
    match arg
    case One(key) => [key]
    case Many(keys) => keys
  }

  /** `Object.entries(obj).filter(([k]) => !keys.includes(k))`, made into an object. */
  function Omit<V>(obj: seq<(string, V)>, arg: KeyArg): (r: seq<(string, V)>)
    ensures forall i :: 0 <= i < |r| ==> r[i] in obj && r[i].0 !in KeyList(arg)
    ensures forall i :: 0 <= i < |obj| && obj[i].0 !in KeyList(arg) ==> obj[i] in r
    ensures |r| <= |obj|
  {
    Without(obj, KeyList(arg))
  }

  /** The entries of `entries` whose key is not among `keys`, in their order. */
  function Without<V>(entries: seq<(string, V)>, keys: seq<string>): (r: seq<(string, V)>)
    ensures forall i :: 0 <= i < |r| ==> r[i] in entries && r[i].0 !in keys
    ensures forall i :: 0 <= i < |entries| && entries[i].0 !in keys ==> entries[i] in r
    ensures |r| <= |entries|
  {
    if entries == [] then []
    else
      var rest := Without(entries[1..], keys);
      assert forall i :: 1 <= i < |entries| ==> entries[i] == entries[1..][i - 1];
      if entries[0].0 in keys then rest else [entries[0]] + rest
  }

  /** Filtering a concatenation filters each part in place, so the entries keep their order. */
  lemma {:induction false} WithoutConcat<V>(a: seq<(string, V)>, b: seq<(string, V)>, keys: seq<string>)
    ensures Without(a + b, keys) == Without(a, keys) + Without(b, keys)
  {
    if a == [] {
      assert a + b == b;
    } else {
      assert (a + b)[1..] == a[1..] + b;
      WithoutConcat(a[1..], b, keys);
    }
  }

  /** Nothing to omit gives the same entries back. */
  lemma {:induction false} WithoutNothing<V>(entries: seq<(string, V)>)
    ensures Without(entries, []) == entries
  {
    if entries != [] {
      WithoutNothing(entries[1..]);
    }
  }

  /**
   * The variadic overload `omit(obj, k1, k2, ...)`: the implementation sees
   * only its first argument, so only the first key is removed. With no key
   * at all the argument is `undefined`, which no entry key equals.
   */
  function OmitVariadic<V>(obj: seq<(string, V)>, keys: seq<string>): (r: seq<(string, V)>)
    ensures |keys| > 0 ==> r == Omit(obj, One(keys[0]))
    ensures |keys| == 0 ==> r == obj
  {
    if |keys| == 0 then (WithoutNothing(obj); obj) else Omit(obj, One(keys[0]))
  }

  /** With two keys, the variadic form keeps the entries of the second key. */
  lemma VariadicKeepsSecondKey<V>(a: string, b: string, va: V, vb: V)
    requires a != b
    ensures OmitVariadic([(a, va), (b, vb)], [a, b]) == [(b, vb)]
    ensures Omit([(a, va), (b, vb)], Many([a, b])) == []
  {
    var obj := [(a, va), (b, vb)];
    assert obj[1..] == [(b, vb)] && [(b, vb)][1..] == [];
    assert Without([(b, vb)], [a]) == [(b, vb)] + Without([], [a]);
    assert Without(obj, [a]) == Without([(b, vb)], [a]);
    assert Without(obj, [a, b]) == Without([(b, vb)], [a, b]) == Without([], [a, b]);
  }
}
