/**
 * JSON values as the schema builders handle them. An object is the list of
 * its entries in insertion order, which is the order `Object.keys` and
 * spreading follow; a JavaScript object never holds a key twice
 * (`UniqueKeys`). Numbers are integers here.
 */
module JsonValues {
  import opened Wrappers

  datatype Json =
    | Null
    | Bool(b: bool)
    | Num(n: int)
    | Str(s: string)
    | Arr(items: seq<Json>)
    | Obj(entries: seq<(string, Json)>)

  type Entries = seq<(string, Json)>

  /** The keys in insertion order: `Object.keys`. */
  function Keys(entries: Entries): (ks: seq<string>)
    ensures |ks| == |entries|
    ensures forall i :: 0 <= i < |entries| ==> ks[i] == entries[i].0
  {
    seq(|entries|, i requires 0 <= i < |entries| => entries[i].0)
  }

  /** No key occurs twice, as in every JavaScript object. */
  ghost predicate UniqueKeys(entries: Entries)
  {
    forall i, j :: 0 <= i < j < |entries| ==> entries[i].0 != entries[j].0
  }

  /** `entries[key]`, `None` standing for `undefined`. */
  function Lookup(entries: Entries, key: string): Option<Json>
  {
    if entries == [] then None
    else if entries[0].0 == key then Some(entries[0].1)
    else Lookup(entries[1..], key)
  }

  /** The position of `key`, if it is present. */
  function KeyIndex(entries: Entries, key: string): (r: Option<nat>)
    ensures r.Some? ==> r.value < |entries| && entries[r.value].0 == key
    ensures r.Some? ==> forall j :: 0 <= j < r.value ==> entries[j].0 != key
    ensures r.None? ==> forall j :: 0 <= j < |entries| ==> entries[j].0 != key
  {
    if entries == [] then None
    else if entries[0].0 == key then Some(0)
    else match KeyIndex(entries[1..], key)
      case None => None
      case Some(i) => Some(i + 1)
  }

  /** A lookup reads the entry at the key's first position, and finds nothing when no entry holds the key. */
  lemma {:induction false} LookupAt(entries: Entries, key: string)
    ensures Lookup(entries, key) == match KeyIndex(entries, key) case None => None case Some(i) => Some(entries[i].1)
  {
    if entries != [] && entries[0].0 != key {
      LookupAt(entries[1..], key);
    }
  }

  /** In entries with distinct keys, each key reads the value stored beside it. */
  lemma LookupUnique(entries: Entries, i: nat)
    requires UniqueKeys(entries) && i < |entries|
    ensures Lookup(entries, entries[i].0) == Some(entries[i].1)
  {
    LookupAt(entries, entries[i].0);
  }

  /** A key no entry holds reads nothing. */
  lemma LookupMissing(entries: Entries, key: string)
    requires forall j :: 0 <= j < |entries| ==> entries[j].0 != key
    ensures Lookup(entries, key).None?
  {
    LookupAt(entries, key);
  }

  /** What the keys of a one-entry object read. */
  lemma LookupOne(a: string, x: Json)
    ensures forall k :: Lookup([(a, x)], k) == if k == a then Some(x) else None
  {
    assert [(a, x)][1..] == [];
  }

  /** What the keys of a two-entry object read. */
  lemma LookupTwo(a: string, x: Json, b: string, y: Json)
    ensures forall k :: Lookup([(a, x), (b, y)], k) == if k == a then Some(x) else if k == b then Some(y) else None
  {
    var entries := [(a, x), (b, y)];
    assert entries[1..] == [(b, y)];
    assert entries[1..][1..] == [];
    forall k
      ensures Lookup(entries, k) == if k == a then Some(x) else if k == b then Some(y) else None
    {
      if k != a {
        assert entries[0].0 == a;
        assert Lookup(entries, k) == Lookup(entries[1..], k);
        var rest := entries[1..];
        assert rest[0] == (b, y);
        if k != b {
          assert Lookup(rest, k) == Lookup(rest[1..], k);
        }
      }
    }
  }

  /** What the keys of a three-entry object read. */
  lemma LookupThree(a: string, x: Json, b: string, y: Json, c: string, z: Json)
    ensures forall k :: Lookup([(a, x), (b, y), (c, z)], k) ==
                        if k == a then Some(x) else if k == b then Some(y) else if k == c then Some(z) else None
  {
    var entries := [(a, x), (b, y), (c, z)];
    assert entries[1..] == [(b, y), (c, z)];
    LookupTwo(b, y, c, z);
  }

  /** Lookups in a four-entry literal. */
  lemma LookupFour(a: string, w: Json, b: string, x: Json, c: string, y: Json, d: string, z: Json)
    ensures forall k :: Lookup([(a, w), (b, x), (c, y), (d, z)], k) ==
                        if k == a then Some(w) else if k == b then Some(x) else if k == c then Some(y)
                        else if k == d then Some(z) else None
  {
    var entries := [(a, w), (b, x), (c, y), (d, z)];
    assert entries[1..] == [(b, x), (c, y), (d, z)];
    LookupThree(b, x, c, y, d, z);
  }

  /** `key in value`: `value` is an object holding `key`. */
  predicate Has(value: Json, key: string)
  {
    value.Obj? && Lookup(value.entries, key).Some?
  }

  /** `value[key]` on an object, `None` for `undefined`. */
  function Get(value: Json, key: string): Option<Json>
  {
    if value.Obj? then Lookup(value.entries, key) else None
  }

  /** `{...entries, [key]: value}`: an existing key keeps its place, a new one goes last. */
  function Put(entries: Entries, key: string, value: Json): (r: Entries)
    ensures Lookup(r, key) == Some(value)
    ensures forall k :: k != key ==> Lookup(r, k) == Lookup(entries, k)
    ensures UniqueKeys(entries) ==> UniqueKeys(r)
    ensures forall e :: e in r ==> e == (key, value) || e in entries
  {
    match KeyIndex(entries, key)
    case Some(i) =>
      var r := entries[i := (key, value)];
      assert forall k :: Lookup(r, k) == if k == key then Some(value) else Lookup(entries, k) by {
        forall k
          ensures Lookup(r, k) == if k == key then Some(value) else Lookup(entries, k)
        {
          ReplaceLookup(entries, i, key, value, k);
        }
      }
      r
    case None =>
      var r := entries + [(key, value)];
      assert forall k :: Lookup(r, k) == if k == key then Some(value) else Lookup(entries, k) by {
        forall k
          ensures Lookup(r, k) == if k == key then Some(value) else Lookup(entries, k)
        {
          AppendLookup(entries, key, value, k);
        }
      }
      r
  }

  /** Where `Put` leaves the keys: in place when the key is present, with the key last otherwise. */
  lemma PutKeys(entries: Entries, key: string, value: Json)
    ensures Keys(Put(entries, key, value)) == if Lookup(entries, key).Some? then Keys(entries) else Keys(entries) + [key]
  {
    LookupAt(entries, key);
  }

  /** Replacing the first entry for `key` changes what `key` reads and nothing else. */
  lemma {:induction false} ReplaceLookup(entries: Entries, i: nat, key: string, value: Json, k: string)
    requires i < |entries| && entries[i].0 == key
    requires forall j :: 0 <= j < i ==> entries[j].0 != key
    ensures Lookup(entries[i := (key, value)], k) == if k == key then Some(value) else Lookup(entries, k)
  {
    var r := entries[i := (key, value)];
    if i > 0 {
      assert r[1..] == entries[1..][i - 1 := (key, value)];
      if entries[0].0 != k {
        ReplaceLookup(entries[1..], i - 1, key, value, k);
      }
    } else if k != key {
      assert r[1..] == entries[1..];
    }
  }

  /** Appending an entry for a new key changes what that key reads and nothing else. */
  lemma {:induction false} AppendLookup(entries: Entries, key: string, value: Json, k: string)
    requires forall j :: 0 <= j < |entries| ==> entries[j].0 != key
    ensures Lookup(entries + [(key, value)], k) == if k == key then Some(value) else Lookup(entries, k)
  {
    if entries != [] {
      assert (entries + [(key, value)])[1..] == entries[1..] + [(key, value)];
      if entries[0].0 != k {
        AppendLookup(entries[1..], key, value, k);
      }
    }
  }

  /**
   * `{...target, ...source}` and `Object.assign(target, source)`: the
   * source's entries are put one by one, so the target's keys keep their
   * places and the source's new keys follow them. What each key reads is
   * `SpreadLookup`.
   */
  function Spread(target: Entries, source: Entries): (r: Entries)
    ensures UniqueKeys(target) ==> UniqueKeys(r)
    decreases |source|
  {
    if source == [] then target
    else Spread(Put(target, source[0].0, source[0].1), source[1..])
  }

  /** After a spread a key reads the source's value if the source has it, and the target's otherwise. */
  lemma {:induction false} SpreadLookup(target: Entries, source: Entries, k: string)
    requires UniqueKeys(source)
    ensures Lookup(Spread(target, source), k) == if Lookup(source, k).Some? then Lookup(source, k) else Lookup(target, k)
    decreases |source|
  {
    if source != [] {
      var rest := source[1..];
      assert UniqueKeys(rest);
      SpreadLookup(Put(target, source[0].0, source[0].1), rest, k);
      if source[0].0 == k {
        LookupAt(rest, k);
      }
    }
  }

  /** `SpreadLookup` for every key at once. */
  lemma SpreadLookupAll(target: Entries, source: Entries)
    requires UniqueKeys(source)
    ensures forall k :: Lookup(Spread(target, source), k) == if Lookup(source, k).Some? then Lookup(source, k) else Lookup(target, k)
  {
    forall k
      ensures Lookup(Spread(target, source), k) == if Lookup(source, k).Some? then Lookup(source, k) else Lookup(target, k)
    {
      SpreadLookup(target, source, k);
    }
  }

  /** `Object.assign({}, ...sources)`: the sources spread left to right. */
  function SpreadAll(target: Entries, sources: seq<Entries>): (r: Entries)
    ensures UniqueKeys(target) ==> UniqueKeys(r)
  {
    if sources == [] then target
    else Spread(SpreadAll(target, sources[..|sources| - 1]), sources[|sources| - 1])
  }

  /** The position of the last source holding `k`. */
  function LastHolder(sources: seq<Entries>, k: string): (r: Option<nat>)
    ensures r.None? ==> forall j :: 0 <= j < |sources| ==> Lookup(sources[j], k).None?
    ensures r.Some? ==> r.value < |sources| && Lookup(sources[r.value], k).Some?
    ensures r.Some? ==> forall l :: r.value < l < |sources| ==> Lookup(sources[l], k).None?
  {
    if sources == [] then None
    else if Lookup(sources[|sources| - 1], k).Some? then Some(|sources| - 1)
    else
      var init := sources[..|sources| - 1];
      assert forall j :: 0 <= j < |init| ==> init[j] == sources[j];
      LastHolder(init, k)
  }

  /**
   * A key reads the value of the last source holding it, or the target's
   * value when no source holds it.
   */
  lemma {:induction false} SpreadAllLookup(target: Entries, sources: seq<Entries>, k: string)
    requires forall j :: 0 <= j < |sources| ==> UniqueKeys(sources[j])
    ensures Lookup(SpreadAll(target, sources), k) ==
      match LastHolder(sources, k)
      case None => Lookup(target, k)
      case Some(j) => Lookup(sources[j], k)
  {
    if sources != [] {
      var init := sources[..|sources| - 1];
      assert forall j :: 0 <= j < |init| ==> init[j] == sources[j];
      SpreadAllLookup(target, init, k);
      SpreadLookup(SpreadAll(target, init), sources[|sources| - 1], k);
    }
  }

  /** `Object.assign(target, source)` on arrays: the source's slots overwrite the target's, extending it when longer. */
  function OverlayTwo(target: seq<Json>, source: seq<Json>): (r: seq<Json>)
    ensures |r| == if |source| > |target| then |source| else |target|
    ensures forall i :: 0 <= i < |r| ==> r[i] == if i < |source| then source[i] else target[i]
  {
    if |source| >= |target| then source else source + target[|source|..]
  }

  /**
   * `Object.assign([], ...arrays)`: as long as the longest array, and slot
   * `i` holds the entry of the last array long enough to have one.
   */
  function Overlay(arrays: seq<seq<Json>>): (r: seq<Json>)
    ensures forall j :: 0 <= j < |arrays| ==> |arrays[j]| <= |r|
    ensures |r| == 0 || exists j :: 0 <= j < |arrays| && |arrays[j]| == |r|
    ensures forall i, j :: 0 <= j < |arrays| && 0 <= i < |arrays[j]| && (forall l :: j < l < |arrays| ==> i >= |arrays[l]|) ==> r[i] == arrays[j][i]
  {
    if arrays == [] then []
    else
      var init := arrays[..|arrays| - 1];
      assert forall j :: 0 <= j < |init| ==> init[j] == arrays[j];
      OverlayTwo(Overlay(init), arrays[|arrays| - 1])
  }

  /** A second put under the same key overrides the first and leaves the entries where the first put left them. */
  lemma PutPut(entries: Entries, key: string, value: Json, other: Json)
    ensures Put(Put(entries, key, value), key, other) == Put(entries, key, other)
  {
    var once := Put(entries, key, value);
    match KeyIndex(entries, key)
    case Some(i) =>
      assert once == entries[i := (key, value)];
      var r := KeyIndex(once, key);
      assert once[i].0 == key;
      assert r.Some?;
      assert once[r.value] == entries[r.value] || r.value == i;
      assert r.value == i;
    case None =>
      assert once == entries + [(key, value)];
      var r := KeyIndex(once, key);
      assert once[|entries|].0 == key;
      assert r.Some?;
      assert r.value == |entries|;
  }

  /** No value occurs twice. */
  ghost predicate NoDuplicates(items: seq<Json>)
  {
    forall i, j :: 0 <= i < j < |items| ==> items[i] != items[j]
  }

  /** `acc` followed by the items of `list` it does not hold yet, in their order. */
  function AppendNew(acc: seq<Json>, list: seq<Json>): (r: seq<Json>)
    ensures forall x :: x in r <==> x in acc || x in list
    ensures |r| >= |acc| && r[..|acc|] == acc
    ensures NoDuplicates(acc) ==> NoDuplicates(r)
    decreases |list|
  {
    if list == [] then acc
    else
      assert forall x :: x in list <==> x == list[0] || x in list[1..];
      AppendNew(if list[0] in acc then acc else acc + [list[0]], list[1..])
  }

  /** The items of all the lists, each once, in order of first occurrence. */
  function UnionAll(lists: seq<seq<Json>>): (r: seq<Json>)
    ensures forall x :: x in r <==> exists j :: 0 <= j < |lists| && x in lists[j]
    ensures NoDuplicates(r)
  {
    if lists == [] then []
    else
      var init := lists[..|lists| - 1];
      assert forall j :: 0 <= j < |init| ==> init[j] == lists[j];
      AppendNew(UnionAll(init), lists[|lists| - 1])
  }
}
