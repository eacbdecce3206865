// The older JSON-schema builder (src/lib/json-schema-builder.ts). Its array,
// object and value builders are the same code as SchemaBuilder's; what
// differs is `allOf`: it merges schemas typed "object" that agree on
// `additionalProperties`, and otherwise rewrites its children with a
// recursion that opens object schemas, rebuilds `oneOf`s and rejects
// `anyOf`.

module LegacySchemaBuilder {
  import opened Wrappers
  import opened JsonValues
  import opened SchemaQueries
  import opened SchemaBuilder

  const EMPTY_ALLOF_MESSAGE: string := "allOf must have at least one schema"
  const ANYOF_MESSAGE: string := "'anyOf' is not supported"

  /** `areAllObjectSchemas`: every schema has the type "object". */
  predicate AreAllObjectSchemas(schemas: seq<Json>)
  {
    forall k :: 0 <= k < |schemas| ==> IsObjectTyped(schemas[k])
  }

  /**
   * `haveMatchingAdditionalPropertiesValue`: every schema after the first
   * has `additionalProperties`, the first has it too, and the values agree.
   */
  predicate HaveMatchingAdditionalPropertiesValue(schemas: seq<Json>)
    requires |schemas| > 0
  {
    forall k :: 1 <= k < |schemas| ==>
      && Has(schemas[k], "additionalProperties")
      && Has(schemas[0], "additionalProperties")
      && Get(schemas[k], "additionalProperties") == Get(schemas[0], "additionalProperties")
  }

  /** All schemas agree on `additionalProperties` exactly when the check passes, for two or more schemas. */
  lemma MatchingAdditionalProperties(schemas: seq<Json>)
    requires |schemas| > 0
    ensures |schemas| == 1 ==> HaveMatchingAdditionalPropertiesValue(schemas)
    ensures |schemas| > 1 ==>
      (HaveMatchingAdditionalPropertiesValue(schemas) <==>
        Has(schemas[0], "additionalProperties") &&
        forall k :: 0 <= k < |schemas| ==> Get(schemas[k], "additionalProperties") == Get(schemas[0], "additionalProperties"))
  {
    if |schemas| > 1 {
      if HaveMatchingAdditionalPropertiesValue(schemas) {
        assert Has(schemas[1], "additionalProperties");
      } else if Has(schemas[0], "additionalProperties") {
        var k :| 1 <= k < |schemas| && !(
          && Has(schemas[k], "additionalProperties")
          && Has(schemas[0], "additionalProperties")
          && Get(schemas[k], "additionalProperties") == Get(schemas[0], "additionalProperties"));
      }
    }
  }

  /** The merge condition: all schemas typed "object" with matching `additionalProperties`. */
  predicate Mergeable(schemas: seq<Json>)
    requires |schemas| > 0
  {
    AreAllObjectSchemas(schemas) && HaveMatchingAdditionalPropertiesValue(schemas)
  }

  // ---- The merge ----

  /** The merge as written: `required` overlaid by index, `additionalProperties` from the first schema, no `nullable`. */
  function MergeAsWritten(schemas: seq<Json>): (r: Json)
    requires |schemas| > 0 && forall k :: 0 <= k < |schemas| ==> IsSchema(schemas[k])
    ensures IsSchema(r) && IsObjectTyped(r) && IsObjectSchema(r)
    ensures Get(r, "properties") == Some(Obj(MergedProperties(schemas)))
    ensures Get(r, "additionalProperties") == Get(schemas[0], "additionalProperties")
    ensures Get(r, "nullable") == None
    ensures Get(r, "required") == Some(Arr(OverlaidRequired(schemas)))
  {
    Obj(MergedFields(MergedProperties(schemas), OverlaidRequired(schemas), Get(schemas[0], "additionalProperties"), None))
  }

  /** The merge with `required` the union of the inputs' lists. */
  function Merge(schemas: seq<Json>): (r: Json)
    requires |schemas| > 0 && forall k :: 0 <= k < |schemas| ==> IsSchema(schemas[k])
    ensures IsSchema(r) && IsObjectTyped(r) && IsObjectSchema(r)
    ensures Get(r, "properties") == Some(Obj(MergedProperties(schemas)))
    ensures Get(r, "additionalProperties") == Get(schemas[0], "additionalProperties")
    ensures Get(r, "nullable") == None
    ensures Get(r, "required") == Some(Arr(UnitedRequired(schemas)))
  {
    Obj(MergedFields(MergedProperties(schemas), UnitedRequired(schemas), Get(schemas[0], "additionalProperties"), None))
  }

  // ---- recursivelyAllowAdditionalProperties ----

  /** `{...schema, additionalProperties: true}`. */
  function SetAdditional(s: Json): (r: Json)
    requires IsSchema(s)
    ensures IsSchema(r) && Get(r, "additionalProperties") == Some(Bool(true))
    ensures forall k :: k != "additionalProperties" ==> Get(r, k) == Get(s, k)
  {
    var r := Obj(Put(s.entries, "additionalProperties", Bool(true)));
    assert IsSchema(r) by {
      forall e | e in r.entries
        ensures FieldShaped(e.0, e.1)
      {
        if e !in s.entries {
          assert e == ("additionalProperties", Bool(true));
        }
      }
    }
    r
  }

  /**
   * Every schema typed "object" that `inObject` reaches says
   * `additionalProperties: true`; it reaches the alternatives of a `oneOf`
   * that is not itself typed "object".
   */
  ghost predicate Opened(s: Json)
    requires IsSchema(s)
    decreases s
  {
    if IsObjectTyped(s) then Get(s, "additionalProperties") == Some(Bool(true))
    else if Has(s, "oneOf") then forall k :: 0 <= k < |Children(s, "oneOf")| ==> Opened(Children(s, "oneOf")[k])
    else true
  }

  /** `{oneOf: alternatives, unevaluatedProperties: false}`. */
  function OneOfClosed(alternatives: seq<Json>): (r: Json)
    ensures r.Obj?
    ensures forall k :: Get(r, k) == if k == "oneOf" then Some(Arr(alternatives))
                                     else if k == "unevaluatedProperties" then Some(Bool(false))
                                     else None
    ensures (forall k :: 0 <= k < |alternatives| ==> IsSchema(alternatives[k])) ==>
      IsSchema(r) && Children(r, "oneOf") == alternatives
    ensures OpenedAll(alternatives) ==> IsSchema(r) && Opened(r)
  {
    var entries := [("oneOf", Arr(alternatives)), ("unevaluatedProperties", Bool(false))];
    LookupTwo("oneOf", Arr(alternatives), "unevaluatedProperties", Bool(false));
    assert (forall k :: 0 <= k < |alternatives| ==> IsSchema(alternatives[k])) ==> IsSchema(Obj(entries)) by {
      if forall k :: 0 <= k < |alternatives| ==> IsSchema(alternatives[k]) {
        forall e | e in entries
          ensures e.0 == "oneOf" ==> forall c :: c in e.1.items ==> IsSchema(c)
        {
          if e.0 == "oneOf" {
            forall c | c in e.1.items ensures IsSchema(c) {
              var k :| 0 <= k < |alternatives| && alternatives[k] == c;
            }
          }
        }
      }
    }
    Obj(entries)
  }

  /**
   * `inObject`: opens a schema typed "object" (without looking inside),
   * rebuilds a `oneOf` from its rewritten alternatives, throws on `anyOf`
   * and returns anything else unchanged.
   */
  function InObject(s: Json): (r: Result<Json>)
    requires IsSchema(s)
    ensures r.Ok? ==> IsSchema(r.value)
    ensures r.Err? ==> r.message == ANYOF_MESSAGE
    decreases s, 2
  {
    if Has(s, "type") && Get(s, "type") == Some(Str("object")) then Ok(SetAdditional(s))
    else if Has(s, "oneOf") then InOneOf(s)
    else if Has(s, "anyOf") then Err(ANYOF_MESSAGE)
    else Ok(s)
  }

  /** The `oneOf` branch of `inObject`: `{oneOf: inArray(schema.oneOf), unevaluatedProperties: false}`. */
  function InOneOf(s: Json): (r: Result<Json>)
    requires IsSchema(s) && Has(s, "oneOf") && !IsObjectTyped(s)
    ensures r.Ok? ==> IsSchema(r.value)
    ensures r.Err? ==> r.message == ANYOF_MESSAGE
    decreases s, 1
  {
    var alternatives := InArray(s, Children(s, "oneOf"));
    if alternatives.Err? then Err(alternatives.message)
    else
      Ok(OneOfClosed(alternatives.value))
  }

  /**
   * `inArray`: `items.map(inObject)`, the first child that throws ending the
   * walk with its error.
   */
  function InArray(ghost parent: Json, items: seq<Json>): (r: Result<seq<Json>>)
    requires forall k :: 0 <= k < |items| ==> items[k] < parent && IsSchema(items[k])
    ensures r.Ok? <==> forall k :: 0 <= k < |items| ==> InObject(items[k]).Ok?
    ensures r.Ok? ==> |r.value| == |items| && forall k :: 0 <= k < |items| ==> r.value[k] == InObject(items[k]).value
    ensures r.Err? ==> r.message == ANYOF_MESSAGE
    decreases parent, 0, |items|
  {
    if items == [] then Ok([])
    else
      match InObject(items[0])
      case Err(m) => Err(m)
      case Ok(first) =>
        var tail := items[1..];
        assert forall k :: 1 <= k < |items| ==> tail[k - 1] == items[k];
        match InArray(parent, tail)
        case Err(m) => Err(m)
        case Ok(rest) => Ok([first] + rest)
  }

  /** `recursivelyAllowAdditionalProperties(schemas)`. */
  function RecursivelyAllowAdditionalProperties(schemas: seq<Json>): (r: Result<seq<Json>>)
    requires forall k :: 0 <= k < |schemas| ==> IsSchema(schemas[k])
    ensures r.Ok? <==> forall k :: 0 <= k < |schemas| ==> InObject(schemas[k]).Ok?
    ensures r.Ok? ==> |r.value| == |schemas| && forall k :: 0 <= k < |schemas| ==> r.value[k] == InObject(schemas[k]).value
    ensures r.Err? ==> r.message == ANYOF_MESSAGE
  {
    assert forall k :: 0 <= k < |schemas| ==> schemas[k] < Arr(schemas);
    InArray(Arr(schemas), schemas)
  }

  /** `inObject` on a schema typed "object": `additionalProperties` becomes true, every other field stays. */
  lemma InObjectOnObject(s: Json)
    requires IsSchema(s) && IsObjectTyped(s)
    ensures InObject(s).Ok? && Get(InObject(s).value, "additionalProperties") == Some(Bool(true))
    ensures forall k :: k != "additionalProperties" ==> Get(InObject(s).value, k) == Get(s, k)
  {
  }

  /**
   * `inObject` on any other schema with `oneOf`: exactly `{oneOf,
   * unevaluatedProperties: false}` over the rewritten alternatives, failing
   * when one of them fails.
   */
  lemma InObjectOnOneOf(s: Json)
    requires IsSchema(s) && !IsObjectTyped(s) && Has(s, "oneOf")
    ensures InObject(s).Ok? <==> forall k :: 0 <= k < |Children(s, "oneOf")| ==> InObject(Children(s, "oneOf")[k]).Ok?
    ensures InObject(s).Ok? ==> RewrittenOneOf(Children(s, "oneOf"), InObject(s).value)
  {
    var items := Children(s, "oneOf");
    var alternatives := InArray(s, items);
    assert InObject(s) == InOneOf(s);
    if alternatives.Ok? {
      assert InOneOf(s) == Ok(OneOfClosed(alternatives.value));
      OneOfClosedRewrites(items, alternatives.value);
    } else {
      assert InOneOf(s).Err?;
    }
  }

  /** `oneOfClosed` over the rewritten alternatives is the rewritten `oneOf`. */
  lemma OneOfClosedRewrites(items: seq<Json>, alternatives: seq<Json>)
    requires forall k :: 0 <= k < |items| ==> IsSchema(items[k])
    requires |alternatives| == |items|
    requires forall k :: 0 <= k < |items| ==> InObject(items[k]).Ok? && alternatives[k] == InObject(items[k]).value
    ensures RewrittenOneOf(items, OneOfClosed(alternatives))
  {
    var r := OneOfClosed(alternatives);
    forall k ensures Has(r, k) <==> k == "oneOf" || k == "unevaluatedProperties" {
      assert Has(r, k) <==> Get(r, k).Some?;
    }
  }

  /** `inObject` on a schema neither typed "object" nor with `oneOf`: `anyOf` throws, anything else, a nested `allOf` included, is unchanged. */
  lemma InObjectOtherwise(s: Json)
    requires IsSchema(s) && !IsObjectTyped(s) && !Has(s, "oneOf")
    ensures InObject(s) == if Has(s, "anyOf") then Err(ANYOF_MESSAGE) else Ok(s)
  {
  }

  /**
   * `r` is `{oneOf: alternatives.map(inObject), unevaluatedProperties:
   * false}` and has no other key.
   */
  ghost predicate RewrittenOneOf(alternatives: seq<Json>, r: Json)
    requires forall k :: 0 <= k < |alternatives| ==> IsSchema(alternatives[k])
  {
    && IsSchema(r)
    && (forall k :: Has(r, k) <==> k == "oneOf" || k == "unevaluatedProperties")
    && Get(r, "unevaluatedProperties") == Some(Bool(false))
    && |Children(r, "oneOf")| == |alternatives|
    && forall k :: 0 <= k < |alternatives| ==>
         InObject(alternatives[k]).Ok? && Children(r, "oneOf")[k] == InObject(alternatives[k]).value
  }

  /** Every schema typed "object" that the rewrite reaches comes out open. */
  lemma {:induction false} InObjectOpens(s: Json)
    requires IsSchema(s) && InObject(s).Ok?
    ensures Opened(InObject(s).value)
    decreases s
  {
    if Has(s, "type") && Get(s, "type") == Some(Str("object")) {
      assert IsObjectTyped(SetAdditional(s));
    } else if Has(s, "oneOf") {
      var items := Children(s, "oneOf");
      var alternatives := InArray(s, items).value;
      forall k | 0 <= k < |alternatives|
        ensures IsSchema(alternatives[k]) && Opened(alternatives[k])
      {
        InObjectOpens(items[k]);
      }
      assert OpenedAll(alternatives);
    }
  }

  /** The rewritten list of `allOf` is open throughout. */
  lemma InObjectsOpen(schemas: seq<Json>)
    requires forall k :: 0 <= k < |schemas| ==> IsSchema(schemas[k])
    ensures RecursivelyAllowAdditionalProperties(schemas).Ok? ==> OpenedAll(RecursivelyAllowAdditionalProperties(schemas).value)
  {
    var r := RecursivelyAllowAdditionalProperties(schemas);
    if r.Ok? {
      forall k | 0 <= k < |r.value|
        ensures IsSchema(r.value[k]) && Opened(r.value[k])
      {
        InObjectOpens(schemas[k]);
      }
    }
  }

  /** Rewriting a rewritten schema changes nothing. */
  lemma {:induction false} InObjectIdempotent(s: Json)
    requires IsSchema(s) && InObject(s).Ok?
    ensures InObject(InObject(s).value) == InObject(s)
    decreases s, 1
  {
    if IsObjectTyped(s) {
      var r := SetAdditional(s);
      assert InObject(s) == Ok(r);
      assert IsObjectTyped(r);
      assert InObject(r) == Ok(SetAdditional(r));
      PutPut(s.entries, "additionalProperties", Bool(true), Bool(true));
    } else if Has(s, "oneOf") {
      OneOfIdempotent(s);
    } else {
      InObjectOtherwise(s);
    }
  }

  /** The `oneOf` case of `InObjectIdempotent`. */
  lemma {:induction false} OneOfIdempotent(s: Json)
    requires IsSchema(s) && !IsObjectTyped(s) && Has(s, "oneOf") && InObject(s).Ok?
    ensures InObject(InObject(s).value) == InObject(s)
    decreases s, 0
  {
    var items := Children(s, "oneOf");
    var alternatives := InArray(s, items).value;
    assert InObject(s) == InOneOf(s);
    var r := OneOfClosed(alternatives);
    assert InObject(s) == Ok(r);
    forall k | 0 <= k < |alternatives|
      ensures IsSchema(alternatives[k]) && InObject(alternatives[k]) == Ok(alternatives[k])
    {
      InObjectIdempotent(items[k]);
    }
    OneOfClosedIsFixed(alternatives);
  }

  /** A `oneOf` over alternatives that are their own rewrites is its own rewrite. */
  lemma OneOfClosedIsFixed(alternatives: seq<Json>)
    requires forall k :: 0 <= k < |alternatives| ==> IsSchema(alternatives[k]) && InObject(alternatives[k]) == Ok(alternatives[k])
    ensures IsSchema(OneOfClosed(alternatives)) && InObject(OneOfClosed(alternatives)) == Ok(OneOfClosed(alternatives))
  {
    var r := OneOfClosed(alternatives);
    assert Children(r, "oneOf") == alternatives;
    InArrayOfRewritten(r, alternatives);
    assert !IsObjectTyped(r);
    assert InObject(r) == InOneOf(r);
  }

  /** Children that are their own rewrites are rewritten to themselves. */
  lemma {:induction false} InArrayOfRewritten(parent: Json, items: seq<Json>)
    requires forall k :: 0 <= k < |items| ==> items[k] < parent && IsSchema(items[k]) && InObject(items[k]) == Ok(items[k])
    ensures InArray(parent, items) == Ok(items)
  {
    var r := InArray(parent, items);
    assert r.Ok?;
    assert r.value == items;
  }

  // ---- allOf ----

  /**
   * `allOf(...schemas)` as written: throws on an empty list; merges
   * schemas typed "object" that agree on `additionalProperties` with the
   * merge as written, whose `required` list is overlaid slot by slot;
   * otherwise wraps the rewritten schemas under `allOf` with
   * `unevaluatedProperties: false`, the rewrite's error propagating.
   */
  function AllOfAsWritten(schemas: seq<Json>): (r: Result<Json>)
    requires forall k :: 0 <= k < |schemas| ==> IsSchema(schemas[k])
    ensures |schemas| == 0 <==> r == Err(EMPTY_ALLOF_MESSAGE)
    ensures |schemas| > 0 && r.Err? ==> r.message == ANYOF_MESSAGE
    ensures |schemas| > 0 && Mergeable(schemas) ==> r.Ok? && IsObjectSchema(r.value)
    ensures |schemas| > 0 && Mergeable(schemas) ==> Get(r.value, "required") == Some(Arr(OverlaidRequired(schemas)))
    ensures |schemas| > 0 && Mergeable(schemas) ==>
      && Get(r.value, "properties") == Some(Obj(MergedProperties(schemas)))
      && Get(r.value, "additionalProperties") == Get(schemas[0], "additionalProperties")
      && Get(r.value, "nullable") == None
    ensures |schemas| > 0 && Mergeable(schemas) ==> r == Ok(MergeAsWritten(schemas))
    ensures |schemas| > 0 && !Mergeable(schemas) ==>
      (r.Ok? <==> forall k :: 0 <= k < |schemas| ==> InObject(schemas[k]).Ok?)
    ensures |schemas| > 0 && !Mergeable(schemas) && r.Ok? ==>
      && IsSchema(r.value) && OpenedAll(Children(r.value, "allOf"))
      && Get(r.value, "unevaluatedProperties") == Some(Bool(false))
      && |Children(r.value, "allOf")| == |schemas|
    ensures |schemas| > 0 && !Mergeable(schemas) && r.Ok? ==>
      && (forall k :: 0 <= k < |schemas| ==> Children(r.value, "allOf")[k] == InObject(schemas[k]).value)
      && r.value == AllOfClosed(RecursivelyAllowAdditionalProperties(schemas).value)
  {
    InObjectsOpen(schemas);
    if |schemas| == 0 then Err(EMPTY_ALLOF_MESSAGE)
    else if Mergeable(schemas) then Ok(MergeAsWritten(schemas))
    else
      match RecursivelyAllowAdditionalProperties(schemas)
      case Err(m) => Err(m)
      case Ok(children) => Ok(AllOfClosed(children))
  }

  /**
   * `allOf` with the corrected merge: the merged `required` list is the
   * union of the schemas' lists. Everything else is as written.
   */
  function AllOf(schemas: seq<Json>): (r: Result<Json>)
    requires forall k :: 0 <= k < |schemas| ==> IsSchema(schemas[k])
    ensures |schemas| == 0 <==> r == Err(EMPTY_ALLOF_MESSAGE)
    ensures |schemas| > 0 && r.Err? ==> r.message == ANYOF_MESSAGE
    ensures |schemas| > 0 && Mergeable(schemas) ==> r.Ok? && IsObjectSchema(r.value)
    ensures |schemas| > 0 && Mergeable(schemas) ==> Get(r.value, "required") == Some(Arr(UnitedRequired(schemas)))
    ensures |schemas| > 0 && Mergeable(schemas) ==>
      && Get(r.value, "properties") == Some(Obj(MergedProperties(schemas)))
      && Get(r.value, "additionalProperties") == Get(schemas[0], "additionalProperties")
      && Get(r.value, "nullable") == None
    ensures |schemas| > 0 && Mergeable(schemas) ==> r == Ok(Merge(schemas))
    ensures |schemas| > 0 && !Mergeable(schemas) ==>
      (r.Ok? <==> forall k :: 0 <= k < |schemas| ==> InObject(schemas[k]).Ok?)
    ensures |schemas| > 0 && !Mergeable(schemas) && r.Ok? ==>
      && IsSchema(r.value) && OpenedAll(Children(r.value, "allOf"))
      && Get(r.value, "unevaluatedProperties") == Some(Bool(false))
      && |Children(r.value, "allOf")| == |schemas|
    ensures |schemas| > 0 && !Mergeable(schemas) && r.Ok? ==>
      && (forall k :: 0 <= k < |schemas| ==> Children(r.value, "allOf")[k] == InObject(schemas[k]).value)
      && r.value == AllOfClosed(RecursivelyAllowAdditionalProperties(schemas).value)
  {
    InObjectsOpen(schemas);
    if |schemas| == 0 then Err(EMPTY_ALLOF_MESSAGE)
    else if Mergeable(schemas) then Ok(Merge(schemas))
    else
      match RecursivelyAllowAdditionalProperties(schemas)
      case Err(m) => Err(m)
      case Ok(children) => Ok(AllOfClosed(children))
  }

  /**
   * The corrected `allOf` differs from the one as written only in the
   * `required` list of a merge: both fail on the same lists, wrap the same
   * way, and merge to the same properties, `additionalProperties` and
   * `nullable`.
   */
  lemma AllOfDiffersOnlyInRequired(schemas: seq<Json>)
    requires forall k :: 0 <= k < |schemas| ==> IsSchema(schemas[k])
    ensures AllOf(schemas).Err? <==> AllOfAsWritten(schemas).Err?
    ensures |schemas| == 0 || !Mergeable(schemas) ==> AllOf(schemas) == AllOfAsWritten(schemas)
    ensures |schemas| > 0 && Mergeable(schemas) ==>
      var r, w := AllOf(schemas).value, AllOfAsWritten(schemas).value;
      && Get(r, "type") == Get(w, "type")
      && Get(r, "properties") == Get(w, "properties")
      && Get(r, "additionalProperties") == Get(w, "additionalProperties")
      && Get(r, "nullable") == Get(w, "nullable")
  {
  }

  /** Every schema of the list is `Opened`. */
  ghost predicate OpenedAll(schemas: seq<Json>)
  {
    forall k :: 0 <= k < |schemas| ==> IsSchema(schemas[k]) && Opened(schemas[k])
  }

  /** `{allOf: children, unevaluatedProperties: false}`. */
  function AllOfClosed(children: seq<Json>): (r: Json)
    requires forall k :: 0 <= k < |children| ==> IsSchema(children[k])
    ensures IsSchema(r) && Children(r, "allOf") == children
    ensures Get(r, "unevaluatedProperties") == Some(Bool(false))
  {
    var entries := [("allOf", Arr(children)), ("unevaluatedProperties", Bool(false))];
    LookupTwo("allOf", Arr(children), "unevaluatedProperties", Bool(false));
    assert IsSchema(Obj(entries)) by {
      forall e | e in entries
        ensures e.0 == "allOf" ==> forall c :: c in e.1.items ==> IsSchema(c)
      {
        if e.0 == "allOf" {
          forall c | c in e.1.items ensures IsSchema(c) {
            var k :| 0 <= k < |children| && children[k] == c;
          }
        }
      }
    }
    Obj(entries)
  }

  /**
   * Two object schemas built with default options are typed "object" and
   * both say `additionalProperties: false`, so both `allOf`s merge them,
   * each with its own merge.
   */
  lemma DefaultObjectsMerge(first: Entries, second: Entries)
    requires UniqueKeys(first) && UniqueKeys(second)
    ensures IsSchema(ObjectSchema(first, [])) && IsSchema(ObjectSchema(second, []))
    ensures Mergeable([ObjectSchema(first, []), ObjectSchema(second, [])])
    ensures AllOfAsWritten([ObjectSchema(first, []), ObjectSchema(second, [])]) ==
            Ok(MergeAsWritten([ObjectSchema(first, []), ObjectSchema(second, [])]))
    ensures AllOf([ObjectSchema(first, []), ObjectSchema(second, [])]) ==
            Ok(Merge([ObjectSchema(first, []), ObjectSchema(second, [])]))
  {
    var schemas := [ObjectSchema(first, []), ObjectSchema(second, [])];
    ObjectFieldsLookup(Bool(false), Arr(KeyNames(first)), first);
    ObjectFieldsLookup(Bool(false), Arr(KeyNames(second)), second);
    assert HaveMatchingAdditionalPropertiesValue(schemas);
  }

  /**
   * `allOf(object({a, b}), object({c}))` as written requires only `c` and
   * `b`.
   */
  lemma DefaultObjectsMergeLosesName(a: string, b: string, c: string, va: Json, vb: Json, vc: Json)
    requires a != b && a != c
    ensures AllOfAsWritten(TwoDefaultObjects(a, b, c, va, vb, vc)).Ok?
    ensures Get(AllOfAsWritten(TwoDefaultObjects(a, b, c, va, vb, vc)).value, "required") == Some(Arr([Str(c), Str(b)]))
  {
    var s := TwoDefaultObjects(a, b, c, va, vb, vc);
    MergeAsWrittenLosesName(s[0], s[1], a, b, c);
    DefaultObjectsMerge([(a, va), (b, vb)], [(c, vc)]);
    assert s == [s[0], s[1]];
  }

  /** The corrected `allOf(object({a, b}), object({c}))` requires all three names. */
  lemma DefaultObjectsMergeKeepsNames(a: string, b: string, c: string, va: Json, vb: Json, vc: Json)
    requires a != b
    ensures var r := AllOf(TwoDefaultObjects(a, b, c, va, vb, vc));
      r.Ok? && Get(r.value, "required").Some? && Get(r.value, "required").value.Arr? &&
      var required := Get(r.value, "required").value.items;
      Str(a) in required && Str(b) in required && Str(c) in required
  {
    var s := TwoDefaultObjects(a, b, c, va, vb, vc);
    MergeKeepsNames(s[0], s[1], a, b, c);
    DefaultObjectsMerge([(a, va), (b, vb)], [(c, vc)]);
    assert s == [s[0], s[1]];
  }

  /** Merged as written, a schema requiring `a` and `b` and one requiring `c` give a schema requiring `c` and `b`. */
  lemma MergeAsWrittenLosesName(first: Json, second: Json, a: string, b: string, c: string)
    requires IsSchema(first) && IsSchema(second)
    requires RequiredOf(first) == [Str(a), Str(b)] && RequiredOf(second) == [Str(c)]
    ensures Get(MergeAsWritten([first, second]), "required") == Some(Arr([Str(c), Str(b)]))
  {
    OverlaidRequiredLosesName(first, second, a, b, c);
  }

  /** The corrected merge of the same two schemas requires all three names. */
  lemma MergeKeepsNames(first: Json, second: Json, a: string, b: string, c: string)
    requires IsSchema(first) && IsSchema(second)
    requires RequiredOf(first) == [Str(a), Str(b)] && RequiredOf(second) == [Str(c)]
    ensures var required := Get(Merge([first, second]), "required").value.items;
      Str(a) in required && Str(b) in required && Str(c) in required
  {
    UnitedRequiredKeepsNames(first, second, a, b, c);
  }
}
