// Queries over JSON schemas (src/lib/json-schema/json-schema-queries.ts).

module SchemaQueries {
  import opened Wrappers
  import opened JsonValues

  const UNKNOWN_SCHEMA_TYPE_MESSAGE: string := "Unknown schema type, (`anyOf`, etc.) is not yet supported"

  /** The shape a value must have under the `ValueSchema` type for the key it is stored under. */
  predicate FieldShaped(key: string, value: Json)
  {
    && (key == "allOf" || key == "oneOf" || key == "required" ==> value.Arr?)
    && (key == "properties" ==> value.Obj?)
  }

  /**
   * What the `ValueSchema` type admits: an object whose `allOf` and `oneOf`
   * are arrays of schemas, whose `properties` is an object with distinct
   * keys and whose `required` is an array.
   */
  ghost predicate IsSchema(s: Json)
  {
    && s.Obj? && UniqueKeys(s.entries)
    && forall e :: e in s.entries ==>
      && FieldShaped(e.0, e.1)
      && (e.0 == "properties" ==> UniqueKeys(e.1.entries))
      && (e.0 == "allOf" || e.0 == "oneOf" ==> forall c :: c in e.1.items ==> IsSchema(c))
  }

  /** `schema.allOf` or `schema.oneOf` as a list, empty when the key is absent. */
  function Children(s: Json, key: string): (items: seq<Json>)
    requires IsSchema(s) && (key == "allOf" || key == "oneOf")
    ensures Has(s, key) ==> Get(s, key) == Some(Arr(items))
    ensures !Has(s, key) ==> items == []
    ensures forall k :: 0 <= k < |items| ==> items[k] < s && IsSchema(items[k])
  {
    LookupAt(s.entries, key);
    match KeyIndex(s.entries, key)
    case None => []
    case Some(i) =>
      assert s.entries[i] in s.entries;
      s.entries[i].1.items
  }

  /** `schema.properties` as entries, empty when the key is absent (`Object.assign` skips `undefined`). */
  function PropertiesOf(s: Json): (props: Entries)
    requires IsSchema(s)
    ensures Has(s, "properties") ==> Get(s, "properties") == Some(Obj(props))
    ensures !Has(s, "properties") ==> props == []
    ensures UniqueKeys(props)
  {
    LookupAt(s.entries, "properties");
    match KeyIndex(s.entries, "properties")
    case None => []
    case Some(i) =>
      assert s.entries[i] in s.entries;
      s.entries[i].1.entries
  }

  /** `schema.required` as a list, empty when the key is absent. */
  function RequiredOf(s: Json): (required: seq<Json>)
    requires IsSchema(s)
    ensures Has(s, "required") ==> Get(s, "required") == Some(Arr(required))
    ensures !Has(s, "required") ==> required == []
  {
    LookupAt(s.entries, "required");
    match KeyIndex(s.entries, "required")
    case None => []
    case Some(i) =>
      assert s.entries[i] in s.entries;
      s.entries[i].1.items
  }

  /** `isObjectSchema`: the schema has a `properties` key. */
  predicate IsObjectSchema(s: Json)
  {
    Has(s, "properties")
  }

  /** The schema's `type` is the string "object". */
  predicate IsObjectTyped(s: Json)
  {
    Get(s, "type") == Some(Str("object"))
  }

  /**
   * `isObjectCompositionSchema`: false unless the type is "object"; true
   * for an object schema; for an `allOf` or `oneOf` the children are asked
   * in turn; anything else throws.
   */
  function IsObjectCompositionSchema(s: Json): (r: Result<bool>)
    requires IsSchema(s)
    decreases s, 1
  {
    if !Has(s, "type") then Ok(false)
    else if Get(s, "type") != Some(Str("object")) then Ok(false)
    else if IsObjectSchema(s) then Ok(true)
    else if Has(s, "allOf") then EveryComposition(s, Children(s, "allOf"))
    else if Has(s, "oneOf") then EveryComposition(s, Children(s, "oneOf"))
    else Err(UNKNOWN_SCHEMA_TYPE_MESSAGE)
  }

  /**
   * `items.every(isObjectCompositionSchema)`: the children are asked left to
   * right, the first `false` stops the walk, and a child that throws ends it
   * with that error.
   */
  function EveryComposition(ghost parent: Json, items: seq<Json>): (r: Result<bool>)
    requires forall k :: 0 <= k < |items| ==> items[k] < parent && IsSchema(items[k])
    ensures r == Ok(true) <==> forall k :: 0 <= k < |items| ==> IsObjectCompositionSchema(items[k]) == Ok(true)
    ensures r != Ok(true) ==>
      exists k :: 0 <= k < |items| && IsObjectCompositionSchema(items[k]) == r &&
        forall j :: 0 <= j < k ==> IsObjectCompositionSchema(items[j]) == Ok(true)
    decreases parent, 0, |items|
  {
    if items == [] then Ok(true)
    else
      match IsObjectCompositionSchema(items[0])
      case Err(m) => Err(m)
      case Ok(b) =>
        if !b then Ok(false)
        else
          var tail := items[1..];
          assert forall k :: 1 <= k < |items| ==> tail[k - 1] == items[k];
          var rest := EveryComposition(parent, tail);
          assert rest != Ok(true) ==>
            exists k :: 0 <= k < |items| && IsObjectCompositionSchema(items[k]) == rest &&
              forall j :: 0 <= j < k ==> IsObjectCompositionSchema(items[j]) == Ok(true)
          by {
            if rest != Ok(true) {
              var k :| 0 <= k < |tail| && IsObjectCompositionSchema(tail[k]) == rest &&
                forall j :: 0 <= j < k ==> IsObjectCompositionSchema(tail[j]) == Ok(true);
              assert IsObjectCompositionSchema(items[k + 1]) == rest;
              assert forall j :: 0 <= j < k + 1 ==> IsObjectCompositionSchema(items[j]) == Ok(true) by {
                forall j | 0 < j < k + 1
                  ensures IsObjectCompositionSchema(items[j]) == Ok(true)
                {
                  assert items[j] == tail[j - 1];
                }
              }
            }
          }
          rest
  }

  /** A `oneOf` in the schema itself or anywhere down its chain of `allOf`s. */
  predicate SchemaHasOneOf(s: Json)
    requires IsSchema(s)
    decreases s
  {
    || Has(s, "oneOf")
    || (Has(s, "allOf") && exists k :: 0 <= k < |Children(s, "allOf")| && SchemaHasOneOf(Children(s, "allOf")[k]))
  }

  /** `hasOneOf`: some schema of the list has a `oneOf`, or an `allOf` list that has one. */
  predicate HasOneOf(schemas: seq<Json>)
    requires forall k :: 0 <= k < |schemas| ==> IsSchema(schemas[k])
  {
    exists k :: 0 <= k < |schemas| && SchemaHasOneOf(schemas[k])
  }

  /** An empty list has no `oneOf`; one list followed by another has one exactly when either does. */
  lemma {:induction false} HasOneOfConcat(a: seq<Json>, b: seq<Json>)
    requires forall k :: 0 <= k < |a| ==> IsSchema(a[k])
    requires forall k :: 0 <= k < |b| ==> IsSchema(b[k])
    ensures !HasOneOf([])
    ensures HasOneOf(a + b) <==> HasOneOf(a) || HasOneOf(b)
  {
    if HasOneOf(b) {
      var k :| 0 <= k < |b| && SchemaHasOneOf(b[k]);
      assert (a + b)[|a| + k] == b[k];
    }
    if HasOneOf(a + b) {
      var k :| 0 <= k < |a + b| && SchemaHasOneOf((a + b)[k]);
      if k >= |a| {
        assert (a + b)[k] == b[k - |a|];
      } else {
        assert (a + b)[k] == a[k];
      }
    }
    if HasOneOf(a) {
      var k :| 0 <= k < |a| && SchemaHasOneOf(a[k]);
      assert (a + b)[k] == a[k];
    }
  }
}
