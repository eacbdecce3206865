// The JSON-schema builder combinators (src/lib/json-schema/json-schema-builder.ts).
// Each builder returns a schema as a JSON object; `allOf` merges plain
// object schemas into one and otherwise wraps its children, opening every
// object schema in them to additional properties.

module SchemaBuilder {
  import opened Wrappers
  import opened JsonValues
  import opened SchemaQueries

  const ONEOF_IN_ALLOF_ERROR_MESSAGE: string :=
    " An 'allOf' schema must not contain a 'oneOf' schema because this leads to a contradiction and"
    + " no JSON value will ever match. This is because the 'allOf' schema requires the 'oneOf' schema"
    + " to allow for additional properties (the additional properties in the 'allOf' schema), but if it"
    + " does then it would also allow for the properties in the other 'oneOf' schema alternatives and"
    + " more than one 'oneOf' schema would match.  To fix this problem make sure to have the 'allOf'"
    + " schema be nested inside the 'oneOf' schema. This unfortunately means that the 'allOf' schema"
    + " will be used twice.  A later version should do this automatically. "

  // ---- Array and object schemas ----

  /**
   * `array(itemSchema, options)`: the type and the item schema, then the
   * options spread over them (absent options spread nothing).
   */
  function ArraySchema(itemSchema: Json, options: Entries): (r: Json)
    requires UniqueKeys(options)
    ensures r.Obj? && UniqueKeys(r.entries)
    ensures Lookup(options, "type").None? ==> Get(r, "type") == Some(Str("array"))
    ensures Lookup(options, "items").None? ==> Get(r, "items") == Some(itemSchema)
    ensures forall k :: Lookup(options, k).Some? ==> Get(r, k) == Lookup(options, k)
    ensures forall k :: Has(r, k) <==> k == "type" || k == "items" || Lookup(options, k).Some?
  {
    var base := [("type", Str("array")), ("items", itemSchema)];
    LookupTwo("type", Str("array"), "items", itemSchema);
    SpreadLookupAll(base, options);
    Obj(Spread(base, options))
  }

  /** The property names as JSON strings, in order: `Object.keys(properties)`. */
  function KeyNames(properties: Entries): (names: seq<Json>)
    ensures |names| == |properties|
    ensures forall i :: 0 <= i < |names| ==> names[i] == Str(properties[i].0)
  {
    seq(|properties|, i requires 0 <= i < |properties| => Str(properties[i].0))
  }

  /**
   * `object(properties, options)`: `additionalProperties` defaults to false
   * when the option is absent, `required` to every property name when the
   * option is absent or null; any other option is dropped.
   */
  function ObjectSchema(properties: Entries, options: Entries): (r: Json)
    ensures r.Obj?
    ensures IsObjectTyped(r) && IsObjectSchema(r)
    ensures Get(r, "properties") == Some(Obj(properties))
    ensures Get(r, "additionalProperties") ==
      if Lookup(options, "additionalProperties").Some? then Lookup(options, "additionalProperties") else Some(Bool(false))
    ensures Get(r, "required") ==
      if Lookup(options, "required").None? || Lookup(options, "required") == Some(Null) then Some(Arr(KeyNames(properties)))
      else Lookup(options, "required")
    ensures UniqueKeys(properties) && RequiredOptionShaped(options) ==> IsSchema(r)
  {
    var additionalProperties := AdditionalPropertiesOption(options);
    var required := RequiredOption(properties, options);
    var entries := ObjectFields(additionalProperties, required, properties);
    ObjectFieldsLookup(additionalProperties, required, properties);
    assert UniqueKeys(properties) && required.Arr? ==> IsSchema(Obj(entries)) by {
      if UniqueKeys(properties) && required.Arr? {
        assert UniqueKeys(entries);
        forall e | e in entries
          ensures FieldShaped(e.0, e.1) && (e.0 == "properties" ==> UniqueKeys(e.1.entries))
          ensures e.0 == "allOf" || e.0 == "oneOf" ==> forall c :: c in e.1.items ==> IsSchema(c)
        {
        }
      }
    }
    Obj(entries)
  }

  /** The `additionalProperties` option, false when absent. */
  function AdditionalPropertiesOption(options: Entries): Json
  {
    match Lookup(options, "additionalProperties")
    case Some(v) => v
    case None => Bool(false)
  }

  /** The `required` option, every property name when absent or null. */
  function RequiredOption(properties: Entries, options: Entries): Json
  {
    match Lookup(options, "required")
    case Some(v) => if v == Null then Arr(KeyNames(properties)) else v
    case None => Arr(KeyNames(properties))
  }

  /** The `required` option is absent, null or an array. */
  predicate RequiredOptionShaped(options: Entries)
  {
    match Lookup(options, "required")
    case None => true
    case Some(v) => v.Null? || v.Arr?
  }

  /** The four fields of an object schema, in the order the builder writes them. */
  function ObjectFields(additionalProperties: Json, required: Json, properties: Entries): Entries
  {
    [("type", Str("object")), ("additionalProperties", additionalProperties), ("required", required), ("properties", Obj(properties))]
  }

  /** An object schema holds exactly its four fields. */
  lemma ObjectSchemaKeys(properties: Entries, options: Entries)
    ensures forall k :: Has(ObjectSchema(properties, options), k) <==>
                        k == "type" || k == "additionalProperties" || k == "required" || k == "properties"
  {
    ObjectFieldsLookup(AdditionalPropertiesOption(options), RequiredOption(properties, options), properties);
  }

  /** What each key of the four fields reads. */
  lemma ObjectFieldsLookup(additionalProperties: Json, required: Json, properties: Entries)
    ensures forall k :: Lookup(ObjectFields(additionalProperties, required, properties), k) ==
                        if k == "type" then Some(Str("object"))
                        else if k == "additionalProperties" then Some(additionalProperties)
                        else if k == "required" then Some(required)
                        else if k == "properties" then Some(Obj(properties))
                        else None
  {
    LookupFour("type", Str("object"), "additionalProperties", additionalProperties, "required", required, "properties", Obj(properties));
  }

  // ---- Value schemas ----

  /** The options a value builder spreads: `{nullable: false}` when none are given. */
  function ValueOptions(options: Option<Entries>): (o: Entries)
    ensures options.None? ==> forall k :: Lookup(o, k) == if k == "nullable" then Some(Bool(false)) else None
    ensures options.Some? ==> o == options.value
  {
    match options
    case None => [("nullable", Bool(false))]
    case Some(o) => o
  }

  /** The fixed fields of a value builder with its options spread over them. */
  function ValueSchema(base: Entries, options: Option<Entries>): (r: Json)
    requires options.Some? ==> UniqueKeys(options.value)
    ensures r.Obj? && (UniqueKeys(base) ==> UniqueKeys(r.entries))
  {
    Obj(Spread(base, ValueOptions(options)))
  }

  /** In a value schema a key reads the option's value when the options hold it, and the builder's own field otherwise. */
  lemma ValueSchemaGet(base: Entries, options: Option<Entries>, k: string)
    requires options.Some? ==> UniqueKeys(options.value)
    ensures Get(ValueSchema(base, options), k) ==
      if Lookup(ValueOptions(options), k).Some? then Lookup(ValueOptions(options), k) else Lookup(base, k)
  {
    SpreadLookup(base, ValueOptions(options), k);
  }

  /** What a value builder's result reads under `type`, `nullable` and `properties`. */
  lemma ValueSchemaFields(base: Entries, options: Option<Entries>)
    requires options.Some? ==> UniqueKeys(options.value)
    ensures Get(ValueSchema(base, options), "type") ==
      if Lookup(ValueOptions(options), "type").Some? then Lookup(ValueOptions(options), "type") else Lookup(base, "type")
    ensures Lookup(base, "nullable").None? ==>
      Get(ValueSchema(base, options), "nullable") == if options.None? then Some(Bool(false)) else Lookup(options.value, "nullable")
    ensures Lookup(base, "properties").None? && Lookup(ValueOptions(options), "properties").None? ==>
      !IsObjectSchema(ValueSchema(base, options))
  {
    ValueSchemaGet(base, options, "type");
    ValueSchemaGet(base, options, "nullable");
    ValueSchemaGet(base, options, "properties");
  }

  /** A value builder whose only fixed field is `type`: the shape shared by `integer`, `number` and `string`. */
  function TypedSchema(typeName: string, options: Option<Entries>): (r: Json)
    requires options.Some? ==> UniqueKeys(options.value)
    ensures Lookup(ValueOptions(options), "type").None? ==> Get(r, "type") == Some(Str(typeName))
    ensures Get(r, "nullable") == if options.None? then Some(Bool(false)) else Lookup(options.value, "nullable")
    ensures Lookup(ValueOptions(options), "properties").None? ==> !IsObjectSchema(r)
  {
    var base := [("type", Str(typeName))];
    LookupOne("type", Str(typeName));
    ValueSchemaFields(base, options);
    ValueSchema(base, options)
  }

  /** `integer(options)`. */
  function IntegerSchema(options: Option<Entries>): Json
    requires options.Some? ==> UniqueKeys(options.value)
  {
    TypedSchema("integer", options)
  }

  /** `number(options)`. */
  function NumberSchema(options: Option<Entries>): Json
    requires options.Some? ==> UniqueKeys(options.value)
  {
    TypedSchema("number", options)
  }

  /** `string(options)`. */
  function StringSchema(options: Option<Entries>): Json
    requires options.Some? ==> UniqueKeys(options.value)
  {
    TypedSchema("string", options)
  }

  /** `enumeration(values, options)`: a string schema listing its values. */
  function EnumerationSchema(values: seq<Json>, options: Option<Entries>): (r: Json)
    requires options.Some? ==> UniqueKeys(options.value)
    ensures Lookup(ValueOptions(options), "type").None? ==> Get(r, "type") == Some(Str("string"))
    ensures Lookup(ValueOptions(options), "enum").None? ==> Get(r, "enum") == Some(Arr(values))
    ensures Get(r, "nullable") == if options.None? then Some(Bool(false)) else Lookup(options.value, "nullable")
    ensures Lookup(ValueOptions(options), "properties").None? ==> !IsObjectSchema(r)
  {
    var base := [("type", Str("string")), ("enum", Arr(values))];
    assert Lookup(base, "type") == Some(Str("string")) && Lookup(base, "enum") == Some(Arr(values))
        && Lookup(base, "nullable").None? && Lookup(base, "properties").None? by {
      LookupTwo("type", Str("string"), "enum", Arr(values));
    }
    ValueSchemaFields(base, options);
    ValueSchemaGet(base, options, "enum");
    ValueSchema(base, options)
  }

  /** `datetime(options)`: a string schema in the "date-time" format. */
  function DatetimeSchema(options: Option<Entries>): (r: Json)
    requires options.Some? ==> UniqueKeys(options.value)
    ensures Lookup(ValueOptions(options), "type").None? ==> Get(r, "type") == Some(Str("string"))
    ensures Lookup(ValueOptions(options), "format").None? ==> Get(r, "format") == Some(Str("date-time"))
    ensures Get(r, "nullable") == if options.None? then Some(Bool(false)) else Lookup(options.value, "nullable")
    ensures Lookup(ValueOptions(options), "properties").None? ==> !IsObjectSchema(r)
  {
    var base := [("type", Str("string")), ("format", Str("date-time"))];
    assert Lookup(base, "type") == Some(Str("string")) && Lookup(base, "format") == Some(Str("date-time"))
        && Lookup(base, "nullable").None? && Lookup(base, "properties").None? by {
      LookupTwo("type", Str("string"), "format", Str("date-time"));
    }
    ValueSchemaFields(base, options);
    ValueSchemaGet(base, options, "format");
    ValueSchema(base, options)
  }

  // ---- oneOf ----

  /** `oneOf(...schemas)`: the alternatives under the one key `oneOf`. */
  function OneOfSchema(schemas: seq<Json>): (r: Json)
    ensures forall k :: Get(r, k) == if k == "oneOf" then Some(Arr(schemas)) else None
    ensures (forall k :: 0 <= k < |schemas| ==> IsSchema(schemas[k])) ==>
      IsSchema(r) && SchemaHasOneOf(r) && !IsObjectSchema(r)
  {
    var entries := [("oneOf", Arr(schemas))];
    assert entries[1..] == [];
    assert forall k :: Lookup(entries, k) == if k == "oneOf" then Some(Arr(schemas)) else None;
    assert forall e :: e in entries ==> e == ("oneOf", Arr(schemas));
    Obj(entries)
  }

  // ---- Opening object schemas to additional properties ----

  /**
   * Every object schema reachable through `allOf` and `oneOf` allows
   * additional properties.
   */
  ghost predicate OpenObjects(s: Json)
    requires IsSchema(s)
    decreases s
  {
    if Has(s, "allOf") then forall k :: 0 <= k < |Children(s, "allOf")| ==> OpenObjects(Children(s, "allOf")[k])
    else if Has(s, "oneOf") then forall k :: 0 <= k < |Children(s, "oneOf")| ==> OpenObjects(Children(s, "oneOf")[k])
    else IsObjectTyped(s) ==> Get(s, "additionalProperties") == Some(Bool(true))
  }

  /**
   * `allowAdditionalProperties`: rewrites the children of an `allOf`, else
   * of a `oneOf`, else sets `additionalProperties: true` on an object-typed
   * schema; every other field keeps its value and place.
   */
  function AllowAdditionalProperties(s: Json): (r: Json)
    requires IsSchema(s)
    ensures IsSchema(r) && OpenObjects(r)
    ensures forall k :: k != "allOf" && k != "oneOf" && k != "additionalProperties" ==> Get(r, k) == Get(s, k)
    ensures Has(s, "allOf") || Has(s, "oneOf") ==> forall k :: Has(r, k) <==> Has(s, k)
    ensures !Has(s, "allOf") && !Has(s, "oneOf") && IsObjectTyped(s) ==>
      forall k :: Has(r, k) <==> Has(s, k) || k == "additionalProperties"
    ensures Has(s, "allOf") ==>
      |Children(r, "allOf")| == |Children(s, "allOf")| && Get(r, "oneOf") == Get(s, "oneOf") &&
      Get(r, "additionalProperties") == Get(s, "additionalProperties")
    ensures !Has(s, "allOf") && Has(s, "oneOf") ==>
      |Children(r, "oneOf")| == |Children(s, "oneOf")| && Get(r, "additionalProperties") == Get(s, "additionalProperties")
    ensures !Has(s, "allOf") && !Has(s, "oneOf") && !IsObjectTyped(s) ==> r == s
    ensures SchemaHasOneOf(r) == SchemaHasOneOf(s)
    decreases s, 1
  {
    if Has(s, "allOf") then AllowInChildren(s, "allOf")
    else if Has(s, "oneOf") then AllowInChildren(s, "oneOf")
    else if Has(s, "type") && Get(s, "type") == Some(Str("object")) then
      Open(s)
    else
      s
  }

  /** `{...s, additionalProperties: true}` on a schema without `allOf` or `oneOf`. */
  function Open(s: Json): (r: Json)
    requires IsSchema(s) && !Has(s, "allOf") && !Has(s, "oneOf")
    ensures IsSchema(r) && !Has(r, "allOf") && !Has(r, "oneOf")
    ensures Get(r, "additionalProperties") == Some(Bool(true))
    ensures forall k :: k != "additionalProperties" ==> Get(r, k) == Get(s, k)
  {
    var r := Obj(Put(s.entries, "additionalProperties", Bool(true)));
    assert IsSchema(r) by {
      forall e | e in r.entries
        ensures FieldShaped(e.0, e.1)
      {
        if e !in s.entries {
          assert e == ("additionalProperties", Bool(true));
        }
      }
    }
    r
  }

  /** `{...s, [key]: s[key].map(allowAdditionalProperties)}`. */
  function AllowInChildren(s: Json, key: string): (r: Json)
    requires IsSchema(s) && (key == "allOf" || key == "oneOf") && Has(s, key)
    ensures IsSchema(r) && |Children(r, key)| == |Children(s, key)|
    ensures forall k :: k != key ==> Get(r, k) == Get(s, k)
    ensures forall k :: Has(r, k) <==> Has(s, k)
    ensures key == "allOf" ==> OpenObjects(r)
    ensures key == "oneOf" && !Has(s, "allOf") ==> OpenObjects(r)
    ensures SchemaHasOneOf(r) == SchemaHasOneOf(s)
    decreases s, 0
  {
    var items := Children(s, key);
    var rewritten := seq(|items|, k requires 0 <= k < |items| => AllowAdditionalProperties(items[k]));
    Rewrite(s, key, items, rewritten)
  }

  /** Opening a schema a second time changes nothing. */
  lemma {:induction false} AllowIdempotent(s: Json)
    requires IsSchema(s)
    ensures AllowAdditionalProperties(AllowAdditionalProperties(s)) == AllowAdditionalProperties(s)
    decreases s
  {
    if Has(s, "allOf") {
      AllowInChildrenIdempotent(s, "allOf");
    } else if Has(s, "oneOf") {
      AllowInChildrenIdempotent(s, "oneOf");
    } else if Has(s, "type") && Get(s, "type") == Some(Str("object")) {
      PutPut(s.entries, "additionalProperties", Bool(true), Bool(true));
    }
  }

  /** Rewriting the rewritten children of `s[key]` again changes nothing. */
  lemma {:induction false} AllowInChildrenIdempotent(s: Json, key: string)
    requires IsSchema(s) && (key == "allOf" || key == "oneOf") && Has(s, key)
    ensures AllowInChildren(AllowInChildren(s, key), key) == AllowInChildren(s, key)
    decreases s, 0
  {
    var items := Children(s, key);
    var rewritten := seq(|items|, k requires 0 <= k < |items| => AllowAdditionalProperties(items[k]));
    var r := AllowInChildren(s, key);
    assert r == Rewrite(s, key, items, rewritten);
    assert Children(r, key) == rewritten;
    var again := seq(|rewritten|, k requires 0 <= k < |rewritten| => AllowAdditionalProperties(rewritten[k]));
    forall k | 0 <= k < |items|
      ensures again[k] == rewritten[k]
    {
      AllowIdempotent(items[k]);
    }
    assert again == rewritten;
    PutPut(s.entries, key, Arr(rewritten), Arr(rewritten));
  }

  /** `{...s, [key]: Arr(rewritten)}` for the rewritten children `rewritten` of `s[key]`. */
  function Rewrite(s: Json, key: string, items: seq<Json>, rewritten: seq<Json>): (r: Json)
    requires IsSchema(s) && (key == "allOf" || key == "oneOf") && Has(s, key)
    requires items == Children(s, key) && |rewritten| == |items|
    requires forall k :: 0 <= k < |rewritten| ==> IsSchema(rewritten[k]) && OpenObjects(rewritten[k])
    requires forall k :: 0 <= k < |rewritten| ==> SchemaHasOneOf(rewritten[k]) == SchemaHasOneOf(items[k])
    ensures r == Obj(Put(s.entries, key, Arr(rewritten)))
    ensures IsSchema(r) && Children(r, key) == rewritten
    ensures forall k :: k != key ==> Get(r, k) == Get(s, k)
    ensures forall k :: Has(r, k) <==> Has(s, k)
    ensures key == "allOf" ==> OpenObjects(r)
    ensures key == "oneOf" && !Has(s, "allOf") ==> OpenObjects(r)
    ensures SchemaHasOneOf(r) == SchemaHasOneOf(s)
  {
    var r := Obj(Put(s.entries, key, Arr(rewritten)));
    assert IsSchema(r) by {
      forall e | e in r.entries
        ensures FieldShaped(e.0, e.1) && (e.0 == "properties" ==> UniqueKeys(e.1.entries))
        ensures (e.0 == "allOf" || e.0 == "oneOf" ==> forall c :: c in e.1.items ==> IsSchema(c))
      {
      }
    }
    assert Get(r, key) == Some(Arr(rewritten));
    r
  }

  // ---- allOf ----

  /** The `properties` of each schema, in order. */
  function PropertyLists(schemas: seq<Json>): (lists: seq<Entries>)
    requires forall k :: 0 <= k < |schemas| ==> IsSchema(schemas[k])
    ensures |lists| == |schemas|
    ensures forall k :: 0 <= k < |schemas| ==> lists[k] == PropertiesOf(schemas[k]) && UniqueKeys(lists[k])
  {
    seq(|schemas|, k requires 0 <= k < |schemas| => PropertiesOf(schemas[k]))
  }

  /** The `required` list of each schema, in order. */
  function RequiredLists(schemas: seq<Json>): (lists: seq<seq<Json>>)
    requires forall k :: 0 <= k < |schemas| ==> IsSchema(schemas[k])
    ensures |lists| == |schemas|
    ensures forall k :: 0 <= k < |schemas| ==> lists[k] == RequiredOf(schemas[k])
  {
    seq(|schemas|, k requires 0 <= k < |schemas| => RequiredOf(schemas[k]))
  }

  /** `Object.assign({}, ...schemas.map(schema => schema.properties))`. */
  function MergedProperties(schemas: seq<Json>): (props: Entries)
    requires forall k :: 0 <= k < |schemas| ==> IsSchema(schemas[k])
    ensures UniqueKeys(props)
  {
    SpreadAll([], PropertyLists(schemas))
  }

  /**
   * A merged property is the one of the last schema defining it, and a name
   * no schema defines is not a merged property.
   */
  lemma MergedPropertiesLookup(schemas: seq<Json>, name: string)
    requires forall k :: 0 <= k < |schemas| ==> IsSchema(schemas[k])
    ensures (forall j :: 0 <= j < |schemas| ==> Lookup(PropertiesOf(schemas[j]), name).None?) ==>
      Lookup(MergedProperties(schemas), name).None?
    ensures forall j :: LastDefiner(schemas, j, name) ==> Lookup(MergedProperties(schemas), name) == Lookup(PropertiesOf(schemas[j]), name)
  {
    var lists := PropertyLists(schemas);
    SpreadAllLookup([], lists, name);
    match LastHolder(lists, name)
    case None =>
    case Some(h) =>
      forall j | LastDefiner(schemas, j, name)
        ensures j == h
      {
        assert Lookup(lists[h], name).Some? && Lookup(lists[j], name).Some?;
      }
  }

  /** Schema `j` defines the property `name` and no later schema does. */
  predicate LastDefiner(schemas: seq<Json>, j: int, name: string)
    requires forall k :: 0 <= k < |schemas| ==> IsSchema(schemas[k])
  {
    && 0 <= j < |schemas| && Lookup(PropertiesOf(schemas[j]), name).Some?
    && forall l :: j < l < |schemas| ==> Lookup(PropertiesOf(schemas[l]), name).None?
  }

  /** The `required` list of schema `j` has a slot `i` and no later list is that long. */
  predicate LastWithSlot(schemas: seq<Json>, j: int, i: int)
    requires forall k :: 0 <= k < |schemas| ==> IsSchema(schemas[k])
  {
    && 0 <= j < |schemas| && 0 <= i < |RequiredOf(schemas[j])|
    && forall l :: j < l < |schemas| ==> i >= |RequiredOf(schemas[l])|
  }

  /**
   * `{type: "object", properties, required, additionalProperties, nullable}`,
   * the last two left out when `undefined`.
   */
  function MergedFields(properties: Entries, required: seq<Json>, additionalProperties: Option<Json>, nullable: Option<Json>): (r: Entries)
    ensures Lookup(r, "type") == Some(Str("object"))
    ensures Lookup(r, "properties") == Some(Obj(properties))
    ensures Lookup(r, "required") == Some(Arr(required))
    ensures Lookup(r, "additionalProperties") == additionalProperties
    ensures Lookup(r, "nullable") == nullable
    ensures UniqueKeys(properties) ==> IsSchema(Obj(r))
  {
    var t := ("type", Str("object"));
    var p := ("properties", Obj(properties));
    var q := ("required", Arr(required));
    var r := match (additionalProperties, nullable)
      case (None, None) => [t, p, q]
      case (Some(a), None) => [t, p, q, ("additionalProperties", a)]
      case (None, Some(n)) => [t, p, q, ("nullable", n)]
      case (Some(a), Some(n)) => [t, p, q, ("additionalProperties", a), ("nullable", n)];
    assert UniqueKeys(r);
    LookupUnique(r, 0);
    LookupUnique(r, 1);
    LookupUnique(r, 2);
    assert Lookup(r, "additionalProperties") == additionalProperties by {
      if additionalProperties.Some? { LookupUnique(r, 3); } else { LookupMissing(r, "additionalProperties"); }
    }
    assert Lookup(r, "nullable") == nullable by {
      if nullable.Some? { LookupUnique(r, |r| - 1); } else { LookupMissing(r, "nullable"); }
    }
    assert UniqueKeys(properties) ==> IsSchema(Obj(r)) by {
      if UniqueKeys(properties) {
        forall e | e in r
          ensures FieldShaped(e.0, e.1) && (e.0 == "properties" ==> UniqueKeys(e.1.entries))
          ensures e.0 == "allOf" || e.0 == "oneOf" ==> forall c :: c in e.1.items ==> IsSchema(c)
        {
        }
      }
    }
    r
  }

  /**
   * `Object.assign([], ...schemas.map(schema => schema.required))`: the
   * `required` lists overlaid by index, so a later list's name replaces an
   * earlier list's name in the same slot.
   */
  function OverlaidRequired(schemas: seq<Json>): (required: seq<Json>)
    requires forall k :: 0 <= k < |schemas| ==> IsSchema(schemas[k])
    ensures forall j :: 0 <= j < |schemas| ==> |RequiredOf(schemas[j])| <= |required|
    ensures forall i, j :: LastWithSlot(schemas, j, i) ==> required[i] == RequiredOf(schemas[j])[i]
  {
    var lists := RequiredLists(schemas);
    assert forall j :: 0 <= j < |schemas| ==> |RequiredOf(schemas[j])| <= |Overlay(lists)| by {
      forall j | 0 <= j < |schemas| ensures |RequiredOf(schemas[j])| <= |Overlay(lists)| {
        assert lists[j] == RequiredOf(schemas[j]);
      }
    }
    Overlay(lists)
  }

  /** The union of the `required` lists: every name some schema requires, once. */
  function UnitedRequired(schemas: seq<Json>): (required: seq<Json>)
    requires forall k :: 0 <= k < |schemas| ==> IsSchema(schemas[k])
    ensures NoDuplicates(required)
    ensures forall x :: x in required <==> exists j :: 0 <= j < |schemas| && x in RequiredOf(schemas[j])
  {
    var lists := RequiredLists(schemas);
    var required := UnionAll(lists);
    assert forall x :: x in required <==> exists j :: 0 <= j < |schemas| && x in RequiredOf(schemas[j]) by {
      forall x ensures x in required <==> exists j :: 0 <= j < |schemas| && x in RequiredOf(schemas[j]) {
        if x in required {
          var j :| 0 <= j < |lists| && x in lists[j];
          assert x in RequiredOf(schemas[j]);
        }
        if exists j :: 0 <= j < |schemas| && x in RequiredOf(schemas[j]) {
          var j :| 0 <= j < |schemas| && x in RequiredOf(schemas[j]);
          assert x in lists[j];
        }
      }
    }
    required
  }

  /**
   * `mergeObjectSchemas` as written: the merged `required` is
   * `Object.assign([], ...required)`, which overlays the lists by index.
   */
  function MergeObjectSchemasAsWritten(schemas: seq<Json>): (r: Json)
    requires |schemas| > 0 && forall k :: 0 <= k < |schemas| ==> IsSchema(schemas[k])
    ensures IsSchema(r) && IsObjectTyped(r) && IsObjectSchema(r)
    ensures Get(r, "properties") == Some(Obj(MergedProperties(schemas)))
    ensures Get(r, "additionalProperties") == Get(schemas[0], "additionalProperties")
    ensures Get(r, "nullable") == Get(schemas[0], "nullable")
    ensures Get(r, "required") == Some(Arr(OverlaidRequired(schemas)))
  {
    Obj(MergedFields(MergedProperties(schemas), OverlaidRequired(schemas), Get(schemas[0], "additionalProperties"), Get(schemas[0], "nullable")))
  }

  /**
   * `mergeObjectSchemas` with the merged `required` being the union of the
   * inputs' lists, as the conjunction of object schemas demands.
   */
  function MergeObjectSchemas(schemas: seq<Json>): (r: Json)
    requires |schemas| > 0 && forall k :: 0 <= k < |schemas| ==> IsSchema(schemas[k])
    ensures IsSchema(r) && IsObjectTyped(r) && IsObjectSchema(r)
    ensures Get(r, "properties") == Some(Obj(MergedProperties(schemas)))
    ensures Get(r, "additionalProperties") == Get(schemas[0], "additionalProperties")
    ensures Get(r, "nullable") == Get(schemas[0], "nullable")
    ensures Get(r, "required") == Some(Arr(UnitedRequired(schemas)))
  {
    Obj(MergedFields(MergedProperties(schemas), UnitedRequired(schemas), Get(schemas[0], "additionalProperties"), Get(schemas[0], "nullable")))
  }

  /** `haveMatchingValues(objects, keys)`: every object agrees with the first on every key, absent counting as a value. */
  predicate HaveMatchingValues(objects: seq<Json>, keys: seq<string>)
    requires |objects| > 0
  {
    forall i, j :: 0 <= i < |objects| && 0 <= j < |keys| ==> Get(objects[i], keys[j]) == Get(objects[0], keys[j])
  }

  /** The merge condition of `allOf`: every schema has `properties`, and all agree on `additionalProperties` and `nullable`. */
  predicate Mergeable(schemas: seq<Json>)
    requires |schemas| > 0
  {
    && (forall k :: 0 <= k < |schemas| ==> IsObjectSchema(schemas[k]))
    && HaveMatchingValues(schemas, ["additionalProperties", "nullable"])
  }

  /** `schemas.map(allowAdditionalProperties)`. */
  function AllowAll(schemas: seq<Json>): (r: seq<Json>)
    requires forall k :: 0 <= k < |schemas| ==> IsSchema(schemas[k])
    ensures |r| == |schemas|
    ensures forall k :: 0 <= k < |r| ==> r[k] == AllowAdditionalProperties(schemas[k]) && IsSchema(r[k]) && OpenObjects(r[k])
  {
    seq(|schemas|, k requires 0 <= k < |schemas| => AllowAdditionalProperties(schemas[k]))
  }

  /**
   * `allOf(...schemas)` as written: merges plain object schemas that agree
   * on `additionalProperties` and `nullable` with `mergeObjectSchemas` as
   * written, whose `required` list is overlaid slot by slot; otherwise
   * throws when a `oneOf` is reachable through `allOf`s, and else wraps the
   * schemas, each opened to additional properties, under `allOf` with
   * `unevaluatedProperties: false`.
   */
  function AllOfAsWritten(schemas: seq<Json>): (r: Result<Json>)
    requires |schemas| > 0 && forall k :: 0 <= k < |schemas| ==> IsSchema(schemas[k])
    ensures r.Err? <==> !Mergeable(schemas) && HasOneOf(schemas)
    ensures r.Err? ==> r.message == ONEOF_IN_ALLOF_ERROR_MESSAGE
    ensures Mergeable(schemas) ==> r.Ok? && IsObjectSchema(r.value)
    ensures Mergeable(schemas) ==> Get(r.value, "required") == Some(Arr(OverlaidRequired(schemas)))
    ensures Mergeable(schemas) ==>
      && Get(r.value, "properties") == Some(Obj(MergedProperties(schemas)))
      && Get(r.value, "additionalProperties") == Get(schemas[0], "additionalProperties")
      && Get(r.value, "nullable") == Get(schemas[0], "nullable")
    ensures Mergeable(schemas) ==> r == Ok(MergeObjectSchemasAsWritten(schemas))
    ensures r.Ok? && !Mergeable(schemas) ==> IsSchema(r.value) && OpenObjects(r.value)
    ensures r.Ok? && !Mergeable(schemas) ==>
      && Children(r.value, "allOf") == AllowAll(schemas)
      && Get(r.value, "unevaluatedProperties") == Some(Bool(false))
    ensures !Mergeable(schemas) && !HasOneOf(schemas) ==> r == Ok(WrapAllOf(schemas))
  {
    if Mergeable(schemas) then Ok(MergeObjectSchemasAsWritten(schemas))
    else if HasOneOf(schemas) then Err(ONEOF_IN_ALLOF_ERROR_MESSAGE)
    else Ok(WrapAllOf(schemas))
  }

  /**
   * `allOf` with the corrected merge: the merged `required` list is the
   * union of the schemas' lists. Everything else is as written.
   */
  function AllOf(schemas: seq<Json>): (r: Result<Json>)
    requires |schemas| > 0 && forall k :: 0 <= k < |schemas| ==> IsSchema(schemas[k])
    ensures r.Err? <==> !Mergeable(schemas) && HasOneOf(schemas)
    ensures r.Err? ==> r.message == ONEOF_IN_ALLOF_ERROR_MESSAGE
    ensures Mergeable(schemas) ==> r.Ok? && IsObjectSchema(r.value)
    ensures Mergeable(schemas) ==> Get(r.value, "required") == Some(Arr(UnitedRequired(schemas)))
    ensures Mergeable(schemas) ==>
      && Get(r.value, "properties") == Some(Obj(MergedProperties(schemas)))
      && Get(r.value, "additionalProperties") == Get(schemas[0], "additionalProperties")
      && Get(r.value, "nullable") == Get(schemas[0], "nullable")
    ensures Mergeable(schemas) ==> r == Ok(MergeObjectSchemas(schemas))
    ensures r.Ok? && !Mergeable(schemas) ==> IsSchema(r.value) && OpenObjects(r.value)
    ensures r.Ok? && !Mergeable(schemas) ==>
      && Children(r.value, "allOf") == AllowAll(schemas)
      && Get(r.value, "unevaluatedProperties") == Some(Bool(false))
    ensures !Mergeable(schemas) && !HasOneOf(schemas) ==> r == Ok(WrapAllOf(schemas))
  {
    if Mergeable(schemas) then Ok(MergeObjectSchemas(schemas))
    else if HasOneOf(schemas) then Err(ONEOF_IN_ALLOF_ERROR_MESSAGE)
    else Ok(WrapAllOf(schemas))
  }

  /**
   * The corrected `allOf` differs from the one as written only in the
   * `required` list of a merge: both throw on the same schemas, wrap the
   * same way, and merge to the same type, properties, `additionalProperties`
   * and `nullable`.
   */
  lemma AllOfDiffersOnlyInRequired(schemas: seq<Json>)
    requires |schemas| > 0 && forall k :: 0 <= k < |schemas| ==> IsSchema(schemas[k])
    ensures AllOf(schemas).Err? <==> AllOfAsWritten(schemas).Err?
    ensures !Mergeable(schemas) ==> AllOf(schemas) == AllOfAsWritten(schemas)
    ensures Mergeable(schemas) ==>
      var r, w := AllOf(schemas).value, AllOfAsWritten(schemas).value;
      && Get(r, "type") == Get(w, "type")
      && Get(r, "properties") == Get(w, "properties")
      && Get(r, "additionalProperties") == Get(w, "additionalProperties")
      && Get(r, "nullable") == Get(w, "nullable")
  {
    if Mergeable(schemas) {
      assert AllOf(schemas) == Ok(MergeObjectSchemas(schemas));
      assert AllOfAsWritten(schemas) == Ok(MergeObjectSchemasAsWritten(schemas));
    }
  }

  /** `{allOf: schemas.map(allowAdditionalProperties), unevaluatedProperties: false}`. */
  function WrapAllOf(schemas: seq<Json>): (r: Json)
    requires forall k :: 0 <= k < |schemas| ==> IsSchema(schemas[k])
    ensures IsSchema(r) && OpenObjects(r)
    ensures Get(r, "unevaluatedProperties") == Some(Bool(false))
    ensures Children(r, "allOf") == AllowAll(schemas)
    ensures SchemaHasOneOf(r) == HasOneOf(schemas)
  {
    var children := AllowAll(schemas);
    var entries := [("allOf", Arr(children)), ("unevaluatedProperties", Bool(false))];
    LookupTwo("allOf", Arr(children), "unevaluatedProperties", Bool(false));
    assert IsSchema(Obj(entries)) by {
      forall e | e in entries
        ensures e.0 == "allOf" ==> forall c :: c in e.1.items ==> IsSchema(c)
      {
        if e.0 == "allOf" {
          forall c | c in e.1.items ensures IsSchema(c) {
            var k :| 0 <= k < |children| && children[k] == c;
          }
        }
      }
    }
    var r := Obj(entries);
    assert Children(r, "allOf") == children;
    r
  }

  // ---- Merging two default object schemas ----

  /**
   * Two object schemas built with default options merge under `allOf`:
   * both have properties and both say `additionalProperties: false` and
   * nothing about `nullable`. Both `allOf`s merge them, each with its own
   * merge.
   */
  lemma DefaultObjectsMerge(first: Entries, second: Entries)
    requires UniqueKeys(first) && UniqueKeys(second)
    ensures IsSchema(ObjectSchema(first, [])) && IsSchema(ObjectSchema(second, []))
    ensures Mergeable([ObjectSchema(first, []), ObjectSchema(second, [])])
    ensures AllOfAsWritten([ObjectSchema(first, []), ObjectSchema(second, [])]) ==
            Ok(MergeObjectSchemasAsWritten([ObjectSchema(first, []), ObjectSchema(second, [])]))
    ensures AllOf([ObjectSchema(first, []), ObjectSchema(second, [])]) ==
            Ok(MergeObjectSchemas([ObjectSchema(first, []), ObjectSchema(second, [])]))
  {
    var schemas := [ObjectSchema(first, []), ObjectSchema(second, [])];
    var keys := ["additionalProperties", "nullable"];
    assert Get(schemas[0], "nullable") == None && Get(schemas[1], "nullable") == None by {
      ObjectSchemaKeys(first, []);
      ObjectSchemaKeys(second, []);
      assert !Has(schemas[0], "nullable") && !Has(schemas[1], "nullable");
    }
    forall i, j | 0 <= i < |schemas| && 0 <= j < |keys|
      ensures Get(schemas[i], keys[j]) == Get(schemas[0], keys[j])
    {
      assert keys[j] == "additionalProperties" || keys[j] == "nullable";
    }
    assert HaveMatchingValues(schemas, keys);
  }

  /** An object schema built with default options is a schema requiring all its property names. */
  lemma DefaultObjectRequired(properties: Entries)
    requires UniqueKeys(properties)
    ensures IsSchema(ObjectSchema(properties, [])) && RequiredOf(ObjectSchema(properties, [])) == KeyNames(properties)
  {
  }

  /** The names of one and of two properties. */
  lemma KeyNamesOfPair(a: string, b: string, c: string, va: Json, vb: Json, vc: Json)
    ensures KeyNames([(a, va), (b, vb)]) == [Str(a), Str(b)] && KeyNames([(c, vc)]) == [Str(c)]
  {
  }

  /**
   * `[object({a: va, b: vb}), object({c: vc})]` with default options: two
   * schemas, the first requiring `a` and `b`, the second `c`.
   */
  function TwoDefaultObjects(a: string, b: string, c: string, va: Json, vb: Json, vc: Json): (s: seq<Json>)
    requires a != b
    ensures |s| == 2 && forall k :: 0 <= k < |s| ==> IsSchema(s[k])
    ensures RequiredOf(s[0]) == [Str(a), Str(b)] && RequiredOf(s[1]) == [Str(c)]
  {
    var ab, ce := [(a, va), (b, vb)], [(c, vc)];
    DefaultObjectRequired(ab);
    DefaultObjectRequired(ce);
    KeyNamesOfPair(a, b, c, va, vb, vc);
    [ObjectSchema(ab, []), ObjectSchema(ce, [])]
  }

  /**
   * `allOf(object({a, b}), object({c}))` as written requires only `c` and
   * `b`: `a`, which the first schema requires, is lost.
   */
  lemma DefaultObjectsMergeAsWritten(a: string, b: string, c: string, va: Json, vb: Json, vc: Json)
    requires a != b && a != c
    ensures AllOfAsWritten(TwoDefaultObjects(a, b, c, va, vb, vc)).Ok?
    ensures Get(AllOfAsWritten(TwoDefaultObjects(a, b, c, va, vb, vc)).value, "required") == Some(Arr([Str(c), Str(b)]))
  {
    var s := TwoDefaultObjects(a, b, c, va, vb, vc);
    OverlaidRequiredLosesName(s[0], s[1], a, b, c);
    DefaultObjectsMerge([(a, va), (b, vb)], [(c, vc)]);
    assert s == [s[0], s[1]];
  }

  /** The corrected `allOf(object({a, b}), object({c}))` requires all three names. */
  lemma DefaultObjectsMergeCorrected(a: string, b: string, c: string, va: Json, vb: Json, vc: Json)
    requires a != b
    ensures var r := AllOf(TwoDefaultObjects(a, b, c, va, vb, vc));
      r.Ok? && Get(r.value, "required").Some? && Get(r.value, "required").value.Arr? &&
      var required := Get(r.value, "required").value.items;
      Str(a) in required && Str(b) in required && Str(c) in required
  {
    var s := TwoDefaultObjects(a, b, c, va, vb, vc);
    UnitedRequiredKeepsNames(s[0], s[1], a, b, c);
    DefaultObjectsMerge([(a, va), (b, vb)], [(c, vc)]);
    assert s == [s[0], s[1]];
  }

  /** Overlaying `[a, b]` with `[c]` gives `[c, b]`. */
  lemma OverlayLosesName(a: Json, b: Json, c: Json)
    ensures Overlay([[a, b], [c]]) == [c, b]
  {
    var lists := [[a, b], [c]];
    assert lists[..1] == [[a, b]];
    assert lists[..1][..0] == [];
  }

  /** The union of `[a, b]` and `[c]` holds all three. */
  lemma UnionKeepsNames(a: Json, b: Json, c: Json)
    ensures var u := UnionAll([[a, b], [c]]); a in u && b in u && c in u
  {
    var lists := [[a, b], [c]];
    assert a in lists[0] && b in lists[0] && c in lists[1];
  }

  /**
   * Overlaid as written, a schema requiring `a` and `b` and one requiring
   * `c` give the list `[c, b]`: the second list overwrites slot 0.
   */
  lemma OverlaidRequiredLosesName(first: Json, second: Json, a: string, b: string, c: string)
    requires IsSchema(first) && IsSchema(second)
    requires RequiredOf(first) == [Str(a), Str(b)] && RequiredOf(second) == [Str(c)]
    ensures OverlaidRequired([first, second]) == [Str(c), Str(b)]
    ensures Get(MergeObjectSchemasAsWritten([first, second]), "required") == Some(Arr([Str(c), Str(b)]))
  {
    assert RequiredLists([first, second]) == [[Str(a), Str(b)], [Str(c)]];
    OverlayLosesName(Str(a), Str(b), Str(c));
  }

  /** The union of the same two lists holds all three names. */
  lemma UnitedRequiredKeepsNames(first: Json, second: Json, a: string, b: string, c: string)
    requires IsSchema(first) && IsSchema(second)
    requires RequiredOf(first) == [Str(a), Str(b)] && RequiredOf(second) == [Str(c)]
    ensures var required := UnitedRequired([first, second]);
      Str(a) in required && Str(b) in required && Str(c) in required
    ensures Get(MergeObjectSchemas([first, second]), "required") == Some(Arr(UnitedRequired([first, second])))
  {
    assert RequiredLists([first, second]) == [[Str(a), Str(b)], [Str(c)]];
    UnionKeepsNames(Str(a), Str(b), Str(c));
  }
}
