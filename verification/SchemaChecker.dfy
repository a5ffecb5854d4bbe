/** The benchmark's tool-schema comparison (`benchmark/verify_server.py`). */
module SchemaChecker {
  import opened Options
  import opened Json
  import opened SchemaReference

  const DIALECTS_2020_12: set<string> :=
    {"https://json-schema.org/draft/2020-12/schema", "https://json-schema.org/draft/2020-12/schema#"}

  /** Whether `format` is an annotation under the dialect the document declares, if any. */
  predicate FormatIsAnnotation(root: Value)
  {
    var dialect := if root.Obj? then Get(root, "$schema") else Null;
    dialect.Null? || (dialect.Str? && dialect.s in DIALECTS_2020_12)
  }

  predicate DistinctStrings(values: seq<Value>)
  {
    && (forall i | 0 <= i < |values| :: values[i].Str?)
    && (forall i, j | 0 <= i < j < |values| :: values[i] != values[j])
  }

  /** The loop body for a keyword that is neither compared nor an annotation. */
  predicate ExtraAccepted(keyword: string, value: Value, schema: Value, root: Value, instances: Option<seq<Value>>)
    requires schema.Obj?
  {
    if keyword in {"$defs", "definitions"} then value.Obj?
    else if keyword == "format" then value.Str? && FormatIsAnnotation(root)
    else if keyword == "minimum" then
      && Get(schema, "type") in {Str("integer"), Str("number")}
      && value.Num?
      && instances.Some? && instances.value != []
      && forall x | x in instances.value :: x.Num? && x.q >= value.q
    else if keyword == "additionalProperties" then value.Bool?
    else if keyword == "required" then
      var properties := Get(schema, "properties");
      && value.Arr? && DistinctStrings(value.items)
      && properties.Obj?
      && forall x | x in value.items :: x.Str? && x.s in properties.members
    else false
  }

  /** `schema_extras_are_compatible`. */
  predicate ExtrasCompatible(schema: Value, compared: set<string>, root: Value, instances: Option<seq<Value>>)
    requires schema.Obj?
  {
    forall keyword | keyword in schema.members ::
      || keyword in compared
      || keyword in ANNOTATION_KEYWORDS
      || ExtraAccepted(keyword, schema.members[keyword], schema, root, instances)
  }

  /** The member called `name` of every instance that is an object and has one. */
  function MemberInstances(instances: seq<Value>, name: string): (r: seq<Value>)
    ensures forall x :: x in instances && x.Obj? && name in x.members ==> x.members[name] in r
  {
    if instances == [] then []
    else
      var rest := MemberInstances(instances[1..], name);
      if instances[0].Obj? && name in instances[0].members then [instances[0].members[name]] + rest else rest
  }

  /** The elements of every instance that is an array. */
  function ElementInstances(instances: seq<Value>): (r: seq<Value>)
    ensures forall x, y :: x in instances && x.Arr? && y in x.items ==> y in r
  {
    if instances == [] then []
    else (if instances[0].Arr? then instances[0].items else []) + ElementInstances(instances[1..])
  }

  function ChildInstances(keyword: Option<string>, name: string, instances: Option<seq<Value>>): Option<seq<Value>>
  {
    if instances.None? then None
    else if keyword == Some("properties") then Some(MemberInstances(instances.value, name))
    else if name == "items" then Some(ElementInstances(instances.value))
    else instances
  }

  /** Python's `==` where the expected side is a scalar: `True == 1` holds there. */
  predicate ScalarEqual(actual: Value, expected: Value)
  {
    match (actual, expected)
    case (Bool(b), Num(q)) => q == (if b then 1.0 else 0.0)
    case (Num(q), Bool(b)) => q == (if b then 1.0 else 0.0)
    case _ => actual == expected
  }

  function SetOf(values: seq<Value>): set<Value> { set x | x in values }

  /** `schema_fragment_matches`, by recursion over the expected fragment. */
  predicate FragmentMatches(fragment: Value, expected: Value, keyword: Option<string>, root: Value,
                            instances: Option<seq<Value>>)
    decreases expected
  {
    match Resolve(fragment, root)
    case None => false
    case Some(actual) =>
      if expected.Obj? then
        && actual.Obj?
        && ExtrasCompatible(actual, expected.members.Keys, root, instances)
        && forall name | name in expected.members ::
             && (name == "properties" ==>
                   && expected.members[name].Obj? && Get(actual, name).Obj?
                   && Get(actual, name).members.Keys == expected.members[name].members.Keys)
             && FragmentMatches(Get(actual, name), expected.members[name], Some(name), root,
                                ChildInstances(keyword, name, instances))
      else if expected.Arr? then
        && actual.Arr? && |actual.items| == |expected.items|
        && if keyword == Some("required") then SetOf(actual.items) == SetOf(expected.items)
           else forall i | 0 <= i < |expected.items| ::
                  FragmentMatches(actual.items[i], expected.items[i], None, root, None)
      else ScalarEqual(actual, expected)
  }

  /** `validate_tool_schema` for one tool's expected properties and canonical arguments. */
  predicate InputSchemaMatches(schema: Value, expected: map<string, Value>, arguments: map<string, Value>)
    requires expected.Keys <= arguments.Keys
  {
    && schema.Obj?
    && Get(schema, "type") == Str("object")
    && Get(schema, "properties").Obj?
    && Get(schema, "properties").members.Keys == expected.Keys
    && ExtrasCompatible(schema, {"type", "properties"}, schema, Some([Obj(arguments)]))
    && forall name | name in expected ::
         FragmentMatches(Get(schema, "properties").members[name], expected[name], None, schema, Some([arguments[name]]))
  }

  function OfType(name: string): Value { Obj(map["type" := Str(name)]) }

  const CART_LINE: Value :=
    Obj(map["type" := Str("object"),
            "properties" := Obj(map["product_id" := OfType("integer"), "quantity" := OfType("integer")]),
            "required" := Arr([Str("product_id"), Str("quantity")])])

  const EXPECTED_TOOL_SCHEMAS: map<string, map<string, Value>> :=
    map["search_products" := map["category" := OfType("string"), "min_price" := OfType("number"),
                                 "max_price" := OfType("number"), "limit" := OfType("integer")],
        "get_user_cart" := map["user_id" := OfType("string")],
        "checkout" := map["user_id" := OfType("string"),
                          "items" := Obj(map["type" := Str("array"), "items" := CART_LINE])]]

  function CartLine(product: real, quantity: real): Value
  {
    Obj(map["product_id" := Num(product), "quantity" := Num(quantity)])
  }

  const CANONICAL_TOOL_ARGUMENTS: map<string, map<string, Value>> :=
    map["search_products" := map["category" := Str("Electronics"), "min_price" := Num(50.0),
                                 "max_price" := Num(500.0), "limit" := Num(10.0)],
        "get_user_cart" := map["user_id" := Str("user-00001")],
        "checkout" := map["user_id" := Str("user-00001"),
                          "items" := Arr([CartLine(42.0, 2.0), CartLine(1337.0, 1.0)])]]

  /** The gate for one tool (`validate_tool_schema`). */
  predicate ValidateToolSchema(tool: Value)
    requires tool.Obj?
  {
    var name := Get(tool, "name");
    && name.Str? && name.s in EXPECTED_TOOL_SCHEMAS && name.s in CANONICAL_TOOL_ARGUMENTS
    && InputSchemaMatches(Get(tool, "inputSchema"), EXPECTED_TOOL_SCHEMAS[name.s], CANONICAL_TOOL_ARGUMENTS[name.s])
  }
}

/**
 * What a schema means: JSON Schema 2020-12 for the keywords the checker lets through. Any other
 * keyword is read as rejecting every instance, so validity here implies validity under the full
 * standard.
 */
module SchemaSemantics {
  import opened Options
  import opened Json
  import opened SchemaReference
  import opened SchemaChecker

  const MODELLED_KEYWORDS: set<string> :=
    {"$ref", "$defs", "definitions", "type", "minimum", "required", "properties", "additionalProperties", "items"}

  /** `type` with a string value, section 6.1.1 of JSON Schema Validation 2020-12. */
  ghost predicate HasType(name: string, v: Value)
  {
    match name
    case "null" => v.Null?
    case "boolean" => v.Bool?
    case "object" => v.Obj?
    case "array" => v.Arr?
    case "string" => v.Str?
    case "number" => v.Num?
    case "integer" => v.Num? && v.q == v.q.Floor as real
    case _ => false
  }

  least predicate Valid(schema: Value, v: Value, root: Value)
  {
    match schema
    case Bool(b) => b
    case Obj(m) =>
      && (forall k | k in m :: k in MODELLED_KEYWORDS || k in ANNOTATION_KEYWORDS || (k == "format" && FormatIsAnnotation(root)))
      && ("$ref" in m ==> m["$ref"].Str? && Target(m["$ref"].s, root).Some? && Valid(Target(m["$ref"].s, root).value, v, root))
      && ("type" in m ==> m["type"].Str? && HasType(m["type"].s, v))
      && ("minimum" in m ==> m["minimum"].Num? && (v.Num? ==> v.q >= m["minimum"].q))
      && ("required" in m ==> m["required"].Arr? && forall x | x in m["required"].items :: x.Str? && (v.Obj? ==> x.s in v.members))
      && ("properties" in m ==> m["properties"].Obj?)
      && ("properties" in m && v.Obj? ==>
            forall k | k in m["properties"].members && k in v.members ::
              Valid(m["properties"].members[k], v.members[k], root))
      && ("additionalProperties" in m && v.Obj? ==>
            forall k | k in v.members && !("properties" in m && m["properties"].Obj? && k in m["properties"].members) ::
              Valid(m["additionalProperties"], v.members[k], root))
      && ("items" in m && v.Arr? ==> forall i | 0 <= i < |v.items| :: Valid(m["items"], v.items[i], root))
    case _ => false
  }

  /** The part of the 2020-12 metaschema the checker relies on, at every reachable schema. */
  greatest predicate WellTyped(schema: Value, root: Value)
  {
    match schema
    case Bool(_) => true
    case Obj(m) =>
      && ("$ref" in m && m["$ref"].Str? && Target(m["$ref"].s, root).Some? ==> WellTyped(Target(m["$ref"].s, root).value, root))
      && ("type" in m ==> m["type"].Str?)
      && ("required" in m ==> m["required"].Arr? && forall x | x in m["required"].items :: x.Str?)
      && ("properties" in m ==> m["properties"].Obj? && forall k | k in m["properties"].members :: WellTyped(m["properties"].members[k], root))
      && ("items" in m ==> WellTyped(m["items"], root))
    case _ => false
  }

  /** The shape of the expected fragments: four keywords, with values of the right kind. */
  ghost predicate ExpectedShape(e: Value)
  {
    && e.Obj?
    && var m := e.members;
    && m.Keys <= {"type", "properties", "required", "items"}
    && ("type" in m ==> m["type"].Str?)
    && ("required" in m ==> m["required"].Arr? && forall x | x in m["required"].items :: x.Str?)
    && ("properties" in m ==> m["properties"].Obj?)
    && ("properties" in m ==> forall k | k in m["properties"].members :: ExpectedShape(m["properties"].members[k]))
    && ("items" in m ==> ExpectedShape(m["items"]))
  }

  /** A property called `name` is listed somewhere in the fragment. */
  ghost predicate Lists(e: Value, name: string)
    requires ExpectedShape(e)
    decreases e
  {
    || ("properties" in e.members &&
          (name in e.members["properties"].members ||
           exists k | k in e.members["properties"].members :: Lists(e.members["properties"].members[k], name)))
    || ("items" in e.members && Lists(e.members["items"], name))
  }

  ghost function ListedKeys(e: Value): set<string>
    requires e.Obj?
  {
    if "properties" in e.members && e.members["properties"].Obj? then e.members["properties"].members.Keys else {}
  }

  /** Every object inside `v` has exactly the keys the expected fragment lists for it. */
  ghost predicate ExactKeys(e: Value, v: Value)
    requires ExpectedShape(e)
    decreases e
  {
    && (v.Obj? ==>
          && v.members.Keys == ListedKeys(e)
          && ("properties" in e.members ==>
                forall k | k in e.members["properties"].members && k in v.members :: ExactKeys(e.members["properties"].members[k], v.members[k])))
    && (v.Arr? && "items" in e.members ==> forall i | 0 <= i < |v.items| :: ExactKeys(e.members["items"], v.items[i]))
  }

  /**
   * No `minimum` that passes against the tracked instances exceeds a number `v` that stands here.
   * Directly below the name `properties` the matcher compares key sets, so no `minimum` passes.
   */
  ghost predicate BoundsFit(e: Value, keyword: Option<string>, instances: Option<seq<Value>>, v: Value)
    requires e.Obj?
  {
    keyword != Some("properties") && Get(e, "type") in {Str("integer"), Str("number")} && v.Num? ==>
      || instances.None? || instances.value == []
      || exists x | x in instances.value :: !x.Num? || x.q <= v.q
  }

  /**
   * The instances the matcher carries along fit the members of `v` they are used for. They can
   * differ, because the matcher takes a property called `properties` for the keyword.
   */
  ghost predicate Tracks(e: Value, keyword: Option<string>, instances: Option<seq<Value>>, v: Value)
    requires ExpectedShape(e)
    decreases e
  {
    && BoundsFit(e, keyword, instances, v)
    && ("properties" in e.members && v.Obj? ==>
          var inside := ChildInstances(keyword, "properties", instances);
          forall k | k in e.members["properties"].members && k in v.members ::
            Tracks(e.members["properties"].members[k], Some(k), ChildInstances(Some("properties"), k, inside), v.members[k]))
    && ("items" in e.members && v.Arr? ==>
          forall i | 0 <= i < |v.items| ::
            Tracks(e.members["items"], Some("items"), ChildInstances(keyword, "items", instances), v.items[i]))
  }

  /** `v` has every property the fragment lists, and an element wherever it describes elements. */
  ghost predicate Covers(e: Value, v: Value)
    requires ExpectedShape(e)
    decreases e
  {
    && ("properties" in e.members ==>
          && v.Obj?
          && forall k | k in e.members["properties"].members ::
               k in v.members && Covers(e.members["properties"].members[k], v.members[k]))
    && ("items" in e.members ==> v.Arr? && v.items != [] && Covers(e.members["items"], v.items[0]))
  }
}
