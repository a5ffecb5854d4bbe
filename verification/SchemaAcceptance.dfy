/**
 * What the gate accepts, stated in keyword literals: for well-typed schemas exactly the extensions
 * of the expected ones by keywords that cannot reject a benchmark request.
 */
module SchemaAcceptance {
  import opened Options
  import opened Json
  import opened SchemaReference
  import opened SchemaChecker
  import opened SchemaSemantics
  import opened SchemaSoundness
  import opened SchemaExactness

  // ---------------------------------------------------------------- harmless keywords

  /** Keywords that describe and never reject. */
  ghost predicate Annotates(keyword: string)
  {
    || keyword == "$id" || keyword == "$schema" || keyword == "$comment" || keyword == "title"
    || keyword == "description" || keyword == "default" || keyword == "examples" || keyword == "deprecated"
    || keyword == "readOnly" || keyword == "writeOnly"
  }

  ghost predicate UnderStandard(root: Value)
  {
    root.Obj? && "$schema" in root.members ==>
      || root.members["$schema"] == Null
      || root.members["$schema"] == Str("https://json-schema.org/draft/2020-12/schema")
      || root.members["$schema"] == Str("https://json-schema.org/draft/2020-12/schema#")
  }

  /** A list of different names, each of a listed property. */
  ghost predicate RequiresListed(required: Value, schema: map<string, Value>)
  {
    && required.Arr? && "properties" in schema && schema["properties"].Obj?
    && (forall i, j | 0 <= i < j < |required.items| :: required.items[i] != required.items[j])
    && forall i | 0 <= i < |required.items| :: required.items[i].Str? && required.items[i].s in schema["properties"].members
  }

  /** A bound on a number that all instances, and there are some, reach. */
  ghost predicate BoundReached(bound: Value, schema: map<string, Value>, instances: Option<seq<Value>>)
  {
    && bound.Num? && "type" in schema && (schema["type"] == Str("integer") || schema["type"] == Str("number"))
    && instances.Some? && |instances.value| > 0
    && forall i | 0 <= i < |instances.value| :: exists x: real :: instances.value[i] == Num(x) && bound.q <= x
  }

  /** A keyword that may stand beside the expected ones. */
  ghost predicate Harmless(keyword: string, schema: map<string, Value>, root: Value, instances: Option<seq<Value>>)
    requires keyword in schema
  {
    || Annotates(keyword)
    || ((keyword == "$defs" || keyword == "definitions") && schema[keyword].Obj?)
    || (keyword == "additionalProperties" && (schema[keyword] == Bool(true) || schema[keyword] == Bool(false)))
    || (keyword == "format" && schema[keyword].Str? && UnderStandard(root))
    || (keyword == "required" && RequiresListed(schema[keyword], schema))
    || (keyword == "minimum" && BoundReached(schema[keyword], schema, instances))
  }

  lemma AnnotatesIff(keyword: string)
    ensures Annotates(keyword) <==> keyword in ANNOTATION_KEYWORDS
  {}

  lemma RequiresListedIff(required: Value, schema: map<string, Value>, root: Value, instances: Option<seq<Value>>)
    ensures RequiresListed(required, schema) <==> ExtraAccepted("required", required, Obj(schema), root, instances)
  {
    if RequiresListed(required, schema) {
      forall x | x in required.items ensures x.Str? && x.s in schema["properties"].members {
        var i :| 0 <= i < |required.items| && required.items[i] == x;
      }
    }
    if ExtraAccepted("required", required, Obj(schema), root, instances) {
      forall i | 0 <= i < |required.items|
        ensures required.items[i].Str? && required.items[i].s in schema["properties"].members
      {
        assert required.items[i] in required.items;
      }
    }
  }

  lemma BoundReachedIff(bound: Value, schema: map<string, Value>, root: Value, instances: Option<seq<Value>>)
    ensures BoundReached(bound, schema, instances) <==> ExtraAccepted("minimum", bound, Obj(schema), root, instances)
  {
    if BoundReached(bound, schema, instances) {
      forall x | x in instances.value ensures x.Num? && x.q >= bound.q {
        var i :| 0 <= i < |instances.value| && instances.value[i] == x;
        var q: real :| instances.value[i] == Num(q) && bound.q <= q;
      }
    }
    if ExtraAccepted("minimum", bound, Obj(schema), root, instances) {
      forall i | 0 <= i < |instances.value| ensures exists x: real :: instances.value[i] == Num(x) && bound.q <= x {
        assert instances.value[i] in instances.value;
        assert instances.value[i] == Num(instances.value[i].q);
      }
    }
  }

  lemma FormatIff(root: Value)
    ensures UnderStandard(root) <==> FormatIsAnnotation(root)
  {}

  /** The table of extras accepts exactly the harmless keywords. */
  lemma HarmlessIff(keyword: string, schema: map<string, Value>, root: Value, instances: Option<seq<Value>>)
    requires keyword in schema
    ensures Harmless(keyword, schema, root, instances) <==>
            keyword in ANNOTATION_KEYWORDS || ExtraAccepted(keyword, schema[keyword], Obj(schema), root, instances)
  {
    hide RequiresListed, BoundReached, UnderStandard, FormatIsAnnotation, Annotates, ANNOTATION_KEYWORDS;
    AnnotatesIff(keyword);
    FormatIff(root);
    if keyword == "required" { RequiresListedIff(schema[keyword], schema, root, instances); }
    if keyword == "minimum" { BoundReachedIff(schema[keyword], schema, root, instances); }
  }

  // ---------------------------------------------------------------- which instances are looked at

  /** What the matcher looks at below a keyword or a property, member by member. */
  lemma ChildInstancesAre(keyword: Option<string>, name: string, instances: seq<Value>)
    ensures ChildInstances(keyword, name, Some(instances)).Some? && ChildInstances(keyword, name, None).None?
    ensures var child := ChildInstances(keyword, name, Some(instances)).value;
            if keyword == Some("properties") then
              forall x :: x in child <==> exists members :: Obj(members) in instances && name in members && members[name] == x
            else if name == "items" then
              forall x :: x in child <==> exists items :: Arr(items) in instances && x in items
            else child == instances
  {
    if keyword == Some("properties") {
      forall x ensures x in MemberInstances(instances, name) <==> exists members :: Obj(members) in instances && name in members && members[name] == x {
        MembersAre(instances, name, x);
      }
    } else if name == "items" {
      forall x ensures x in ElementInstances(instances) <==> exists items :: Arr(items) in instances && x in items {
        ElementsAre(instances, x);
      }
    }
  }

  lemma {:induction false} MembersAre(instances: seq<Value>, name: string, x: Value)
    ensures x in MemberInstances(instances, name) <==>
            exists members :: Obj(members) in instances && name in members && members[name] == x
  {
    if instances != [] {
      MembersAre(instances[1..], name, x);
      assert instances == [instances[0]] + instances[1..];
      if instances[0].Obj? { assert instances[0] == Obj(instances[0].members); }
    }
  }

  lemma {:induction false} ElementsAre(instances: seq<Value>, x: Value)
    ensures x in ElementInstances(instances) <==> exists items :: Arr(items) in instances && x in items
  {
    if instances != [] {
      ElementsAre(instances[1..], x);
      assert instances == [instances[0]] + instances[1..];
      if instances[0].Arr? { assert instances[0] == Arr(instances[0].items); }
    }
  }

  // ---------------------------------------------------------------- extensions of an expected fragment

  /** All keywords of the schema are expected or harmless. */
  ghost predicate OnlyHarmlessBeside(schema: map<string, Value>, expected: set<string>, root: Value,
          instances: Option<seq<Value>>)
  {
    forall keyword | keyword in schema && keyword !in expected :: Harmless(keyword, schema, root, instances)
  }

  /** The same names, in any order. */
  ghost predicate SameNames(actual: Value, expected: Value)
  {
    && actual.Arr? && expected.Arr? && |actual.items| == |expected.items|
    && forall x :: x in actual.items <==> x in expected.items
  }

  /**
   * The fragment leads, perhaps through references, to the expected keywords with their expected
   * values and only harmless ones beside; below `properties` and `items` likewise.
   */
  ghost predicate Extends(fragment: Value, e: Value, keyword: Option<string>, root: Value, instances: Option<seq<Value>>)
    requires ExpectedShape(e)
    decreases e, 3
  {
    var target := Resolve(fragment, root);
    target.Some? && target.value.Obj? && ExtendsObject(target.value.members, e, keyword, root, instances)
  }

  ghost predicate ExtendsObject(a: map<string, Value>, e: Value, keyword: Option<string>, root: Value,
          instances: Option<seq<Value>>)
    requires ExpectedShape(e)
    decreases e, 2
  {
    && OnlyHarmlessBeside(a, e.members.Keys, root, instances)
    && forall name | name in e.members :: name in a && PartExtends(a[name], e, name, keyword, root, instances)
  }

  ghost predicate PartExtends(part: Value, e: Value, name: string, keyword: Option<string>, root: Value,
          instances: Option<seq<Value>>)
    requires ExpectedShape(e) && name in e.members
    decreases e, 0
  {
    match name
    case "type" => part == e.members[name]
    case "required" => SameNames(part, e.members[name])
    case "items" => Extends(part, e.members[name], Some(name), root, ChildInstances(keyword, name, instances))
    case _ =>
      && part.Obj? && part.members.Keys == e.members[name].members.Keys && "$ref" !in part.members
      && forall k | k in e.members[name].members ::
           && OnlyItsKeywords(part.members[k], e.members[name].members[k], k)
           && Extends(part.members[k], e.members[name].members[k], Some(k), root,
                      ChildInstances(Some("properties"), k, ChildInstances(keyword, "properties", instances)))
  }

  /** A property called `properties` is compared like a list of properties: no keyword may be added. */
  ghost predicate OnlyItsKeywords(fragment: Value, e: Value, name: string)
  {
    name == "properties" ==> fragment.Obj? && e.Obj? && fragment.members.Keys == e.members.Keys
  }

  lemma ExtrasIff(a: map<string, Value>, compared: set<string>, root: Value, instances: Option<seq<Value>>)
    ensures ExtrasCompatible(Obj(a), compared, root, instances) <==> OnlyHarmlessBeside(a, compared, root, instances)
  {
    hide Harmless, ExtraAccepted, ANNOTATION_KEYWORDS;
    forall keyword | keyword in a
      ensures Harmless(keyword, a, root, instances) <==>
              keyword in ANNOTATION_KEYWORDS || ExtraAccepted(keyword, a[keyword], Obj(a), root, instances)
    {
      HarmlessIff(keyword, a, root, instances);
    }
  }

  lemma SameNamesIff(actual: Value, expected: Value, root: Value, instances: Option<seq<Value>>)
    requires expected.Arr? && !HasRef(actual)
    ensures FragmentMatches(actual, expected, Some("required"), root, instances) <==> SameNames(actual, expected)
  {
    ResolvesToItself(actual, root);
    if FragmentMatches(actual, expected, Some("required"), root, instances) {
      forall x ensures x in actual.items <==> x in expected.items {
        assert x in SetOf(actual.items) <==> x in SetOf(expected.items);
      }
    }
    if SameNames(actual, expected) { assert SetOf(actual.items) == SetOf(expected.items); }
  }

  lemma TypeIff(actual: Value, expected: Value, root: Value, instances: Option<seq<Value>>)
    requires expected.Str? && !HasRef(actual)
    ensures FragmentMatches(actual, expected, Some("type"), root, instances) <==> actual == expected
  {
    ResolvesToItself(actual, root);
  }

  lemma MatchOfObject(a: map<string, Value>, e: Value, keyword: Option<string>, root: Value, instances: Option<seq<Value>>)
    requires "$ref" !in a && e.Obj?
    ensures FragmentMatches(Obj(a), e, keyword, root, instances) <==>
            && ExtrasCompatible(Obj(a), e.members.Keys, root, instances)
            && forall name | name in e.members ::
                 && (name == "properties" ==>
                       && e.members[name].Obj? && Get(Obj(a), name).Obj?
                       && Get(Obj(a), name).members.Keys == e.members[name].members.Keys)
                 && FragmentMatches(Get(Obj(a), name), e.members[name], Some(name), root, ChildInstances(keyword, name, instances))
  {
    ResolvesToItself(Obj(a), root);
  }

  /** Nothing matches in the place of a keyword that is missing. */
  lemma MissingNeverMatches(e: Value, name: string, root: Value, instances: Option<seq<Value>>)
    requires ExpectedShape(e) && name in e.members
    ensures !FragmentMatches(Null, e.members[name], Some(name), root, instances)
  {
    ResolvesToItself(Null, root);
  }

  /** In the place of one expected keyword, matching is extending. */
  lemma {:induction false} PartIff(a: map<string, Value>, e: Value, name: string, keyword: Option<string>, root: Value,
          instances: Option<seq<Value>>)
    requires ExpectedShape(e) && name in e.members && "$ref" !in a && WellTyped(Obj(a), root)
    ensures && FragmentMatches(Get(Obj(a), name), e.members[name], Some(name), root, ChildInstances(keyword, name, instances))
            && (name == "properties" ==> Get(Obj(a), name).Obj? && Get(Obj(a), name).members.Keys == e.members[name].members.Keys)
            <==> name in a && PartExtends(a[name], e, name, keyword, root, instances)
    decreases e, 1
  {
    hide FragmentMatches, Extends, ChildInstances, SameNames;
    var child := ChildInstances(keyword, name, instances);
    if name !in a {
      MissingNeverMatches(e, name, root, child);
    } else if name == "type" {
      TypeIff(a[name], e.members[name], root, child);
    } else if name == "required" {
      SameNamesIff(a[name], e.members[name], root, child);
    } else if name == "items" {
      ExtensionIff(a[name], e.members[name], Some(name), root, child);
    } else if a[name].members.Keys == e.members[name].members.Keys {
      ListedIff(a[name].members, e, root, child);
    }
  }

  lemma {:induction false} ListedIff(listed: map<string, Value>, e: Value, root: Value, inside: Option<seq<Value>>)
    requires ExpectedShape(e) && "properties" in e.members && listed.Keys == e.members["properties"].members.Keys
    requires forall k | k in listed :: WellTyped(listed[k], root)
    ensures FragmentMatches(Obj(listed), e.members["properties"], Some("properties"), root, inside) <==>
            && "$ref" !in listed
            && forall k | k in e.members["properties"].members ::
                 && OnlyItsKeywords(listed[k], e.members["properties"].members[k], k)
                 && Extends(listed[k], e.members["properties"].members[k], Some(k), root, ChildInstances(Some("properties"), k, inside))
    decreases e, 0
  {
    hide FragmentMatches, Extends, ChildInstances, Resolve;
    var expected := e.members["properties"].members;
    if "$ref" in listed {
      RefInListNeverMatches(listed, e.members["properties"], root, inside);
    } else {
      MatchOfObject(listed, e.members["properties"], Some("properties"), root, inside);
      SameKeysAreCompatible(listed, root, inside);
      forall k | k in expected
        ensures FragmentMatches(listed[k], expected[k], Some(k), root, ChildInstances(Some("properties"), k, inside)) <==>
                Extends(listed[k], expected[k], Some(k), root, ChildInstances(Some("properties"), k, inside))
      {
        ExtensionIff(listed[k], expected[k], Some(k), root, ChildInstances(Some("properties"), k, inside));
      }
    }
  }

  lemma RefInListNeverMatches(listed: map<string, Value>, expected: Value, root: Value, inside: Option<seq<Value>>)
    requires "$ref" in listed && WellTyped(listed["$ref"], root)
    ensures !FragmentMatches(Obj(listed), expected, Some("properties"), root, inside)
  {
    SchemaIsNoReference(Obj(listed), root);
  }

  lemma SameKeysAreCompatible(listed: map<string, Value>, root: Value, inside: Option<seq<Value>>)
    ensures ExtrasCompatible(Obj(listed), listed.Keys, root, inside)
  {}

  lemma WellTypedParts(a: map<string, Value>, root: Value)
    requires WellTyped(Obj(a), root)
    ensures "type" in a ==> a["type"].Str?
    ensures "required" in a ==> a["required"].Arr?
    ensures "properties" in a ==> a["properties"].Obj? && forall k | k in a["properties"].members :: WellTyped(a["properties"].members[k], root)
    ensures "items" in a ==> WellTyped(a["items"], root)
  {}

  lemma {:induction false} ObjectIff(a: map<string, Value>, e: Value, keyword: Option<string>, root: Value,
          instances: Option<seq<Value>>)
    requires ExpectedShape(e) && "$ref" !in a && WellTyped(Obj(a), root)
    ensures FragmentMatches(Obj(a), e, keyword, root, instances) <==> ExtendsObject(a, e, keyword, root, instances)
    decreases e, 2
  {
    hide FragmentMatches, WellTyped, PartExtends, ExtrasCompatible, OnlyHarmlessBeside, ChildInstances;
    MatchOfObject(a, e, keyword, root, instances);
    ExtrasIff(a, e.members.Keys, root, instances);
    forall name | name in e.members
      ensures && FragmentMatches(Get(Obj(a), name), e.members[name], Some(name), root, ChildInstances(keyword, name, instances))
              && (name == "properties" ==> Get(Obj(a), name).Obj? && Get(Obj(a), name).members.Keys == e.members[name].members.Keys)
              <==> name in a && PartExtends(a[name], e, name, keyword, root, instances)
    {
      PartIff(a, e, name, keyword, root, instances);
    }
  }

  /** A well-typed fragment is accepted exactly if it extends the expected one by harmless keywords. */
  lemma {:induction false} ExtensionIff(fragment: Value, e: Value, keyword: Option<string>, root: Value,
          instances: Option<seq<Value>>)
    requires ExpectedShape(e) && WellTyped(fragment, root)
    ensures FragmentMatches(fragment, e, keyword, root, instances) <==> Extends(fragment, e, keyword, root, instances)
    decreases e, 3
  {
    hide FragmentMatches, WellTyped, ExtendsObject, Resolve;
    MatchByTarget(fragment, e, keyword, root, instances);
    if Resolve(fragment, root).Some? && Resolve(fragment, root).value.Obj? {
      var actual := TargetOf(fragment, root);
      assert actual == Obj(actual.members);
      ObjectIff(actual.members, e, keyword, root, instances);
    }
  }

  lemma TargetOf(fragment: Value, root: Value) returns (actual: Value)
    requires Resolve(fragment, root).Some? && WellTyped(fragment, root)
    ensures Resolve(fragment, root) == Some(actual) && !HasRef(actual) && WellTyped(actual, root)
  {
    hide Resolve, WellTyped, ReachesIn;
    actual := Resolve(fragment, root).value;
    ResolveExact(fragment, root, actual);
    var n :| ReachesIn(fragment, root, n, actual);
    WellTypedAlongChain(fragment, root, n, actual);
  }

  lemma MatchByTarget(fragment: Value, e: Value, keyword: Option<string>, root: Value, instances: Option<seq<Value>>)
    requires e.Obj?
    ensures FragmentMatches(fragment, e, keyword, root, instances) <==>
            && Resolve(fragment, root).Some? && Resolve(fragment, root).value.Obj?
            && FragmentMatches(Resolve(fragment, root).value, e, keyword, root, instances)
  {
    if Resolve(fragment, root).Some? {
      var actual := Resolve(fragment, root).value;
      ResolveExact(fragment, root, actual);
      ResolvesToItself(actual, root);
    }
  }

  // ---------------------------------------------------------------- whole tools

  /** The input schema extends the expected properties by harmless keywords, at the top and inside. */
  ghost predicate ExtendsInput(schema: Value, expected: map<string, Value>, arguments: map<string, Value>)
    requires expected.Keys <= arguments.Keys && forall name | name in expected :: ExpectedShape(expected[name])
  {
    && schema.Obj?
    && var a := schema.members;
    && "type" in a && a["type"] == Str("object")
    && "properties" in a && a["properties"].Obj? && a["properties"].members.Keys == expected.Keys
    && OnlyHarmlessBeside(a, {"type", "properties"}, schema, Some([Obj(arguments)]))
    && forall name | name in expected ::
         Extends(a["properties"].members[name], expected[name], None, schema, Some([arguments[name]]))
  }

  lemma InputSchemaIff(schema: Value, expected: map<string, Value>, arguments: map<string, Value>)
    requires expected.Keys <= arguments.Keys && forall name | name in expected :: ExpectedShape(expected[name])
    requires WellTyped(schema, schema)
    ensures InputSchemaMatches(schema, expected, arguments) <==> ExtendsInput(schema, expected, arguments)
  {
    hide FragmentMatches, Extends, ExtrasCompatible, OnlyHarmlessBeside;
    if schema.Obj? {
      ExtrasIff(schema.members, {"type", "properties"}, schema, Some([Obj(arguments)]));
      assert schema == Obj(schema.members);
      WellTypedParts(schema.members, schema);
      if "properties" in schema.members && schema.members["properties"].members.Keys == expected.Keys {
        forall name | name in expected
          ensures FragmentMatches(schema.members["properties"].members[name], expected[name], None, schema, Some([arguments[name]])) <==>
                  Extends(schema.members["properties"].members[name], expected[name], None, schema, Some([arguments[name]]))
        {
          ExtensionIff(schema.members["properties"].members[name], expected[name], None, schema, Some([arguments[name]]));
        }
      }
    }
  }

  lemma FittingShapes(expected: map<string, Value>, arguments: map<string, Value>)
    requires Fits(expected, arguments)
    ensures expected.Keys == arguments.Keys && forall name | name in expected :: ExpectedShape(expected[name])
  {}

  ghost predicate ExtendsTool(tool: Value, name: string)
    requires tool.Obj?
  {
    && "name" in tool.members && tool.members["name"] == Str(name)
    && "inputSchema" in tool.members
    && name in EXPECTED_TOOL_SCHEMAS && name in CANONICAL_TOOL_ARGUMENTS
    && EXPECTED_TOOL_SCHEMAS[name].Keys <= CANONICAL_TOOL_ARGUMENTS[name].Keys
    && (forall k | k in EXPECTED_TOOL_SCHEMAS[name] :: ExpectedShape(EXPECTED_TOOL_SCHEMAS[name][k]))
    && ExtendsInput(tool.members["inputSchema"], EXPECTED_TOOL_SCHEMAS[name], CANONICAL_TOOL_ARGUMENTS[name])
  }

  /** A well-typed tool is accepted exactly if its schema extends the expected one by harmless keywords. */
  lemma ToolAcceptedIff(tool: Value)
    requires tool.Obj? && WellTyped(Get(tool, "inputSchema"), Get(tool, "inputSchema"))
    ensures ValidateToolSchema(tool) <==> exists name :: ExtendsTool(tool, name)
  {
    hide WellTyped, InputSchemaMatches, ExtendsInput, Fits, AllCovered, EXPECTED_TOOL_SCHEMAS, CANONICAL_TOOL_ARGUMENTS;
    forall name: string | name in EXPECTED_TOOL_SCHEMAS
      ensures name in CANONICAL_TOOL_ARGUMENTS && EXPECTED_TOOL_SCHEMAS[name].Keys <= CANONICAL_TOOL_ARGUMENTS[name].Keys
      ensures forall k | k in EXPECTED_TOOL_SCHEMAS[name] :: ExpectedShape(EXPECTED_TOOL_SCHEMAS[name][k])
      ensures InputSchemaMatches(Get(tool, "inputSchema"), EXPECTED_TOOL_SCHEMAS[name], CANONICAL_TOOL_ARGUMENTS[name]) <==>
              ExtendsInput(Get(tool, "inputSchema"), EXPECTED_TOOL_SCHEMAS[name], CANONICAL_TOOL_ARGUMENTS[name])
    {
      CanonicalArgumentsFit(name);
      FittingShapes(EXPECTED_TOOL_SCHEMAS[name], CANONICAL_TOOL_ARGUMENTS[name]);
      InputSchemaIff(Get(tool, "inputSchema"), EXPECTED_TOOL_SCHEMAS[name], CANONICAL_TOOL_ARGUMENTS[name]);
    }
    if ValidateToolSchema(tool) {
      NoSchemaNoMatch(tool);
      assert ExtendsTool(tool, Get(tool, "name").s);
    }
  }

  lemma NoSchemaNoMatch(tool: Value)
    requires tool.Obj? && ValidateToolSchema(tool)
    ensures "inputSchema" in tool.members && "name" in tool.members
  {
    hide EXPECTED_TOOL_SCHEMAS, CANONICAL_TOOL_ARGUMENTS, FragmentMatches, ExtrasCompatible;
  }

  // ---------------------------------------------------------------- values without objects

  predicate Plain(v: Value)
  {
    match v
    case Obj(_) => false
    case Arr(items) => forall x | x in items :: Plain(x)
    case _ => true
  }

  /** As which number Python compares a scalar: truth values are 0 and 1. */
  function AsNumber(v: Value): Option<real>
  {
    match v
    case Num(q) => Some(q)
    case Bool(true) => Some(1.0)
    case Bool(false) => Some(0.0)
    case _ => None
  }

  predicate PythonEqual(a: Value, b: Value)
  {
    if a.Arr? && b.Arr? then
      |a.items| == |b.items| && forall i | 0 <= i < |a.items| :: PythonEqual(a.items[i], b.items[i])
    else a == b || (AsNumber(a) == AsNumber(b) && AsNumber(b) != None)
  }

  /** Where no objects are involved, and no `required` list, matching is Python's equality, element by element. */
  lemma {:induction false} PlainMatchIff(a: Value, e: Value, keyword: Option<string>, root: Value, instances: Option<seq<Value>>)
    requires Plain(a) && Plain(e) && keyword != Some("required")
    ensures FragmentMatches(a, e, keyword, root, instances) <==> PythonEqual(a, e)
    decreases e
  {
    assert Resolve(a, root) == Some(a);
    hide Resolve, ExtrasCompatible;
    if a.Arr? && e.Arr? && |a.items| == |e.items| {
      forall i | 0 <= i < |e.items|
        ensures FragmentMatches(a.items[i], e.items[i], None, root, None) <==> PythonEqual(a.items[i], e.items[i])
      {
        assert a.items[i] in a.items && e.items[i] in e.items;
        PlainMatchIff(a.items[i], e.items[i], None, root, None);
      }
    }
  }
}
