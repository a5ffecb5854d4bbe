/**
 * Inputs for which the conditions of `SchemaExactness` fail: a tool the gate accepts although its
 * schema rejects the benchmark's request, and a list of properties that misleads the matcher.
 */
module SchemaLimits {
  import opened Options
  import opened Json
  import opened SchemaReference
  import opened SchemaChecker
  import opened SchemaSemantics
  import opened SchemaSoundness
  import opened SchemaExactness

  // ---------------------------------------------------------------- an accepted, ill-typed tool

  const USER: Value := Str("user-00001")
  const TYPE_REFERENCE: Value := Obj(map["$ref" := Str(PointerTo(["$defs", "t"]))])
  const ILL_TYPED: Value := Obj(map["type" := TYPE_REFERENCE])
  const ILL_TYPED_SCHEMA: Value :=
    Obj(map["type" := Str("object"),
            "properties" := Obj(map["user_id" := ILL_TYPED]),
            "$defs" := Obj(map["t" := Str("string")])])
  const ILL_TYPED_TOOL: Value := Obj(map["name" := Str("get_user_cart"), "inputSchema" := ILL_TYPED_SCHEMA])

  /** The matcher follows references wherever they stand, so this one is read as the type's name. */
  lemma ReferenceAsTypeMatches(root: Value)
    requires AtPath(root, ["$defs", "t"]) == Some(Str("string"))
    ensures FragmentMatches(ILL_TYPED, OfType("string"), None, root, Some([USER]))
  {
    PointerReachesPath(["$defs", "t"], root);
    assert FragmentMatches(TYPE_REFERENCE, Str("string"), Some("type"), root, Some([USER]));
    assert ILL_TYPED.members.Keys == {"type"} == OfType("string").members.Keys;
    ObjectMatches(ILL_TYPED, OfType("string"), None, root, Some([USER]));
  }

  lemma StringInDefinitions()
    ensures AtPath(ILL_TYPED_SCHEMA, ["$defs", "t"]) == Some(Str("string"))
  {
    assert ["$defs", "t"][1..] == ["t"];
    assert ["t"][1..] == [];
    assert AtPath(ILL_TYPED_SCHEMA.members["$defs"], ["t"]) == Some(Str("string"));
  }

  lemma DefinitionsAreAccepted(arguments: map<string, Value>)
    ensures ExtrasCompatible(ILL_TYPED_SCHEMA, {"type", "properties"}, ILL_TYPED_SCHEMA, Some([Obj(arguments)]))
  {
    assert ILL_TYPED_SCHEMA.members.Keys == {"type", "properties", "$defs"};
    assert ExtraAccepted("$defs", ILL_TYPED_SCHEMA.members["$defs"], ILL_TYPED_SCHEMA, ILL_TYPED_SCHEMA, Some([Obj(arguments)]));
  }

  /** A schema whose `type` is no string is ill typed, so it accepts nothing of its kind. */
  lemma IllTypedSchema()
    ensures !WellTyped(ILL_TYPED_SCHEMA, ILL_TYPED_SCHEMA)
  {
    assert !WellTyped(ILL_TYPED, ILL_TYPED_SCHEMA);
    assert ILL_TYPED_SCHEMA.members["properties"].members["user_id"] == ILL_TYPED;
  }

  lemma IllTypedSchemaMatches(arguments: map<string, Value>)
    requires arguments == map["user_id" := USER]
    ensures InputSchemaMatches(ILL_TYPED_SCHEMA, map["user_id" := OfType("string")], arguments)
  {
    hide FragmentMatches, ExtrasCompatible, OfType;
    StringInDefinitions();
    ReferenceAsTypeMatches(ILL_TYPED_SCHEMA);
    DefinitionsAreAccepted(arguments);
  }

  lemma GetUserCart()
    ensures "get_user_cart" in EXPECTED_TOOL_SCHEMAS && "get_user_cart" in CANONICAL_TOOL_ARGUMENTS
    ensures EXPECTED_TOOL_SCHEMAS["get_user_cart"] == map["user_id" := OfType("string")]
    ensures CANONICAL_TOOL_ARGUMENTS["get_user_cart"] == map["user_id" := USER]
  {}

  lemma IllTypedToolShape()
    ensures ILL_TYPED_TOOL.Obj?
    ensures Get(ILL_TYPED_TOOL, "name") == Str("get_user_cart") && Get(ILL_TYPED_TOOL, "inputSchema") == ILL_TYPED_SCHEMA
  {
    hide ILL_TYPED_SCHEMA;
  }

  /** The gate accepts this tool, and its schema rejects the canonical arguments. */
  lemma AcceptedToolRejectsItsArguments()
    ensures ValidateToolSchema(ILL_TYPED_TOOL)
    ensures !Valid(ILL_TYPED_SCHEMA, Obj(CANONICAL_TOOL_ARGUMENTS["get_user_cart"]), ILL_TYPED_SCHEMA)
  {
    hide InputSchemaMatches, WellTyped, Valid;
    hide EXPECTED_TOOL_SCHEMAS, CANONICAL_TOOL_ARGUMENTS, ILL_TYPED_SCHEMA, ILL_TYPED_TOOL;
    IllTypedToolShape();
    GetUserCart();
    IllTypedSchemaMatches(CANONICAL_TOOL_ARGUMENTS["get_user_cart"]);
    IllTypedSchema();
    ToolExact(ILL_TYPED_TOOL);
  }

  // ---------------------------------------------------------------- a misleading list of properties

  const WHOLE: Value := OfType("integer")

  // One object inside another inside the instance; the middle `x` is judged by the innermost one.
  const INNERMOST: Value := Obj(map["x" := Num(9.0)])
  const MIDDLE: Value := Obj(map["x" := Num(1.0), "properties" := INNERMOST])
  const INSTANCE: Value := Obj(map["properties" := MIDDLE])

  function Properties(members: map<string, Value>): Value { Obj(map["properties" := Obj(members)]) }
  function Innermost(): Value { Properties(map["x" := WHOLE]) }
  function Middle(): Value { Properties(map["x" := WHOLE, "properties" := Innermost()]) }
  function Expected(): Value { Properties(map["properties" := Middle()]) }

  /** `e` describes `v`, whatever its properties are called. */
  ghost predicate Fitting(e: Value, v: Value, root: Value)
  {
    ExpectedShape(e) && !Lists(e, "$ref") && ExactKeys(e, v) && Valid(e, v, root)
  }

  lemma IntegerFits(x: real, root: Value)
    requires x == x.Floor as real
    ensures Fitting(WHOLE, Num(x), root)
  {
    assert WHOLE.members.Keys == {"type"};
  }

  lemma PropertiesFit(members: map<string, Value>, v: Value, root: Value)
    requires v.Obj? && v.members.Keys == members.Keys && "$ref" !in members
    requires forall k | k in members :: Fitting(members[k], v.members[k], root)
    ensures Fitting(Properties(members), v, root)
  {
    hide Valid;
    assert Properties(members).members.Keys == {"properties"};
    PropertiesValid(members, v, root);
  }

  lemma PropertiesValid(members: map<string, Value>, v: Value, root: Value)
    requires v.Obj? && v.members.Keys == members.Keys
    requires forall k | k in members :: Valid(members[k], v.members[k], root)
    ensures Valid(Properties(members), v, root)
  {
    assert Properties(members).members.Keys == {"properties"};
  }

  lemma InnermostFits(root: Value)
    ensures Fitting(Innermost(), INNERMOST, root)
  {
    hide Fitting;
    IntegerFits(9.0, root);
    assert INNERMOST.members.Keys == {"x"};
    PropertiesFit(map["x" := WHOLE], INNERMOST, root);
  }

  lemma MiddleFits(root: Value)
    ensures Fitting(Middle(), MIDDLE, root)
  {
    hide Fitting;
    IntegerFits(1.0, root);
    InnermostFits(root);
    assert MIDDLE.members.Keys == {"x", "properties"};
    PropertiesFit(map["x" := WHOLE, "properties" := Innermost()], MIDDLE, root);
  }

  lemma ExpectedFits(root: Value)
    ensures Fitting(Expected(), INSTANCE, root)
  {
    hide Fitting;
    MiddleFits(root);
    assert INSTANCE.members.Keys == {"properties"};
    PropertiesFit(map["properties" := Middle()], INSTANCE, root);
  }

  lemma OneInstance(v: Value, name: string)
    requires v.Obj? && name in v.members
    ensures MemberInstances([v], name) == [v.members[name]]
  {}

  lemma MiddleIsMisjudged()
    requires ExpectedShape(Middle())
    ensures !Tracks(Middle(), Some("properties"), Some([MIDDLE]), MIDDLE)
  {
    hide MemberInstances;
    var listed := Middle().members["properties"].members;
    assert listed["x"] == WHOLE && "x" in MIDDLE.members && MIDDLE.members["properties"] == INNERMOST;
    OneInstance(MIDDLE, "properties");
    OneInstance(INNERMOST, "x");
    assert !BoundsFit(WHOLE, Some("x"), Some([Num(9.0)]), Num(1.0));
  }

  lemma ExpectedIsMisjudged()
    requires ExpectedShape(Expected())
    ensures !Tracks(Expected(), None, Some([INSTANCE]), INSTANCE)
  {
    hide MemberInstances, BoundsFit;
    var listed := Expected().members["properties"].members;
    assert listed["properties"] == Middle() && "properties" in INSTANCE.members;
    assert ExpectedShape(listed["properties"]);
    MiddleIsMisjudged();
    OneInstance(INSTANCE, "properties");
  }

  /**
   * With properties called `properties` inside one another a bound on the middle `x` is compared
   * with the innermost one, whatever the document is: some accepted schema rejects the instance.
   */
  lemma NestedPropertiesMislead(root: Value)
    ensures Fitting(Expected(), INSTANCE, root)
    ensures exists fragment :: AcceptedWellTyped(fragment, Expected(), None, root, Some([INSTANCE])) && !Valid(fragment, INSTANCE, root)
  {
    hide Valid, Tracks, AcceptedWellTyped, ExactKeys, Lists;
    ExpectedFits(root);
    ExpectedIsMisjudged();
    SoundIffTracked(Expected(), None, root, Some([INSTANCE]), INSTANCE, root);
  }
}
