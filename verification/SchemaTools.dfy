/** The three tools as servers publish them: which bounds, closed objects and references the gate takes. */
module SchemaTools {
  import opened Options
  import opened Json
  import opened SchemaReference
  import opened SchemaChecker
  import opened SchemaSemantics
  import opened SchemaSoundness
  import opened SchemaExactness
  import opened SchemaAcceptance

  function Tool(name: string, schema: Value): Value
  {
    Obj(map["name" := Str(name), "inputSchema" := schema])
  }

  function Typed(name: string): Value { Obj(map["type" := Str(name)]) }

  function AtLeast(name: string, bound: real): Value
  {
    Obj(map["type" := Str(name), "minimum" := Num(bound)])
  }

  // ---------------------------------------------------------------- leaves

  lemma ExtendsItself(a: map<string, Value>, e: Value, keyword: Option<string>, root: Value, instances: Option<seq<Value>>)
    requires ExpectedShape(e) && "$ref" !in a
    ensures Extends(Obj(a), e, keyword, root, instances) <==> ExtendsObject(a, e, keyword, root, instances)
  {
    hide ExtendsObject;
    ResolvesToItself(Obj(a), root);
  }

  lemma TypedExtends(name: string, keyword: Option<string>, root: Value, instances: Option<seq<Value>>)
    ensures ExpectedShape(OfType(name)) && OfType(name) == Typed(name)
    ensures Extends(Typed(name), OfType(name), keyword, root, instances)
    ensures WellTyped(Typed(name), root)
  {
    var e := OfType(name);
    ResolvesToItself(e, root);
    assert e.members.Keys == {"type"};
  }

  lemma AtLeastHarmless(name: string, bound: real, root: Value, instances: seq<Value>)
    requires name == "integer" || name == "number"
    requires instances != [] && forall x | x in instances :: x.Num?
    ensures OnlyHarmlessBeside(AtLeast(name, bound).members, {"type"}, root, Some(instances)) <==> forall x | x in instances :: bound <= x.q
  {
    var a := AtLeast(name, bound).members;
    assert a.Keys == {"type", "minimum"} && a["minimum"] == Num(bound);
    BoundsReached(bound, a, instances);
    hide BoundReached;
    assert Harmless("minimum", a, root, Some(instances)) <==> BoundReached(a["minimum"], a, Some(instances));
  }

  lemma AtLeastTyped(name: string, bound: real, root: Value)
    ensures WellTyped(AtLeast(name, bound), root) && ExpectedShape(OfType(name)) && OfType(name).members.Keys == {"type"}
    ensures AtLeast(name, bound).members.Keys == {"type", "minimum"}
    ensures AtLeast(name, bound).members["type"] == OfType(name).members["type"]
  {}

  lemma AtLeastExtends(name: string, bound: real, keyword: Option<string>, root: Value, instances: seq<Value>)
    requires name == "integer" || name == "number"
    requires instances != [] && forall x | x in instances :: x.Num?
    ensures ExpectedShape(OfType(name)) && WellTyped(AtLeast(name, bound), root)
    ensures Extends(AtLeast(name, bound), OfType(name), keyword, root, Some(instances)) <==>
            forall x | x in instances :: bound <= x.q
  {
    AtLeastTyped(name, bound, root);
    AtLeastHarmless(name, bound, root, instances);
    ExtendsItself(AtLeast(name, bound).members, OfType(name), keyword, root, Some(instances));
    hide OnlyHarmlessBeside, Extends, WellTyped;
  }

  lemma BoundsReached(bound: real, schema: map<string, Value>, instances: seq<Value>)
    requires "type" in schema && (schema["type"] == Str("integer") || schema["type"] == Str("number"))
    requires instances != [] && forall x | x in instances :: x.Num?
    ensures BoundReached(Num(bound), schema, Some(instances)) <==> forall x | x in instances :: bound <= x.q
  {
    if forall x | x in instances :: bound <= x.q {
      forall i | 0 <= i < |instances| ensures exists x: real :: instances[i] == Num(x) && bound <= x {
        assert instances[i] in instances;
        assert instances[i] == Num(instances[i].q);
      }
    }
    if BoundReached(Num(bound), schema, Some(instances)) {
      forall x | x in instances ensures bound <= x.q {
        var i :| 0 <= i < |instances| && instances[i] == x;
        var q: real :| instances[i] == Num(q) && bound <= q;
      }
    }
  }

  // ---------------------------------------------------------------- input schemas

  /** An input schema with these properties and nothing else but perhaps closed. */
  function Input(properties: map<string, Value>): Value
  {
    Obj(map["type" := Str("object"), "properties" := Obj(properties)])
  }

  function ClosedInput(properties: map<string, Value>): Value
  {
    Obj(map["type" := Str("object"), "properties" := Obj(properties), "additionalProperties" := Bool(false)])
  }

  /** Every property extends its expected fragment, for its own argument. */
  ghost predicate EachExtends(properties: map<string, Value>, expected: map<string, Value>, arguments: map<string, Value>,
          root: Value)
  {
    && properties.Keys == expected.Keys == arguments.Keys
    && (forall name | name in expected :: ExpectedShape(expected[name]))
    && forall name | name in expected :: Extends(properties[name], expected[name], None, root, Some([arguments[name]]))
  }

  lemma OneMoreExtends(properties: map<string, Value>, expected: map<string, Value>, arguments: map<string, Value>,
          root: Value, name: string, fragment: Value, e: Value, v: Value)
    requires properties.Keys == expected.Keys == arguments.Keys && name !in expected && ExpectedShape(e)
    ensures EachExtends(properties[name := fragment], expected[name := e], arguments[name := v], root) <==>
            EachExtends(properties, expected, arguments, root) && Extends(fragment, e, None, root, Some([v]))
  {
    hide Extends, ExpectedShape;
    var p, x, a := properties[name := fragment], expected[name := e], arguments[name := v];
    if EachExtends(p, x, a, root) {
      forall k | k in expected ensures ExpectedShape(expected[k]) && Extends(properties[k], expected[k], None, root, Some([arguments[k]])) {
        assert k in x && x[k] == expected[k] && p[k] == properties[k] && a[k] == arguments[k];
      }
      assert name in x && x[name] == e && p[name] == fragment && a[name] == v;
    }
  }

  lemma InputExtends(properties: map<string, Value>, expected: map<string, Value>, arguments: map<string, Value>)
    requires expected.Keys == arguments.Keys == properties.Keys && forall name | name in expected :: ExpectedShape(expected[name])
    ensures ExtendsInput(Input(properties), expected, arguments) <==> EachExtends(properties, expected, arguments, Input(properties))
    ensures ExtendsInput(ClosedInput(properties), expected, arguments) <==> EachExtends(properties, expected, arguments, ClosedInput(properties))
  {
    hide Extends;
    assert Input(properties).members.Keys == {"type", "properties"};
    assert ClosedInput(properties).members.Keys == {"type", "properties", "additionalProperties"};
  }

  lemma InputWellTyped(properties: map<string, Value>, root: Value)
    requires forall name | name in properties :: WellTyped(properties[name], root)
    ensures WellTyped(Input(properties), root) && WellTyped(ClosedInput(properties), root)
  {}

  lemma ToolAccepted(name: string, schema: Value)
    requires WellTyped(schema, schema) && name in EXPECTED_TOOL_SCHEMAS
    ensures name in CANONICAL_TOOL_ARGUMENTS && EXPECTED_TOOL_SCHEMAS[name].Keys == CANONICAL_TOOL_ARGUMENTS[name].Keys
    ensures forall k | k in EXPECTED_TOOL_SCHEMAS[name] :: ExpectedShape(EXPECTED_TOOL_SCHEMAS[name][k])
    ensures ValidateToolSchema(Tool(name, schema)) <==>
            ExtendsInput(schema, EXPECTED_TOOL_SCHEMAS[name], CANONICAL_TOOL_ARGUMENTS[name])
  {
    hide WellTyped, ExtendsInput, Fits, AllCovered, InputSchemaMatches, EXPECTED_TOOL_SCHEMAS, CANONICAL_TOOL_ARGUMENTS;
    CanonicalArgumentsFit(name);
    FittingShapes(EXPECTED_TOOL_SCHEMAS[name], CANONICAL_TOOL_ARGUMENTS[name]);
    InputSchemaIff(schema, EXPECTED_TOOL_SCHEMAS[name], CANONICAL_TOOL_ARGUMENTS[name]);
    ToolMembers(name, schema);
  }

  lemma ToolMembers(name: string, schema: Value)
    ensures Tool(name, schema).Obj? && Get(Tool(name, schema), "name") == Str(name) && Get(Tool(name, schema), "inputSchema") == schema
  {}

  // ---------------------------------------------------------------- search_products

  function SearchProperties(minPrice: real, maxPrice: real, limit: real): map<string, Value>
  {
    map["category" := Typed("string"), "min_price" := AtLeast("number", minPrice),
        "max_price" := AtLeast("number", maxPrice), "limit" := AtLeast("integer", limit)]
  }

  lemma SearchConstants()
    ensures "search_products" in EXPECTED_TOOL_SCHEMAS && "search_products" in CANONICAL_TOOL_ARGUMENTS
    ensures EXPECTED_TOOL_SCHEMAS["search_products"] ==
            map["category" := OfType("string"), "min_price" := OfType("number"), "max_price" := OfType("number"), "limit" := OfType("integer")]
    ensures CANONICAL_TOOL_ARGUMENTS["search_products"] ==
            map["category" := Str("Electronics"), "min_price" := Num(50.0), "max_price" := Num(500.0), "limit" := Num(10.0)]
  {
    hide OfType;
  }

  lemma SearchPropertiesExtend(minPrice: real, maxPrice: real, limit: real, root: Value)
    ensures EachExtends(SearchProperties(minPrice, maxPrice, limit), EXPECTED_TOOL_SCHEMAS["search_products"],
                        CANONICAL_TOOL_ARGUMENTS["search_products"], root) <==>
            minPrice <= 50.0 && maxPrice <= 500.0 && limit <= 10.0
    ensures forall name | name in SearchProperties(minPrice, maxPrice, limit) ::
              WellTyped(SearchProperties(minPrice, maxPrice, limit)[name], root)
  {
    SearchConstants();
    hide EXPECTED_TOOL_SCHEMAS, CANONICAL_TOOL_ARGUMENTS, Extends, ExpectedShape, EachExtends, WellTyped, AtLeast, Typed, OfType;
    TypedExtends("string", None, root, Some([Str("Electronics")]));
    AtLeastExtends("number", minPrice, None, root, [Num(50.0)]);
    AtLeastExtends("number", maxPrice, None, root, [Num(500.0)]);
    AtLeastExtends("integer", limit, None, root, [Num(10.0)]);
    assert Num(50.0) in [Num(50.0)] && Num(500.0) in [Num(500.0)] && Num(10.0) in [Num(10.0)];
    var p1, e1, a1 := map["category" := Typed("string")], map["category" := OfType("string")], map["category" := Str("Electronics")];
    var p2, e2, a2 := p1["min_price" := AtLeast("number", minPrice)], e1["min_price" := OfType("number")], a1["min_price" := Num(50.0)];
    var p3, e3, a3 := p2["max_price" := AtLeast("number", maxPrice)], e2["max_price" := OfType("number")], a2["max_price" := Num(500.0)];
    NothingExtends(root);
    OneMoreExtends(map[], map[], map[], root, "category", Typed("string"), OfType("string"), Str("Electronics"));
    OneMoreExtends(p1, e1, a1, root, "min_price", AtLeast("number", minPrice), OfType("number"), Num(50.0));
    OneMoreExtends(p2, e2, a2, root, "max_price", AtLeast("number", maxPrice), OfType("number"), Num(500.0));
    OneMoreExtends(p3, e3, a3, root, "limit", AtLeast("integer", limit), OfType("integer"), Num(10.0));
  }

  lemma NothingExtends(root: Value)
    ensures EachExtends(map[], map[], map[], root)
  {}

  /** Lower bounds on a search are accepted exactly as far as the benchmark's own search reaches them. */
  lemma SearchBounds(minPrice: real, maxPrice: real, limit: real)
    ensures ValidateToolSchema(Tool("search_products", Input(SearchProperties(minPrice, maxPrice, limit)))) <==>
            minPrice <= 50.0 && maxPrice <= 500.0 && limit <= 10.0
  {
    var properties := SearchProperties(minPrice, maxPrice, limit);
    var schema := Input(properties);
    SearchConstants();
    var expected, arguments := EXPECTED_TOOL_SCHEMAS["search_products"], CANONICAL_TOOL_ARGUMENTS["search_products"];
    assert properties.Keys == expected.Keys == arguments.Keys;
    hide Extends, ExpectedShape, EachExtends, WellTyped, SearchProperties, Input, ExtendsInput, EXPECTED_TOOL_SCHEMAS, CANONICAL_TOOL_ARGUMENTS;
    SearchPropertiesExtend(minPrice, maxPrice, limit, schema);
    InputWellTyped(properties, schema);
    ToolAccepted("search_products", schema);
    InputExtends(properties, expected, arguments);
  }

  // ---------------------------------------------------------------- checkout

  /** A counter as a Rust server describes it. */
  function Counter(bound: real): Value
  {
    Obj(map["type" := Str("integer"), "format" := Str("uint32"), "minimum" := Num(bound)])
  }

  lemma CounterTyped(bound: real, root: Value)
    ensures WellTyped(Counter(bound), root)
    ensures Counter(bound).members.Keys == {"type", "format", "minimum"}
  {}

  lemma CounterHarmless(bound: real, root: Value, instances: seq<Value>)
    requires instances != [] && (forall x | x in instances :: x.Num?) && UnderStandard(root)
    ensures OnlyHarmlessBeside(Counter(bound).members, {"type"}, root, Some(instances)) <==> forall x | x in instances :: bound <= x.q
  {
    var a := Counter(bound).members;
    CounterTyped(bound, root);
    BoundsReached(bound, a, instances);
    hide BoundReached, UnderStandard;
    assert a["minimum"] == Num(bound);
    assert Harmless("minimum", a, root, Some(instances)) <==> BoundReached(a["minimum"], a, Some(instances));
    assert Harmless("format", a, root, Some(instances));
  }

  lemma CounterExtends(bound: real, keyword: Option<string>, root: Value, instances: seq<Value>)
    requires instances != [] && (forall x | x in instances :: x.Num?) && UnderStandard(root)
    ensures ExpectedShape(OfType("integer")) && WellTyped(Counter(bound), root)
    ensures Extends(Counter(bound), OfType("integer"), keyword, root, Some(instances)) <==> forall x | x in instances :: bound <= x.q
  {
    var a, e := Counter(bound).members, OfType("integer");
    CounterTyped(bound, root);
    CounterHarmless(bound, root, instances);
    assert a["type"] == Str("integer") == e.members["type"] && e.members.Keys == {"type"};
    TypeDescribes("integer", Num(1.0));
    ExtendsItself(a, e, keyword, root, Some(instances));
    hide OnlyHarmlessBeside, Extends, Counter, WellTyped, UnderStandard;
  }

  function LineProperties(product: Value, quantity: Value): map<string, Value>
  {
    map["quantity" := quantity, "product_id" := product]
  }

  /** A line of the cart, with the required names in the other order, perhaps closed. */
  function OpenLine(product: Value, quantity: Value): Value
  {
    Obj(map["type" := Str("object"), "required" := Arr([Str("quantity"), Str("product_id")]),
            "properties" := Obj(LineProperties(product, quantity))])
  }

  function ClosedLine(product: Value, quantity: Value): Value
  {
    Obj(map["type" := Str("object"), "additionalProperties" := Bool(false),
            "required" := Arr([Str("quantity"), Str("product_id")]),
            "properties" := Obj(LineProperties(product, quantity))])
  }

  function Lines(): seq<Value> { [CartLine(42.0, 2.0), CartLine(1337.0, 1.0)] }

  /** The fragment fits the cart lines' product and quantity. */
  ghost predicate PairExtends(product: Value, quantity: Value, root: Value)
    requires ExpectedShape(OfType("integer"))
  {
    && Extends(product, OfType("integer"), Some("product_id"), root, Some([Num(42.0), Num(1337.0)]))
    && Extends(quantity, OfType("integer"), Some("quantity"), root, Some([Num(2.0), Num(1.0)]))
  }

  lemma LineMembers()
    ensures MemberInstances(Lines(), "product_id") == [Num(42.0), Num(1337.0)]
    ensures MemberInstances(Lines(), "quantity") == [Num(2.0), Num(1.0)]
  {
    var first, second := CartLine(42.0, 2.0), CartLine(1337.0, 1.0);
    assert Lines()[1..] == [second] && [second][1..] == [];
    assert first.members.Keys == second.members.Keys == {"product_id", "quantity"};
    assert MemberInstances([second], "product_id") == [Num(1337.0)] && MemberInstances([second], "quantity") == [Num(1.0)];
  }

  lemma CartLineConstant()
    ensures CART_LINE.Obj? && CART_LINE.members.Keys == {"type", "properties", "required"}
    ensures CART_LINE.members["type"] == Str("object")
    ensures CART_LINE.members["required"] == Arr([Str("product_id"), Str("quantity")])
    ensures CART_LINE.members["properties"] == Obj(map["product_id" := OfType("integer"), "quantity" := OfType("integer")])
  {
    hide OfType;
  }

  lemma CartLineShape()
    ensures ExpectedShape(OfType("integer")) && ExpectedShape(CART_LINE)
  {
    TypeDescribes("integer", Num(1.0));
    CartLineDescribes(1.0, 1.0);
  }

  lemma RequiredInAnyOrder()
    ensures SameNames(Arr([Str("quantity"), Str("product_id")]), Arr([Str("product_id"), Str("quantity")]))
  {}

  /** What a list of two properties has to extend. */
  lemma PairListed(listed: map<string, Value>, e: Value, first: string, second: string, root: Value, lines: seq<Value>)
    requires ExpectedShape(e) && "properties" in e.members && e.members["properties"].Obj?
    requires e.members["properties"].members.Keys == {first, second} == listed.Keys
    requires first != "properties" && second != "properties" && first != "$ref" && second != "$ref"
    ensures var expected := e.members["properties"].members;
            PartExtends(Obj(listed), e, "properties", Some("items"), root, Some(lines)) <==>
            && Extends(listed[first], expected[first], Some(first), root, Some(MemberInstances(lines, first)))
            && Extends(listed[second], expected[second], Some(second), root, Some(MemberInstances(lines, second)))
  {
    hide Extends, MemberInstances;
    assert ChildInstances(Some("items"), "properties", Some(lines)) == Some(lines);
    assert "$ref" !in listed;
    var expected := e.members["properties"].members;
    assert first in expected && second in expected;
  }

  lemma LineKeys(product: Value, quantity: Value)
    ensures var p := LineProperties(product, quantity);
            p.Keys == {"product_id", "quantity"} && p["product_id"] == product && p["quantity"] == quantity
  {}

  lemma LinePropertiesExtend(product: Value, quantity: Value, root: Value)
    requires ExpectedShape(OfType("integer")) && ExpectedShape(CART_LINE)
    ensures PartExtends(Obj(LineProperties(product, quantity)), CART_LINE, "properties", Some("items"), root, Some(Lines())) <==>
            PairExtends(product, quantity, root)
  {
    CartLineConstant();
    LineMembers();
    LineKeys(product, quantity);
    ExpectedPair();
    hide CART_LINE, Extends, MemberInstances, OfType, ExpectedShape, Lines, PartExtends, LineProperties;
    PairListed(LineProperties(product, quantity), CART_LINE, "product_id", "quantity", root, Lines());
  }

  lemma ExpectedPair()
    ensures var p := map["product_id" := OfType("integer"), "quantity" := OfType("integer")];
            p.Keys == {"product_id", "quantity"} && p["product_id"] == p["quantity"] == OfType("integer")
  {
    hide OfType;
  }

  lemma LineShape(product: Value, quantity: Value, a: map<string, Value>)
    requires a == OpenLine(product, quantity).members || a == ClosedLine(product, quantity).members
    ensures {"type", "required", "properties"} <= a.Keys <= {"type", "required", "properties", "additionalProperties"}
    ensures a["properties"] == Obj(LineProperties(product, quantity)) && a["type"] == Str("object")
    ensures a["required"] == Arr([Str("quantity"), Str("product_id")])
    ensures "additionalProperties" in a ==> a["additionalProperties"] == Bool(false)
  {
    hide LineProperties;
  }

  lemma ClosedIsHarmless(a: map<string, Value>, root: Value, instances: Option<seq<Value>>)
    requires a.Keys <= {"type", "required", "properties", "additionalProperties"}
    requires "additionalProperties" in a ==> a["additionalProperties"] == Bool(false)
    ensures OnlyHarmlessBeside(a, {"type", "properties", "required"}, root, instances)
  {
    hide ANNOTATION_KEYWORDS;
  }

  lemma LineObjectExtends(a: map<string, Value>, product: Value, quantity: Value, root: Value)
    requires ExpectedShape(OfType("integer")) && ExpectedShape(CART_LINE)
    requires a == OpenLine(product, quantity).members || a == ClosedLine(product, quantity).members
    ensures "$ref" !in a
    ensures ExtendsObject(a, CART_LINE, Some("items"), root, Some(Lines())) <==> PairExtends(product, quantity, root)
  {
    hide *;
    CartLineConstant();
    LineShape(product, quantity, a);
    LinePropertiesExtend(product, quantity, root);
    RequiredInAnyOrder();
    ClosedIsHarmless(a, root, Some(Lines()));
    TypeAndRequired(a["type"], a["required"], root);
    ThreeParts(a, CART_LINE, "type", "properties", "required", root, Some(Lines()));
  }

  lemma ThreeParts(a: map<string, Value>, e: Value, x: string, y: string, z: string, root: Value, instances: Option<seq<Value>>)
    requires e.Obj? && ExpectedShape(e)
    requires x in e.members && y in e.members && z in e.members && x in a && y in a && z in a
    requires forall name | name in e.members :: name == x || name == y || name == z
    ensures ExtendsObject(a, e, Some("items"), root, instances) <==>
            && OnlyHarmlessBeside(a, e.members.Keys, root, instances)
            && PartExtends(a[x], e, x, Some("items"), root, instances) && PartExtends(a[y], e, y, Some("items"), root, instances)
            && PartExtends(a[z], e, z, Some("items"), root, instances)
  {
    hide PartExtends, OnlyHarmlessBeside, ExpectedShape;
    var keyword := Some("items");
    if ExtendsObject(a, e, keyword, root, instances) {
      assert PartExtends(a[x], e, x, keyword, root, instances);
    } else if OnlyHarmlessBeside(a, e.members.Keys, root, instances) {
      var name :| name in e.members && !(name in a && PartExtends(a[name], e, name, keyword, root, instances));
      assert name == x || name == y || name == z;
    }
  }

  lemma TypeAndRequired(kind: Value, required: Value, root: Value)
    requires ExpectedShape(CART_LINE)
    requires kind == Str("object") && SameNames(required, Arr([Str("product_id"), Str("quantity")]))
    ensures CART_LINE.members.Keys == {"type", "properties", "required"}
    ensures PartExtends(kind, CART_LINE, "type", Some("items"), root, Some(Lines()))
    ensures PartExtends(required, CART_LINE, "required", Some("items"), root, Some(Lines()))
  {
    CartLineConstant();
    hide CART_LINE, ExpectedShape, SameNames, Lines;
  }

  lemma LineExtends(line: Value, product: Value, quantity: Value, root: Value)
    requires line == OpenLine(product, quantity) || line == ClosedLine(product, quantity)
    ensures ExpectedShape(OfType("integer")) && ExpectedShape(CART_LINE)
    ensures Extends(line, CART_LINE, Some("items"), root, Some(Lines())) <==> PairExtends(product, quantity, root)
    ensures WellTyped(product, root) && WellTyped(quantity, root) ==> WellTyped(line, root)
  {
    CartLineShape();
    LineObjectExtends(line.members, product, quantity, root);
    if WellTyped(product, root) && WellTyped(quantity, root) { LineTyped(line.members, product, quantity, root); }
    assert line == Obj(line.members);
    hide ExtendsObject, PairExtends, ExpectedShape, Extends, CART_LINE, OfType, Lines, OpenLine, ClosedLine, WellTyped;
    ExtendsItself(line.members, CART_LINE, Some("items"), root, Some(Lines()));
  }

  lemma LineTyped(a: map<string, Value>, product: Value, quantity: Value, root: Value)
    requires a == OpenLine(product, quantity).members || a == ClosedLine(product, quantity).members
    requires WellTyped(product, root) && WellTyped(quantity, root)
    ensures WellTyped(Obj(a), root)
  {
    LineShape(product, quantity, a);
    LineKeys(product, quantity);
    hide OpenLine, ClosedLine, LineProperties;
    var required := [Str("quantity"), Str("product_id")];
    forall x | x in required ensures x.Str? {}
  }

  function ItemsOf(line: Value): Value
  {
    Obj(map["type" := Str("array"), "items" := line])
  }

  lemma ItemsKeys(line: Value)
    ensures ItemsOf(line).Obj? && ItemsOf(line).members.Keys == {"type", "items"}
    ensures ItemsOf(line).members["type"] == Str("array") && ItemsOf(line).members["items"] == line
  {}

  lemma ItemsShape()
    ensures ExpectedShape(CART_LINE) && ExpectedShape(ItemsOf(CART_LINE))
  {
    CartLineShape();
    ItemsKeys(CART_LINE);
    hide CART_LINE;
  }

  lemma OneCart(lines: seq<Value>)
    ensures ChildInstances(None, "items", Some([Arr(lines)])) == Some(lines)
  {
    var carts := [Arr(lines)];
    assert carts[1..] == [] && lines + [] == lines;
    assert ElementInstances(carts) == lines + ElementInstances(carts[1..]);
  }

  lemma ItemsExtend(line: Value, root: Value)
    ensures ExpectedShape(CART_LINE) && ExpectedShape(ItemsOf(CART_LINE))
    ensures Extends(ItemsOf(line), ItemsOf(CART_LINE), None, root, Some([Arr(Lines())])) <==>
            Extends(line, CART_LINE, Some("items"), root, Some(Lines()))
    ensures WellTyped(line, root) ==> WellTyped(ItemsOf(line), root)
  {
    ItemsShape();
    ItemsKeys(CART_LINE);
    ItemsKeys(line);
    OneCart(Lines());
    var a, e := ItemsOf(line), ItemsOf(CART_LINE);
    hide CART_LINE, Lines, ItemsOf, Extends, ExpectedShape, ChildInstances;
    ExtendsItself(a.members, e, None, root, Some([Arr(Lines())]));
    assert a == Obj(a.members);
    NothingBeside(a.members, root, Some([Arr(Lines())]));
  }

  lemma NothingBeside(a: map<string, Value>, root: Value, instances: Option<seq<Value>>)
    ensures OnlyHarmlessBeside(a, a.Keys, root, instances)
  {}

  function CheckoutProperties(line: Value): map<string, Value>
  {
    map["user_id" := Typed("string"), "items" := ItemsOf(line)]
  }

  lemma CheckoutConstants()
    ensures "checkout" in EXPECTED_TOOL_SCHEMAS && "checkout" in CANONICAL_TOOL_ARGUMENTS
    ensures EXPECTED_TOOL_SCHEMAS["checkout"] == map["user_id" := OfType("string"), "items" := ItemsOf(CART_LINE)]
    ensures CANONICAL_TOOL_ARGUMENTS["checkout"] == map["user_id" := Str("user-00001"), "items" := Arr(Lines())]
  {
    hide OfType, CART_LINE, CartLine;
  }

  lemma CheckoutPropertiesExtend(line: Value, root: Value)
    requires WellTyped(line, root)
    ensures ExpectedShape(CART_LINE)
    ensures EachExtends(CheckoutProperties(line), EXPECTED_TOOL_SCHEMAS["checkout"], CANONICAL_TOOL_ARGUMENTS["checkout"], root) <==>
            Extends(line, CART_LINE, Some("items"), root, Some(Lines()))
    ensures forall name | name in CheckoutProperties(line) :: WellTyped(CheckoutProperties(line)[name], root)
  {
    CheckoutConstants();
    TypedExtends("string", None, root, Some([Str("user-00001")]));
    ItemsExtend(line, root);
    hide EXPECTED_TOOL_SCHEMAS, CANONICAL_TOOL_ARGUMENTS, Extends, ExpectedShape, EachExtends, WellTyped, Typed, OfType, CART_LINE, Lines, ItemsOf;
    var p, e, a := map["user_id" := Typed("string")], map["user_id" := OfType("string")], map["user_id" := Str("user-00001")];
    NothingExtends(root);
    OneMoreExtends(map[], map[], map[], root, "user_id", Typed("string"), OfType("string"), Str("user-00001"));
    OneMoreExtends(p, e, a, root, "items", ItemsOf(line), ItemsOf(CART_LINE), Arr(Lines()));
  }

  /** A checkout tool with all its objects closed is accepted. */
  lemma ClosedCheckoutIsAccepted()
    ensures ValidateToolSchema(Tool("checkout", ClosedInput(CheckoutProperties(ClosedLine(Typed("integer"), Typed("integer"))))))
  {
    var integer := Typed("integer");
    var line := ClosedLine(integer, integer);
    var properties := CheckoutProperties(line);
    var schema := ClosedInput(properties);
    TypedExtends("integer", Some("product_id"), schema, Some([Num(42.0), Num(1337.0)]));
    TypedExtends("integer", Some("quantity"), schema, Some([Num(2.0), Num(1.0)]));
    LineExtends(line, integer, integer, schema);
    AcceptedCheckout(line, properties, schema);
  }

  lemma AcceptedCheckout(line: Value, properties: map<string, Value>, schema: Value)
    requires properties == CheckoutProperties(line) && schema == ClosedInput(properties)
    requires WellTyped(line, schema)
    requires ExpectedShape(CART_LINE) && Extends(line, CART_LINE, Some("items"), schema, Some(Lines()))
    ensures ValidateToolSchema(Tool("checkout", schema))
  {
    hide Extends, ExpectedShape, EachExtends, WellTyped, ClosedInput, ExtendsInput, CART_LINE, Lines, ItemsOf;
    CheckoutPropertiesExtend(line, schema);
    CheckoutConstants();
    var expected, arguments := EXPECTED_TOOL_SCHEMAS["checkout"], CANONICAL_TOOL_ARGUMENTS["checkout"];
    assert properties.Keys == expected.Keys == arguments.Keys;
    hide EXPECTED_TOOL_SCHEMAS, CANONICAL_TOOL_ARGUMENTS, CheckoutProperties;
    InputWellTyped(properties, schema);
    ToolAccepted("checkout", schema);
    InputExtends(properties, expected, arguments);
  }

  /** The checkout schema of a server that keeps the line in `$defs`, under the standard dialect. */
  function SharedCheckout(line: Value): Value
  {
    Obj(map["$schema" := Str("https://json-schema.org/draft/2020-12/schema"), "type" := Str("object"),
            "$defs" := Obj(map["CheckoutItem" := line]),
            "properties" := Obj(CheckoutProperties(LineReference()))])
  }

  function LineReference(): Value { Obj(map["$ref" := Str(PointerTo(["$defs", "CheckoutItem"]))]) }

  lemma SharedKeys(line: Value)
    ensures SharedCheckout(line).Obj?
    ensures var a := SharedCheckout(line).members;
            && a.Keys == {"$schema", "type", "$defs", "properties"}
            && a["$schema"] == Str("https://json-schema.org/draft/2020-12/schema") && a["type"] == Str("object")
            && a["$defs"] == Obj(map["CheckoutItem" := line]) && a["properties"] == Obj(CheckoutProperties(LineReference()))
  {
    hide CheckoutProperties, LineReference;
  }

  lemma SharedHarmless(line: Value, instances: Option<seq<Value>>)
    ensures UnderStandard(SharedCheckout(line))
    ensures OnlyHarmlessBeside(SharedCheckout(line).members, {"type", "properties"}, SharedCheckout(line), instances)
  {
    SharedKeys(line);
    hide SharedCheckout;
  }

  lemma TwoStepsDown(root: Value, first: string, second: string, line: Value)
    requires root.Obj? && first in root.members && root.members[first] == Obj(map[second := line])
    ensures AtPath(root, [first, second]) == Some(line)
  {
    var path := [first, second];
    assert path[1..] == [second] && [second][1..] == [];
    assert AtPath(root.members[first], [second]) == Some(line);
  }

  lemma LineAtPath(line: Value)
    ensures AtPath(SharedCheckout(line), ["$defs", "CheckoutItem"]) == Some(line)
  {
    hide *;
    SharedKeys(line);
    TwoStepsDown(SharedCheckout(line), "$defs", "CheckoutItem", line);
  }

  lemma ReferenceKeys()
    ensures HasRef(LineReference()) && OnlyAnnotationsBeside(LineReference())
    ensures LineReference().members["$ref"] == Str(PointerTo(["$defs", "CheckoutItem"]))
  {
    hide PointerTo, ANNOTATION_KEYWORDS;
  }

  lemma LineIsReached(line: Value)
    requires !HasRef(line)
    ensures HasRef(LineReference()) && Follow(LineReference(), SharedCheckout(line)) == Some(line)
    ensures Resolve(LineReference(), SharedCheckout(line)) == Some(line)
  {
    LineAtPath(line);
    ReferenceKeys();
    PointerReachesPath(["$defs", "CheckoutItem"], SharedCheckout(line));
    ResolvesToItself(line, SharedCheckout(line));
    hide SharedCheckout, PointerTo, Resolve, AtPath, LineReference, OnlyAnnotationsBeside, Target;
    OneMoreReference(LineReference(), line, SharedCheckout(line));
  }

  lemma ReferenceTyped(line: Value)
    requires !HasRef(line) && WellTyped(line, SharedCheckout(line))
    ensures WellTyped(LineReference(), SharedCheckout(line))
  {
    LineIsReached(line);
    hide SharedCheckout, LineReference, WellTyped, Resolve;
    WellTypedThroughReference(LineReference(), SharedCheckout(line));
  }

  lemma SharedTyped(line: Value)
    requires forall name | name in CheckoutProperties(LineReference()) :: WellTyped(CheckoutProperties(LineReference())[name], SharedCheckout(line))
    ensures WellTyped(SharedCheckout(line), SharedCheckout(line))
  {
    SharedKeys(line);
    hide CheckoutProperties, LineReference;
  }

  lemma SharedExtends(line: Value, expected: map<string, Value>, arguments: map<string, Value>)
    requires expected.Keys == arguments.Keys == CheckoutProperties(LineReference()).Keys
    requires forall name | name in expected :: ExpectedShape(expected[name])
    ensures ExtendsInput(SharedCheckout(line), expected, arguments) <==>
            EachExtends(CheckoutProperties(LineReference()), expected, arguments, SharedCheckout(line))
  {
    SharedKeys(line);
    SharedHarmless(line, Some([Obj(arguments)]));
    assert SharedCheckout(line).Obj?;
    hide SharedCheckout, Extends, CheckoutProperties, LineReference, OnlyHarmlessBeside, ExpectedShape;
  }

  lemma SharedLineExtends(line: Value)
    requires ExpectedShape(CART_LINE) && !HasRef(line)
    ensures Extends(LineReference(), CART_LINE, Some("items"), SharedCheckout(line), Some(Lines())) <==>
            Extends(line, CART_LINE, Some("items"), SharedCheckout(line), Some(Lines()))
  {
    LineIsReached(line);
    ResolvesToItself(line, SharedCheckout(line));
    hide Resolve, ExtendsObject, CART_LINE, Lines, SharedCheckout, LineReference, ExpectedShape;
  }

  lemma BoundedPair(product: real, quantity: real, schema: Value)
    requires UnderStandard(schema)
    ensures WellTyped(Counter(product), schema) && WellTyped(Counter(quantity), schema) && ExpectedShape(OfType("integer"))
    ensures PairExtends(Counter(product), Counter(quantity), schema) <==> product <= 42.0 && quantity <= 1.0
  {
    BothBounds(product, quantity);
    hide Extends, ExpectedShape, WellTyped, Counter, UnderStandard, OfType;
    CounterExtends(product, Some("product_id"), schema, [Num(42.0), Num(1337.0)]);
    CounterExtends(quantity, Some("quantity"), schema, [Num(2.0), Num(1.0)]);
  }

  lemma NoReference(line: Value, product: Value, quantity: Value)
    requires line == OpenLine(product, quantity)
    ensures !HasRef(line)
  {
    LineShape(product, quantity, line.members);
    hide OpenLine;
  }

  lemma BoundedLine(product: real, quantity: real, line: Value, schema: Value)
    requires line == OpenLine(Counter(product), Counter(quantity)) && UnderStandard(schema)
    ensures !HasRef(line) && WellTyped(line, schema) && ExpectedShape(CART_LINE)
    ensures Extends(line, CART_LINE, Some("items"), schema, Some(Lines())) <==> product <= 42.0 && quantity <= 1.0
  {
    hide *;
    NoReference(line, Counter(product), Counter(quantity));
    BoundedPair(product, quantity, schema);
    LineExtends(line, Counter(product), Counter(quantity), schema);
  }

  lemma SharedAccepted(line: Value)
    requires !HasRef(line) && WellTyped(line, SharedCheckout(line)) && ExpectedShape(CART_LINE)
    ensures ValidateToolSchema(Tool("checkout", SharedCheckout(line))) <==>
            Extends(line, CART_LINE, Some("items"), SharedCheckout(line), Some(Lines()))
  {
    hide Extends, ExpectedShape, EachExtends, WellTyped, ExtendsInput, CART_LINE, Lines, ItemsOf;
    hide SharedCheckout, CheckoutProperties, LineReference, OfType;
    CheckoutKeys(LineReference());
    hide EXPECTED_TOOL_SCHEMAS, CANONICAL_TOOL_ARGUMENTS;
    SharedLineExtends(line);
    ReferenceTyped(line);
    CheckoutPropertiesExtend(LineReference(), SharedCheckout(line));
    SharedTyped(line);
    ToolAccepted("checkout", SharedCheckout(line));
    SharedExtends(line, EXPECTED_TOOL_SCHEMAS["checkout"], CANONICAL_TOOL_ARGUMENTS["checkout"]);
  }

  /** The line behind the reference, with bounds, is accepted exactly as far as the benchmark's cart reaches them. */
  lemma SharedCheckoutBounds(product: real, quantity: real)
    ensures ValidateToolSchema(Tool("checkout", SharedCheckout(OpenLine(Counter(product), Counter(quantity))))) <==>
            product <= 42.0 && quantity <= 1.0
  {
    hide Extends, ExpectedShape, WellTyped, CART_LINE, Lines, Counter, OpenLine, SharedCheckout, UnderStandard;
    var line := OpenLine(Counter(product), Counter(quantity));
    SharedHarmless(line, None);
    BoundedLine(product, quantity, line, SharedCheckout(line));
    SharedAccepted(line);
  }

  lemma CheckoutKeys(line: Value)
    ensures "checkout" in EXPECTED_TOOL_SCHEMAS && "checkout" in CANONICAL_TOOL_ARGUMENTS
    ensures CheckoutProperties(line).Keys == EXPECTED_TOOL_SCHEMAS["checkout"].Keys == CANONICAL_TOOL_ARGUMENTS["checkout"].Keys
  {
    CheckoutConstants();
    hide EXPECTED_TOOL_SCHEMAS, CANONICAL_TOOL_ARGUMENTS, CART_LINE, Lines;
  }

  lemma BothBounds(product: real, quantity: real)
    ensures (forall x | x in [Num(42.0), Num(1337.0)] :: product <= x.q) <==> product <= 42.0
    ensures (forall x | x in [Num(2.0), Num(1.0)] :: quantity <= x.q) <==> quantity <= 1.0
  {
    assert Num(42.0) in [Num(42.0), Num(1337.0)] && Num(1.0) in [Num(2.0), Num(1.0)];
  }

  // ---------------------------------------------------------------- get_user_cart

  lemma CartConstants()
    ensures "get_user_cart" in EXPECTED_TOOL_SCHEMAS && "get_user_cart" in CANONICAL_TOOL_ARGUMENTS
    ensures EXPECTED_TOOL_SCHEMAS["get_user_cart"] == map["user_id" := OfType("string")]
    ensures CANONICAL_TOOL_ARGUMENTS["get_user_cart"] == map["user_id" := Str("user-00001")]
  {
    hide OfType;
  }

  /** The plain cart tool is accepted, closed or not. */
  lemma PlainCartIsAccepted()
    ensures ValidateToolSchema(Tool("get_user_cart", Input(map["user_id" := Typed("string")])))
    ensures ValidateToolSchema(Tool("get_user_cart", ClosedInput(map["user_id" := Typed("string")])))
  {
    var properties := map["user_id" := Typed("string")];
    CartConstants();
    hide EXPECTED_TOOL_SCHEMAS, CANONICAL_TOOL_ARGUMENTS, OfType, Typed, Extends, ExpectedShape, WellTyped, ExtendsInput, EachExtends;
    forall schema ensures EachExtends(properties, map["user_id" := OfType("string")], map["user_id" := Str("user-00001")], schema)
                  ensures WellTyped(Input(properties), schema) && WellTyped(ClosedInput(properties), schema) {
      TypedExtends("string", None, schema, Some([Str("user-00001")]));
      NothingExtends(schema);
      OneMoreExtends(map[], map[], map[], schema, "user_id", Typed("string"), OfType("string"), Str("user-00001"));
      InputWellTyped(properties, schema);
    }
    ToolAccepted("get_user_cart", Input(properties));
    ToolAccepted("get_user_cart", ClosedInput(properties));
    InputExtends(properties, map["user_id" := OfType("string")], map["user_id" := Str("user-00001")]);
  }
}
