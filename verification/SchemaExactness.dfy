/**
 * When an accepted schema accepts the instance its expected fragment describes: exactly if it is
 * well typed, and for every well-typed schema exactly if the tracked instances fit.
 */
module SchemaExactness {
  import opened Options
  import opened Json
  import opened SchemaReference
  import opened SchemaChecker
  import opened SchemaSemantics
  import opened SchemaSoundness

  // ---------------------------------------------------------------- well-typed exactly if valid

  lemma {:induction false} TargetOfValid(value: Value, root: Value, n: nat, target: Value, v: Value)
    requires ReachesIn(value, root, n, target) && Valid(value, v, root)
    ensures Valid(target, v, root)
    decreases n
  {
    if n > 0 {
      assert Valid(Follow(value, root).value, v, root);
      TargetOfValid(Follow(value, root).value, root, n - 1, target, v);
    }
  }

  lemma WellTypedThroughReference(value: Value, root: Value)
    requires HasRef(value) && Follow(value, root).Some? && WellTyped(Follow(value, root).value, root)
    ensures WellTyped(value, root)
  {
    assert OnlyAnnotationsBeside(value);
    assert "type" !in value.members && "required" !in value.members;
    assert "properties" !in value.members && "items" !in value.members;
  }

  lemma {:induction false} WellTypedFromTarget(value: Value, root: Value, n: nat, target: Value)
    requires ReachesIn(value, root, n, target) && WellTyped(target, root)
    ensures WellTyped(value, root)
    decreases n
  {
    if n > 0 {
      WellTypedFromTarget(Follow(value, root).value, root, n - 1, target);
      WellTypedThroughReference(value, root);
    }
  }

  /** A schema that accepts anything is a boolean or an object. */
  lemma ValidIsSchema(schema: Value, v: Value, root: Value)
    requires Valid(schema, v, root)
    ensures schema.Bool? || schema.Obj?
  {}

  lemma ValidParts(schema: Value, v: Value, root: Value)
    requires schema.Obj? && Valid(schema, v, root)
    ensures "type" in schema.members ==> schema.members["type"].Str?
    ensures "required" in schema.members ==>
              schema.members["required"].Arr? && forall x | x in schema.members["required"].items :: x.Str?
    ensures "properties" in schema.members ==> schema.members["properties"].Obj?
    ensures "properties" in schema.members && v.Obj? ==>
              forall k | k in schema.members["properties"].members && k in v.members ::
                Valid(schema.members["properties"].members[k], v.members[k], root)
    ensures "items" in schema.members && v.Arr? ==> forall i | 0 <= i < |v.items| :: Valid(schema.members["items"], v.items[i], root)
  {}

  lemma WellTypedFromParts(schema: Value, v: Value, root: Value)
    requires schema.Obj? && !HasRef(schema) && Valid(schema, v, root)
    requires "properties" in schema.members && schema.members["properties"].Obj? ==>
               forall k | k in schema.members["properties"].members :: WellTyped(schema.members["properties"].members[k], root)
    requires "items" in schema.members ==> WellTyped(schema.members["items"], root)
    ensures WellTyped(schema, root)
  {
    hide Valid;
    ValidParts(schema, v, root);
  }

  /** Acceptance and one instance that covers the fragment leave no room for an ill-typed schema. */
  lemma {:induction false} ValidIsWellTyped(fragment: Value, e: Value, keyword: Option<string>, root: Value,
          instances: Option<seq<Value>>, v: Value)
    requires ExpectedShape(e) && SameKeysBelowProperties(fragment, e, keyword)
    requires FragmentMatches(fragment, e, keyword, root, instances)
    requires Covers(e, v) && Valid(fragment, v, root)
    ensures WellTyped(fragment, root)
    decreases e, 1
  {
    hide Valid, WellTyped, FragmentMatches, ExtrasCompatible, ChildInstances;
    var actual, n := MatchResolves(fragment, e, keyword, root, instances);
    TargetOfValid(fragment, root, n, actual, v);
    MatchedKeywords(actual, e, keyword, root, instances);
    if "properties" in e.members { ListedAreWellTyped(actual, e, keyword, root, instances, v); }
    if "items" in actual.members {
      ValidParts(actual, v, root);
      assert FragmentMatches(Get(actual, "items"), e.members["items"], Some("items"), root, ChildInstances(keyword, "items", instances));
      ValidIsWellTyped(actual.members["items"], e.members["items"], Some("items"), root,
                       ChildInstances(keyword, "items", instances), v.items[0]);
    }
    WellTypedFromParts(actual, v, root);
    WellTypedFromTarget(fragment, root, n, actual);
  }

  lemma {:induction false} ListedAreWellTyped(actual: Value, e: Value, keyword: Option<string>, root: Value,
          instances: Option<seq<Value>>, v: Value)
    requires ExpectedShape(e) && actual.Obj? && !HasRef(actual)
    requires FragmentMatches(actual, e, keyword, root, instances)
    requires Covers(e, v) && Valid(actual, v, root)
    requires "properties" in e.members
    ensures "properties" in actual.members && actual.members["properties"].Obj?
    ensures forall k | k in actual.members["properties"].members :: WellTyped(actual.members["properties"].members[k], root)
    decreases e, 0
  {
    hide Valid, WellTyped, FragmentMatches, ExtrasCompatible, ChildInstances;
    MatchedKeywords(actual, e, keyword, root, instances);
    ValidParts(actual, v, root);
    var listed, inside := actual.members["properties"], ChildInstances(keyword, "properties", instances);
    assert FragmentMatches(Get(actual, "properties"), e.members["properties"], Some("properties"), root, inside);
    if HasRef(listed) { ValidIsSchema(listed.members["$ref"], v.members["$ref"], root); }
    forall k | k in listed.members ensures WellTyped(listed.members[k], root) {
      MatchedMap(listed, e.members["properties"], root, inside, k);
      ValidIsWellTyped(listed.members[k], e.members["properties"].members[k], Some(k), root,
                       ChildInstances(Some("properties"), k, inside), v.members[k]);
    }
  }

  /**
   * An accepted fragment accepts the instance exactly if it is well typed, which can be decided
   * on the schema alone. The matcher does not decide it.
   */
  lemma FragmentExact(fragment: Value, e: Value, keyword: Option<string>, root: Value,
          instances: Option<seq<Value>>, v: Value, eroot: Value)
    requires ExpectedShape(e) && SameKeysBelowProperties(fragment, e, keyword)
    requires FragmentMatches(fragment, e, keyword, root, instances)
    requires Tracks(e, keyword, instances, v)
    requires Valid(e, v, eroot) && ExactKeys(e, v) && Covers(e, v)
    ensures WellTyped(fragment, root) <==> Valid(fragment, v, root)
  {
    hide Valid, WellTyped, FragmentMatches;
    if WellTyped(fragment, root) { FragmentSound(fragment, e, keyword, root, instances, v, eroot); }
    if Valid(fragment, v, root) { ValidIsWellTyped(fragment, e, keyword, root, instances, v); }
  }

  lemma InputSchemaExact(schema: Value, expected: map<string, Value>, arguments: map<string, Value>)
    requires Fits(expected, arguments) && AllCovered(expected, arguments)
    requires InputSchemaMatches(schema, expected, arguments)
    ensures WellTyped(schema, schema) <==> Valid(schema, Obj(arguments), schema)
  {
    hide Valid, WellTyped, FragmentMatches, ExtrasCompatible, Fits;
    if WellTyped(schema, schema) { InputSchemaSound(schema, expected, arguments); }
    if Valid(schema, Obj(arguments), schema) {
      TopLevelKeywords(schema, arguments);
      ValidParts(schema, Obj(arguments), schema);
      var m := schema.members;
      forall k | k in m["properties"].members ensures WellTyped(m["properties"].members[k], schema) {
        ValidIsWellTyped(m["properties"].members[k], expected[k], None, schema, Some([arguments[k]]), arguments[k]);
      }
      WellTypedFromParts(schema, Obj(arguments), schema);
    }
  }

  /**
   * What the gate is for, exactly: an accepted tool takes its canonical benchmark arguments if
   * and only if its input schema is well typed.
   */
  lemma ToolExact(tool: Value)
    requires tool.Obj? && ValidateToolSchema(tool)
    ensures var schema := Get(tool, "inputSchema");
            WellTyped(schema, schema) <==> Valid(schema, Obj(CANONICAL_TOOL_ARGUMENTS[Get(tool, "name").s]), schema)
  {
    hide Valid, WellTyped, InputSchemaMatches, Fits, AllCovered;
    var name := Get(tool, "name").s;
    CanonicalArgumentsFit(name);
    InputSchemaExact(Get(tool, "inputSchema"), EXPECTED_TOOL_SCHEMAS[name], CANONICAL_TOOL_ARGUMENTS[name]);
  }

  // ---------------------------------------------------------------- sound exactly if tracked

  /** A fragment that lists a property called `$ref` matches nothing. */
  lemma {:induction false} ListedRefNeverMatches(fragment: Value, e: Value, keyword: Option<string>, root: Value,
          instances: Option<seq<Value>>)
    requires ExpectedShape(e) && SameKeysBelowProperties(fragment, e, keyword)
    requires WellTyped(fragment, root) && FragmentMatches(fragment, e, keyword, root, instances)
    ensures !Lists(e, "$ref")
    decreases e
  {
    hide WellTyped, FragmentMatches, ExtrasCompatible, ChildInstances;
    var actual, n := MatchResolves(fragment, e, keyword, root, instances);
    if "properties" in e.members {
      var inside := ChildInstances(keyword, "properties", instances);
      forall k | k in e.members["properties"].members
        ensures k != "$ref" && !Lists(e.members["properties"].members[k], "$ref")
      {
        PropertyStep(actual, e, keyword, root, instances, k);
        ListedRefNeverMatches(actual.members["properties"].members[k], e.members["properties"].members[k], Some(k), root,
                              ChildInstances(Some("properties"), k, inside));
      }
    }
    if "items" in e.members {
      ItemStep(actual, e, keyword, root, instances);
      ListedRefNeverMatches(actual.members["items"], e.members["items"], Some("items"), root, ChildInstances(keyword, "items", instances));
    }
  }

  lemma ObjectMatches(actual: Value, expected: Value, keyword: Option<string>, root: Value,
          instances: Option<seq<Value>>)
    requires actual.Obj? && expected.Obj? && !HasRef(actual)
    requires ExtrasCompatible(actual, expected.members.Keys, root, instances)
    requires forall name | name in expected.members ::
               && (name == "properties" ==>
                     && expected.members[name].Obj? && Get(actual, name).Obj?
                     && Get(actual, name).members.Keys == expected.members[name].members.Keys)
               && FragmentMatches(Get(actual, name), expected.members[name], Some(name), root, ChildInstances(keyword, name, instances))
    ensures FragmentMatches(actual, expected, keyword, root, instances)
  {
    ResolvesToItself(actual, root);
  }

  lemma KeywordMatchesItself(value: Value, keyword: string, root: Value, instances: Option<seq<Value>>)
    requires value.Str? || (value.Arr? && keyword == "required")
    ensures FragmentMatches(value, value, Some(keyword), root, instances)
  {
    ResolvesToItself(value, root);
  }

  /** Listed schemas, with one of them replaced, match the listed expected fragments. */
  lemma MapMatches(actual: map<string, Value>, expected: map<string, Value>, root: Value, inside: Option<seq<Value>>)
    requires actual.Keys == expected.Keys && "$ref" !in actual
    requires forall k | k in expected :: FragmentMatches(actual[k], expected[k], Some(k), root, ChildInstances(Some("properties"), k, inside))
    requires "properties" in expected ==> expected["properties"].Obj? && SameKeysBelowProperties(actual["properties"], expected["properties"], Some("properties"))
    ensures FragmentMatches(Obj(actual), Obj(expected), Some("properties"), root, inside)
  {
    hide FragmentMatches;
    ObjectMatches(Obj(actual), Obj(expected), Some("properties"), root, inside);
  }

  lemma {:induction false} MatchesItself(e: Value, keyword: Option<string>, root: Value, instances: Option<seq<Value>>)
    requires ExpectedShape(e) && !Lists(e, "$ref")
    ensures FragmentMatches(e, e, keyword, root, instances)
    decreases e
  {
    hide FragmentMatches, ChildInstances;
    forall name | name in e.members
      ensures FragmentMatches(e.members[name], e.members[name], Some(name), root, ChildInstances(keyword, name, instances))
    {
      if name == "properties" {
        var listed, inside := e.members[name].members, ChildInstances(keyword, name, instances);
        forall k | k in listed ensures FragmentMatches(listed[k], listed[k], Some(k), root, ChildInstances(Some("properties"), k, inside)) {
          MatchesItself(listed[k], Some(k), root, ChildInstances(Some("properties"), k, inside));
        }
        MapMatches(listed, listed, root, inside);
      } else if name == "items" {
        MatchesItself(e.members[name], Some(name), root, ChildInstances(keyword, name, instances));
      } else {
        KeywordMatchesItself(e.members[name], name, root, ChildInstances(keyword, name, instances));
      }
    }
    ObjectMatches(e, e, keyword, root, instances);
  }

  /** Numbers that all exceed `q` are all at least some bound above `q`. */
  lemma {:induction false} BoundBetween(numbers: seq<Value>, q: real) returns (bound: real)
    requires forall x | x in numbers :: x.Num? && x.q > q
    ensures bound > q && forall x | x in numbers :: x.Num? && x.q >= bound
  {
    if numbers == [] {
      bound := q + 1.0;
    } else {
      var rest := BoundBetween(numbers[1..], q);
      bound := if numbers[0].q < rest then numbers[0].q else rest;
      assert forall x | x in numbers :: x == numbers[0] || x in numbers[1..];
    }
  }

  /** A replaced keyword value that matches in its place. */
  lemma ReplacementMatches(e: Value, name: string, replacement: Value, keyword: Option<string>, root: Value,
          instances: Option<seq<Value>>)
    requires ExpectedShape(e) && !Lists(e, "$ref") && name in e.members
    requires FragmentMatches(replacement, e.members[name], Some(name), root, ChildInstances(keyword, name, instances))
    requires SameKeysBelowProperties(replacement, e.members[name], Some(name))
    ensures FragmentMatches(Obj(e.members[name := replacement]), e, keyword, root, instances)
  {
    hide FragmentMatches, ChildInstances;
    var fragment := Obj(e.members[name := replacement]);
    forall other | other in e.members && other != name
      ensures FragmentMatches(e.members[other], e.members[other], Some(other), root, ChildInstances(keyword, other, instances))
    {
      MatchedPart(e, other, keyword, root, instances);
    }
    assert fragment.members.Keys == e.members.Keys;
    ObjectMatches(fragment, e, keyword, root, instances);
  }

  lemma MatchedPart(e: Value, name: string, keyword: Option<string>, root: Value, instances: Option<seq<Value>>)
    requires ExpectedShape(e) && !Lists(e, "$ref") && name in e.members
    ensures FragmentMatches(e.members[name], e.members[name], Some(name), root, ChildInstances(keyword, name, instances))
  {
    hide FragmentMatches, ExtrasCompatible, ChildInstances;
    MatchesItself(e, keyword, root, instances);
    MatchedKeywords(e, e, keyword, root, instances);
  }

  lemma {:induction false} ShapeIsWellTyped(e: Value, root: Value)
    requires ExpectedShape(e)
    ensures WellTyped(e, root)
    decreases e
  {
    if "properties" in e.members {
      forall k | k in e.members["properties"].members ensures WellTyped(e.members["properties"].members[k], root) {
        ShapeIsWellTyped(e.members["properties"].members[k], root);
      }
    }
    if "items" in e.members { ShapeIsWellTyped(e.members["items"], root); }
  }

  /** A well-typed fragment is accepted here and yet rejects `v`. */
  ghost predicate Misses(fragment: Value, e: Value, keyword: Option<string>, root: Value,
          instances: Option<seq<Value>>, v: Value)
  {
    && WellTyped(fragment, root) && FragmentMatches(fragment, e, keyword, root, instances)
    && SameKeysBelowProperties(fragment, e, keyword) && !Valid(fragment, v, root)
  }

  /** Where a bound exceeds the number that stands there, a `minimum` passes that rejects `v`. */
  lemma TooHighMinimum(e: Value, keyword: Option<string>, root: Value, instances: Option<seq<Value>>, v: Value)
    returns (fragment: Value)
    requires ExpectedShape(e) && !Lists(e, "$ref") && !BoundsFit(e, keyword, instances, v)
    ensures Misses(fragment, e, keyword, root, instances, v)
  {
    hide FragmentMatches, ChildInstances, Lists;
    var bound := BoundBetween(instances.value, v.q);
    var m := e.members["minimum" := Num(bound)];
    fragment := Obj(m);
    assert m.Keys == e.members.Keys + {"minimum"};
    forall name | name in e.members
      ensures FragmentMatches(m[name], e.members[name], Some(name), root, ChildInstances(keyword, name, instances))
    {
      MatchedPart(e, name, keyword, root, instances);
    }
    assert ExtraAccepted("minimum", m["minimum"], fragment, root, instances);
    ObjectMatches(fragment, e, keyword, root, instances);
    ShapeIsWellTyped(e, root);
    MinimumIsTyped(e, bound, root);
  }

  lemma MinimumIsTyped(e: Value, bound: real, root: Value)
    requires ExpectedShape(e) && WellTyped(e, root)
    ensures WellTyped(Obj(e.members["minimum" := Num(bound)]), root)
  {}

  lemma PropertyMisses(e: Value, k: string, inner: Value, keyword: Option<string>, root: Value,
          instances: Option<seq<Value>>, v: Value)
    returns (fragment: Value)
    requires ExpectedShape(e) && !Lists(e, "$ref")
    requires "properties" in e.members && k in e.members["properties"].members && v.Obj? && k in v.members
    requires Misses(inner, e.members["properties"].members[k], Some(k), root,
                    ChildInstances(Some("properties"), k, ChildInstances(keyword, "properties", instances)), v.members[k])
    ensures Misses(fragment, e, keyword, root, instances, v)
  {
    hide FragmentMatches, ChildInstances, ExtrasCompatible;
    var expected, inside := e.members["properties"].members, ChildInstances(keyword, "properties", instances);
    var listed := expected[k := inner];
    forall other | other in expected && other != k
      ensures FragmentMatches(listed[other], expected[other], Some(other), root, ChildInstances(Some("properties"), other, inside))
    {
      MatchesItself(expected[other], Some(other), root, ChildInstances(Some("properties"), other, inside));
    }
    MapMatches(listed, expected, root, inside);
    ReplacementMatches(e, "properties", Obj(listed), keyword, root, instances);
    fragment := Obj(e.members["properties" := Obj(listed)]);
    ShapeIsWellTyped(e, root);
    assert WellTyped(fragment, root) by {
      forall other | other in listed ensures WellTyped(listed[other], root) {
        if other != k { ShapeIsWellTyped(expected[other], root); }
      }
    }
  }

  lemma ItemMisses(e: Value, i: nat, inner: Value, keyword: Option<string>, root: Value,
          instances: Option<seq<Value>>, v: Value)
    returns (fragment: Value)
    requires ExpectedShape(e) && !Lists(e, "$ref")
    requires "items" in e.members && v.Arr? && i < |v.items|
    requires Misses(inner, e.members["items"], Some("items"), root, ChildInstances(keyword, "items", instances), v.items[i])
    ensures Misses(fragment, e, keyword, root, instances, v)
  {
    hide FragmentMatches, ChildInstances, ExtrasCompatible;
    ReplacementMatches(e, "items", inner, keyword, root, instances);
    fragment := Obj(e.members["items" := inner]);
    ShapeIsWellTyped(e, root);
  }

  lemma {:induction false} UntrackedMisses(e: Value, keyword: Option<string>, root: Value,
          instances: Option<seq<Value>>, v: Value)
    returns (fragment: Value)
    requires ExpectedShape(e) && !Lists(e, "$ref") && !Tracks(e, keyword, instances, v)
    ensures Misses(fragment, e, keyword, root, instances, v)
    decreases e
  {
    hide FragmentMatches, ChildInstances, Misses, BoundsFit, MemberInstances;
    if !BoundsFit(e, keyword, instances, v) {
      fragment := TooHighMinimum(e, keyword, root, instances, v);
      return;
    }
    var inside := ChildInstances(keyword, "properties", instances);
    if k :| "properties" in e.members && v.Obj? && k in e.members["properties"].members && k in v.members &&
            !Tracks(e.members["properties"].members[k], Some(k), ChildInstances(Some("properties"), k, inside), v.members[k]) {
      var inner := UntrackedMisses(e.members["properties"].members[k], Some(k), root, ChildInstances(Some("properties"), k, inside), v.members[k]);
      fragment := PropertyMisses(e, k, inner, keyword, root, instances, v);
      return;
    }
    var i :| 0 <= i < |v.items| && !Tracks(e.members["items"], Some("items"), ChildInstances(keyword, "items", instances), v.items[i]);
    var inner := UntrackedMisses(e.members["items"], Some("items"), root, ChildInstances(keyword, "items", instances), v.items[i]);
    fragment := ItemMisses(e, i, inner, keyword, root, instances, v);
  }

  ghost predicate AcceptedWellTyped(fragment: Value, e: Value, keyword: Option<string>, root: Value,
          instances: Option<seq<Value>>)
  {
    WellTyped(fragment, root) && FragmentMatches(fragment, e, keyword, root, instances)
  }

  /**
   * The matcher is sound for an expected fragment, an instance and the instances it starts from
   * exactly if the instances it carries along fit, or a listed `$ref` lets nothing match.
   */
  lemma SoundIffTracked(e: Value, keyword: Option<string>, root: Value, instances: Option<seq<Value>>, v: Value,
          eroot: Value)
    requires ExpectedShape(e) && keyword != Some("properties")
    requires Valid(e, v, eroot) && ExactKeys(e, v)
    ensures Tracks(e, keyword, instances, v) || Lists(e, "$ref") <==>
            forall fragment | AcceptedWellTyped(fragment, e, keyword, root, instances) :: Valid(fragment, v, root)
  {
    hide Valid, WellTyped, FragmentMatches, Tracks, Lists;
    if Tracks(e, keyword, instances, v) || Lists(e, "$ref") {
      forall fragment | AcceptedWellTyped(fragment, e, keyword, root, instances)
        ensures Valid(fragment, v, root)
      {
        ListedRefNeverMatches(fragment, e, keyword, root, instances);
        FragmentSound(fragment, e, keyword, root, instances, v, eroot);
      }
    } else {
      var fragment := UntrackedMisses(e, keyword, root, instances, v);
      assert AcceptedWellTyped(fragment, e, keyword, root, instances);
    }
  }
}
