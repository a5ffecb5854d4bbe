/** An accepted schema accepts every instance its expected fragment describes. */
module SchemaSoundness {
  import opened Options
  import opened Json
  import opened SchemaReference
  import opened SchemaChecker
  import opened SchemaSemantics

  /** A value without `$ref` resolves to itself. */
  lemma ResolvesToItself(value: Value, root: Value)
    requires !HasRef(value)
    ensures Resolve(value, root) == Some(value)
  {}

  lemma {:induction false} WellTypedAlongChain(value: Value, root: Value, n: nat, target: Value)
    requires WellTyped(value, root) && ReachesIn(value, root, n, target)
    ensures WellTyped(target, root)
    decreases n
  {
    if n > 0 {
      WellTypedAlongChain(Follow(value, root).value, root, n - 1, target);
    }
  }

  /** A reference that the checker follows means what it refers to: nothing beside it asserts. */
  lemma ValidThroughReference(value: Value, root: Value, v: Value)
    requires HasRef(value) && Follow(value, root).Some? && Valid(Follow(value, root).value, v, root)
    ensures Valid(value, v, root)
  {
    forall k | k in value.members ensures k in ANNOTATION_KEYWORDS || k == "$ref" {
      assert OnlyAnnotationsBeside(value);
    }
    assert "type" !in value.members && "minimum" !in value.members && "required" !in value.members;
    assert "properties" !in value.members && "additionalProperties" !in value.members && "items" !in value.members;
  }

  lemma {:induction false} ValidAlongChain(value: Value, root: Value, n: nat, target: Value, v: Value)
    requires ReachesIn(value, root, n, target) && Valid(target, v, root)
    ensures Valid(value, v, root)
    decreases n
  {
    if n > 0 {
      ValidAlongChain(Follow(value, root).value, root, n - 1, target, v);
      ValidThroughReference(value, root, v);
    }
  }

  /** What the checker knows about a schema object whose keywords it has gone through. */
  ghost predicate Accepted(actual: Value, e: Value, keyword: Option<string>, root: Value, instances: Option<seq<Value>>)
  {
    && actual.Obj? && !HasRef(actual) && WellTyped(actual, root)
    && ExpectedShape(e)
    && FragmentMatches(actual, e, keyword, root, instances)
    && SameKeysBelowProperties(actual, e, keyword)
  }

  /** What the matcher demands of the schema of a property called `properties`. */
  ghost predicate SameKeysBelowProperties(fragment: Value, e: Value, keyword: Option<string>)
  {
    keyword == Some("properties") ==> fragment.Obj? && e.Obj? && fragment.members.Keys == e.members.Keys
  }

  lemma MatchedKeywords(actual: Value, e: Value, keyword: Option<string>, root: Value, instances: Option<seq<Value>>)
    requires actual.Obj? && !HasRef(actual) && ExpectedShape(e)
    requires FragmentMatches(actual, e, keyword, root, instances)
    ensures ExtrasCompatible(actual, e.members.Keys, root, instances)
    ensures {"type", "properties", "items"} * actual.members.Keys <= e.members.Keys
    ensures forall k | k in e.members :: FragmentMatches(Get(actual, k), e.members[k], Some(k), root, ChildInstances(keyword, k, instances))
    ensures "properties" in e.members ==>
              && "properties" in actual.members && actual.members["properties"].Obj?
              && actual.members["properties"].members.Keys == e.members["properties"].members.Keys
  {
    ResolvesToItself(actual, root);
    forall k | k in {"type", "properties", "items"} && k in actual.members ensures k in e.members {
      assert k in e.members || k in ANNOTATION_KEYWORDS || ExtraAccepted(k, actual.members[k], actual, root, instances);
    }
    if "properties" in e.members { assert Get(actual, "properties").Obj?; }
  }

  lemma TypeAgrees(actual: Value, e: Value, keyword: Option<string>, root: Value, instances: Option<seq<Value>>)
    requires Accepted(actual, e, keyword, root, instances)
    ensures "type" in actual.members ==> "type" in e.members && actual.members["type"] == e.members["type"]
  {
    if "type" in actual.members {
      MatchedKeywords(actual, e, keyword, root, instances);
      ResolvesToItself(actual.members["type"], root);
      assert FragmentMatches(Get(actual, "type"), e.members["type"], Some("type"), root, ChildInstances(keyword, "type", instances));
    }
  }

  lemma MinimumHolds(actual: Value, e: Value, keyword: Option<string>, root: Value, instances: Option<seq<Value>>,
          v: Value)
    requires Accepted(actual, e, keyword, root, instances) && BoundsFit(e, keyword, instances, v)
    requires "minimum" in actual.members
    ensures actual.members["minimum"].Num? && (v.Num? ==> v.q >= actual.members["minimum"].q)
  {
    hide FragmentMatches, WellTyped, Resolve;
    TypeAgrees(actual, e, keyword, root, instances);
    MatchedKeywords(actual, e, keyword, root, instances);
    assert ExtraAccepted("minimum", actual.members["minimum"], actual, root, instances);
    if v.Num? {
      var x :| x in instances.value && (!x.Num? || x.q <= v.q);
    }
  }

  lemma KeywordsAreModelled(actual: Value, e: Value, keyword: Option<string>, root: Value, instances: Option<seq<Value>>)
    requires Accepted(actual, e, keyword, root, instances)
    ensures forall k | k in actual.members ::
              k in MODELLED_KEYWORDS || k in ANNOTATION_KEYWORDS || (k == "format" && FormatIsAnnotation(root))
    ensures "additionalProperties" in actual.members ==> actual.members["additionalProperties"].Bool?
  {
    hide FragmentMatches, WellTyped, Resolve;
    MatchedKeywords(actual, e, keyword, root, instances);
    forall k | k in actual.members
      ensures k in MODELLED_KEYWORDS || k in ANNOTATION_KEYWORDS || (k == "format" && FormatIsAnnotation(root))
    {
      assert k in e.members || k in ANNOTATION_KEYWORDS || ExtraAccepted(k, actual.members[k], actual, root, instances);
    }
  }

  /** Every name the actual schema requires is in the instance. */
  lemma RequiredHolds(actual: Value, e: Value, keyword: Option<string>, root: Value, instances: Option<seq<Value>>,
          v: Value, eroot: Value)
    requires Accepted(actual, e, keyword, root, instances)
    requires Valid(e, v, eroot) && (v.Obj? ==> v.members.Keys == ListedKeys(e))
    requires "required" in actual.members
    ensures forall x | x in actual.members["required"].items :: x.Str? && (v.Obj? ==> x.s in v.members)
  {
    var required := actual.members["required"];
    MatchedKeywords(actual, e, keyword, root, instances);
    if "required" in e.members {
      ComparedRequired(actual, e, keyword, root, instances);
      forall x | x in required.items ensures x.Str? && (v.Obj? ==> x.s in v.members) {
        assert x in e.members["required"].items;
      }
    } else {
      assert ExtraAccepted("required", required, actual, root, instances);
    }
  }

  lemma ComparedRequired(actual: Value, e: Value, keyword: Option<string>, root: Value, instances: Option<seq<Value>>)
    requires Accepted(actual, e, keyword, root, instances)
    requires "required" in e.members && "required" in actual.members
    ensures forall x | x in actual.members["required"].items :: x in e.members["required"].items
  {
    var required := actual.members["required"];
    MatchedKeywords(actual, e, keyword, root, instances);
    ResolvesToItself(required, root);
    assert FragmentMatches(Get(actual, "required"), e.members["required"], Some("required"), root, ChildInstances(keyword, "required", instances));
    forall x | x in required.items ensures x in e.members["required"].items {
      assert x in SetOf(required.items);
    }
  }

  /** A schema listed under the name `$ref` is no reference text, so its map does not resolve. */
  lemma SchemaIsNoReference(listed: Value, root: Value)
    requires HasRef(listed) && !listed.members["$ref"].Str?
    ensures Resolve(listed, root) == None
  {}

  lemma MatchedMap(listed: Value, expected: Value, root: Value, inside: Option<seq<Value>>, k: string)
    requires listed.Obj? && expected.Obj?
    requires HasRef(listed) ==> !listed.members["$ref"].Str?
    requires FragmentMatches(listed, expected, Some("properties"), root, inside)
    requires k in expected.members && k in listed.members
    ensures !HasRef(listed)
    ensures FragmentMatches(listed.members[k], expected.members[k], Some(k), root, ChildInstances(Some("properties"), k, inside))
    ensures SameKeysBelowProperties(listed.members[k], expected.members[k], Some(k))
  {
    if HasRef(listed) {
      SchemaIsNoReference(listed, root);
      assert false;
    }
    ResolvesToItself(listed, root);
    assert Get(listed, k) == listed.members[k];
  }

  /** The matcher goes through the listed properties with the instances it carries. */
  lemma PropertyStep(actual: Value, e: Value, keyword: Option<string>, root: Value, instances: Option<seq<Value>>,
          k: string)
    requires Accepted(actual, e, keyword, root, instances)
    requires "properties" in e.members && k in e.members["properties"].members
    ensures "properties" in actual.members && actual.members["properties"].Obj? && k in actual.members["properties"].members
    ensures var inside := ChildInstances(Some("properties"), k, ChildInstances(keyword, "properties", instances));
            FragmentMatches(actual.members["properties"].members[k], e.members["properties"].members[k], Some(k), root, inside)
    ensures SameKeysBelowProperties(actual.members["properties"].members[k], e.members["properties"].members[k], Some(k))
    ensures WellTyped(actual.members["properties"].members[k], root)
    ensures "$ref" !in e.members["properties"].members
  {
    hide FragmentMatches, ExtrasCompatible, ChildInstances;
    MatchedKeywords(actual, e, keyword, root, instances);
    var listed := actual.members["properties"];
    if HasRef(listed) { assert WellTyped(listed.members["$ref"], root); }
    MatchedMap(listed, e.members["properties"], root, ChildInstances(keyword, "properties", instances), k);
  }

  lemma ItemStep(actual: Value, e: Value, keyword: Option<string>, root: Value, instances: Option<seq<Value>>)
    requires Accepted(actual, e, keyword, root, instances)
    requires "items" in e.members
    ensures "items" in actual.members && WellTyped(actual.members["items"], root)
    ensures FragmentMatches(actual.members["items"], e.members["items"], Some("items"), root, ChildInstances(keyword, "items", instances))
  {
    MatchedKeywords(actual, e, keyword, root, instances);
    ResolvesToItself(Null, root);
    assert ExpectedShape(e.members["items"]);
    assert Get(actual, "items") != Null;
  }

  lemma MatchOfTarget(fragment: Value, e: Value, keyword: Option<string>, root: Value, instances: Option<seq<Value>>)
    requires e.Obj? && FragmentMatches(fragment, e, keyword, root, instances)
    ensures Resolve(fragment, root).Some? && Resolve(fragment, root).value.Obj?
    ensures !HasRef(Resolve(fragment, root).value) ==> FragmentMatches(Resolve(fragment, root).value, e, keyword, root, instances)
  {
    if !HasRef(Resolve(fragment, root).value) { ResolvesToItself(Resolve(fragment, root).value, root); }
  }

  /** A match says that the fragment's chain ends in an accepted object, which matches too. */
  lemma MatchResolves(fragment: Value, e: Value, keyword: Option<string>, root: Value, instances: Option<seq<Value>>)
    returns (actual: Value, n: nat)
    requires ExpectedShape(e)
    requires FragmentMatches(fragment, e, keyword, root, instances)
    requires SameKeysBelowProperties(fragment, e, keyword)
    ensures ReachesIn(fragment, root, n, actual) && actual.Obj? && !HasRef(actual)
    ensures FragmentMatches(actual, e, keyword, root, instances)
    ensures WellTyped(fragment, root) ==> Accepted(actual, e, keyword, root, instances)
  {
    hide FragmentMatches, Resolve;
    MatchOfTarget(fragment, e, keyword, root, instances);
    actual := Resolve(fragment, root).value;
    ResolveExact(fragment, root, actual);
    n :| ReachesIn(fragment, root, n, actual);
    hide ReachesIn;
    if WellTyped(fragment, root) { WellTypedAlongChain(fragment, root, n, actual); }
    if keyword == Some("properties") { ResolvesToItself(fragment, root); }
  }

  lemma KindsOf(schema: Value, root: Value)
    requires schema.Obj? && WellTyped(schema, root)
    ensures "type" in schema.members ==> schema.members["type"].Str?
    ensures "required" in schema.members ==> schema.members["required"].Arr?
  {}

  /** The keywords that are compared or accepted leave nothing else to check. */
  lemma ValidFromKeywords(schema: Value, v: Value, root: Value)
    requires schema.Obj? && !HasRef(schema)
    requires forall k | k in schema.members ::
               k in MODELLED_KEYWORDS || k in ANNOTATION_KEYWORDS || (k == "format" && FormatIsAnnotation(root))
    requires "type" in schema.members ==> schema.members["type"].Str? && HasType(schema.members["type"].s, v)
    requires "minimum" in schema.members ==> schema.members["minimum"].Num? && (v.Num? ==> v.q >= schema.members["minimum"].q)
    requires "required" in schema.members ==>
               schema.members["required"].Arr? && forall x | x in schema.members["required"].items :: x.Str? && (v.Obj? ==> x.s in v.members)
    requires "properties" in schema.members ==> schema.members["properties"].Obj?
    requires "properties" in schema.members && v.Obj? ==>
               forall k | k in schema.members["properties"].members && k in v.members :: Valid(schema.members["properties"].members[k], v.members[k], root)
    requires "additionalProperties" in schema.members ==> schema.members["additionalProperties"].Bool?
    requires v.Obj? ==> forall k | k in v.members :: "properties" in schema.members && k in schema.members["properties"].members
    requires "items" in schema.members && v.Arr? ==> forall i | 0 <= i < |v.items| :: Valid(schema.members["items"], v.items[i], root)
    ensures Valid(schema, v, root)
  {}

  lemma ValidFromParts(actual: Value, e: Value, keyword: Option<string>, root: Value, instances: Option<seq<Value>>,
          v: Value)
    requires Accepted(actual, e, keyword, root, instances) && BoundsFit(e, keyword, instances, v)
    requires v.Obj? ==> v.members.Keys == ListedKeys(e)
    requires "type" in actual.members ==> HasType(actual.members["type"].s, v)
    requires "required" in actual.members ==>
               forall x | x in actual.members["required"].items :: x.Str? && (v.Obj? ==> x.s in v.members)
    requires "properties" in actual.members && v.Obj? ==>
               forall k | k in actual.members["properties"].members && k in v.members :: Valid(actual.members["properties"].members[k], v.members[k], root)
    requires "items" in actual.members && v.Arr? ==> forall i | 0 <= i < |v.items| :: Valid(actual.members["items"], v.items[i], root)
    ensures Valid(actual, v, root)
  {
    hide FragmentMatches, ExtrasCompatible, WellTyped, Valid, BoundsFit, HasType;
    KindsOf(actual, root);
    MatchedKeywords(actual, e, keyword, root, instances);
    KeywordsAreModelled(actual, e, keyword, root, instances);
    if "minimum" in actual.members { MinimumHolds(actual, e, keyword, root, instances, v); }
    ValidFromKeywords(actual, v, root);
  }

  /**
   * Soundness of the recursive matcher, for every expected fragment: an instance that is valid
   * for the expected fragment, has exactly its listed keys and fits the tracked instances is valid
   * for every accepted fragment, through references, `$defs` and all accepted extras.
   */
  lemma {:induction false} FragmentSound(fragment: Value, e: Value, keyword: Option<string>, root: Value,
          instances: Option<seq<Value>>, v: Value, eroot: Value)
    requires ExpectedShape(e) && SameKeysBelowProperties(fragment, e, keyword)
    requires WellTyped(fragment, root)
    requires FragmentMatches(fragment, e, keyword, root, instances)
    requires Tracks(e, keyword, instances, v)
    requires Valid(e, v, eroot) && ExactKeys(e, v)
    ensures Valid(fragment, v, root)
    decreases e, 2
  {
    hide Valid, FragmentMatches, Tracks, ExactKeys;
    var actual, n := MatchResolves(fragment, e, keyword, root, instances);
    AcceptedSound(actual, e, keyword, root, instances, v, eroot);
    ValidAlongChain(fragment, root, n, actual, v);
  }

  lemma {:induction false} AcceptedSound(actual: Value, e: Value, keyword: Option<string>, root: Value,
          instances: Option<seq<Value>>, v: Value, eroot: Value)
    requires Accepted(actual, e, keyword, root, instances)
    requires Tracks(e, keyword, instances, v)
    requires Valid(e, v, eroot) && ExactKeys(e, v)
    ensures Valid(actual, v, root)
    decreases e, 1
  {
    hide Valid, WellTyped, FragmentMatches, ExtrasCompatible, BoundsFit, HasType, ChildInstances;
    MatchedKeywords(actual, e, keyword, root, instances);
    TypeHolds(actual, e, keyword, root, instances, v, eroot);
    if "properties" in e.members && v.Obj? { PropertiesSound(actual, e, keyword, root, instances, v, eroot); }
    if "required" in actual.members { RequiredHolds(actual, e, keyword, root, instances, v, eroot); }
    if "items" in e.members && v.Arr? { ItemsSound(actual, e, keyword, root, instances, v, eroot); }
    ValidFromParts(actual, e, keyword, root, instances, v);
  }

  lemma TypeHolds(actual: Value, e: Value, keyword: Option<string>, root: Value, instances: Option<seq<Value>>,
          v: Value, eroot: Value)
    requires Accepted(actual, e, keyword, root, instances) && Valid(e, v, eroot)
    ensures "type" in actual.members ==> HasType(actual.members["type"].s, v)
  {
    TypeAgrees(actual, e, keyword, root, instances);
  }

  lemma {:induction false} PropertiesSound(actual: Value, e: Value, keyword: Option<string>, root: Value,
          instances: Option<seq<Value>>, v: Value, eroot: Value)
    requires Accepted(actual, e, keyword, root, instances)
    requires Tracks(e, keyword, instances, v)
    requires Valid(e, v, eroot) && ExactKeys(e, v)
    requires "properties" in e.members && v.Obj?
    requires "properties" in actual.members && actual.members["properties"].Obj?
    requires actual.members["properties"].members.Keys == e.members["properties"].members.Keys
    ensures forall k | k in actual.members["properties"].members && k in v.members :: Valid(actual.members["properties"].members[k], v.members[k], root)
    decreases e, 0
  {
    hide FragmentMatches, ExtrasCompatible, ChildInstances;
    var inside := ChildInstances(keyword, "properties", instances);
    forall k | k in actual.members["properties"].members && k in v.members
      ensures Valid(actual.members["properties"].members[k], v.members[k], root)
    {
      PropertyStep(actual, e, keyword, root, instances, k);
      FragmentSound(actual.members["properties"].members[k], e.members["properties"].members[k], Some(k), root,
                    ChildInstances(Some("properties"), k, inside), v.members[k], eroot);
    }
  }

  lemma {:induction false} ItemsSound(actual: Value, e: Value, keyword: Option<string>, root: Value,
          instances: Option<seq<Value>>, v: Value, eroot: Value)
    requires Accepted(actual, e, keyword, root, instances)
    requires Tracks(e, keyword, instances, v)
    requires Valid(e, v, eroot) && ExactKeys(e, v)
    requires "items" in e.members && v.Arr?
    ensures "items" in actual.members && forall i | 0 <= i < |v.items| :: Valid(actual.members["items"], v.items[i], root)
    decreases e, 0
  {
    hide FragmentMatches, ExtrasCompatible, ChildInstances;
    ItemStep(actual, e, keyword, root, instances);
    forall i | 0 <= i < |v.items| ensures Valid(actual.members["items"], v.items[i], root) {
      FragmentSound(actual.members["items"], e.members["items"], Some("items"), root,
                    ChildInstances(keyword, "items", instances), v.items[i], eroot);
    }
  }

  /** The keywords of an accepted input schema, apart from `type` and `properties`. */
  lemma TopLevelKeywords(schema: Value, arguments: map<string, Value>)
    requires schema.Obj? && Get(schema, "type") == Str("object")
    requires ExtrasCompatible(schema, {"type", "properties"}, schema, Some([Obj(arguments)]))
    ensures forall k | k in schema.members ::
              k in MODELLED_KEYWORDS || k in ANNOTATION_KEYWORDS || (k == "format" && FormatIsAnnotation(schema))
    ensures {"$ref", "items", "minimum"} !! schema.members.Keys
    ensures "additionalProperties" in schema.members ==> schema.members["additionalProperties"].Bool?
    ensures "required" in schema.members ==>
              && Get(schema, "properties").Obj? && schema.members["required"].Arr?
              && forall x | x in schema.members["required"].items :: x.Str? && x.s in Get(schema, "properties").members
  {
    forall k | k in schema.members
      ensures k in {"type", "properties"} || k in ANNOTATION_KEYWORDS ||
              ExtraAccepted(k, schema.members[k], schema, schema, Some([Obj(arguments)]))
    {}
  }

  /** The expected side of a tool: its fragments and the arguments sent to it. */
  ghost predicate Fits(expected: map<string, Value>, arguments: map<string, Value>)
  {
    expected.Keys == arguments.Keys && forall k | k in expected :: FitsFragment(expected[k], arguments[k])
  }

  ghost predicate FitsFragment(e: Value, v: Value)
  {
    ExpectedShape(e) && ExactKeys(e, v) && Tracks(e, None, Some([v]), v) && Valid(e, v, e)
  }

  /** The whole input schema, for any expected properties and any arguments that fit them. */
  lemma InputSchemaSound(schema: Value, expected: map<string, Value>, arguments: map<string, Value>)
    requires Fits(expected, arguments)
    requires WellTyped(schema, schema)
    requires InputSchemaMatches(schema, expected, arguments)
    ensures Valid(schema, Obj(arguments), schema)
  {
    hide FragmentMatches, ExtrasCompatible, FitsFragment;
    var m := schema.members;
    TopLevelKeywords(schema, arguments);
    forall k | k in m["properties"].members && k in arguments
      ensures Valid(m["properties"].members[k], arguments[k], schema)
    {
      ArgumentFits(m["properties"].members[k], expected[k], schema, arguments[k]);
    }
  }

  lemma ArgumentFits(fragment: Value, e: Value, root: Value, v: Value)
    requires FitsFragment(e, v) && WellTyped(fragment, root)
    requires FragmentMatches(fragment, e, None, root, Some([v]))
    ensures Valid(fragment, v, root)
  {
    FragmentSound(fragment, e, None, root, Some([v]), v, e);
  }

  /** Without a property called `properties` the matcher carries the instance's own members. */
  lemma {:induction false} OwnMembersAreTracked(e: Value, keyword: Option<string>, instances: Option<seq<Value>>,
          v: Value)
    requires ExpectedShape(e) && !Lists(e, "properties") && keyword != Some("properties")
    requires instances.Some? ==> v in instances.value
    ensures Tracks(e, keyword, instances, v)
    decreases e
  {
    if "properties" in e.members && v.Obj? {
      forall k | k in e.members["properties"].members && k in v.members
        ensures Tracks(e.members["properties"].members[k], Some(k),
                       ChildInstances(Some("properties"), k, ChildInstances(keyword, "properties", instances)), v.members[k])
      {
        OwnMembersAreTracked(e.members["properties"].members[k], Some(k),
                             ChildInstances(Some("properties"), k, ChildInstances(keyword, "properties", instances)), v.members[k]);
      }
    }
    if "items" in e.members && v.Arr? {
      forall i | 0 <= i < |v.items|
        ensures Tracks(e.members["items"], Some("items"), ChildInstances(keyword, "items", instances), v.items[i])
      {
        OwnMembersAreTracked(e.members["items"], Some("items"), ChildInstances(keyword, "items", instances), v.items[i]);
      }
    }
  }

  /** The expected fragment `e` describes `v` and nothing else about it. */
  ghost predicate Describes(e: Value, v: Value)
  {
    ExpectedShape(e) && ExactKeys(e, v) && Covers(e, v) && !Lists(e, "properties") && forall root :: Valid(e, v, root)
  }

  lemma DescribedFits(e: Value, v: Value)
    requires Describes(e, v)
    ensures FitsFragment(e, v) && Covers(e, v)
  {
    OwnMembersAreTracked(e, None, Some([v]), v);
  }

  lemma TypeDescribes(name: string, v: Value)
    requires HasType(name, v) && (v.Obj? ==> v.members == map[])
    ensures Describes(OfType(name), v)
  {
    var e := OfType(name);
    assert e.members.Keys == {"type"};
    forall root ensures Valid(e, v, root) {}
  }

  lemma CartLineValid(product: real, quantity: real, root: Value)
    requires HasType("integer", Num(product)) && HasType("integer", Num(quantity))
    ensures Valid(CART_LINE, CartLine(product, quantity), root)
  {
    var integer := OfType("integer");
    assert Valid(integer, Num(product), root) && Valid(integer, Num(quantity), root);
    var props := CART_LINE.members["properties"].members;
    assert props.Keys == {"product_id", "quantity"} == CartLine(product, quantity).members.Keys;
  }

  lemma CartLineDescribes(product: real, quantity: real)
    requires HasType("integer", Num(product)) && HasType("integer", Num(quantity))
    ensures Describes(CART_LINE, CartLine(product, quantity))
  {
    hide HasType, BoundsFit, Tracks;
    TypeDescribes("integer", Num(product));
    TypeDescribes("integer", Num(quantity));
    var props := CART_LINE.members["properties"].members;
    assert props.Keys == {"product_id", "quantity"} == CartLine(product, quantity).members.Keys;
    forall root ensures Valid(CART_LINE, CartLine(product, quantity), root) { CartLineValid(product, quantity, root); }
  }

  lemma ArrayDescribes(item: Value, e: Value, v: Value)
    requires e == Obj(map["type" := Str("array"), "items" := item])
    requires v.Arr? && v.items != [] && forall i | 0 <= i < |v.items| :: Describes(item, v.items[i])
    ensures Describes(e, v)
  {
    hide Tracks, BoundsFit;
    assert Describes(item, v.items[0]);
    assert e.members["items"] == item && "properties" !in e.members;
    forall root ensures Valid(e, v, root) { ArrayValid(item, e, v, root); }
  }

  lemma ArrayValid(item: Value, e: Value, v: Value, root: Value)
    requires e == Obj(map["type" := Str("array"), "items" := item])
    requires v.Arr? && forall i | 0 <= i < |v.items| :: Valid(item, v.items[i], root)
    ensures Valid(e, v, root)
  {}

  lemma CheckoutItemsDescribe(e: Value, v: Value)
    requires e == Obj(map["type" := Str("array"), "items" := CART_LINE])
    requires v == Arr([CartLine(42.0, 2.0), CartLine(1337.0, 1.0)])
    ensures Describes(e, v)
  {
    hide Describes;
    CartLineDescribes(42.0, 2.0);
    CartLineDescribes(1337.0, 1.0);
    ArrayDescribes(CART_LINE, e, v);
  }

  /** Every expected property is listed in the arguments with all it describes. */
  ghost predicate AllCovered(expected: map<string, Value>, arguments: map<string, Value>)
  {
    && expected.Keys == arguments.Keys
    && forall k | k in expected :: ExpectedShape(expected[k]) && Covers(expected[k], arguments[k])
  }

  lemma FitsWithOneMore(expected: map<string, Value>, arguments: map<string, Value>, name: string, e: Value, v: Value)
    requires Fits(expected, arguments) && AllCovered(expected, arguments) && Describes(e, v)
    ensures Fits(expected[name := e], arguments[name := v]) && AllCovered(expected[name := e], arguments[name := v])
  {
    DescribedFits(e, v);
  }

  lemma SearchProductsFits()
    ensures Fits(EXPECTED_TOOL_SCHEMAS["search_products"], CANONICAL_TOOL_ARGUMENTS["search_products"])
    ensures AllCovered(EXPECTED_TOOL_SCHEMAS["search_products"], CANONICAL_TOOL_ARGUMENTS["search_products"])
  {
    hide Fits, AllCovered, Describes;
    TypeDescribes("string", Str("Electronics"));
    TypeDescribes("number", Num(50.0));
    TypeDescribes("number", Num(500.0));
    TypeDescribes("integer", Num(10.0));
    var e1, a1 := map["category" := OfType("string")], map["category" := Str("Electronics")];
    var e2, a2 := e1["min_price" := OfType("number")], a1["min_price" := Num(50.0)];
    var e3, a3 := e2["max_price" := OfType("number")], a2["max_price" := Num(500.0)];
    NothingFits();
    FitsWithOneMore(map[], map[], "category", OfType("string"), Str("Electronics"));
    FitsWithOneMore(e1, a1, "min_price", OfType("number"), Num(50.0));
    FitsWithOneMore(e2, a2, "max_price", OfType("number"), Num(500.0));
    FitsWithOneMore(e3, a3, "limit", OfType("integer"), Num(10.0));
  }

  lemma NothingFits()
    ensures Fits(map[], map[]) && AllCovered(map[], map[])
  {}

  lemma CheckoutFits()
    ensures Fits(EXPECTED_TOOL_SCHEMAS["checkout"], CANONICAL_TOOL_ARGUMENTS["checkout"])
    ensures AllCovered(EXPECTED_TOOL_SCHEMAS["checkout"], CANONICAL_TOOL_ARGUMENTS["checkout"])
  {
    hide Fits, AllCovered, Describes;
    var items, lines := EXPECTED_TOOL_SCHEMAS["checkout"]["items"], CANONICAL_TOOL_ARGUMENTS["checkout"]["items"];
    TypeDescribes("string", Str("user-00001"));
    CheckoutItemsDescribe(items, lines);
    var e1, a1 := map["user_id" := OfType("string")], map["user_id" := Str("user-00001")];
    NothingFits();
    FitsWithOneMore(map[], map[], "user_id", OfType("string"), Str("user-00001"));
    FitsWithOneMore(e1, a1, "items", items, lines);
  }

  lemma GetUserCartFits()
    ensures Fits(EXPECTED_TOOL_SCHEMAS["get_user_cart"], CANONICAL_TOOL_ARGUMENTS["get_user_cart"])
    ensures AllCovered(EXPECTED_TOOL_SCHEMAS["get_user_cart"], CANONICAL_TOOL_ARGUMENTS["get_user_cart"])
  {
    hide Fits, AllCovered, Describes;
    TypeDescribes("string", Str("user-00001"));
    NothingFits();
    FitsWithOneMore(map[], map[], "user_id", OfType("string"), Str("user-00001"));
  }

  /** The canonical arguments of the three tools fit the expected properties and have them all. */
  lemma CanonicalArgumentsFit(name: string)
    requires name in EXPECTED_TOOL_SCHEMAS
    ensures name in CANONICAL_TOOL_ARGUMENTS && Fits(EXPECTED_TOOL_SCHEMAS[name], CANONICAL_TOOL_ARGUMENTS[name])
    ensures AllCovered(EXPECTED_TOOL_SCHEMAS[name], CANONICAL_TOOL_ARGUMENTS[name])
  {
    hide Fits, AllCovered;
    SearchProductsFits();
    GetUserCartFits();
    CheckoutFits();
  }
}
