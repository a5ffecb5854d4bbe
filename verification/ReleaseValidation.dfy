/** `validate_candidate_inventory`: dictionaries and per-target sets against the declarative inventory. */
module ReleaseValidation {
  import opened Options
  import opened Versions
  import opened ChecksumText
  import opened SigningBoundary
  import opened ReleaseInventory

  type RecordMap = map<string, Payload>

  ghost predicate MapOf(records: seq<Payload>, m: RecordMap)
  {
    && DistinctNames(records)
    && (forall p | p in records :: p.name in m && m[p.name] == p)
    && (forall name | name in m :: m[name] in records && m[name].name == name)
  }

  method MakeMap(records: seq<Payload>) returns (m: Option<RecordMap>)
    ensures m.Some? <==> DistinctNames(records)
    ensures m.Some? ==> MapOf(records, m.value)
  {
    var map': RecordMap := map[];
    for i := 0 to |records|
      invariant MapOf(records[..i], map')
    {
      if records[i].name in map' {
        assert map'[records[i].name] in records[..i];
        return None;
      }
      map' := map'[records[i].name := records[i]];
      assert records[..i + 1] == records[..i] + [records[i]];
    }
    assert records[..|records|] == records;
    return Some(map');
  }

  predicate RoleIs(m: RecordMap, name: string, role: Role)
  {
    name in m && m[name].role == role
  }

  predicate TupleIs(m: RecordMap, name: string, tuple: string)
  {
    name in m && m[name].buildTuple == Some(tuple)
  }

  lemma MapRoles(records: seq<Payload>, m: RecordMap, name: string)
    requires MapOf(records, m)
    ensures forall role :: HasRole(records, name, role) <==> RoleIs(m, name, role)
    ensures forall tuple :: HasTuple(records, name, tuple) <==> TupleIs(m, name, tuple)
  {}

  method CheckNames(v: SemVer, records: seq<Payload>, m: RecordMap, routes: seq<Route>,
          targets: seq<Target>) returns (ok: bool)
    requires MapOf(records, m)
    ensures ok <==> NamesExact(v, records, routes, targets)
  {
    forall name, role ensures HasRole(records, name, role) <==> RoleIs(m, name, role) { MapRoles(records, m, name); }
    hide HasRole, Expected, FixedRoles;
    ok := (forall p | p in records :: Expected(v, routes, targets, p.name))
       && (forall f | f in FixedRoles(v) :: RoleIs(m, f.name, f.role))
       && (forall r | r in routes :: RoleIs(m, r.asset, NativePackage))
       && (v.rc.None? ==> forall t | t in targets :: RoleIs(m, IdentityName(t.id), BuildIdentity));
  }

  function Subjects(names: seq<string>, m: RecordMap): (subjects: seq<Subject>)
    requires forall name | name in names :: name in m
    ensures |subjects| == |names|
    ensures forall i | 0 <= i < |names| :: subjects[i] == Subject(names[i], m[names[i]].digest)
  {
    seq(|names|, i requires 0 <= i < |names| => Subject(names[i], m[names[i]].digest))
  }

  method CheckProvenance(records: seq<Payload>, m: RecordMap, provenance: seq<Subject>) returns (ok: bool)
    requires MapOf(records, m)
    ensures ok <==> ProvenanceExact(records, provenance)
  {
    var names := Sorted(m.Keys);
    assert forall name | name in names :: name in Elements(names);
    var expected := Subjects(names, m);
    ok := provenance == expected;
    SortedIsExact(records, m, names);
    if ProvenanceExact(records, provenance) { ExactIsSorted(records, m, names, provenance); }
  }

  lemma SortedIsExact(records: seq<Payload>, m: RecordMap, names: seq<string>)
    requires MapOf(records, m) && Ascending(names) && Elements(names) == m.Keys
    requires forall name | name in names :: name in m
    ensures ProvenanceExact(records, Subjects(names, m))
  {
    var expected := Subjects(names, m);
    forall s | s in expected ensures exists p | p in records :: s == Subject(p.name, p.digest) {
      var i :| 0 <= i < |expected| && expected[i] == s;
      assert names[i] in names && m[names[i]] in records;
    }
    forall p | p in records ensures Subject(p.name, p.digest) in expected {
      assert p.name in Elements(names);
      var i :| 0 <= i < |names| && names[i] == p.name;
      assert expected[i] == Subject(p.name, p.digest);
    }
  }

  function NamesOf(provenance: seq<Subject>): (names: seq<string>)
    ensures |names| == |provenance| && forall i | 0 <= i < |names| :: names[i] == provenance[i].name
  {
    seq(|provenance|, i requires 0 <= i < |provenance| => provenance[i].name)
  }

  lemma ExactIsSorted(records: seq<Payload>, m: RecordMap, names: seq<string>, provenance: seq<Subject>)
    requires MapOf(records, m) && Ascending(names) && Elements(names) == m.Keys
    requires forall name | name in names :: name in m
    requires ProvenanceExact(records, provenance)
    ensures provenance == Subjects(names, m)
  {
    var listed := NamesOf(provenance);
    forall name ensures name in Elements(listed) <==> name in m.Keys {
      if name in Elements(listed) {
        var i :| 0 <= i < |listed| && listed[i] == name;
        assert provenance[i] in provenance;
      }
      if name in m.Keys {
        var s := Subject(name, m[name].digest);
        assert s in provenance;
        var i :| 0 <= i < |provenance| && provenance[i] == s;
        assert listed[i] == name;
      }
    }
    AscendingIsUnique(listed, names);
    forall i | 0 <= i < |names| ensures provenance[i] == Subjects(names, m)[i] {
      assert provenance[i] in provenance;
      assert listed[i] == names[i];
    }
  }

  // ---------------------------------------------------------------- routes

  /** A route agrees with its target and its files, whatever package it carries. */
  predicate RouteAgrees(m: RecordMap, targets: seq<Target>, r: Route)
  {
    && (exists t | t in targets :: Coordinates(r, t))
    && TupleIs(m, r.asset, r.buildTuple) && TupleIs(m, r.identityAsset, r.buildTuple)
  }

  function Ids(targets: seq<Target>): set<string>
  {
    set t | t in targets :: t.id
  }

  /** The packages collected for one target from the first routes. */
  function Collected(routes: seq<Route>, id: string): set<Package>
  {
    set r | r in routes && r.routeId == id :: r.package
  }

  predicate DistinctPackages(routes: seq<Route>)
  {
    forall i, j | 0 <= i < j < |routes| :: routes[i].routeId != routes[j].routeId || routes[i].package != routes[j].package
  }

  predicate DistinctAssets(routes: seq<Route>)
  {
    forall i, j | 0 <= i < j < |routes| :: routes[i].asset != routes[j].asset
  }

  method CheckAssets(routes: seq<Route>) returns (distinct: bool)
    ensures distinct <==> DistinctAssets(routes)
  {
    var seen: set<string> := {};
    for i := 0 to |routes|
      invariant DistinctAssets(routes[..i])
      invariant forall a :: a in seen <==> exists k :: 0 <= k < i && routes[k].asset == a
    {
      if routes[i].asset in seen { return false; }
      seen := seen + {routes[i].asset};
    }
    assert routes[..|routes|] == routes;
    return true;
  }

  method CheckTargets(targets: seq<Target>) returns (distinct: bool)
    ensures distinct <==> DistinctTargets(targets)
  {
    var seen: set<string> := {};
    for i := 0 to |targets|
      invariant DistinctTargets(targets[..i])
      invariant forall id :: id in seen <==> exists k :: 0 <= k < i && targets[k].id == id
    {
      if targets[i].id in seen { return false; }
      seen := seen + {targets[i].id};
    }
    assert targets[..|targets|] == targets;
    return true;
  }

  /** The loop over the routes: collect each target's packages, none of them twice. */
  method CollectPackages(m: RecordMap, routes: seq<Route>,
          targets: seq<Target>) returns (collected: Option<map<string, set<Package>>>)
    ensures collected.Some? <==> (forall r | r in routes :: RouteAgrees(m, targets, r)) && DistinctPackages(routes)
    ensures collected.Some? ==> collected.value.Keys == Ids(targets)
    ensures collected.Some? ==> forall id | id in collected.value :: collected.value[id] == Collected(routes, id)
  {
    hide RouteAgrees;
    var ids := Ids(targets);
    var packages: map<string, set<Package>> := map id | id in ids :: {};
    assert routes[..0] == [];
    for i := 0 to |routes|
      invariant packages.Keys == ids
      invariant forall id | id in packages :: packages[id] == Collected(routes[..i], id)
      invariant (forall k | 0 <= k < i :: RouteAgrees(m, targets, routes[k])) && DistinctPackages(routes[..i])
    {
      var r := routes[i];
      if !RouteAgrees(m, targets, r) { return None; }
      AgreesHasTarget(m, targets, r);
      if r.package in packages[r.routeId] {
        Repeated(routes, i);
        return None;
      }
      CollectedMore(routes, i);
      packages := packages[r.routeId := packages[r.routeId] + {r.package}];
    }
    assert routes[..|routes|] == routes;
    return Some(packages);
  }

  lemma AgreesHasTarget(m: RecordMap, targets: seq<Target>, r: Route)
    requires RouteAgrees(m, targets, r)
    ensures r.routeId in Ids(targets)
  {}

  lemma Repeated(routes: seq<Route>, i: nat)
    requires i < |routes| && routes[i].package in Collected(routes[..i], routes[i].routeId)
    ensures !DistinctPackages(routes)
  {
    var r :| r in routes[..i] && r.routeId == routes[i].routeId && r.package == routes[i].package;
    var k :| 0 <= k < i && routes[k] == r;
  }

  lemma CollectedMore(routes: seq<Route>, i: nat)
    requires i < |routes| && DistinctPackages(routes[..i])
    ensures forall id :: Collected(routes[..i + 1], id) == Collected(routes[..i], id) + if routes[i].routeId == id then {routes[i].package} else {}
    ensures routes[i].package !in Collected(routes[..i], routes[i].routeId) ==> DistinctPackages(routes[..i + 1])
  {
    var before, after := routes[..i], routes[..i + 1];
    assert after == before + [routes[i]];
    if routes[i].package !in Collected(before, routes[i].routeId) {
      forall k | 0 <= k < i ensures after[k].routeId != after[i].routeId || after[k].package != after[i].package {
        assert before[k] in before;
      }
    }
  }

  /** Sets equal target by target is a one-to-one match of routes with targets' packages. */
  lemma SetsAreExact(v: SemVer, records: seq<Payload>, m: RecordMap, routes: seq<Route>, targets: seq<Target>)
    requires MapOf(records, m) && DistinctTargets(targets)
    ensures (forall r | r in routes :: RouteAgrees(m, targets, r))
            && (forall t | t in targets :: Collected(routes, t.id) == ExpectedPackages(v, t))
       <==> (forall r | r in routes :: RouteFits(v, records, targets, r))
            && (forall t, package | t in targets && package in ExpectedPackages(v, t) :: Carries(routes, t, package))
  {
    hide ExpectedPackages;
    forall r | r in routes ensures RouteFits(v, records, targets, r) ==> RouteAgrees(m, targets, r) { FitsAgrees(v, records, m, targets, r); }
    if (forall r | r in routes :: RouteAgrees(m, targets, r)) && (forall t | t in targets :: Collected(routes, t.id) == ExpectedPackages(v, t)) {
      forall r | r in routes ensures RouteFits(v, records, targets, r) { AgreesFits(v, records, m, routes, targets, r); }
      forall t, package | t in targets && package in ExpectedPackages(v, t) ensures Carries(routes, t, package) {
        assert package in Collected(routes, t.id);
      }
    }
    if (forall r | r in routes :: RouteFits(v, records, targets, r))
       && (forall t, package | t in targets && package in ExpectedPackages(v, t) :: Carries(routes, t, package)) {
      forall t | t in targets ensures Collected(routes, t.id) == ExpectedPackages(v, t) {
        CollectedIsExpected(v, records, routes, targets, t);
      }
    }
  }

  lemma FitsAgrees(v: SemVer, records: seq<Payload>, m: RecordMap, targets: seq<Target>, r: Route)
    requires MapOf(records, m)
    ensures RouteFits(v, records, targets, r) ==> RouteAgrees(m, targets, r)
  {
    MapRoles(records, m, r.asset);
    MapRoles(records, m, r.identityAsset);
  }

  lemma AgreesFits(v: SemVer, records: seq<Payload>, m: RecordMap, routes: seq<Route>, targets: seq<Target>, r: Route)
    requires MapOf(records, m) && r in routes && RouteAgrees(m, targets, r)
    requires forall t | t in targets :: Collected(routes, t.id) == ExpectedPackages(v, t)
    ensures RouteFits(v, records, targets, r)
  {
    hide ExpectedPackages;
    MapRoles(records, m, r.asset);
    MapRoles(records, m, r.identityAsset);
    var t :| t in targets && Coordinates(r, t);
    assert r.package in Collected(routes, t.id);
  }

  lemma CollectedIsExpected(v: SemVer, records: seq<Payload>, routes: seq<Route>, targets: seq<Target>, t: Target)
    requires DistinctTargets(targets) && t in targets
    requires forall r | r in routes :: RouteFits(v, records, targets, r)
    requires forall package | package in ExpectedPackages(v, t) :: Carries(routes, t, package)
    ensures Collected(routes, t.id) == ExpectedPackages(v, t)
  {
    hide ExpectedPackages, HasTuple;
    forall package | package in Collected(routes, t.id) ensures package in ExpectedPackages(v, t) {
      var r :| r in routes && r.routeId == t.id && r.package == package;
      assert RouteFits(v, records, targets, r);
      var t' :| t' in targets && Coordinates(r, t') && r.package in ExpectedPackages(v, t');
      SameTarget(targets, t, t');
    }
    forall package | package in ExpectedPackages(v, t) ensures package in Collected(routes, t.id) {
      assert Carries(routes, t, package);
    }
  }

  lemma SameTarget(targets: seq<Target>, t: Target, t': Target)
    requires DistinctTargets(targets) && t in targets && t' in targets && t.id == t'.id
    ensures t == t'
  {}

  method CheckRoutes(v: SemVer, records: seq<Payload>, m: RecordMap, routes: seq<Route>,
          targets: seq<Target>) returns (ok: bool)
    requires MapOf(records, m)
    ensures ok <==> RoutesExact(v, records, routes, targets)
  {
    hide RouteFits, RouteAgrees, Carries, ExpectedPackages;
    assert DistinctRoutes(routes) <==> DistinctAssets(routes) && DistinctPackages(routes);
    var distinctTargets := CheckTargets(targets);
    if !distinctTargets || |targets| != 18 { return false; }
    SetsAreExact(v, records, m, routes, targets);
    var distinctAssets := CheckAssets(routes);
    if !distinctAssets { return false; }
    var collected := CollectPackages(m, routes, targets);
    if collected.None? {
      FitsOrNot(v, records, m, routes, targets);
      return false;
    }
    ok := forall t | t in targets :: collected.value[t.id] == ExpectedPackages(v, t);
  }

  lemma FitsOrNot(v: SemVer, records: seq<Payload>, m: RecordMap, routes: seq<Route>, targets: seq<Target>)
    requires MapOf(records, m)
    ensures (forall r | r in routes :: RouteFits(v, records, targets, r)) ==> forall r | r in routes :: RouteAgrees(m, targets, r)
  {
    hide RouteFits, RouteAgrees;
    forall r | r in routes ensures RouteFits(v, records, targets, r) ==> RouteAgrees(m, targets, r) { FitsAgrees(v, records, m, targets, r); }
  }

  /** The whole validation accepts exactly the exact inventories. */
  method ValidateCandidateInventory(v: SemVer, records: seq<Payload>, routes: seq<Route>, targets: seq<Target>,
          provenance: seq<Subject>)
    returns (ok: bool)
    ensures ok <==> InventoryExact(v, records, routes, targets, provenance)
  {
    hide NamesExact, ProvenanceExact, RoutesExact, HasTuple, DistinctNames;
    var m := MakeMap(records);
    if m.None? {
      assert !NamesExact(v, records, routes, targets) by { NamesAreDistinct(v, records, routes, targets); }
      return false;
    }
    var names := CheckNames(v, records, m.value, routes, targets);
    if !names { return false; }
    var subjects := CheckProvenance(records, m.value, provenance);
    if !subjects { return false; }
    if v.rc.Some? { return routes == []; }
    MapRoles(records, m.value, WindowsArchive(v));
    MapRoles(records, m.value, WindowsPackage(v));
    MapRoles(records, m.value, WINDOWS_IDENTITY);
    if !TupleIs(m.value, WindowsArchive(v), WINDOWS_TUPLE) || !TupleIs(m.value, WindowsPackage(v), WINDOWS_TUPLE)
       || !TupleIs(m.value, WINDOWS_IDENTITY, WINDOWS_TUPLE) {
      return false;
    }
    ok := CheckRoutes(v, records, m.value, routes, targets);
  }

  lemma NamesAreDistinct(v: SemVer, records: seq<Payload>, routes: seq<Route>, targets: seq<Target>)
    ensures NamesExact(v, records, routes, targets) ==> DistinctNames(records)
  {}
}
