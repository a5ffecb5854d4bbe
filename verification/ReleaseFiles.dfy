/** What roles and builds the assembly reads off file names, and so which directories of parts it accepts. */
module ReleaseFiles {
  import opened Options
  import opened Decimals
  import opened Versions
  import opened ChecksumText
  import opened SigningBoundary
  import opened ReleaseInventory
  import opened ReleaseValidation
  import opened ReleaseAssembly
  import opened ReleaseTexts

  // ---------------------------------------------------------------- roles by name

  /** Names whose last characters fit none of the endings a role is read from. */
  ghost predicate NoEnding(name: string)
  {
    && |name| >= 6 && name[0] != 'b'
    && var last, before := name[|name| - 1], name[|name| - 2];
       && last != 'z' && last != 'm' && last != 'g' && (last == 'p' ==> before != 'i') && (last == 'b' ==> before != 'e')
       && (last == 'n' ==> name[|name| - 6] != 'x')
  }

  lemma LastTwo(name: string, suffix: string)
    requires EndsWith(name, suffix) && |suffix| >= 2
    ensures name[|name| - 1] == suffix[|suffix| - 1] && name[|name| - 2] == suffix[|suffix| - 2]
  {
    assert name[|name| - 1] == name[|name| - |suffix|..][|suffix| - 1];
    assert name[|name| - 2] == name[|name| - |suffix|..][|suffix| - 2];
  }

  lemma SixthFromEnd(name: string)
    requires EndsWith(name, ".spdx.json") || EndsWith(name, ".cdx.json")
    ensures |name| >= 6 && name[|name| - 6] == 'x' && name[|name| - 1] == 'n'
  {
    if EndsWith(name, ".spdx.json") {
      assert name[|name| - 6] == name[|name| - 10..][4] && name[|name| - 1] == name[|name| - 10..][9];
    } else {
      assert name[|name| - 6] == name[|name| - 9..][3] && name[|name| - 1] == name[|name| - 9..][8];
    }
  }

  lemma NotThis(name: string, suffix: string)
    requires NoEnding(name)
    requires suffix == ".tar.gz" || suffix == ".zip" || suffix == ".deb" || suffix == ".rpm" || suffix == ".nupkg"
    ensures !EndsWith(name, suffix)
  {
    if EndsWith(name, suffix) { LastTwo(name, suffix); }
  }

  lemma PublisherRole(name: string)
    requires NoEnding(name)
    ensures ArtifactRole(name) == PublisherInput
  {
    NotThis(name, ".tar.gz");
    NotThis(name, ".zip");
    NotThis(name, ".deb");
    NotThis(name, ".rpm");
    NotThis(name, ".nupkg");
    if EndsWith(name, ".spdx.json") || EndsWith(name, ".cdx.json") { SixthFromEnd(name); }
    assert "build-identity-"[0] == 'b';
    hide EndsWith, NoEnding;
  }

  lemma PackageRole(name: string)
    requires EndsWith(name, ".deb") || EndsWith(name, ".rpm") || EndsWith(name, ".nupkg")
    ensures ArtifactRole(name) == NativePackage
  {
    if EndsWith(name, ".deb") { LastTwo(name, ".deb"); }
    if EndsWith(name, ".rpm") { LastTwo(name, ".rpm"); }
    if EndsWith(name, ".nupkg") { LastTwo(name, ".nupkg"); }
    if EndsWith(name, ".tar.gz") { LastTwo(name, ".tar.gz"); }
    if EndsWith(name, ".zip") { LastTwo(name, ".zip"); }
    hide EndsWith;
  }

  lemma JsonIsNeither(name: string)
    requires EndsWith(name, ".json")
    ensures !EndsWith(name, ".tar.gz") && !EndsWith(name, ".zip")
    ensures !EndsWith(name, ".deb") && !EndsWith(name, ".rpm") && !EndsWith(name, ".nupkg")
  {
    LastTwo(name, ".json");
    if EndsWith(name, ".deb") { LastTwo(name, ".deb"); }
    if EndsWith(name, ".rpm") { LastTwo(name, ".rpm"); }
    if EndsWith(name, ".nupkg") { LastTwo(name, ".nupkg"); }
    if EndsWith(name, ".tar.gz") { LastTwo(name, ".tar.gz"); }
    if EndsWith(name, ".zip") { LastTwo(name, ".zip"); }
  }

  lemma InnerEnd(name: string, suffix: string, last: string)
    requires |last| <= |suffix| && suffix[|suffix| - |last|..] == last && EndsWith(name, suffix)
    ensures EndsWith(name, last)
  {
    assert name[|name| - |last|..] == name[|name| - |suffix|..][|suffix| - |last|..];
  }

  lemma SbomRole(name: string)
    requires EndsWith(name, ".spdx.json") || EndsWith(name, ".cdx.json")
    ensures ArtifactRole(name) == Sbom
  {
    assert ".spdx.json"[5..] == ".json" && ".cdx.json"[4..] == ".json";
    if EndsWith(name, ".spdx.json") { InnerEnd(name, ".spdx.json", ".json"); }
    if EndsWith(name, ".cdx.json") { InnerEnd(name, ".cdx.json", ".json"); }
    JsonIsNeither(name);
    hide EndsWith;
  }

  lemma MoreBehind(s: string, end: string, tail: string)
    ensures EndsWith(s + tail, end + tail) <==> EndsWith(s, end)
  {
    var name, suffix := s + tail, end + tail;
    if |suffix| <= |name| {
      assert name[|name| - |suffix|..] == s[|s| - |end|..] + tail;
      assert end == suffix[..|end|] && s[|s| - |end|..] == name[|name| - |suffix|..][..|end|];
    }
  }

  lemma MoreBefore(front: string, s: string, end: string)
    requires front != [] && front[|front| - 1] !in end
    ensures EndsWith(front + s, end) <==> EndsWith(s, end)
  {
    var name := front + s;
    if |end| <= |s| {
      assert name[|name| - |end|..] == s[|s| - |end|..];
    } else if EndsWith(name, end) {
      ReachesFront(front, s, end);
    }
  }

  lemma ReachesFront(front: string, s: string, end: string)
    requires front != [] && |end| > |s| && EndsWith(front + s, end)
    ensures front[|front| - 1] in end
  {
    var name, k := front + s, |end| - |s| - 1;
    assert end[k] == name[|name| - |end|..][k] == front[|front| - 1];
  }

  lemma IdentityEnds(id: string, end: string)
    requires '-' !in end
    ensures EndsWith("build-identity-" + id + ".json", end + ".json") <==> EndsWith(id, end)
  {
    var front := "build-identity-";
    assert front[|front| - 1] == '-';
    hide EndsWith;
    MoreBehind(front + id, end, ".json");
    MoreBefore(front, id, end);
  }

  /** An identity keeps its role unless its target's name ends like that of a bill of materials. */
  lemma IdentityRole(id: string)
    ensures ArtifactRole("build-identity-" + id + ".json") == if EndsWith(id, ".spdx") || EndsWith(id, ".cdx") then Sbom else BuildIdentity
  {
    var front := "build-identity-";
    assert ".spdx" + ".json" == ".spdx.json" && ".cdx" + ".json" == ".cdx.json";
    IdentityEnds(id, ".spdx");
    IdentityEnds(id, ".cdx");
    AppendedEnd(front + id, ".json");
    assert front <= front + id + ".json";
    JsonIsNeither(front + id + ".json");
    hide EndsWith;
  }

  lemma AppendedEnd(s: string, suffix: string)
    ensures EndsWith(s + suffix, suffix)
  {}

  lemma CommonRole(v: SemVer, f: Fixed)
    requires CommonFile(v, f)
    ensures ArtifactRole(f.name) == f.role
  {
    var front := "mcp-cpp-sdk-" + Print(v);
    AppendedEnd(front, ".tar.gz");
    AppendedEnd(front, ".zip");
    AppendedEnd(front, ".spdx.json");
    AppendedEnd(front, ".cdx.json");
    if f.role == Sbom { SbomRole(f.name); }
    if f.role == PublisherInput {
      assert NoEnding("release-signing-key.asc");
      PublisherRole(f.name);
    }
    hide EndsWith, Print;
  }

  lemma PublisherNames(f: Fixed)
    requires PublisherFile(f)
    ensures NoEnding(f.name)
  {
    assert "conan-recipe-test-test_package.cpp"[32] == 'p';
  }

  lemma PublisherFileRole(f: Fixed)
    requires PublisherFile(f)
    ensures ArtifactRole(f.name) == f.role
  {
    PublisherNames(f);
    PublisherRole(f.name);
  }

  lemma WindowsRole(v: SemVer, f: Fixed)
    requires WindowsFile(v, f)
    ensures ArtifactRole(f.name) == f.role
  {
    if f.role == SourceOrBinaryArchive {
      AppendedEnd("mcp-cpp-sdk-" + Print(v) + "-windows-x64-v143-md", ".zip");
      assert f.name == "mcp-cpp-sdk-" + Print(v) + "-windows-x64-v143-md" + ".zip";
    } else if f.role == NativePackage {
      AppendedEnd("mcp-cpp-sdk." + Print(v), ".nupkg");
      PackageRole(f.name);
    } else {
      WindowsIdentityRole();
    }
  }

  lemma OtherLast(s: string, suffix: string)
    requires s != [] && |suffix| >= 2 && s[|s| - 1] != suffix[|suffix| - 1]
    ensures !EndsWith(s, suffix)
  {
    if EndsWith(s, suffix) { LastTwo(s, suffix); }
  }

  lemma WindowsName() returns (id: string)
    ensures "build-identity-" + id + ".json" == "build-identity-windows-x64-v143-md.json" && id != [] && id[|id| - 1] == 'd'
  {
    id := "windows-x64-v143-md";
  }

  lemma WindowsIdentityRole()
    ensures ArtifactRole("build-identity-windows-x64-v143-md.json") == BuildIdentity
  {
    var id := WindowsName();
    IdentityRole(id);
    OtherLast(id, ".spdx");
    OtherLast(id, ".cdx");
  }

  /** Every fixed file gets the role the inventory demands of it. */
  lemma FixedRole(v: SemVer, f: Fixed)
    requires f in FixedRoles(v)
    ensures ArtifactRole(f.name) == f.role
  {
    FixedIff(v, f);
    hide CommonFile, PublisherFile, WindowsFile, FixedRoles, ArtifactRole;
    if CommonFile(v, f) {
      CommonRole(v, f);
    } else if PublisherFile(f) {
      PublisherFileRole(f);
    } else {
      WindowsRole(v, f);
    }
  }

  // ---------------------------------------------------------------- builds by name

  lemma {:induction false} BuildOfAsset(routes: seq<Route>, r: Route)
    requires DistinctAssets(routes) && r in routes
    ensures TupleByAsset(routes, r.asset) == Some(r.buildTuple)
  {
    var most := routes[..|routes| - 1];
    var i :| 0 <= i < |routes| && routes[i] == r;
    if i < |routes| - 1 {
      assert most[i] == r;
      BuildOfAsset(most, r);
    }
  }

  lemma {:induction false} NoAsset(routes: seq<Route>, name: string)
    requires forall r | r in routes :: r.asset != name
    ensures TupleByAsset(routes, name) == None
  {
    if routes != [] { NoAsset(routes[..|routes| - 1], name); }
  }

  lemma {:induction false} BuildOfIdentity(routes: seq<Route>, r: Route)
    requires r in routes && forall other | other in routes && other.identityAsset == r.identityAsset :: other.buildTuple == r.buildTuple
    ensures TupleByIdentity(routes, r.identityAsset) == Some(r.buildTuple)
  {
    var most, last := routes[..|routes| - 1], routes[|routes| - 1];
    if last.identityAsset != r.identityAsset {
      assert r in most;
      BuildOfIdentity(most, r);
    }
  }

  lemma AssetIsNoWindowsFile(v: SemVer, r: Route)
    requires ValidRoute(r)
    ensures r.asset != WindowsArchive(v) && r.asset != WindowsPackage(v) && r.asset != WINDOWS_IDENTITY
    ensures r.identityAsset != WindowsArchive(v) && r.identityAsset != WindowsPackage(v)
  {
    LastChar(r.asset, if r.format == Apt then ".deb" else ".rpm");
    assert r.identityAsset[|r.identityAsset| - 1] == 'n';
    hide Print;
  }

  lemma AssetIsNoIdentity(r: Route, id: string)
    requires ValidRoute(r)
    ensures r.asset != IdentityName(id)
  {
    LastChar(r.asset, if r.format == Apt then ".deb" else ".rpm");
    assert IdentityName(id)[|IdentityName(id)| - 1] == 'n';
  }

  /** A package is recorded with the build of its route. */
  lemma PackageBuild(v: SemVer, routes: seq<Route>, r: Route)
    requires ValidRoute(r) && DistinctAssets(routes) && r in routes
    ensures TupleOf(v, routes, r.asset) == Some(r.buildTuple)
  {
    AssetIsNoWindowsFile(v, r);
    BuildOfAsset(routes, r);
  }

  lemma IdentitiesDiffer(a: string, b: string)
    ensures IdentityName(a) == IdentityName(b) <==> a == b
  {
    var front := "build-identity-";
    assert IdentityName(a)[|front|..][..|IdentityName(a)| - 20] == a;
    assert IdentityName(b)[|front|..][..|IdentityName(b)| - 20] == b;
  }

  /** The routes of one target belong to packages of one kind. */
  ghost predicate OneFormat(routes: seq<Route>, targets: seq<Target>)
  {
    DistinctTargets(targets) && forall r | r in routes :: TargetOf(r) in targets
  }

  lemma SameBuild(routes: seq<Route>, targets: seq<Target>, r: Route, other: Route)
    requires OneFormat(routes, targets) && r in routes && other in routes && ValidRoute(r) && ValidRoute(other)
    requires r.identityAsset == other.identityAsset
    ensures r.buildTuple == other.buildTuple
  {
    IdentitiesDiffer(r.routeId, other.routeId);
    var i :| 0 <= i < |targets| && targets[i] == TargetOf(r);
    var j :| 0 <= j < |targets| && targets[j] == TargetOf(other);
    assert targets[i].id == targets[j].id;
  }

  /** An identity is recorded with the build of its target's routes, unless it has the name of the Windows one. */
  lemma IdentityBuild(v: SemVer, routes: seq<Route>, targets: seq<Target>, r: Route)
    requires OneFormat(routes, targets) && r in routes && forall other | other in routes :: ValidRoute(other)
    ensures TupleOf(v, routes, r.identityAsset) == if r.identityAsset == WINDOWS_IDENTITY then Some(WINDOWS_TUPLE) else Some(r.buildTuple)
  {
    AssetIsNoWindowsFile(v, r);
    forall other | other in routes ensures other.asset != r.identityAsset { AssetIsNoIdentity(other, r.routeId); }
    NoAsset(routes, r.identityAsset);
    forall other | other in routes && other.identityAsset == r.identityAsset ensures other.buildTuple == r.buildTuple {
      SameBuild(routes, targets, r, other);
    }
    BuildOfIdentity(routes, r);
    hide WindowsArchive, WindowsPackage, WINDOWS_IDENTITY, WINDOWS_TUPLE, ValidRoute, TupleByAsset, TupleByIdentity, OneFormat;
  }

  // ---------------------------------------------------------------- records and files

  ghost predicate Kept(staged: Files, name: string)
  {
    name in staged && name != NOTES
  }

  lemma RecordOf(hash: Hash, v: SemVer, routes: seq<Route>, staged: Files, payloads: seq<Payload>, name: string)
    requires Listed(hash, v, routes, staged, payloads)
    ensures Kept(staged, name) ==> PayloadOf(hash, v, routes, name, staged[name]) in payloads
    ensures forall p | p in payloads && p.name == name :: Kept(staged, name) && p == PayloadOf(hash, v, routes, name, staged[name])
  {
    hide PayloadOf;
  }

  lemma RolesRead(hash: Hash, v: SemVer, routes: seq<Route>, staged: Files, payloads: seq<Payload>, name: string, role: Role)
    requires Listed(hash, v, routes, staged, payloads)
    ensures HasRole(payloads, name, role) <==> Kept(staged, name) && ArtifactRole(name) == role
  {
    RecordOf(hash, v, routes, staged, payloads, name);
    hide Listed, ArtifactRole, TupleOf;
    if Kept(staged, name) && ArtifactRole(name) == role {
      var p := PayloadOf(hash, v, routes, name, staged[name]);
      assert p in payloads && p.name == name && p.role == role;
    }
  }

  lemma BuildsRead(hash: Hash, v: SemVer, routes: seq<Route>, staged: Files, payloads: seq<Payload>, name: string, tuple: string)
    requires Listed(hash, v, routes, staged, payloads)
    ensures HasTuple(payloads, name, tuple) <==> Kept(staged, name) && TupleOf(v, routes, name) == Some(tuple)
  {
    RecordOf(hash, v, routes, staged, payloads, name);
    hide Listed, ArtifactRole, TupleOf;
    if Kept(staged, name) && TupleOf(v, routes, name) == Some(tuple) {
      var p := PayloadOf(hash, v, routes, name, staged[name]);
      assert p in payloads && p.name == name && p.buildTuple == Some(tuple);
    }
  }

  lemma NamesDiffer(hash: Hash, v: SemVer, routes: seq<Route>, staged: Files, payloads: seq<Payload>)
    requires Listed(hash, v, routes, staged, payloads)
    ensures DistinctNames(payloads)
  {
    hide PayloadOf, Less;
    forall i, j | 0 <= i < j < |payloads| ensures payloads[i].name != payloads[j].name {
      Ordered(payloads[i].name, payloads[j].name);
    }
  }

  lemma Ordered(a: string, b: string)
    ensures Less(a, b) ==> a != b
  {
    if a == b { Irreflexive(a); }
  }

  lemma {:induction false} Irreflexive(a: string)
    ensures !Less(a, a)
  {
    if a != [] { Irreflexive(a[1..]); }
  }

  /** The provenance the assembly writes is the one the inventory demands. */
  lemma SubjectsAreExact(hash: Hash, v: SemVer, routes: seq<Route>, staged: Files, payloads: seq<Payload>)
    requires Listed(hash, v, routes, staged, payloads)
    ensures ProvenanceExact(payloads, SubjectsOf(payloads))
  {
    hide PayloadOf, Less;
    var subjects := SubjectsOf(payloads);
    forall p | p in payloads ensures Subject(p.name, p.digest) in subjects {
      var i :| 0 <= i < |payloads| && payloads[i] == p;
      assert subjects[i] == Subject(p.name, p.digest);
    }
    forall s | s in subjects ensures exists p | p in payloads :: s == Subject(p.name, p.digest) {
      var i :| 0 <= i < |subjects| && subjects[i] == s;
      assert payloads[i] in payloads;
    }
  }

  // ---------------------------------------------------------------- names

  /** The target's identity has the role of one. */
  ghost predicate PlainTarget(t: Target)
  {
    !EndsWith(t.id, ".spdx") && !EndsWith(t.id, ".cdx")
  }

  ghost predicate NamesFit(v: SemVer, routes: seq<Route>, targets: seq<Target>, staged: Files)
  {
    && (forall name :: Kept(staged, name) <==> Expected(v, routes, targets, name))
    && (v.rc == None ==> forall t | t in targets :: PlainTarget(t))
  }

  lemma AssetRole(r: Route)
    requires ValidRoute(r)
    ensures ArtifactRole(r.asset) == NativePackage
  {
    PackageRole(r.asset);
  }

  lemma NameOfRecord(hash: Hash, v: SemVer, routes: seq<Route>, name: string, content: string)
    ensures PayloadOf(hash, v, routes, name, content).name == name
  {}

  lemma NamesFitIff(hash: Hash, v: SemVer, routes: seq<Route>, targets: seq<Target>, staged: Files, payloads: seq<Payload>)
    requires Listed(hash, v, routes, staged, payloads) && forall r | r in routes :: ValidRoute(r)
    ensures NamesExact(v, payloads, routes, targets) <==> NamesFit(v, routes, targets, staged)
  {
    hide Less, PayloadOf, TupleOf, Print, EndsWith, NOTES, CommonRoles, PublisherRoles, ConanRoles, WindowsRoles;
    NamesDiffer(hash, v, routes, staged, payloads);
    forall name ensures Kept(staged, name) <==> exists p | p in payloads :: p.name == name {
      RecordOf(hash, v, routes, staged, payloads, name);
      if Kept(staged, name) { NameOfRecord(hash, v, routes, name, staged[name]); }
    }
    forall name, role ensures HasRole(payloads, name, role) <==> Kept(staged, name) && ArtifactRole(name) == role {
      RolesRead(hash, v, routes, staged, payloads, name, role);
    }
    forall f | f in FixedRoles(v) ensures ArtifactRole(f.name) == f.role { FixedRole(v, f); }
    forall r | r in routes ensures ArtifactRole(r.asset) == NativePackage { AssetRole(r); }
    forall t | t in targets ensures ArtifactRole(IdentityName(t.id)) == BuildIdentity <==> PlainTarget(t) { IdentityRole(t.id); }
    hide Listed, DistinctNames, Kept, HasRole, FixedRoles, ArtifactRole, PlainTarget, ValidRoute, IdentityName;
  }

  // ---------------------------------------------------------------- payloads

  lemma {:induction false} BuildIsOfRoute(routes: seq<Route>, name: string)
    ensures var b := TupleByAsset(routes, name); b.Some? ==> exists r | r in routes :: b == Some(r.buildTuple)
    ensures var b := TupleByIdentity(routes, name); b.Some? ==> exists r | r in routes :: b == Some(r.buildTuple)
  {
    if routes != [] {
      BuildIsOfRoute(routes[..|routes| - 1], name);
      assert routes[|routes| - 1] in routes;
    }
  }

  lemma WindowsBuildTuple()
    ensures BuildTuple(WINDOWS_TUPLE)
  {
    hide BuildTuple;
    BuildTupleIff(WINDOWS_TUPLE);
  }

  lemma BuildIsWellFormed(v: SemVer, routes: seq<Route>, name: string)
    requires forall r | r in routes :: BuildTuple(r.buildTuple)
    ensures var b := TupleOf(v, routes, name); b.Some? ==> BuildTuple(b.value)
  {
    BuildIsOfRoute(routes, name);
    WindowsBuildTuple();
    hide BuildTuple, TupleByAsset, TupleByIdentity, WindowsArchive, WindowsPackage, WINDOWS_IDENTITY, WINDOWS_TUPLE;
  }

  lemma ManifestIsNotFixed(v: SemVer, f: Fixed)
    requires f in FixedRoles(v)
    ensures f.name != MANIFEST
  {
    FixedIff(v, f);
    hide FixedRoles, Print;
    assert MANIFEST[0] == 'r' && |MANIFEST| == 21;
  }

  lemma AssetIsNotManifest(r: Route)
    requires ValidRoute(r)
    ensures r.asset != MANIFEST
  {
    LastChar(r.asset, if r.format == Apt then ".deb" else ".rpm");
    assert MANIFEST[|MANIFEST| - 1] == 'n';
  }

  lemma IdentityIsNotManifest(id: string)
    ensures IdentityName(id) != MANIFEST
  {
    assert IdentityName(id)[0] == 'b' && MANIFEST[0] == 'r';
  }

  lemma ExpectedIsNotManifest(v: SemVer, routes: seq<Route>, targets: seq<Target>, name: string)
    requires (forall r | r in routes :: ValidRoute(r)) && Expected(v, routes, targets, name)
    ensures name != MANIFEST
  {
    hide FixedRoles, ValidRoute, MANIFEST, IdentityName, Print;
    if IsFixed(v, name) {
      var f :| f in FixedRoles(v) && f.name == name;
      ManifestIsNotFixed(v, f);
    } else if IsRouteAsset(routes, name) {
      var r :| r in routes && r.asset == name;
      AssetIsNotManifest(r);
    } else {
      var t :| t in targets && IdentityName(t.id) == name;
      IdentityIsNotManifest(t.id);
    }
  }

  /** None of the expected names is reserved. */
  lemma ExpectedIsNotReserved(v: SemVer, routes: seq<Route>, targets: seq<Target>, name: string)
    requires |Print(v)| <= 64 && (forall r | r in routes :: ValidRoute(r)) && Expected(v, routes, targets, name)
    ensures name !in CONTROL && name != NOTES
  {
    ExpectedShape(v, routes, targets, name);
    ExpectedIsNotManifest(v, routes, targets, name);
    PlainIsNeither(name);
    PlainIsNotReserved(name);
    hide Expected, Plain, IsDetached, ValidRoute, MANIFEST, SUMS, SUMS_SIGNATURE, NOTES, Archive, Print;
  }

  lemma PlainIsNotReserved(name: string)
    requires Plain(name)
    ensures name != MANIFEST + ".asc" && name != SUMS_SIGNATURE
  {
    assert |MANIFEST + ".asc"| == 25 && (MANIFEST + ".asc")[24] == 'c';
    assert |SUMS_SIGNATURE| == 14 && SUMS_SIGNATURE[13] == 'c';
  }

  /** Every file to record is named as an asset may be and is not empty. */
  ghost predicate FilesFit(staged: Files)
  {
    forall name | Kept(staged, name) :: AssetName(name) && staged[name] != []
  }

  lemma PayloadsFit(hash: Hash, v: SemVer, routes: seq<Route>, staged: Files, payloads: seq<Payload>, targets: seq<Target>)
    requires HexHash(hash) && |Print(v)| <= 64 && forall r | r in routes :: ValidRoute(r)
    requires Listed(hash, v, routes, staged, payloads) && NamesFit(v, routes, targets, staged)
    requires FilesFit(staged) && forall r | r in routes :: BuildTuple(r.buildTuple)
    ensures AllValid(payloads)
  {
    hide AssetName, Digest, BuildTuple, ArtifactRole, TupleOf, CONTROL, Print, ValidRoute, Expected, NOTES;
    forall p | p in payloads ensures ValidPayload(p) {
      assert p.name in staged && p.name != NOTES && p == PayloadOf(hash, v, routes, p.name, staged[p.name]);
      assert Kept(staged, p.name);
      ExpectedIsNotReserved(v, routes, targets, p.name);
      BuildIsWellFormed(v, routes, p.name);
    }
  }

  lemma ValidPayloadsFit(hash: Hash, v: SemVer, routes: seq<Route>, staged: Files, payloads: seq<Payload>)
    requires Listed(hash, v, routes, staged, payloads) && AllValid(payloads)
    ensures FilesFit(staged)
  {
    hide AssetName, Digest, BuildTuple, ArtifactRole, TupleOf, CONTROL;
    forall name | Kept(staged, name) ensures AssetName(name) && staged[name] != [] {
      RecordOf(hash, v, routes, staged, payloads, name);
      var p := PayloadOf(hash, v, routes, name, staged[name]);
      assert p in payloads && ValidPayload(p);
    }
  }

  lemma ValidBuild(hash: Hash, v: SemVer, routes: seq<Route>, staged: Files, payloads: seq<Payload>, r: Route)
    requires Listed(hash, v, routes, staged, payloads) && AllValid(payloads)
    requires ValidRoute(r) && DistinctAssets(routes) && r in routes && Kept(staged, r.asset)
    ensures BuildTuple(r.buildTuple)
  {
    RecordOf(hash, v, routes, staged, payloads, r.asset);
    PackageBuild(v, routes, r);
    hide AssetName, Digest, BuildTuple, ArtifactRole, TupleOf, CONTROL, ValidRoute;
    var p := PayloadOf(hash, v, routes, r.asset, staged[r.asset]);
    assert p in payloads && ValidPayload(p);
  }

  // ---------------------------------------------------------------- routes

  lemma FirstLetters(r: Route)
    requires ValidRoute(r)
    ensures r.buildTuple != WINDOWS_TUPLE
  {
    assert r.buildTuple[0] == 'a' || r.buildTuple[0] == 'r';
    assert WINDOWS_TUPLE[0] == 'w';
  }

  lemma WindowsIdentityIs(id: string)
    ensures IdentityName(id) == WINDOWS_IDENTITY <==> id == WINDOWS_TUPLE
  {
    IdentitiesDiffer(id, WINDOWS_TUPLE);
    assert IdentityName(WINDOWS_TUPLE) == WINDOWS_IDENTITY;
  }

  /** A route of a target is recorded with its build exactly if the target is not called like the Windows build. */
  lemma RouteRecorded(hash: Hash, v: SemVer, routes: seq<Route>, targets: seq<Target>, staged: Files,
          payloads: seq<Payload>, r: Route)
    requires v.rc == None && Listed(hash, v, routes, staged, payloads) && NamesFit(v, routes, targets, staged)
    requires OneFormat(routes, targets) && r in routes && DistinctAssets(routes) && forall other | other in routes :: ValidRoute(other)
    ensures BuiltAs(payloads, r.asset, r.buildTuple)
    ensures BuiltAs(payloads, r.identityAsset, r.buildTuple) <==> r.routeId != WINDOWS_TUPLE
  {
    PackageBuild(v, routes, r);
    IdentityBuild(v, routes, targets, r);
    BuildsRead(hash, v, routes, staged, payloads, r.asset, r.buildTuple);
    BuildsRead(hash, v, routes, staged, payloads, r.identityAsset, r.buildTuple);
    BuiltAsIff(payloads, r.asset, r.buildTuple);
    BuiltAsIff(payloads, r.identityAsset, r.buildTuple);
    FirstLetters(r);
    WindowsIdentityIs(r.routeId);
    assert r.identityAsset == IdentityName(r.routeId);
    var t := TargetOf(r);
    assert t in targets && t.id == r.routeId;
    hide Listed, TupleOf, HasTuple, BuiltAs, IdentityName, WINDOWS_TUPLE, WINDOWS_IDENTITY, ValidRoute, DistinctAssets, OneFormat, IsFixed, NOTES;
    assert IsRouteAsset(routes, r.asset) && IsIdentity(v, targets, r.identityAsset);
    assert Expected(v, routes, targets, r.asset) && Expected(v, routes, targets, r.identityAsset);
    assert Kept(staged, r.asset) && Kept(staged, r.identityAsset);
  }

  // ---------------------------------------------------------------- what is accepted

  lemma {:induction false} AsManyIdentities(ids: set<string>)
    ensures |set id | id in ids :: IdentityName(id)| == |ids|
    decreases ids
  {
    var names := set id | id in ids :: IdentityName(id);
    if id :| id in ids {
      var rest := ids - {id};
      AsManyIdentities(rest);
      var others := set other | other in rest :: IdentityName(other);
      forall other | other in rest ensures IdentityName(other) != IdentityName(id) { IdentitiesDiffer(other, id); }
      hide IdentityName;
      assert names == others + {IdentityName(id)};
    }
  }

  /** Identities are never ambiguous: only packages can be. */
  lemma UnambiguousIff(routes: seq<Route>)
    requires forall r | r in routes :: ValidRoute(r)
    ensures RoutesUnambiguous(routes) <==> DistinctAssets(routes)
  {
    var ids := set r | r in routes :: r.routeId;
    AsManyIdentities(ids);
    forall r | r in routes ensures r.identityAsset == IdentityName(r.routeId) {}
    hide ValidRoute, IdentityName, DistinctAssets;
    assert (set r | r in routes :: r.identityAsset) == set id | id in ids :: IdentityName(id);
  }

  /** The targets of a release and their routes, whatever the files. */
  ghost predicate RoutesFit(v: SemVer, routes: seq<Route>, targets: seq<Target>)
  {
    && |targets| == 18
    && (forall i, j | 0 <= i < |targets| && 0 <= j < |targets| && targets[i].id == targets[j].id :: i == j)
    && (forall t | t in targets :: t.id != "windows-x64-v143-md")
    && (forall i, j | 0 <= i < |routes| && 0 <= j < |routes| && routes[i].routeId == routes[j].routeId
                      && routes[i].package == routes[j].package :: i == j)
    && (forall r | r in routes :: TargetOf(r) in targets && r.package in ExpectedPackages(v, TargetOf(r)))
    && (forall t, package | t in targets && package in ExpectedPackages(v, t) ::
          exists i | 0 <= i < |routes| :: routes[i].routeId == t.id && routes[i].package == package)
  }

  lemma SomePackage(v: SemVer, t: Target) returns (package: Package)
    ensures package in ExpectedPackages(v, t)
  {
    package := if t.format == Apt then Package("libmcp-cpp-sdk-dev", DebianVersion(v), t.architecture)
               else Package("mcp-cpp-sdk-devel", RpmPackageVersion(v, t), t.architecture);
    hide AbiVersion, DebianVersion, RpmPackageVersion;
  }

  lemma RoutesFitIff(hash: Hash, v: SemVer, routes: seq<Route>, targets: seq<Target>, staged: Files, payloads: seq<Payload>)
    requires v.rc == None && Listed(hash, v, routes, staged, payloads) && NamesFit(v, routes, targets, staged)
    requires DistinctAssets(routes) && forall r | r in routes :: ValidRoute(r)
    ensures RoutesExact(v, payloads, routes, targets) <==> RoutesFit(v, routes, targets)
  {
    RoutesIff(v, payloads, routes, targets);
    hide RoutesExact, ExpectedPackages, ValidRoute, NamesFit, Listed, BuiltAs;
    if RoutesExact(v, payloads, routes, targets) {
      assert OneFormat(routes, targets);
      forall t | t in targets ensures t.id != WINDOWS_TUPLE {
        var package := SomePackage(v, t);
        var i :| 0 <= i < |routes| && routes[i].routeId == t.id && routes[i].package == package;
        assert routes[i] in routes && RouteIsExpected(v, payloads, targets, routes[i]);
        RouteRecorded(hash, v, routes, targets, staged, payloads, routes[i]);
      }
    }
    if RoutesFit(v, routes, targets) {
      assert OneFormat(routes, targets);
      forall r | r in routes ensures RouteIsExpected(v, payloads, targets, r) {
        RouteRecorded(hash, v, routes, targets, staged, payloads, r);
        assert TargetOf(r).id == r.routeId;
      }
    }
  }

  lemma WindowsRecorded(hash: Hash, v: SemVer, routes: seq<Route>, targets: seq<Target>, staged: Files, payloads: seq<Payload>)
    requires v.rc == None && Listed(hash, v, routes, staged, payloads) && NamesFit(v, routes, targets, staged)
    ensures HasTuple(payloads, WindowsArchive(v), WINDOWS_TUPLE) && HasTuple(payloads, WindowsPackage(v), WINDOWS_TUPLE)
    ensures HasTuple(payloads, WINDOWS_IDENTITY, WINDOWS_TUPLE)
  {
    WindowsAreFixed(v);
    BuildsRead(hash, v, routes, staged, payloads, WindowsArchive(v), WINDOWS_TUPLE);
    BuildsRead(hash, v, routes, staged, payloads, WindowsPackage(v), WINDOWS_TUPLE);
    BuildsRead(hash, v, routes, staged, payloads, WINDOWS_IDENTITY, WINDOWS_TUPLE);
    hide Listed, HasTuple, IsFixed, WINDOWS_IDENTITY, WINDOWS_TUPLE, WindowsArchive, WindowsPackage, Kept, TupleByAsset, TupleByIdentity;
    assert Expected(v, routes, targets, WindowsArchive(v)) && Expected(v, routes, targets, WindowsPackage(v));
    assert Expected(v, routes, targets, WINDOWS_IDENTITY);
  }

  lemma WindowsAreFixed(v: SemVer)
    requires v.rc == None
    ensures IsFixed(v, WindowsArchive(v)) && IsFixed(v, WindowsPackage(v)) && IsFixed(v, WINDOWS_IDENTITY)
  {
    var w := WindowsRoles(v);
    assert w[0] in FixedRoles(v) && w[1] in FixedRoles(v) && w[2] in FixedRoles(v) by { assert w[0] in w && w[1] in w && w[2] in w; }
    assert w[0].name == WindowsArchive(v) && w[1].name == WindowsPackage(v) && w[2].name == WINDOWS_IDENTITY;
    hide FixedRoles, WindowsRoles, WindowsArchive, WindowsPackage, WINDOWS_IDENTITY;
  }

  /** What is accepted of staged parts, without a record made of them. */
  ghost predicate PartsFit(v: SemVer, routes: seq<Route>, targets: seq<Target>, staged: Files)
  {
    && DistinctAssets(routes) && NamesFit(v, routes, targets, staged) && FilesFit(staged)
    && (forall r | r in routes :: BuildTuple(r.buildTuple))
    && if v.rc.Some? then routes == [] else RoutesFit(v, routes, targets)
  }

  lemma FittingIsAccepted(hash: Hash, v: SemVer, routes: seq<Route>, targets: seq<Target>, staged: Files, payloads: seq<Payload>)
    requires HexHash(hash) && |Print(v)| <= 64 && forall r | r in routes :: ValidRoute(r)
    requires Listed(hash, v, routes, staged, payloads) && PartsFit(v, routes, targets, staged)
    ensures Accepted(v, routes, targets, payloads)
  {
    UnambiguousIff(routes);
    NamesFitIff(hash, v, routes, targets, staged, payloads);
    PayloadsFit(hash, v, routes, staged, payloads, targets);
    SubjectsAreExact(hash, v, routes, staged, payloads);
    if v.rc == None {
      RoutesFitIff(hash, v, routes, targets, staged, payloads);
      WindowsRecorded(hash, v, routes, targets, staged, payloads);
    }
    hide RoutesUnambiguous, AllValid, NamesExact, ProvenanceExact, RoutesExact, HasTuple, Listed, NamesFit, RoutesFit, FilesFit;
  }

  lemma AcceptedFits(hash: Hash, v: SemVer, routes: seq<Route>, targets: seq<Target>, staged: Files, payloads: seq<Payload>)
    requires |Print(v)| <= 64 && forall r | r in routes :: ValidRoute(r)
    requires Listed(hash, v, routes, staged, payloads) && Accepted(v, routes, targets, payloads)
    ensures PartsFit(v, routes, targets, staged)
  {
    UnambiguousIff(routes);
    NamesFitIff(hash, v, routes, targets, staged, payloads);
    ValidPayloadsFit(hash, v, routes, staged, payloads);
    forall r | r in routes ensures BuildTuple(r.buildTuple) {
      assert IsRouteAsset(routes, r.asset) && Expected(v, routes, targets, r.asset);
      ValidBuild(hash, v, routes, staged, payloads, r);
    }
    if v.rc == None { RoutesFitIff(hash, v, routes, targets, staged, payloads); }
    hide RoutesUnambiguous, AllValid, NamesExact, ProvenanceExact, RoutesExact, HasTuple, Listed, NamesFit, RoutesFit, FilesFit, BuildTuple;
  }

  /**
   * Parts are accepted exactly if the staged names are the expected ones, every file but the notes is a proper
   * asset, and targets and routes fit: the roles and builds read off the names never reject, except for a
   * target whose name ends like a bill of materials or is that of the Windows build.
   */
  lemma AcceptedIffPartsFit(hash: Hash, v: SemVer, routes: seq<Route>, targets: seq<Target>, staged: Files, payloads: seq<Payload>)
    requires HexHash(hash) && |Print(v)| <= 64 && forall r | r in routes :: ValidRoute(r)
    requires Listed(hash, v, routes, staged, payloads)
    ensures Accepted(v, routes, targets, payloads) <==> PartsFit(v, routes, targets, staged)
  {
    hide Accepted, PartsFit, Listed, ValidRoute, Print;
    if Accepted(v, routes, targets, payloads) { AcceptedFits(hash, v, routes, targets, staged, payloads); }
    if PartsFit(v, routes, targets, staged) { FittingIsAccepted(hash, v, routes, targets, staged, payloads); }
  }

  // ---------------------------------------------------------------- what is staged

  /** Metadata and route fragments stay behind, the route inventory is written, all other files are copied. */
  lemma StagedIs(parts: Files, routes: seq<Route>, routesJson: string, name: string)
    ensures var staged := Staged(parts, routes, routesJson);
            if name == "cloudsmith-" + "routes.json" && routes != [] then name in staged && staged[name] == routesJson
            else if name == "core-" + "metadata.json" || exists id :: name == "route-" + id + ".json" then name !in staged
            else (name in staged <==> name in parts) && (name in parts ==> staged[name] == parts[name])
  {
    assert "cloudsmith-" + "routes.json" == ROUTES && "core-" + "metadata.json" == METADATA;
    FragmentIff(name);
    hide ROUTES, METADATA, EndsWith;
  }

  lemma FragmentIff(name: string)
    ensures (("route-" <= name && EndsWith(name, ".json")) <==> exists id :: name == "route-" + id + ".json")
  {
    if "route-" <= name && EndsWith(name, ".json") {
      assert "route-"[0] == 'r' && ".json"[0] == '.';
      var rest := name[6..];
      assert name == "route-" + rest;
      MoreBefore("route-", rest, ".json");
      EndsWithIff(rest, ".json");
      var id :| rest == id + ".json";
      assert name == "route-" + id + ".json";
    }
    if id :| name == "route-" + id + ".json" { AppendedEnd("route-" + id, ".json"); }
  }
}
