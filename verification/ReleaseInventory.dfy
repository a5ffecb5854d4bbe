/** The exact payload inventory of a release (`validate_candidate_inventory` and its tables in `release/artifacts.py`). */
module ReleaseInventory {
  import opened Options
  import opened Decimals
  import opened Versions
  import opened ChecksumText
  import opened SigningBoundary

  datatype Role = SourceOrBinaryArchive | Sbom | PublisherInput | NativePackage | BuildIdentity

  datatype Payload = Payload(name: string, size: nat, digest: string, role: Role, buildTuple: Option<string>)

  datatype Format = Apt | Rpm

  datatype Target = Target(id: string, format: Format, distribution: string, release: string, architecture: string)

  datatype Package = Package(name: string, version: string, architecture: string)

  datatype Route = Route(
    asset: string,
    format: Format,
    routeId: string,
    distribution: string,
    release: string,
    targetArchitecture: string,
    package: Package,
    buildTuple: string,
    identityAsset: string)

  const CONTROL: set<string> := {MANIFEST, MANIFEST + ".asc", SUMS, SUMS_SIGNATURE}

  const WINDOWS_TUPLE := "windows-x64-v143-md"

  /** A lower-case name: a letter or digit, then up to 127 letters, digits, dots, underscores, plus signs and hyphens. */
  predicate BuildTuple(s: string)
  {
    && 1 <= |s| <= 128 && ('a' <= s[0] <= 'z' || '0' <= s[0] <= '9')
    && forall c | c in s :: 'a' <= c <= 'z' || '0' <= c <= '9' || c in "._+-"
  }

  /** What constructing a payload record demands. */
  predicate ValidPayload(p: Payload)
  {
    && AssetName(p.name) && p.name !in CONTROL && p.size > 0 && Digest(p.digest)
    && (p.buildTuple.Some? ==> BuildTuple(p.buildTuple.value))
  }

  /** The part of `NativeRoute.from_mapping` that ties the fields of a route together. */
  predicate ValidRoute(r: Route)
  {
    && '/' !in r.asset && (r.routeId + "--") <= r.asset
    && EndsWith(r.asset, if r.format == Apt then ".deb" else ".rpm")
    && r.buildTuple == (if r.format == Apt then "apt-" else "rpm-") + r.routeId
    && r.identityAsset == IdentityName(r.routeId)
  }

  function IdentityName(id: string): string
  {
    "build-identity-" + id + ".json"
  }

  // ---------------------------------------------------------------- expected names and roles

  datatype Fixed = Fixed(name: string, role: Role)

  function Prefix(v: SemVer): string
  {
    "mcp-cpp-sdk-" + Print(v)
  }

  function CommonRoles(v: SemVer): seq<Fixed>
  {
    [Fixed(Prefix(v) + ".tar.gz", SourceOrBinaryArchive), Fixed(Prefix(v) + ".zip", SourceOrBinaryArchive),
     Fixed(Prefix(v) + ".spdx.json", Sbom), Fixed(Prefix(v) + ".cdx.json", Sbom),
     Fixed("release-signing-key.asc", PublisherInput)]
  }

  function WindowsArchive(v: SemVer): string
  {
    Prefix(v) + "-windows-x64-v143-md.zip"
  }

  function WindowsPackage(v: SemVer): string
  {
    "mcp-cpp-sdk." + Print(v) + ".nupkg"
  }

  const WINDOWS_IDENTITY := "build-identity-windows-x64-v143-md.json"

  function ConanRoles(): seq<Fixed>
  {
    [Fixed("conan-recipe-config-entry.json", PublisherInput), Fixed("conan-recipe-conandata-entry.json", PublisherInput),
     Fixed("conan-recipe-conanfile.py", PublisherInput), Fixed("conan-recipe-test-CMakeLists.txt", PublisherInput),
     Fixed("conan-recipe-test-conanfile.py", PublisherInput), Fixed("conan-recipe-test-test_package.cpp", PublisherInput),
     Fixed("conan-source.json", PublisherInput)]
  }

  function PublisherRoles(): seq<Fixed>
  {
    [Fixed("aur-PKGBUILD", PublisherInput), Fixed("aur-SRCINFO", PublisherInput), Fixed("homebrew-mcp-cpp-sdk.rb", PublisherInput),
     Fixed("cloudsmith-routes.json", PublisherInput), Fixed("release-publication-contract.json", PublisherInput)]
  }

  function WindowsRoles(v: SemVer): seq<Fixed>
  {
    [Fixed(WindowsArchive(v), SourceOrBinaryArchive), Fixed(WindowsPackage(v), NativePackage), Fixed(WINDOWS_IDENTITY, BuildIdentity)]
  }

  function FixedRoles(v: SemVer): seq<Fixed>
  {
    if v.rc.Some? then CommonRoles(v) else CommonRoles(v) + PublisherRoles() + ConanRoles() + WindowsRoles(v)
  }

  predicate IsFixed(v: SemVer, name: string)
  {
    exists f | f in FixedRoles(v) :: f.name == name
  }

  predicate IsRouteAsset(routes: seq<Route>, name: string)
  {
    exists r | r in routes :: r.asset == name
  }

  predicate IsIdentity(v: SemVer, targets: seq<Target>, name: string)
  {
    v.rc.None? && exists t | t in targets :: IdentityName(t.id) == name
  }

  predicate Expected(v: SemVer, routes: seq<Route>, targets: seq<Target>, name: string)
  {
    IsFixed(v, name) || IsRouteAsset(routes, name) || IsIdentity(v, targets, name)
  }

  /** No expected name can be taken for a reserved file or for a detached signature of an archive. */
  predicate Plain(name: string)
  {
    name == "release-signing-key.asc" || (name != [] && name[|name| - 1] != 'c' && name[|name| - 1] != 'S' && name[|name| - 1] != 'd')
  }

  lemma PlainIsNeither(name: string)
    requires Plain(name)
    ensures !IsDetached(name) && name != NOTES && name != UNSIGNED && name != SUMS && name != SUMS_SIGNATURE
  {
    if IsDetached(name) {
      DetachedHasSuffix(name);
      assert name[|name| - 1] == name[|name| - 4..][3];
      KeyIsPlain();
    }
  }

  lemma KeyIsPlain()
    ensures !IsDetached("release-signing-key.asc")
  {
    var key := "release-signing-key.asc";
    assert |key| == 23 && |MANIFEST + ".asc"| == 25;
    assert key[12..][6] == key[18] == key[15..][3] == 'y' && ".tar.gz.asc"[6] == 'z' && ".zip.asc"[3] == 'p';
  }

  lemma CommonShape(v: SemVer)
    requires |Print(v)| <= 64
    ensures forall f | f in CommonRoles(v) :: Plain(f.name) && |f.name| <= 196
  {}

  lemma ConanShape()
    ensures forall f | f in ConanRoles() :: Plain(f.name) && |f.name| <= 196
  {}

  lemma PublisherShape()
    ensures forall f | f in PublisherRoles() :: Plain(f.name) && |f.name| <= 196
  {}

  lemma WindowsShape(v: SemVer)
    requires |Print(v)| <= 64
    ensures forall f | f in WindowsRoles(v) :: Plain(f.name) && |f.name| <= 196
  {}

  lemma ExpectedShape(v: SemVer, routes: seq<Route>, targets: seq<Target>, name: string)
    requires |Print(v)| <= 64 && (forall r | r in routes :: ValidRoute(r)) && Expected(v, routes, targets, name)
    ensures Plain(name) && (Archive(name) ==> |name| <= 196)
  {
    if IsFixed(v, name) {
      hide CommonRoles, PublisherRoles, ConanRoles, WindowsRoles, Plain;
      CommonShape(v);
      PublisherShape();
      ConanShape();
      WindowsShape(v);
    } else if IsRouteAsset(routes, name) {
      var r :| r in routes && r.asset == name;
      RouteShape(r);
    } else {
      var t :| t in targets && IdentityName(t.id) == name;
      IdentityShape(t.id);
    }
  }

  lemma LastChar(s: string, suffix: string)
    requires EndsWith(s, suffix) && suffix != []
    ensures s != [] && s[|s| - 1] == suffix[|suffix| - 1]
  {
    assert s[|s| - 1] == s[|s| - |suffix|..][|suffix| - 1];
  }

  lemma ArchiveEnds(name: string)
    requires Archive(name)
    ensures name != [] && (name[|name| - 1] == 'z' || name[|name| - 1] == 'p')
  {
    if EndsWith(name, ".tar.gz") { LastChar(name, ".tar.gz"); } else { LastChar(name, ".zip"); }
  }

  lemma RouteShape(r: Route)
    requires ValidRoute(r)
    ensures Plain(r.asset) && !Archive(r.asset)
  {
    LastChar(r.asset, if r.format == Apt then ".deb" else ".rpm");
    if Archive(r.asset) { ArchiveEnds(r.asset); }
  }

  lemma IdentityShape(id: string)
    ensures Plain(IdentityName(id)) && !Archive(IdentityName(id))
  {
    var name := IdentityName(id);
    assert name[|name| - 1] == 'n';
    if Archive(name) { ArchiveEnds(name); }
  }

  // ---------------------------------------------------------------- packages of a target

  function ExpectedPackages(v: SemVer, t: Target): set<Package>
  {
    if t.format == Apt then
      {Package("libmcp-cpp-sdk" + AbiVersion(v), DebianVersion(v), t.architecture),
       Package("libmcp-cpp-sdk-dev", DebianVersion(v), t.architecture),
       Package("libmcp-cpp-sdk-static-dev", DebianVersion(v), t.architecture)}
    else
      var version := RpmPackageVersion(v, t);
      {Package("mcp-cpp-sdk" + AbiVersion(v) + "-libs", version, t.architecture),
       Package("mcp-cpp-sdk-devel", version, t.architecture),
       Package("mcp-cpp-sdk-static", version, t.architecture)}
      + if t.architecture == "x86_64" then {Package("mcp-cpp-sdk", version, "src")} else {}
  }

  function RpmPackageVersion(v: SemVer, t: Target): string
  {
    var rpm := RpmVersionRelease(v);
    rpm.version + "-" + rpm.release + (if t.distribution == "fedora" then ".fc" + t.release else ".el" + t.release)
  }

  // ---------------------------------------------------------------- the exact inventory

  predicate DistinctNames(records: seq<Payload>)
  {
    forall i, j | 0 <= i < j < |records| :: records[i].name != records[j].name
  }

  predicate HasRole(records: seq<Payload>, name: string, role: Role)
  {
    exists p | p in records :: p.name == name && p.role == role
  }

  predicate HasTuple(records: seq<Payload>, name: string, tuple: string)
  {
    exists p | p in records :: p.name == name && p.buildTuple == Some(tuple)
  }

  predicate NamesExact(v: SemVer, records: seq<Payload>, routes: seq<Route>, targets: seq<Target>)
  {
    && DistinctNames(records)
    && (forall p | p in records :: Expected(v, routes, targets, p.name))
    && (forall f | f in FixedRoles(v) :: HasRole(records, f.name, f.role))
    && (forall r | r in routes :: HasRole(records, r.asset, NativePackage))
    && (v.rc.None? ==> forall t | t in targets :: HasRole(records, IdentityName(t.id), BuildIdentity))
  }

  predicate Coordinates(r: Route, t: Target)
  {
    r.routeId == t.id && r.format == t.format && r.distribution == t.distribution && r.release == t.release && r.targetArchitecture == t.architecture
  }

  /** A route carries a package its target is expected to have, and both its files share its build tuple. */
  predicate RouteFits(v: SemVer, records: seq<Payload>, targets: seq<Target>, r: Route)
  {
    && (exists t | t in targets :: Coordinates(r, t) && r.package in ExpectedPackages(v, t))
    && HasTuple(records, r.asset, r.buildTuple) && HasTuple(records, r.identityAsset, r.buildTuple)
  }

  predicate Carries(routes: seq<Route>, t: Target, package: Package)
  {
    exists r | r in routes :: r.routeId == t.id && r.package == package
  }

  predicate DistinctRoutes(routes: seq<Route>)
  {
    forall i, j | 0 <= i < j < |routes| ::
      routes[i].asset != routes[j].asset && (routes[i].routeId != routes[j].routeId || routes[i].package != routes[j].package)
  }

  predicate DistinctTargets(targets: seq<Target>)
  {
    forall i, j | 0 <= i < j < |targets| :: targets[i].id != targets[j].id
  }

  /** Every expected package of every one of the 18 targets has exactly one route, and there are no other routes. */
  predicate RoutesExact(v: SemVer, records: seq<Payload>, routes: seq<Route>, targets: seq<Target>)
  {
    && DistinctTargets(targets) && |targets| == 18 && DistinctRoutes(routes)
    && (forall r | r in routes :: RouteFits(v, records, targets, r))
    && (forall t, package | t in targets && package in ExpectedPackages(v, t) :: Carries(routes, t, package))
  }

  datatype Subject = Subject(name: string, digest: string)

  /** The provenance names exactly the payloads with their digests, in order of names. */
  ghost predicate ProvenanceExact(records: seq<Payload>, provenance: seq<Subject>)
  {
    && (forall i, j | 0 <= i < j < |provenance| :: Less(provenance[i].name, provenance[j].name))
    && (forall s | s in provenance :: exists p | p in records :: s == Subject(p.name, p.digest))
    && (forall p | p in records :: Subject(p.name, p.digest) in provenance)
  }

  ghost predicate InventoryExact(v: SemVer, records: seq<Payload>, routes: seq<Route>, targets: seq<Target>,
          provenance: seq<Subject>)
  {
    && NamesExact(v, records, routes, targets) && ProvenanceExact(records, provenance)
    && if v.rc.Some? then routes == []
       else && HasTuple(records, WindowsArchive(v), WINDOWS_TUPLE) && HasTuple(records, WindowsPackage(v), WINDOWS_TUPLE)
            && HasTuple(records, WINDOWS_IDENTITY, WINDOWS_TUPLE)
            && RoutesExact(v, records, routes, targets)
  }
}
