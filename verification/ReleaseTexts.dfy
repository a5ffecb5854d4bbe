/** Names, roles and packages of a release, letter by letter: what the patterns and tables admit. */
module ReleaseTexts {
  import opened Options
  import opened Decimals
  import opened Versions
  import opened ChecksumText
  import opened SigningBoundary
  import opened ReleaseInventory

  // ---------------------------------------------------------------- characters, by code point

  predicate LowerOrDigit(c: char)
  {
    97 <= c as int <= 122 || 48 <= c as int <= 57
  }

  predicate Alphanumeric(c: char)
  {
    LowerOrDigit(c) || 65 <= c as int <= 90
  }

  predicate Punctuation(c: char)
  {
    c as int == 46 || c as int == 95 || c as int == 43 || c as int == 45
  }

  lemma AssetNameIff(s: string)
    ensures AssetName(s) <==>
            |s| > 0 && !(|s| > 200) && Alphanumeric(s[0]) && forall c | c in s :: Alphanumeric(c) || Punctuation(c)
  {
    if AssetName(s) {
      forall c | c in s ensures Alphanumeric(c) || Punctuation(c) {}
    }
    if |s| > 0 && forall c | c in s :: Alphanumeric(c) || Punctuation(c) {
      forall i | 0 <= i < |s| ensures IsAlphanumeric(s[i]) || s[i] == '.' || s[i] == '_' || s[i] == '+' || s[i] == '-' {
        assert s[i] in s;
      }
    }
  }

  lemma DigestIff(s: string)
    ensures Digest(s) <==> |s| == 8 * 8 && forall c | c in s :: 48 <= c as int <= 57 || 97 <= c as int <= 102
  {
    if |s| == 64 && forall c | c in s :: 48 <= c as int <= 57 || 97 <= c as int <= 102 {
      forall i | 0 <= i < |s| ensures IsHex(s[i]) { assert s[i] in s; }
    }
  }

  lemma BuildTupleIff(s: string)
    ensures BuildTuple(s) <==>
            |s| > 0 && !(|s| > 128) && LowerOrDigit(s[0]) && forall c | c in s :: LowerOrDigit(c) || Punctuation(c)
  {
    forall c: char ensures c in "._+-" <==> Punctuation(c) { PunctuationText(c); }
  }

  lemma PunctuationText(c: char)
    ensures c in "._+-" <==> Punctuation(c)
  {
    assert "._+-"[0] == '.' && "._+-"[1] == '_' && "._+-"[2] == '+' && "._+-"[3] == '-';
  }

  lemma BreakIff(c: char)
    ensures IsBreak(c) <==> c as int in {10, 11, 12, 13, 28, 29, 30}
  {}

  // ---------------------------------------------------------------- ends of names

  lemma EndsWithIff(s: string, suffix: string)
    ensures EndsWith(s, suffix) <==> exists before :: s == before + suffix
  {
    if EndsWith(s, suffix) { assert s == s[..|s| - |suffix|] + suffix; }
  }

  lemma ArchiveIff(name: string)
    ensures Archive(name) <==> exists stem :: name == stem + ['.', 't', 'a', 'r', '.', 'g', 'z'] || name == stem + ['.', 'z', 'i', 'p']
  {
    EndsWithIff(name, ".tar.gz");
    EndsWithIff(name, ".zip");
  }

  /** What gets a detached signature: the manifest and every archive. */
  lemma PlannedIff(name: string)
    ensures Planned(name) <==> name == "release-manifest" + ".json" || exists stem :: name == stem + ".tar.gz" || name == stem + ".zip"
  {
    ArchiveIff(name);
    assert "release-manifest" + ".json" == "release-manifest.json";
  }

  // ---------------------------------------------------------------- records

  lemma ValidPayloadIff(p: Payload)
    ensures ValidPayload(p) <==>
            && AssetName(p.name) && p.size != 0 && Digest(p.digest)
            && p.name != "release-manifest" + ".json" && p.name != "release-manifest.json" + ".asc"
            && p.name != "SHA256" + "SUMS" && p.name != "SHA256SUMS" + ".asc"
            && (match p.buildTuple case None => true case Some(tuple) => BuildTuple(tuple))
  {
    hide AssetName, Digest, BuildTuple;
    assert "release-manifest" + ".json" == "release-manifest.json" && "SHA256" + "SUMS" == "SHA256SUMS";
    assert "SHA256SUMS" + ".asc" == "SHA256SUMS.asc";
  }

  function Extension(format: Format): string
  {
    match format case Apt => ".deb" case Rpm => ".rpm"
  }

  /** The file, the build and the identity of a route carry its target's name. */
  lemma ValidRouteIff(r: Route)
    ensures ValidRoute(r) <==>
            && (forall c | c in r.asset :: c != '/')
            && (exists rest :: r.asset == r.routeId + "--" + rest)
            && (exists stem :: r.asset == stem + Extension(r.format))
            && r.buildTuple == (match r.format case Apt => "apt-" case Rpm => "rpm-") + r.routeId
            && r.identityAsset == "build-" + "identity-" + r.routeId + ".json"
  {
    var prefix := r.routeId + "--";
    EndsWithIff(r.asset, if r.format == Apt then ".deb" else ".rpm");
    assert "build-" + "identity-" == "build-identity-";
    if prefix <= r.asset { assert r.asset == prefix + r.asset[|prefix|..]; }
    hide EndsWith;
  }

  // ---------------------------------------------------------------- the table of names

  ghost predicate CommonFile(v: SemVer, f: Fixed)
  {
    || f == Fixed("mcp-cpp-sdk-" + Print(v) + ".tar.gz", SourceOrBinaryArchive)
    || f == Fixed("mcp-cpp-sdk-" + Print(v) + ".zip", SourceOrBinaryArchive)
    || f == Fixed("mcp-cpp-sdk-" + Print(v) + ".spdx.json", Sbom)
    || f == Fixed("mcp-cpp-sdk-" + Print(v) + ".cdx.json", Sbom)
    || f == Fixed("release-signing-key.asc", PublisherInput)
  }

  ghost predicate PublisherFile(f: Fixed)
  {
    && f.role == PublisherInput
    && (f.name == "aur-PKGBUILD" || f.name == "aur-SRCINFO" || f.name == "homebrew-mcp-cpp-sdk.rb"
        || f.name == "cloudsmith-routes.json" || f.name == "release-publication-contract.json"
        || f.name == "conan-recipe-config-entry.json" || f.name == "conan-recipe-conandata-entry.json"
        || f.name == "conan-recipe-conanfile.py" || f.name == "conan-recipe-test-CMakeLists.txt"
        || f.name == "conan-recipe-test-conanfile.py" || f.name == "conan-recipe-test-test_package.cpp"
        || f.name == "conan-source.json")
  }

  ghost predicate WindowsFile(v: SemVer, f: Fixed)
  {
    || f == Fixed("mcp-cpp-sdk-" + Print(v) + "-windows-x64-v143-md.zip", SourceOrBinaryArchive)
    || f == Fixed("mcp-cpp-sdk." + Print(v) + ".nupkg", NativePackage)
    || f == Fixed("build-identity-windows-x64-v143-md.json", BuildIdentity)
  }

  lemma CommonIff(v: SemVer, f: Fixed)
    ensures f in CommonRoles(v) <==> CommonFile(v, f)
  {
    hide Print;
  }

  lemma PublisherIff(f: Fixed)
    ensures f in PublisherRoles() || f in ConanRoles() <==> PublisherFile(f)
  {
    var p, c := PublisherRoles(), ConanRoles();
    assert |p| == 5 && |c| == 7;
    if PublisherFile(f) {
      assert f == Fixed(f.name, PublisherInput);
      assert p[0] in p && p[1] in p && p[2] in p && p[3] in p && p[4] in p;
      assert c[0] in c && c[1] in c && c[2] in c && c[3] in c && c[4] in c && c[5] in c && c[6] in c;
    }
  }

  lemma WindowsIff(v: SemVer, f: Fixed)
    ensures f in WindowsRoles(v) <==> WindowsFile(v, f)
  {
    hide Print;
    assert "mcp-cpp-sdk-" + Print(v) + "-windows-x64-v143-md.zip" == WindowsArchive(v);
  }

  /** The fixed files of a release with their roles: five for a candidate, all twenty for a release. */
  lemma FixedIff(v: SemVer, f: Fixed)
    ensures f in FixedRoles(v) <==> CommonFile(v, f) || (v.rc == None && (PublisherFile(f) || WindowsFile(v, f)))
  {
    CommonIff(v, f);
    PublisherIff(f);
    WindowsIff(v, f);
    hide CommonRoles, PublisherRoles, ConanRoles, WindowsRoles, CommonFile, PublisherFile, WindowsFile;
  }

  // ---------------------------------------------------------------- the packages of a target

  /** The part of a library's name that says which others it can replace. */
  function Soname(v: SemVer): string
  {
    match v.major
    case 0 => Decimal(0) + "." + Decimal(v.minor) + "." + Decimal(v.patch)
    case _ => Decimal(v.major)
  }

  lemma SonameIs(v: SemVer)
    ensures AbiVersion(v) == Soname(v)
  {
    hide Decimal;
  }

  /** A stable version has three packages for every APT target. */
  lemma AptPackagesIff(v: SemVer, t: Target, p: Package)
    requires t.format == Apt && v.rc == None
    ensures p in ExpectedPackages(v, t) <==>
            && p.version == Dots(v) + "-1" && p.architecture == t.architecture
            && (p.name == "libmcp-cpp-sdk" + Soname(v) || p.name == "libmcp-cpp-sdk-dev" || p.name == "libmcp-cpp-sdk-static-dev")
  {
    SonameIs(v);
    PackageTexts(v);
    assert ['-', '1'] == "-1" && Dots(v) + [] == Dots(v);
    hide AbiVersion, DebianVersion, Soname, Dots;
  }

  /** A stable version has three packages for every RPM target, and its source package where that is built. */
  lemma RpmPackagesIff(v: SemVer, t: Target, p: Package)
    requires t.format == Rpm && v.rc == None
    ensures p in ExpectedPackages(v, t) <==>
            && p.version == Dots(v) + "-1" + (if t.distribution == "fedora" then ".fc" else ".el") + t.release
            && ((p.architecture == t.architecture
                 && (p.name == "mcp-cpp-sdk" + Soname(v) + "-libs" || p.name == "mcp-cpp-sdk-devel" || p.name == "mcp-cpp-sdk-static"))
                || (t.architecture == "x86_64" && p.architecture == "src" && p.name == "mcp-cpp-sdk"))
  {
    RpmText(v, t);
    SonameIs(v);
    hide AbiVersion, RpmPackageVersion, Soname, Dots;
  }

  lemma RpmText(v: SemVer, t: Target)
    requires v.rc == None
    ensures RpmPackageVersion(v, t) == Dots(v) + "-1" + (if t.distribution == "fedora" then ".fc" else ".el") + t.release
  {
    PackageTexts(v);
    hide RpmVersionRelease, Dots;
    var tail := if t.distribution == "fedora" then ".fc" else ".el";
    assert Dots(v) + "-" + "1" + (tail + t.release) == Dots(v) + "-1" + tail + t.release;
  }

  /** A payload is expected as a fixed file, as the package of a route, or, in a release, as the identity of a target. */
  lemma ExpectedIff(v: SemVer, routes: seq<Route>, targets: seq<Target>, name: string)
    ensures Expected(v, routes, targets, name) <==>
            || (exists role :: Fixed(name, role) in FixedRoles(v))
            || (exists i | 0 <= i < |routes| :: routes[i].asset == name)
            || (v.rc == None && exists i | 0 <= i < |targets| :: name == "build-" + "identity-" + targets[i].id + ".json")
  {
    hide FixedRoles;
    assert "build-" + "identity-" == "build-identity-";
    if IsFixed(v, name) {
      var f :| f in FixedRoles(v) && f.name == name;
      assert Fixed(name, f.role) in FixedRoles(v);
    }
  }

  // ---------------------------------------------------------------- routes and targets

  function TargetOf(r: Route): Target
  {
    Target(r.routeId, r.format, r.distribution, r.release, r.targetArchitecture)
  }

  ghost predicate BuiltAs(records: seq<Payload>, name: string, tuple: string)
  {
    exists p | p in records :: p.name == name && Some(tuple) == p.buildTuple
  }

  lemma CarriesIff(routes: seq<Route>, t: Target, package: Package)
    ensures Carries(routes, t, package) <==> exists i | 0 <= i < |routes| :: routes[i].routeId == t.id && routes[i].package == package
  {
    if Carries(routes, t, package) {
      var r :| r in routes && r.routeId == t.id && r.package == package;
      var i :| 0 <= i < |routes| && routes[i] == r;
    }
  }

  lemma BuiltAsIff(records: seq<Payload>, name: string, tuple: string)
    ensures HasTuple(records, name, tuple) <==> BuiltAs(records, name, tuple)
  {}

  ghost predicate RouteIsExpected(v: SemVer, records: seq<Payload>, targets: seq<Target>, r: Route)
  {
    && TargetOf(r) in targets && r.package in ExpectedPackages(v, TargetOf(r))
    && BuiltAs(records, r.asset, r.buildTuple) && BuiltAs(records, r.identityAsset, r.buildTuple)
  }

  lemma RouteFitsIff(v: SemVer, records: seq<Payload>, targets: seq<Target>, r: Route)
    ensures RouteFits(v, records, targets, r) <==> RouteIsExpected(v, records, targets, r)
  {
    BuiltAsIff(records, r.asset, r.buildTuple);
    BuiltAsIff(records, r.identityAsset, r.buildTuple);
    hide ExpectedPackages, HasTuple, BuiltAs;
    forall t | Coordinates(r, t) ensures t == TargetOf(r) {}
    assert Coordinates(r, TargetOf(r));
  }

  /** There are 18 targets with different names; each of their packages has one route, and no route is of anything else. */
  lemma RoutesIff(v: SemVer, records: seq<Payload>, routes: seq<Route>, targets: seq<Target>)
    ensures RoutesExact(v, records, routes, targets) <==>
            && |targets| == 9 + 9
            && (forall i, j | 0 <= i < |targets| && 0 <= j < |targets| && targets[i].id == targets[j].id :: i == j)
            && (forall i, j | 0 <= i < |routes| && 0 <= j < |routes| && routes[i].asset == routes[j].asset :: i == j)
            && (forall i, j | 0 <= i < |routes| && 0 <= j < |routes| && routes[i].routeId == routes[j].routeId
                              && routes[i].package == routes[j].package :: i == j)
            && (forall r | r in routes :: RouteIsExpected(v, records, targets, r))
            && (forall t, package | t in targets && package in ExpectedPackages(v, t) ::
                  exists i | 0 <= i < |routes| :: routes[i].routeId == t.id && routes[i].package == package)
  {
    forall r ensures RouteFits(v, records, targets, r) <==> RouteIsExpected(v, records, targets, r) { RouteFitsIff(v, records, targets, r); }
    forall t: Target, package: Package
      ensures Carries(routes, t, package) <==> exists i | 0 <= i < |routes| :: routes[i].routeId == t.id && routes[i].package == package
    {
      CarriesIff(routes, t, package);
    }
    hide ExpectedPackages, RouteFits, RouteIsExpected, Carries;
  }

  /** The files for Windows are built as `windows-x64-v143-md`. */
  lemma WindowsBuild(v: SemVer, records: seq<Payload>, routes: seq<Route>, targets: seq<Target>, provenance: seq<Subject>)
    requires v.rc == None && InventoryExact(v, records, routes, targets, provenance)
    ensures var tuple := "windows" + "-x64-v143-md";
            && BuiltAs(records, "mcp-cpp-sdk-" + Print(v) + "-" + tuple + ".zip", tuple)
            && BuiltAs(records, "mcp-cpp-sdk." + Print(v) + ".nupkg", tuple)
            && BuiltAs(records, "build-identity-" + tuple + ".json", tuple)
  {
    hide RoutesExact, NamesExact, ProvenanceExact, Print, HasTuple, BuiltAs;
    var tuple := "windows" + "-x64-v143-md";
    assert tuple == WINDOWS_TUPLE;
    assert "mcp-cpp-sdk-" + Print(v) + "-" + tuple + ".zip" == WindowsArchive(v);
    assert "build-identity-" + tuple + ".json" == WINDOWS_IDENTITY;
    BuiltAsIff(records, WindowsArchive(v), tuple);
    BuiltAsIff(records, WindowsPackage(v), tuple);
    BuiltAsIff(records, WINDOWS_IDENTITY, tuple);
  }
}
