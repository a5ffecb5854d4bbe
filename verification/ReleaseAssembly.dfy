/** `assemble_unsigned`: release parts become one validated unsigned bundle. */
module ReleaseAssembly {
  import opened Options
  import opened Versions
  import opened ChecksumText
  import opened SigningBoundary
  import opened ReleaseInventory
  import opened ReleaseValidation

  const METADATA := "core-metadata.json"
  const ROUTES := "cloudsmith-routes.json"

  predicate Internal(name: string)
  {
    name == METADATA || ("route-" <= name && EndsWith(name, ".json"))
  }

  /** The output directory after copying and, with routes, writing the route inventory. */
  function Staged(parts: Files, routes: seq<Route>, routesJson: string): Files
  {
    var copied := map name | name in parts && !Internal(name) :: parts[name];
    if routes != [] then copied[ROUTES := routesJson] else copied
  }

  function ArtifactRole(name: string): Role
  {
    if EndsWith(name, ".tar.gz") || EndsWith(name, ".zip") then SourceOrBinaryArchive
    else if EndsWith(name, ".deb") || EndsWith(name, ".rpm") || EndsWith(name, ".nupkg") then NativePackage
    else if EndsWith(name, ".spdx.json") || EndsWith(name, ".cdx.json") then Sbom
    else if "build-identity-" <= name && EndsWith(name, ".json") then BuildIdentity
    else PublisherInput
  }

  /** Build identities by asset, where the last route with an asset wins; identity assets likewise. */
  function TupleByAsset(routes: seq<Route>, name: string): Option<string>
  {
    if routes == [] then None
    else if routes[|routes| - 1].asset == name then Some(routes[|routes| - 1].buildTuple)
    else TupleByAsset(routes[..|routes| - 1], name)
  }

  function TupleByIdentity(routes: seq<Route>, name: string): Option<string>
  {
    if routes == [] then None
    else if routes[|routes| - 1].identityAsset == name then Some(routes[|routes| - 1].buildTuple)
    else TupleByIdentity(routes[..|routes| - 1], name)
  }

  function TupleOf(v: SemVer, routes: seq<Route>, name: string): Option<string>
  {
    if name == WindowsArchive(v) || name == WindowsPackage(v) || name == WINDOWS_IDENTITY then Some(WINDOWS_TUPLE)
    else if TupleByAsset(routes, name).Some? then TupleByAsset(routes, name)
    else TupleByIdentity(routes, name)
  }

  function PayloadOf(hash: Hash, v: SemVer, routes: seq<Route>, name: string, content: string): Payload
  {
    Payload(name, |content|, hash(content), ArtifactRole(name), TupleOf(v, routes, name))
  }

  /** The payload records of a staged directory, in order of names. */
  ghost predicate Listed(hash: Hash, v: SemVer, routes: seq<Route>, staged: Files, payloads: seq<Payload>)
  {
    && (forall i, j | 0 <= i < j < |payloads| :: Less(payloads[i].name, payloads[j].name))
    && (forall p | p in payloads :: p.name in staged && p.name != NOTES && p == PayloadOf(hash, v, routes, p.name, staged[p.name]))
    && (forall name | name in staged && name != NOTES :: exists p | p in payloads :: p.name == name)
  }

  predicate AllValid(payloads: seq<Payload>)
  {
    forall p | p in payloads :: ValidPayload(p)
  }

  function SubjectsOf(payloads: seq<Payload>): (subjects: seq<Subject>)
    ensures |subjects| == |payloads| && forall i | 0 <= i < |payloads| :: subjects[i] == Subject(payloads[i].name, payloads[i].digest)
  {
    seq(|payloads|, i requires 0 <= i < |payloads| => Subject(payloads[i].name, payloads[i].digest))
  }

  predicate RoutesUnambiguous(routes: seq<Route>)
  {
    && DistinctAssets(routes)
    && |set r | r in routes :: r.identityAsset| == |set r | r in routes :: r.routeId|
  }

  /** Which parts are accepted; the metadata and the manifest's own fields are judged elsewhere. */
  ghost predicate Accepted(v: SemVer, routes: seq<Route>, targets: seq<Target>, payloads: seq<Payload>)
  {
    RoutesUnambiguous(routes) && AllValid(payloads) && InventoryExact(v, payloads, routes, targets, SubjectsOf(payloads))
  }

  /** A finished bundle: exactly the payloads, perhaps notes, the manifest and the checksums that bind them. */
  ghost predicate Bundle(hash: Hash, v: SemVer, routes: seq<Route>, targets: seq<Target>, payloads: seq<Payload>,
          files: Files)
  {
    && MANIFEST in files && UNSIGNED in files
    && Listed(hash, v, routes, files - {MANIFEST, UNSIGNED}, payloads)
    && Accepted(v, routes, targets, payloads)
    && Renders(files[UNSIGNED], Digests(hash, files - EXCLUDED_UNSIGNED))
  }

  function PayloadList(hash: Hash, v: SemVer, routes: seq<Route>, staged: Files,
          names: seq<string>): (payloads: seq<Payload>)
    requires forall name | name in names :: name in staged
    ensures |payloads| == |names|
    ensures forall i | 0 <= i < |names| :: payloads[i] == PayloadOf(hash, v, routes, names[i], staged[names[i]])
  {
    seq(|names|, i requires 0 <= i < |names| => PayloadOf(hash, v, routes, names[i], staged[names[i]]))
  }

  lemma ListIsListed(hash: Hash, v: SemVer, routes: seq<Route>, staged: Files, names: seq<string>)
    requires Ascending(names) && Elements(names) == staged.Keys - {NOTES}
    requires forall name | name in names :: name in staged
    ensures Listed(hash, v, routes, staged, PayloadList(hash, v, routes, staged, names))
  {
    hide TupleOf, ArtifactRole, Less, PayloadList;
    var payloads := PayloadList(hash, v, routes, staged, names);
    forall i | 0 <= i < |names| ensures payloads[i].name == names[i] && names[i] in staged.Keys - {NOTES} {
      assert names[i] in Elements(names);
    }
    forall name | name in staged && name != NOTES ensures exists p | p in payloads :: p.name == name {
      assert name in Elements(names);
      var i :| 0 <= i < |names| && names[i] == name;
      assert payloads[i] in payloads;
    }
  }

  method MakePayloads(hash: Hash, v: SemVer, routes: seq<Route>, staged: Files) returns (payloads: seq<Payload>)
    ensures Listed(hash, v, routes, staged, payloads)
  {
    hide Listed, PayloadOf, Ascending;
    var names := Sorted(staged.Keys - {NOTES});
    forall name | name in names ensures name in staged { assert name in Elements(names); }
    payloads := PayloadList(hash, v, routes, staged, names);
    ListIsListed(hash, v, routes, staged, names);
  }

  lemma UnsignedIsNoPayload(v: SemVer, routes: seq<Route>, targets: seq<Target>, payloads: seq<Payload>, p: Payload)
    requires |Print(v)| <= 64 && (forall r | r in routes :: ValidRoute(r))
    requires Accepted(v, routes, targets, payloads) && p in payloads
    ensures AssetName(p.name) && p.name != MANIFEST && Plain(p.name) && !IsDetached(p.name) && p.name != UNSIGNED
    ensures p.name != SUMS && p.name != SUMS_SIGNATURE && (Archive(p.name) ==> |p.name| <= 196)
  {
    assert ValidPayload(p) && Expected(v, routes, targets, p.name);
    hide Expected, FixedRoles, HasTuple, Plain, Archive, IsDetached, AssetName, BuildTuple;
    ExpectedShape(v, routes, targets, p.name);
    PlainIsNeither(p.name);
  }

  lemma NotStaged(hash: Hash, v: SemVer, routes: seq<Route>, targets: seq<Target>, payloads: seq<Payload>,
          staged: Files, name: string)
    requires |Print(v)| <= 64 && forall r | r in routes :: ValidRoute(r)
    requires Listed(hash, v, routes, staged, payloads) && Accepted(v, routes, targets, payloads)
    requires name in staged && name != NOTES
    ensures name != MANIFEST && name != UNSIGNED
  {
    hide Accepted, ValidRoute, PayloadOf;
    var p :| p in payloads && p.name == name;
    UnsignedIsNoPayload(v, routes, targets, payloads, p);
  }

  lemma Restored(staged: Files, manifest: string, sums: string)
    requires MANIFEST !in staged && UNSIGNED !in staged
    ensures var files := staged[MANIFEST := manifest][UNSIGNED := sums];
            MANIFEST in files && UNSIGNED in files && files - {MANIFEST, UNSIGNED} == staged
            && files - EXCLUDED_UNSIGNED == staged[MANIFEST := manifest] - {NOTES}
  {
    ReservedNames();
  }

  lemma NothingReservedStaged(hash: Hash, v: SemVer, routes: seq<Route>, targets: seq<Target>,
          payloads: seq<Payload>, staged: Files)
    requires |Print(v)| <= 64 && forall r | r in routes :: ValidRoute(r)
    requires Listed(hash, v, routes, staged, payloads) && Accepted(v, routes, targets, payloads)
    ensures MANIFEST !in staged && UNSIGNED !in staged
  {
    assert MANIFEST != NOTES && UNSIGNED != NOTES by { ReservedNames(); }
    hide Accepted, Listed, ValidRoute;
    if MANIFEST in staged { NotStaged(hash, v, routes, targets, payloads, staged, MANIFEST); }
    if UNSIGNED in staged { NotStaged(hash, v, routes, targets, payloads, staged, UNSIGNED); }
  }

  lemma BundleMade(hash: Hash, v: SemVer, routes: seq<Route>, targets: seq<Target>, payloads: seq<Payload>,
          staged: Files, files: Files)
    requires Listed(hash, v, routes, staged, payloads) && Accepted(v, routes, targets, payloads)
    requires MANIFEST in files && UNSIGNED in files && files - {MANIFEST, UNSIGNED} == staged
    requires Renders(files[UNSIGNED], Digests(hash, files - EXCLUDED_UNSIGNED))
    ensures Bundle(hash, v, routes, targets, payloads, files)
  {}

  method CopyParts(parts: Files, routes: seq<Route>, routesJson: string) returns (out: Files)
    ensures out == Staged(parts, routes, routesJson)
  {
    out := map[];
    var todo := parts.Keys;
    while todo != {}
      invariant todo <= parts.Keys
      invariant out == map name | name in parts && !Internal(name) && name !in todo :: parts[name]
      decreases todo
    {
      var name :| name in todo;
      todo := todo - {name};
      if !Internal(name) { out := out[name := parts[name]]; }
    }
    if routes != [] { out := out[ROUTES := routesJson]; }
  }

  /** Copy, record, validate, write the manifest and the unsigned checksum boundary. */
  method AssembleUnsigned(hash: Hash, parts: Files, v: SemVer, metadataValid: bool, routes: seq<Route>,
          routesJson: string,
                          targets: seq<Target>, manifestValid: bool, manifestOf: seq<Payload> -> string)
    returns (output: Option<Files>, payloads: seq<Payload>)
    requires |Print(v)| <= 64 && forall r | r in routes :: ValidRoute(r)
    ensures Listed(hash, v, routes, Staged(parts, routes, routesJson), payloads)
    ensures output.Some? <==> METADATA in parts && metadataValid && manifestValid && Accepted(v, routes, targets, payloads)
    ensures output.Some? ==> output.value - {MANIFEST, UNSIGNED} == Staged(parts, routes, routesJson)
    ensures output.Some? ==> Bundle(hash, v, routes, targets, payloads, output.value) && output.value[MANIFEST] == manifestOf(payloads)
  {
    hide Bundle, Renders, InventoryExact, Listed, Staged, ValidRoute, ValidPayload, Digests, DistinctAssets;
    var staged := CopyParts(parts, routes, routesJson);
    payloads := MakePayloads(hash, v, routes, staged);
    if METADATA !in parts || !metadataValid || !manifestValid || !RoutesUnambiguous(routes) || !AllValid(payloads) {
      return None, payloads;
    }
    var ok := ValidateCandidateInventory(v, payloads, routes, targets, SubjectsOf(payloads));
    if !ok { return None, payloads; }
    hide Accepted, AllValid, RoutesUnambiguous;
    var manifest := manifestOf(payloads);
    var sums := Render(Digests(hash, staged[MANIFEST := manifest] - {NOTES}));
    NothingReservedStaged(hash, v, routes, targets, payloads, staged);
    Restored(staged, manifest, sums);
    var out := staged[MANIFEST := manifest][UNSIGNED := sums];
    assert |MANIFEST| != |UNSIGNED| by { ReservedNames(); }
    BundleMade(hash, v, routes, targets, payloads, staged, out);
    return Some(out), payloads;
  }
}
