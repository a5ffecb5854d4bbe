/** Producer and verifier agree: assemble, prepare, sign the plan, finalize, sign the checksums, verify. */
module ReleasePipeline {
  import opened Options
  import opened Versions
  import opened ChecksumText
  import opened SigningBoundary
  import opened ReleaseInventory
  import opened ReleaseAssembly

  // ---------------------------------------------------------------- the candidate verifier's view

  function PayloadNames(payloads: seq<Payload>): set<string>
  {
    set p | p in payloads :: p.name
  }

  function ArchiveSignatures(payloads: seq<Payload>): set<string>
  {
    set p | p in payloads && Archive(p.name) :: p.name + ".asc"
  }

  function NotesIf(included: bool): set<string>
  {
    if included then {NOTES} else {}
  }

  function ExpectedFiles(payloads: seq<Payload>, includeNotes: bool): set<string>
  {
    PayloadNames(payloads) + CONTROL + ArchiveSignatures(payloads) + NotesIf(includeNotes)
  }

  predicate PayloadsIntact(hash: Hash, payloads: seq<Payload>, files: Files)
  {
    forall p | p in payloads :: p.name in files && |files[p.name]| == p.size && hash(files[p.name]) == p.digest
  }

  /** The file inventory, payload identity and checksum coverage of `verify_candidate`. */
  predicate VerifierAccepts(hash: Hash, payloads: seq<Payload>, includeNotes: bool, files: Files)
  {
    && files.Keys == ExpectedFiles(payloads, includeNotes) && PayloadsIntact(hash, payloads, files)
    && SUMS in files && Parsed(files[SUMS]).Some?
    && Parsed(files[SUMS]).value.Keys == files.Keys - EXCLUDED_FINAL
    && forall name | name in Parsed(files[SUMS]).value :: hash(files[name]) == Parsed(files[SUMS]).value[name]
  }

  method VerifyFiles(hash: Hash, payloads: seq<Payload>, includeNotes: bool, files: Files) returns (ok: bool)
    ensures ok <==> VerifierAccepts(hash, payloads, includeNotes, files)
  {
    hide Parsed, ExpectedFiles, SUMS, EXCLUDED_FINAL;
    if SUMS !in files { return false; }
    var authenticated := ParseForVerifier(files[SUMS]);
    if authenticated.None? { return false; }
    if exists name | name in authenticated.value :: name !in files || hash(files[name]) != authenticated.value[name] { return false; }
    if files.Keys != ExpectedFiles(payloads, includeNotes) { return false; }
    for i := 0 to |payloads|
      invariant forall k | 0 <= k < i :: payloads[k].name in files && |files[payloads[k].name]| == payloads[k].size
                                         && hash(files[payloads[k].name]) == payloads[k].digest
    {
      var p := payloads[i];
      assert p in payloads;
      if p.name !in files || |files[p.name]| != p.size || hash(files[p.name]) != p.digest { return false; }
    }
    var checksums := ParseForVerifier(files[SUMS]);
    return checksums.value.Keys == files.Keys - EXCLUDED_FINAL;
  }

  // ---------------------------------------------------------------- names in a bundle

  ghost predicate ReleaseBundle(hash: Hash, v: SemVer, routes: seq<Route>, targets: seq<Target>,
          payloads: seq<Payload>, files: Files)
  {
    && |Print(v)| <= 64 && (forall r | r in routes :: ValidRoute(r))
    && Bundle(hash, v, routes, targets, payloads, files)
  }

  /** What is known of a name that carries a payload. */
  ghost predicate PayloadName(name: string)
  {
    && AssetName(name) && name != MANIFEST && name != UNSIGNED && name != SUMS && name != SUMS_SIGNATURE && name != NOTES
    && !IsDetached(name) && (Archive(name) ==> |name| <= 196)
  }

  lemma PayloadFacts(hash: Hash, v: SemVer, routes: seq<Route>, targets: seq<Target>, payloads: seq<Payload>,
          files: Files, p: Payload)
    requires ReleaseBundle(hash, v, routes, targets, payloads, files) && p in payloads
    ensures PayloadName(p.name) && p.name in files && |files[p.name]| == p.size && hash(files[p.name]) == p.digest
  {
    hide NOTES, MANIFEST, UNSIGNED, SUMS, SUMS_SIGNATURE;
    hide Accepted, ValidRoute, Renders, IsDetached, Archive, AssetName, Plain;
    UnsignedIsNoPayload(v, routes, targets, payloads, p);
  }

  /** Every file of a bundle is a payload, the notes, the manifest or the boundary. */
  lemma BundleNames(hash: Hash, v: SemVer, routes: seq<Route>, targets: seq<Target>, payloads: seq<Payload>,
          files: Files)
    requires ReleaseBundle(hash, v, routes, targets, payloads, files)
    ensures files.Keys == PayloadNames(payloads) + {MANIFEST, UNSIGNED} + NotesIf(NOTES in files)
  {
    hide NOTES, MANIFEST, UNSIGNED, SUMS, SUMS_SIGNATURE;
    hide Accepted, ValidRoute, Renders, PayloadOf;
    var named := PayloadNames(payloads) + {MANIFEST, UNSIGNED} + NotesIf(NOTES in files);
    forall name | name in files ensures name in named {
      if name != NOTES && name != MANIFEST && name != UNSIGNED {
        assert name in files - {MANIFEST, UNSIGNED};
        var p :| p in payloads && p.name == name;
      }
    }
    forall name | name in named ensures name in files {
      if name in PayloadNames(payloads) {
        var p :| p in payloads && p.name == name;
        PayloadFacts(hash, v, routes, targets, payloads, files, p);
      }
    }
  }

  lemma ReservedAreNeither()
    ensures !Planned(NOTES) && !Planned(UNSIGNED) && !Planned(SUMS) && Planned(MANIFEST)
    ensures !IsDetached(NOTES) && !IsDetached(UNSIGNED) && !IsDetached(MANIFEST)
    ensures NOTES != MANIFEST && NOTES != UNSIGNED && NOTES != SUMS && NOTES != SUMS_SIGNATURE
    ensures MANIFEST != UNSIGNED && MANIFEST != SUMS && MANIFEST != SUMS_SIGNATURE
    ensures UNSIGNED != SUMS && UNSIGNED != SUMS_SIGNATURE && SUMS != SUMS_SIGNATURE
  {
    ReservedNames();
    if Archive(NOTES) { ArchiveEnds(NOTES); }
    if Archive(UNSIGNED) { ArchiveEnds(UNSIGNED); }
    if Archive(SUMS) { ArchiveEnds(SUMS); }
    if IsDetached(NOTES) { EndsInC(NOTES); }
    if IsDetached(UNSIGNED) { EndsInC(UNSIGNED); }
    if IsDetached(MANIFEST) { EndsInC(MANIFEST); }
  }

  lemma EndsInC(name: string)
    requires IsDetached(name)
    ensures name != [] && name[|name| - 1] == 'c'
  {
    DetachedHasSuffix(name);
    LastChar(name, ".asc");
  }

  lemma BundleIsSafe(hash: Hash, v: SemVer, routes: seq<Route>, targets: seq<Target>, payloads: seq<Payload>,
          files: Files)
    requires ReleaseBundle(hash, v, routes, targets, payloads, files)
    ensures SafeNames(files)
  {
    hide NOTES, MANIFEST, UNSIGNED, SUMS, SUMS_SIGNATURE;
    hide ReleaseBundle, IsDetached, Archive, AssetName;
    BundleNames(hash, v, routes, targets, payloads, files);
    ReservedNames();
    forall name | name in PayloadNames(payloads) ensures AssetName(name) {
      var p :| p in payloads && p.name == name;
      PayloadFacts(hash, v, routes, targets, payloads, files, p);
    }
  }

  lemma ExcludedTwice(files: Files, excluded: set<string>, name: string)
    requires name in excluded
    ensures files - excluded - {name} == files - excluded
  {}

  lemma ManifestIsCovered()
    ensures UNSIGNED in EXCLUDED_UNSIGNED && MANIFEST !in EXCLUDED_UNSIGNED && MANIFEST != UNSIGNED
  {
    ReservedNames();
  }

  lemma CoveredManifest(files: Files, excluded: set<string>)
    requires MANIFEST in files && MANIFEST !in excluded
    ensures files - excluded != map[]
  {
    assert MANIFEST in files - excluded;
  }

  lemma BundleText(hash: Hash, v: SemVer, routes: seq<Route>, targets: seq<Target>, payloads: seq<Payload>,
          files: Files)
    requires ReleaseBundle(hash, v, routes, targets, payloads, files)
    ensures MANIFEST in files && UNSIGNED in files && Renders(files[UNSIGNED], Digests(hash, files - EXCLUDED_UNSIGNED))
  {
    hide ValidRoute, Digests, Renders, Listed, Accepted, Print;
  }

  lemma BundleHolds(hash: Hash, v: SemVer, routes: seq<Route>, targets: seq<Target>, payloads: seq<Payload>,
          files: Files)
    requires HexHash(hash) && ReleaseBundle(hash, v, routes, targets, payloads, files)
    ensures Holds(hash, files, UNSIGNED, EXCLUDED_UNSIGNED)
  {
    ManifestIsCovered();
    hide ReleaseBundle, Holds, HexHash, SafeNames, Digests, Renders, NOTES, MANIFEST, UNSIGNED, EXCLUDED_UNSIGNED;
    BundleText(hash, v, routes, targets, payloads, files);
    BundleIsSafe(hash, v, routes, targets, payloads, files);
    ExcludedTwice(files, EXCLUDED_UNSIGNED, UNSIGNED);
    CoveredManifest(files, EXCLUDED_UNSIGNED);
    RenderedHolds(hash, files, UNSIGNED, EXCLUDED_UNSIGNED);
  }

  /** A bundle passes `prepare`. */
  lemma BundlePrepares(hash: Hash, v: SemVer, routes: seq<Route>, targets: seq<Target>, payloads: seq<Payload>,
          files: Files)
    requires HexHash(hash) && ReleaseBundle(hash, v, routes, targets, payloads, files)
    ensures CanPrepare(hash, files)
  {
    hide ValidRoute, Holds, HexHash, Renders, Listed, Accepted, EndsWith, PayloadName, NOTES, MANIFEST, UNSIGNED, EXCLUDED_UNSIGNED;
    BundleHolds(hash, v, routes, targets, payloads, files);
    HasSourceArchive(v, routes, targets, payloads);
    var p :| p in payloads && EndsWith(p.name, ".tar.gz");
    PayloadFacts(hash, v, routes, targets, payloads, files, p);
  }

  lemma HasSourceArchive(v: SemVer, routes: seq<Route>, targets: seq<Target>, payloads: seq<Payload>)
    requires Accepted(v, routes, targets, payloads)
    ensures exists p | p in payloads :: EndsWith(p.name, ".tar.gz")
  {
    var f := CommonRoles(v)[0];
    assert f in FixedRoles(v);
    assert HasRole(payloads, f.name, f.role);
    var p :| p in payloads && p.name == Prefix(v) + ".tar.gz";
    assert EndsWith(p.name, ".tar.gz");
  }

  /** The plan of a bundle: the manifest and the archives among the payloads. */
  lemma BundlePlan(hash: Hash, v: SemVer, routes: seq<Route>, targets: seq<Target>, payloads: seq<Payload>,
          files: Files)
    requires ReleaseBundle(hash, v, routes, targets, payloads, files)
    ensures forall name :: name in PlannedIn(files) <==> name == MANIFEST || (name in PayloadNames(payloads) && Archive(name))
  {
    hide NOTES, MANIFEST, UNSIGNED, SUMS, SUMS_SIGNATURE;
    hide ReleaseBundle, Archive, IsDetached;
    BundleNames(hash, v, routes, targets, payloads, files);
    ReservedAreNeither();
    forall name | name in PayloadNames(payloads) ensures name != MANIFEST {
      var p :| p in payloads && p.name == name;
      PayloadFacts(hash, v, routes, targets, payloads, files, p);
    }
  }

  // ---------------------------------------------------------------- signing

  function SignatureNames(planned: set<string>): set<string>
  {
    set name | name in planned :: name + ".asc"
  }

  /** Adding one detached signature for every planned asset. */
  function Signed(files: Files, planned: set<string>, sign: string -> string): Files
  {
    files + map signature | signature in SignatureNames(planned) :: sign(Unsuffixed(signature))
  }

  /** What the signed directory must look like for the last two stages, without the names that brought it about. */
  ghost predicate Signable(files: Files, planned: set<string>)
  {
    && UNSIGNED !in files && SUMS !in files && SUMS_SIGNATURE !in files && SafeNames(files) && MANIFEST in files
    && (forall name | name in files :: !IsDetached(name))
    && (forall name | name in planned :: Planned(name) && AssetName(name + ".asc"))
  }

  lemma SignedFinalizes(files: Files, planned: set<string>, sign: string -> string)
    requires Signable(files, planned) && forall name :: sign(name) != ""
    ensures CanFinalize(Signed(files, planned, sign), planned)
    ensures forall name | name in files :: name in Signed(files, planned, sign) && Signed(files, planned, sign)[name] == files[name]
  {
    hide NOTES, MANIFEST, UNSIGNED, SUMS, SUMS_SIGNATURE;
    hide AssetName, Planned, IsDetached, Unsuffixed, EndsWith;
    var signed := Signed(files, planned, sign);
    forall signature | signature in SignatureNames(planned)
      ensures IsDetached(signature) && Unsuffixed(signature) in planned && AssetName(signature) && signature == Unsuffixed(signature) + ".asc"
    {
      var name :| name in planned && signature == name + ".asc";
      DetachedIffPlanned(name);
    }
    SignedReserved(planned);
    forall name | name in planned ensures name + ".asc" in signed && signed[name + ".asc"] != "" && name in DetachedIn(signed) {
      assert name + ".asc" in SignatureNames(planned);
      DetachedIffPlanned(name);
    }
    forall name | name in DetachedIn(signed) ensures name in planned {
      var signature :| signature in signed && IsDetached(signature) && Unsuffixed(signature) == name;
      assert signature in SignatureNames(planned);
    }
    assert DetachedIn(signed) == planned;
  }

  lemma SignedReserved(planned: set<string>)
    requires forall name | name in planned :: Planned(name)
    ensures UNSIGNED !in SignatureNames(planned) && SUMS !in SignatureNames(planned) && SUMS_SIGNATURE !in SignatureNames(planned)
    ensures NOTES !in SignatureNames(planned)
  {
    ReservedNames();
    forall name | name in planned ensures name + ".asc" != UNSIGNED && name + ".asc" != SUMS && name + ".asc" != SUMS_SIGNATURE && name + ".asc" != NOTES {
      var signature := name + ".asc";
      assert signature[|signature| - 1] == 'c';
      if signature == SUMS_SIGNATURE {
        assert name == SUMS_SIGNATURE[..10] == SUMS;
        ReservedAreNeither();
      }
    }
  }

  lemma BundleSignable(hash: Hash, v: SemVer, routes: seq<Route>, targets: seq<Target>, payloads: seq<Payload>,
          files: Files)
    requires ReleaseBundle(hash, v, routes, targets, payloads, files)
    ensures Signable(files - {UNSIGNED}, PlannedIn(files))
  {
    hide NOTES, MANIFEST, UNSIGNED, SUMS, SUMS_SIGNATURE;
    hide ReleaseBundle, Archive, IsDetached, AssetName;
    BundleNames(hash, v, routes, targets, payloads, files);
    BundlePlan(hash, v, routes, targets, payloads, files);
    BundleIsSafe(hash, v, routes, targets, payloads, files);
    ReservedAreNeither();
    ReservedNames();
    forall name | name in PayloadNames(payloads) ensures PayloadName(name) {
      var p :| p in payloads && p.name == name;
      PayloadFacts(hash, v, routes, targets, payloads, files, p);
    }
    forall name | name in PlannedIn(files) ensures AssetName(name + ".asc") {
      assert name in files && AssetName(name);
      LongerName(name);
    }
  }

  lemma LongerName(name: string)
    requires AssetName(name) && |name| <= 196
    ensures AssetName(name + ".asc")
  {}

  // ---------------------------------------------------------------- the whole pipeline

  /** The final directory: what was signed, the checksums over it and their signature. */
  lemma FinalVerifies(hash: Hash, signed: Files, final: Files)
    requires HexHash(hash) && SafeNames(signed) && MANIFEST in signed
    requires SUMS !in signed && SUMS_SIGNATURE !in signed
    requires SUMS in final && SUMS_SIGNATURE in final && final[SUMS_SIGNATURE] != "" && final - {SUMS, SUMS_SIGNATURE} == signed
    requires Renders(final[SUMS], Digests(hash, signed - EXCLUDED_FINAL))
    ensures CanVerify(hash, final)
  {
    hide NOTES, MANIFEST, UNSIGNED, SUMS, SUMS_SIGNATURE;
    hide AssetName, Renders, Digests, Holds, HexHash;
    ReservedAreNeither();
    ReservedNames();
    var covered := final - EXCLUDED_FINAL - {SUMS};
    assert covered == signed - EXCLUDED_FINAL;
    assert MANIFEST in covered;
    forall name | name in final ensures AssetName(name) { assert name in signed || name == SUMS || name == SUMS_SIGNATURE; }
    RenderedHolds(hash, final, SUMS, EXCLUDED_FINAL);
  }

  lemma PlanSignatures(payloads: seq<Payload>, planned: set<string>)
    requires forall name :: name in planned <==> name == MANIFEST || (name in PayloadNames(payloads) && Archive(name))
    ensures SignatureNames(planned) == {MANIFEST + ".asc"} + ArchiveSignatures(payloads)
  {
    hide Archive, MANIFEST;
    forall s | s in SignatureNames(planned) ensures s == MANIFEST + ".asc" || s in ArchiveSignatures(payloads) {
      var name :| name in planned && s == name + ".asc";
      if name != MANIFEST { var p :| p in payloads && p.name == name; }
    }
    forall s | s in ArchiveSignatures(payloads) ensures s in SignatureNames(planned) {
      var p :| p in payloads && Archive(p.name) && s == p.name + ".asc";
      assert p.name in planned;
    }
    assert MANIFEST in planned;
  }

  /** Five kinds of names, before and after. */
  lemma KeysAddUp(payload: set<string>, signatures: set<string>, notes: set<string>, m: string, ma: string,
          u: string, s: string, sa: string,
                  files: set<string>, signed: set<string>, final: set<string>)
    requires files == payload + {m, u} + notes && u !in payload && u !in notes && u != m
    requires signed == (files - {u}) + ({ma} + signatures)
    requires final - {s, sa} == signed && s in final && sa in final
    ensures final == payload + {m, ma, s, sa} + signatures + notes
  {
    assert files - {u} == payload + {m} + notes;
    assert final == signed + {s, sa};
  }

  lemma SignedKeys(files: Files, planned: set<string>, sign: string -> string)
    ensures Signed(files, planned, sign).Keys == files.Keys + SignatureNames(planned)
  {}

  lemma FinalKeys(payloads: seq<Payload>, files: Files, planned: set<string>, sign: string -> string, final: Files)
    requires files.Keys == PayloadNames(payloads) + {MANIFEST, UNSIGNED} + NotesIf(NOTES in files)
    requires forall name :: name in planned <==> name == MANIFEST || (name in PayloadNames(payloads) && Archive(name))
    requires UNSIGNED !in PayloadNames(payloads)
    requires SUMS in final && SUMS_SIGNATURE in final && final - {SUMS, SUMS_SIGNATURE} == Signed(files - {UNSIGNED}, planned, sign)
    ensures final.Keys == ExpectedFiles(payloads, NOTES in files)
  {
    ReservedAreNeither();
    PlanSignatures(payloads, planned);
    SignedKeys(files - {UNSIGNED}, planned, sign);
    hide Archive, NOTES, MANIFEST, UNSIGNED, SUMS, SUMS_SIGNATURE, PayloadNames, ArchiveSignatures, SignatureNames, Signed;
    assert UNSIGNED !in NotesIf(NOTES in files);
    KeysAddUp(PayloadNames(payloads), ArchiveSignatures(payloads), NotesIf(NOTES in files), MANIFEST, MANIFEST + ".asc", UNSIGNED, SUMS,
              SUMS_SIGNATURE, files.Keys, Signed(files - {UNSIGNED}, planned, sign).Keys, final.Keys);
  }

  lemma VerifierAgrees(hash: Hash, payloads: seq<Payload>, includeNotes: bool, final: Files)
    requires CanVerify(hash, final)
    requires final.Keys == ExpectedFiles(payloads, includeNotes) && PayloadsIntact(hash, payloads, final)
    ensures VerifierAccepts(hash, payloads, includeNotes, final)
  {
    hide NOTES, MANIFEST, UNSIGNED, SUMS, SUMS_SIGNATURE;
    assert final.Keys - EXCLUDED_FINAL - {SUMS} == final.Keys - EXCLUDED_FINAL;
  }

  /** One accepted bundle goes through every later stage, and both final verifiers accept the result. */
  method Publish(hash: Hash, dir: SigningDirectory, sign: string -> string, sumsSignature: string,
                 ghost v: SemVer, ghost routes: seq<Route>, ghost targets: seq<Target>, payloads: seq<Payload>)
    returns (ok: bool)
    requires HexHash(hash) && ReleaseBundle(hash, v, routes, targets, payloads, dir.files)
    requires (forall name :: sign(name) != "") && sumsSignature != ""
    modifies dir
    ensures ok && CanVerify(hash, dir.files) && VerifierAccepts(hash, payloads, NOTES in old(dir.files), dir.files)
  {
    hide NOTES, MANIFEST, UNSIGNED, SUMS, SUMS_SIGNATURE;
    hide ReleaseBundle, CanPrepare, CanVerify, VerifierAccepts, Signable, SafeNames, PlanNames;
    hide Renders, Digests, HexHash, IsPlan, PayloadsIntact, Sealed, DetachedIn;
    ghost var bundle := dir.files;
    ghost var planned := PlannedIn(bundle);
    BundlePrepares(hash, v, routes, targets, payloads, bundle);
    BundleSignable(hash, v, routes, targets, payloads, bundle);
    BundleIsSafe(hash, v, routes, targets, payloads, bundle);
    BundleNames(hash, v, routes, targets, payloads, bundle);
    var plan := dir.Prepare(hash);
    PlanOfBundle(bundle, plan.value);
    var names := ReadPlan(plan.value);
    dir.files := Signed(dir.files, Elements(names.value), sign);
    ghost var signed := dir.files;
    SignedFinalizes(bundle - {UNSIGNED}, planned, sign);
    ok := dir.WriteFinalChecksums(hash, plan.value);
    ghost var checked := dir.files;
    dir.files := dir.files[SUMS_SIGNATURE := sumsSignature];
    StagesSeal(hash, signed, checked, dir.files, sumsSignature);
    AllStagesDone(hash, v, routes, targets, payloads, bundle, sign, signed, dir.files);
    ok := dir.VerifyFinalBoundary(hash, plan.value);
    var accepted := VerifyFiles(hash, payloads, NOTES in dir.files, dir.files);
    ok := ok && accepted;
  }

  lemma PlanOfBundle(files: Files, plan: string)
    requires IsPlan(plan, PlannedIn(files)) && SafeNames(files) && MANIFEST in files
    ensures PlanNames(plan, Lines(plan)) && Elements(Lines(plan)) == PlannedIn(files)
  {
    hide NOTES, MANIFEST, UNSIGNED, SUMS, SUMS_SIGNATURE;
    hide AssetName, Lines, Joined, Ascending;
    var names: seq<string> :| Ascending(names) && Elements(names) == PlannedIn(files) && plan == Joined(names);
    ReservedAreNeither();
    assert MANIFEST in Elements(names);
    forall name | name in names ensures AssetName(name) { assert name in Elements(names); }
    PlanReadsBack(names);
  }

  lemma PayloadsSurvive(hash: Hash, v: SemVer, routes: seq<Route>, targets: seq<Target>, payloads: seq<Payload>,
          bundle: Files, final: Files)
    requires ReleaseBundle(hash, v, routes, targets, payloads, bundle)
    requires forall name | name in bundle && name != UNSIGNED && name != SUMS && name != SUMS_SIGNATURE :: name in final && final[name] == bundle[name]
    ensures PayloadsIntact(hash, payloads, final)
    ensures forall name | name in PayloadNames(payloads) :: name != NOTES && name != UNSIGNED
  {
    hide ReleaseBundle, NOTES, MANIFEST, UNSIGNED, SUMS, SUMS_SIGNATURE, AssetName, IsDetached, Archive;
    forall p | p in payloads ensures p.name in final && |final[p.name]| == p.size && hash(final[p.name]) == p.digest
                                     && p.name != NOTES && p.name != UNSIGNED {
      PayloadFacts(hash, v, routes, targets, payloads, bundle, p);
    }
  }

  lemma TwoMore(signed: Files, checked: Files, final: Files, s: string, sa: string, content: string)
    requires s != sa && s in checked && checked - {s} == signed && final == checked[sa := content] && sa !in signed
    ensures s in final && sa in final && final[sa] == content && final[s] == checked[s] && final - {s, sa} == signed
    ensures forall name | name in signed && name != s && name != sa :: name in final && final[name] == signed[name]
  {}

  lemma FinalAccepted(hash: Hash, v: SemVer, routes: seq<Route>, targets: seq<Target>, payloads: seq<Payload>,
          bundle: Files,
                      sign: string -> string, signed: Files, final: Files)
    requires ReleaseBundle(hash, v, routes, targets, payloads, bundle) && CanVerify(hash, final)
    requires signed == Signed(bundle - {UNSIGNED}, PlannedIn(bundle), sign)
    requires SUMS in final && SUMS_SIGNATURE in final && final - {SUMS, SUMS_SIGNATURE} == signed
    requires forall name | name in bundle && name != UNSIGNED && name != SUMS && name != SUMS_SIGNATURE :: name in final && final[name] == bundle[name]
    ensures VerifierAccepts(hash, payloads, NOTES in bundle, final) && (NOTES in final <==> NOTES in bundle)
  {
    hide ReleaseBundle, VerifierAccepts, CanVerify, PlannedIn, Signed, PayloadsIntact, ExpectedFiles;
    hide NOTES, MANIFEST, UNSIGNED, SUMS, SUMS_SIGNATURE;
    BundleNames(hash, v, routes, targets, payloads, bundle);
    BundlePlan(hash, v, routes, targets, payloads, bundle);
    PayloadsSurvive(hash, v, routes, targets, payloads, bundle, final);
    FinalKeys(payloads, bundle, PlannedIn(bundle), sign, final);
    VerifierAgrees(hash, payloads, NOTES in bundle, final);
    NotesExpected(payloads, NOTES in bundle);
  }

  /** What the last two stages leave on top of the signed directory. */
  ghost predicate Sealed(hash: Hash, signed: Files, final: Files)
  {
    && SUMS !in signed && SUMS_SIGNATURE !in signed
    && SUMS in final && SUMS_SIGNATURE in final && final[SUMS_SIGNATURE] != "" && final - {SUMS, SUMS_SIGNATURE} == signed
    && (forall name | name in signed :: name in final && final[name] == signed[name])
    && Renders(final[SUMS], Digests(hash, signed - EXCLUDED_FINAL))
  }

  lemma StagesSeal(hash: Hash, signed: Files, checked: Files, final: Files, sumsSignature: string)
    requires SUMS !in signed && SUMS_SIGNATURE !in signed && sumsSignature != ""
    requires SUMS in checked && checked - {SUMS} == signed && Renders(checked[SUMS], Digests(hash, signed - EXCLUDED_FINAL))
    requires final == checked[SUMS_SIGNATURE := sumsSignature]
    ensures Sealed(hash, signed, final)
  {
    assert SUMS != SUMS_SIGNATURE by { ReservedAreNeither(); }
    hide Renders, Digests, EXCLUDED_FINAL, SUMS, SUMS_SIGNATURE;
    TwoMore(signed, checked, final, SUMS, SUMS_SIGNATURE, sumsSignature);
    assert forall name | name in signed :: name != SUMS && name != SUMS_SIGNATURE;
  }

  lemma SealedVerifies(hash: Hash, signed: Files, final: Files)
    requires HexHash(hash) && SafeNames(signed) && MANIFEST in signed && Sealed(hash, signed, final)
    ensures CanVerify(hash, final)
  {
    hide Renders, Digests, HexHash, SafeNames, CanVerify, EXCLUDED_FINAL, SUMS, SUMS_SIGNATURE, MANIFEST;
    FinalVerifies(hash, signed, final);
  }

  lemma SealedSurvives(hash: Hash, bundle: Files, signed: Files, final: Files)
    requires Sealed(hash, signed, final)
    requires forall name | name in bundle - {UNSIGNED} :: name in signed && signed[name] == bundle[name]
    ensures forall name | name in bundle && name != UNSIGNED && name != SUMS && name != SUMS_SIGNATURE :: name in final && final[name] == bundle[name]
  {
    hide Renders, Digests, EXCLUDED_FINAL, SUMS, SUMS_SIGNATURE, UNSIGNED;
    forall name | name in bundle && name != UNSIGNED && name != SUMS && name != SUMS_SIGNATURE ensures name in final && final[name] == bundle[name] {
      assert name in bundle - {UNSIGNED};
    }
  }

  lemma AllStagesDone(hash: Hash, v: SemVer, routes: seq<Route>, targets: seq<Target>, payloads: seq<Payload>,
          bundle: Files,
                      sign: string -> string, signed: Files, final: Files)
    requires HexHash(hash) && ReleaseBundle(hash, v, routes, targets, payloads, bundle)
    requires signed == Signed(bundle - {UNSIGNED}, PlannedIn(bundle), sign) && SafeNames(signed)
    requires forall name | name in bundle - {UNSIGNED} :: name in signed && signed[name] == bundle[name]
    requires Sealed(hash, signed, final)
    ensures CanVerify(hash, final) && VerifierAccepts(hash, payloads, NOTES in bundle, final) && (NOTES in final <==> NOTES in bundle)
  {
    ManifestIsCovered();
    assert SUMS in final && SUMS_SIGNATURE in final && final - {SUMS, SUMS_SIGNATURE} == signed;
    hide ReleaseBundle, VerifierAccepts, HexHash, CanVerify, SafeNames, PlannedIn, Signed, Sealed, Renders, Digests, EXCLUDED_UNSIGNED;
    hide NOTES, MANIFEST, UNSIGNED, SUMS, SUMS_SIGNATURE;
    BundleText(hash, v, routes, targets, payloads, bundle);
    assert MANIFEST in bundle - {UNSIGNED};
    SealedVerifies(hash, signed, final);
    SealedSurvives(hash, bundle, signed, final);
    FinalAccepted(hash, v, routes, targets, payloads, bundle, sign, signed, final);
  }

  lemma NotesIsNoSignature(name: string)
    ensures name + ".asc" != NOTES
  {
    assert (name + ".asc")[|name + ".asc"| - 1] == 'c';
  }

  lemma NotesExpected(payloads: seq<Payload>, includeNotes: bool)
    requires NOTES !in PayloadNames(payloads)
    ensures NOTES in ExpectedFiles(payloads, includeNotes) <==> includeNotes
  {
    ReservedAreNeither();
    NotesIsNoSignature(MANIFEST);
    hide NOTES, MANIFEST, SUMS, SUMS_SIGNATURE, Archive, PayloadNames;
    forall p | p in payloads ensures p.name + ".asc" != NOTES { NotesIsNoSignature(p.name); }
  }

  lemma HarmlessChange(hash: Hash, a: Files, b: Files)
    requires CanPrepare(hash, a) && Holds(hash, b, UNSIGNED, EXCLUDED_UNSIGNED) && SameOutside(a, b, EXCLUDED_UNSIGNED)
    ensures CanPrepare(hash, b)
  {
    hide Holds, EndsWith;
    ReservedAreNeither();
    assert MANIFEST in a.Keys - EXCLUDED_UNSIGNED;
    var name :| name in a && EndsWith(name, ".tar.gz");
    ArchiveIsNotExcluded(name);
    assert name in a.Keys - EXCLUDED_UNSIGNED;
  }

  /** Between assembly and signing nothing but the release notes can change unnoticed. */
  lemma UnsignedBoundaryBinds(hash: Hash, v: SemVer, routes: seq<Route>, targets: seq<Target>,
          payloads: seq<Payload>, a: Files, b: Files)
    requires HexHash(hash) && ReleaseBundle(hash, v, routes, targets, payloads, a)
    requires UNSIGNED in b && b[UNSIGNED] == a[UNSIGNED] && NoCollision(hash, a, b)
    ensures CanPrepare(hash, b) <==> SafeNames(b) && SameOutside(a, b, EXCLUDED_UNSIGNED)
  {
    assert EXCLUDED_UNSIGNED + {UNSIGNED} == EXCLUDED_UNSIGNED;
    BundlePrepares(hash, v, routes, targets, payloads, a);
    hide ReleaseBundle, Holds, SafeNames, NoCollision, EndsWith, SameOutside, EXCLUDED_UNSIGNED, UNSIGNED, NOTES;
    BoundaryBinds(hash, a, b, UNSIGNED, EXCLUDED_UNSIGNED);
    if SafeNames(b) && SameOutside(a, b, EXCLUDED_UNSIGNED) { HarmlessChange(hash, a, b); }
  }

  lemma ArchiveIsNotExcluded(name: string)
    requires EndsWith(name, ".tar.gz")
    ensures name !in EXCLUDED_UNSIGNED
  {
    ReservedAreNeither();
  }
}
