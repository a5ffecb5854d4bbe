/** Checksum boundaries around the signing step (`release/signing.py`). */
module SigningBoundary {
  import opened Options
  import opened ChecksumText

  /** A directory of regular files: names and contents. */
  type Files = map<string, string>

  type Hash = string -> string

  ghost predicate HexHash(hash: Hash)
  {
    forall content :: Digest(hash(content))
  }

  const NOTES := "RELEASE_NOTES.md"
  const MANIFEST := "release-manifest.json"
  const UNSIGNED := "UNSIGNED-SHA256SUMS"
  const SUMS := "SHA256SUMS"
  const SUMS_SIGNATURE := "SHA256SUMS.asc"

  const EXCLUDED_UNSIGNED: set<string> := {NOTES, UNSIGNED}
  const EXCLUDED_FINAL: set<string> := {NOTES, SUMS, SUMS_SIGNATURE}

  lemma ReservedNames()
    ensures |NOTES| == 16 && |MANIFEST| == 21 && |UNSIGNED| == 19 && |SUMS| == 10 && |SUMS_SIGNATURE| == 14
    ensures AssetName(NOTES) && AssetName(MANIFEST) && AssetName(UNSIGNED) && AssetName(SUMS) && AssetName(SUMS_SIGNATURE)
  {}

  predicate EndsWith(s: string, suffix: string)
  {
    |suffix| <= |s| && s[|s| - |suffix|..] == suffix
  }

  predicate Archive(name: string)
  {
    EndsWith(name, ".tar.gz") || EndsWith(name, ".zip")
  }

  /** What gets a detached signature. */
  predicate Planned(name: string)
  {
    name == MANIFEST || Archive(name)
  }

  predicate IsDetached(name: string)
  {
    EndsWith(name, ".tar.gz.asc") || EndsWith(name, ".zip.asc") || name == MANIFEST + ".asc"
  }

  function Unsuffixed(name: string): string
  {
    if EndsWith(name, ".asc") then name[..|name| - 4] else name
  }

  lemma SuffixOfTwo(s: string, a: string, b: string)
    ensures EndsWith(s + b, a + b) <==> EndsWith(s, a)
  {
    var t := s + b;
    if |a| <= |s| {
      assert t[|t| - |a + b|..] == s[|s| - |a|..] + b;
      if t[|t| - |a + b|..] == a + b { assert s[|s| - |a|..] == (a + b)[..|a|]; }
    }
  }

  /** A detached signature is a planned asset's name with `.asc`. */
  lemma DetachedIffPlanned(name: string)
    ensures IsDetached(name + ".asc") <==> Planned(name)
    ensures Unsuffixed(name + ".asc") == name
  {
    SuffixOfTwo(name, ".tar.gz", ".asc");
    SuffixOfTwo(name, ".zip", ".asc");
    assert ".tar.gz" + ".asc" == ".tar.gz.asc" && ".zip" + ".asc" == ".zip.asc";
    assert (name + ".asc")[..|name|] == name;
  }

  lemma DetachedHasSuffix(name: string)
    requires IsDetached(name)
    ensures EndsWith(name, ".asc") && name == Unsuffixed(name) + ".asc"
  {
    var n := |name|;
    if EndsWith(name, ".tar.gz.asc") { assert name[n - 4..] == name[n - 11..][7..]; }
    if EndsWith(name, ".zip.asc") { assert name[n - 4..] == name[n - 8..][4..]; }
    assert EndsWith(name, ".asc");
    assert name == name[..n - 4] + name[n - 4..];
  }

  // ---------------------------------------------------------------- checking a boundary

  predicate SafeNames(files: Files)
  {
    forall name | name in files :: AssetName(name)
  }

  /** The checksum file lists exactly the other files that are not excluded, with their digests. */
  predicate Holds(hash: Hash, files: Files, boundary: string, excluded: set<string>)
  {
    && boundary in files && SafeNames(files) && Parsed(files[boundary]).Some?
    && var records := Parsed(files[boundary]).value;
       && records.Keys == files.Keys - excluded - {boundary}
       && forall name | name in records :: hash(files[name]) == records[name]
  }

  function Digests(hash: Hash, files: Files): Checksums
  {
    map name | name in files :: hash(files[name])
  }

  /** `_verify_checksums`. */
  method VerifyChecksums(hash: Hash, files: Files, boundary: string, excluded: set<string>) returns (ok: bool)
    ensures ok <==> Holds(hash, files, boundary, excluded)
  {
    if boundary !in files { return false; }
    var records := ParseForSigning(files[boundary]);
    if records.None? || !SafeNames(files) { return false; }
    var expected := set name | name in files && name !in excluded && name != boundary;
    if records.value.Keys != expected { return false; }
    var todo := records.value.Keys;
    while todo != {}
      invariant todo <= records.value.Keys
      invariant forall name | name in records.value.Keys - todo :: hash(files[name]) == records.value[name]
      decreases todo
    {
      var name :| name in todo;
      todo := todo - {name};
      if hash(files[name]) != records.value[name] { return false; }
    }
    return true;
  }

  /** Writing the digests of the covered files makes the boundary hold. */
  lemma RenderedHolds(hash: Hash, files: Files, boundary: string, excluded: set<string>)
    requires HexHash(hash) && SafeNames(files) && boundary in files
    requires var covered := files - excluded - {boundary}; covered != map[] && Renders(files[boundary], Digests(hash, covered))
    ensures Holds(hash, files, boundary, excluded)
  {
    var covered := files - excluded - {boundary};
    assert forall name | name in covered :: name in files && Digest(hash(covered[name]));
    assert Digests(hash, covered).Keys == covered.Keys;
    RenderedParses(files[boundary], Digests(hash, covered));
  }

  /** The two directories hold no two different contents with one digest under one name. */
  predicate NoCollision(hash: Hash, a: Files, b: Files)
  {
    forall name | name in a && name in b :: hash(a[name]) == hash(b[name]) ==> a[name] == b[name]
  }

  predicate SameOutside(a: Files, b: Files, excluded: set<string>)
  {
    && a.Keys - excluded == b.Keys - excluded
    && forall name | name in a && name in b && name !in excluded :: a[name] == b[name]
  }

  /**
   * What a boundary binds: with its text fixed it goes on holding exactly for directories that
   * agree on every file that is not excluded.
   */
  lemma BoundaryBinds(hash: Hash, a: Files, b: Files, boundary: string, excluded: set<string>)
    requires Holds(hash, a, boundary, excluded)
    requires boundary in b && b[boundary] == a[boundary] && NoCollision(hash, a, b)
    ensures Holds(hash, b, boundary, excluded) <==> SafeNames(b) && SameOutside(a, b, excluded + {boundary})
  {
    hide Parsed, AssetName;
    var records := Parsed(a[boundary]).value;
    if Holds(hash, b, boundary, excluded) {
      assert a.Keys - (excluded + {boundary}) == records.Keys == b.Keys - (excluded + {boundary});
      forall name | name in a && name !in excluded + {boundary} ensures a[name] == b[name] { assert name in records; }
    }
    if SafeNames(b) && SameOutside(a, b, excluded + {boundary}) {
      assert records.Keys == a.Keys - (excluded + {boundary}) == b.Keys - (excluded + {boundary}) == b.Keys - excluded - {boundary};
      assert forall name | name in records :: name in a && name in b && name !in excluded + {boundary};
      assert forall name | name in records :: hash(b[name]) == records[name];
    }
  }

  // ---------------------------------------------------------------- the plan

  function PlannedIn(files: Files): set<string>
  {
    set name | name in files && Planned(name)
  }

  /** What `_read_plan` accepts. */
  ghost predicate PlanNames(text: string, names: seq<string>)
  {
    && Ascii(text) && names == Lines(text) && names != []
    && Ascending(names) && forall name | name in names :: AssetName(name)
  }

  /** Neighbours in order are enough for the whole list; sorting and removing repetitions see the same. */
  method ReadPlan(text: string) returns (names: Option<seq<string>>)
    ensures names.Some? <==> PlanNames(text, Lines(text))
    ensures names.Some? ==> names.value == Lines(text)
  {
    if !Ascii(text) { return None; }
    var lines := Lines(text);
    if lines == [] { return None; }
    for i := 0 to |lines|
      invariant Ascending(lines[..i]) && forall k | 0 <= k < i :: AssetName(lines[k])
    {
      if !AssetName(lines[i]) || (i > 0 && !Less(lines[i - 1], lines[i])) { return None; }
      forall k | 0 <= k < i ensures Less(lines[k], lines[i]) {
        if k < i - 1 {
          assert Less(lines[..i][k], lines[..i][i - 1]);
          LessIsTransitive(lines[k], lines[i - 1], lines[i]);
        }
      }
      assert lines[..i + 1] == lines[..i] + [lines[i]];
    }
    assert lines[..|lines|] == lines;
    return Some(lines);
  }

  lemma AssetNameIsALine(name: string)
    requires AssetName(name)
    ensures NoBreak(name) && Ascii(name)
  {}

  /** A written plan reads back. */
  lemma PlanReadsBack(names: seq<string>)
    requires Ascending(names) && names != [] && forall name | name in names :: AssetName(name)
    ensures PlanNames(Joined(names), names)
  {
    forall name | name in names ensures NoBreak(name) && Ascii(name) { AssetNameIsALine(name); }
    hide AssetName, NoBreak, Ascii, Lines, Joined, Ascending;
    LinesOfJoined(names);
    JoinedIsAscii(names);
  }

  // ---------------------------------------------------------------- the three commands

  predicate CanPrepare(hash: Hash, files: Files)
  {
    && Holds(hash, files, UNSIGNED, EXCLUDED_UNSIGNED)
    && MANIFEST in files && exists name | name in files :: EndsWith(name, ".tar.gz")
  }

  /** The plan lists the planned assets in order. */
  ghost predicate IsPlan(text: string, planned: set<string>)
  {
    exists names: seq<string> :: Ascending(names) && Elements(names) == planned && text == Joined(names)
  }

  function DetachedIn(files: Files): set<string>
  {
    set name | name in files && IsDetached(name) :: Unsuffixed(name)
  }

  /** The checks of `write_final_checksums` for a plan with these names. */
  predicate CanFinalize(files: Files, planned: set<string>)
  {
    && UNSIGNED !in files && SUMS !in files && SUMS_SIGNATURE !in files
    && (forall name | name in planned :: name + ".asc" in files && files[name + ".asc"] != "")
    && SafeNames(files) && DetachedIn(files) == planned
  }

  predicate CanVerify(hash: Hash, files: Files)
  {
    SUMS_SIGNATURE in files && files[SUMS_SIGNATURE] != "" && Holds(hash, files, SUMS, EXCLUDED_FINAL)
  }

  class SigningDirectory {
    var files: Files

    constructor (files: Files)
      ensures this.files == files
    {
      this.files := files;
    }

    /** `prepare_signing`: check and consume the unsigned boundary, then emit the plan. */
    method Prepare(hash: Hash) returns (plan: Option<string>)
      modifies this
      ensures plan.Some? <==> CanPrepare(hash, old(files))
      ensures files == if plan.Some? then old(files) - {UNSIGNED} else old(files)
      ensures plan.Some? ==> IsPlan(plan.value, PlannedIn(old(files)))
    {
      var ok := VerifyChecksums(hash, files, UNSIGNED, EXCLUDED_UNSIGNED);
      if !ok { return None; }
      var assets := Sorted(PlannedIn(files));
      if MANIFEST !in files || !exists name | name in files :: EndsWith(name, ".tar.gz") { return None; }
      files := files - {UNSIGNED};
      return Some(Joined(assets));
    }

    /** `write_final_checksums`: every planned signature is there, no other, and SHA256SUMS is not yet. */
    method WriteFinalChecksums(hash: Hash, plan: string) returns (ok: bool)
      modifies this
      ensures ok <==> PlanNames(plan, Lines(plan)) && CanFinalize(old(files), Elements(Lines(plan)))
      ensures !ok ==> files == old(files)
      ensures ok ==> SUMS in files && files - {SUMS} == old(files) && Renders(files[SUMS], Digests(hash, old(files) - EXCLUDED_FINAL))
    {
      hide AssetName, IsDetached, Lines, Ascending;
      var names := ReadPlan(plan);
      if names.None? { return false; }
      var planned := Elements(names.value);
      if UNSIGNED in files || SUMS in files || SUMS_SIGNATURE in files { return false; }
      for i := 0 to |names.value|
        invariant forall k | 0 <= k < i :: names.value[k] + ".asc" in files && files[names.value[k] + ".asc"] != ""
      {
        var signature := names.value[i] + ".asc";
        if signature !in files || files[signature] == "" {
          assert names.value[i] in planned;
          return false;
        }
      }
      if !SafeNames(files) || DetachedIn(files) != planned { return false; }
      var text := Render(Digests(hash, files - EXCLUDED_FINAL));
      files := files[SUMS := text];
      return true;
    }

    /** `verify_final_boundary`. */
    method VerifyFinalBoundary(hash: Hash, plan: string) returns (ok: bool)
      ensures ok <==> PlanNames(plan, Lines(plan)) && CanVerify(hash, files)
    {
      var names := ReadPlan(plan);
      if names.None? { return false; }
      if SUMS_SIGNATURE !in files || files[SUMS_SIGNATURE] == "" { return false; }
      ok := VerifyChecksums(hash, files, SUMS, EXCLUDED_FINAL);
    }
  }

  /**
   * After a successful verification a directory with the same SHA256SUMS verifies exactly when a
   * signature file is still there and nothing else changed, was added or was removed except the
   * release notes.
   */
  lemma FinalBoundaryBinds(hash: Hash, a: Files, b: Files)
    requires CanVerify(hash, a) && SUMS in b && b[SUMS] == a[SUMS] && NoCollision(hash, a, b)
    ensures CanVerify(hash, b) <==>
      && SUMS_SIGNATURE in b && b[SUMS_SIGNATURE] != ""
      && SafeNames(b) && SameOutside(a, b, EXCLUDED_FINAL)
  {
    BoundaryBinds(hash, a, b, SUMS, EXCLUDED_FINAL);
    assert EXCLUDED_FINAL + {SUMS} == EXCLUDED_FINAL;
  }
}
