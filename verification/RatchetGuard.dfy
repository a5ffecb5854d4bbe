/** `guard_baselines`, `guard`, the write decision of `main`, and what they keep over whole runs. */
module RatchetGuard {
  import opened Options
  import opened Ratchet

  // ---------------------------------------------------------------- names that accept a regression

  /** Names are given with double colons where test names have underscores. */
  function Normalized(name: string): string
  {
    if |name| >= 2 && name[0] == ':' && name[1] == ':' then "_" + Normalized(name[2..])
    else if name == [] then []
    else [name[0]] + Normalized(name[1..])
  }

  predicate Names(name: string, test: string, key: string)
  {
    Normalized(name) == test || Normalized(name) == test + "." + key
  }

  /** The parts of a name, joined by a separator. */
  function Joined(parts: seq<string>, separator: string): string
    requires parts != []
  {
    if |parts| == 1 then parts[0] else parts[0] + separator + Joined(parts[1..], separator)
  }

  lemma {:induction false} NormalizedFront(a: string, b: string)
    requires forall i | 0 <= i < |a| :: a[i] != ':'
    ensures Normalized(a + b) == a + Normalized(b)
  {
    if a == [] {
      assert a + b == b;
    } else {
      NormalizedFront(a[1..], b);
      assert (a + b)[1..] == a[1..] + b && a == [a[0]] + a[1..];
    }
  }

  /** A C++ name with its scopes is read as the test's name with underscores in their place. */
  lemma {:induction false} ScopesAreUnderscores(parts: seq<string>)
    requires parts != [] && forall part, i | part in parts && 0 <= i < |part| :: part[i] != ':'
    ensures Normalized(Joined(parts, "::")) == Joined(parts, "_")
  {
    var first := parts[0];
    if |parts| == 1 {
      NormalizedFront(first, []);
      assert first + [] == first;
    } else {
      ScopesAreUnderscores(parts[1..]);
      var rest := Joined(parts[1..], "::");
      NormalizedFront(first, "::" + rest);
      assert first + "::" + rest == first + ("::" + rest);
      assert ("::" + rest)[2..] == rest;
      assert first + ("_" + Normalized(rest)) == first + "_" + Normalized(rest);
    }
  }

  /** A name accepts its whole test, or with a dot behind the test one key of it. */
  lemma NamesScopes(parts: seq<string>, test: string, key: string)
    requires parts != [] && forall part, i | part in parts && 0 <= i < |part| :: part[i] != ':'
    ensures Names(Joined(parts, "::"), test, key) <==> Joined(parts, "_") == test || Joined(parts, "_") == test + ['.'] + key
  {
    ScopesAreUnderscores(parts);
  }

  predicate Covered(accepted: seq<string>, test: string, key: string)
  {
    exists name | name in accepted :: Names(name, test, key)
  }

  // ---------------------------------------------------------------- guard

  /** A baseline without tests is not compared with. */
  predicate Usable(m: Option<Matrix>)
  {
    m.Some? && m.value.tests != map[]
  }

  ghost predicate Regressed(baselines: seq<Matrix>, rendered: Matrix, r: Regression)
  {
    exists b | b in baselines :: b.tests != map[] && IsRegression(b, rendered, r)
  }

  ghost predicate Blocked(baselines: seq<Matrix>, rendered: Matrix, accepted: seq<string>, r: Regression)
  {
    Regressed(baselines, rendered, r) && !Covered(accepted, r.test, r.key)
  }

  ghost predicate Unmatched(baselines: seq<Matrix>, rendered: Matrix, name: string)
  {
    forall r | Regressed(baselines, rendered, r) :: !Names(name, r.test, r.key)
  }

  /** The regressions against any of the baselines, each test, key and kind once. */
  method AllRegressions(baselines: seq<Matrix>, rendered: Matrix) returns (regressions: seq<Regression>)
    ensures Distinct(regressions)
    ensures forall r :: r in regressions <==> Regressed(baselines, rendered, r)
  {
    hide IsRegression;
    regressions := [];
    for i := 0 to |baselines|
      invariant Distinct(regressions)
      invariant forall r :: r in regressions <==> Regressed(baselines[..i], rendered, r)
    {
      ghost var before := regressions;
      if baselines[i].tests != map[] {
        var found, _ := Classify(baselines[i], rendered);
        regressions := AppendNew(regressions, found);
      }
      forall r ensures r in regressions <==> Regressed(baselines[..i + 1], rendered, r) {
        OneBaselineMore(baselines, i, rendered, r);
      }
    }
    assert baselines[..|baselines|] == baselines;
  }

  lemma OneBaselineMore(baselines: seq<Matrix>, i: nat, rendered: Matrix, r: Regression)
    requires i < |baselines|
    ensures Regressed(baselines[..i + 1], rendered, r) <==>
            (Regressed(baselines[..i], rendered, r) || (baselines[i].tests != map[] && IsRegression(baselines[i], rendered, r)))
  {
    assert baselines[..i + 1] == baselines[..i] + [baselines[i]];
    assert baselines[i] in baselines[..i + 1];
  }

  method AppendNew(regressions: seq<Regression>, found: seq<Regression>) returns (all: seq<Regression>)
    requires Distinct(regressions)
    ensures Distinct(all)
    ensures forall r :: r in all <==> (r in regressions || r in found)
  {
    all := regressions;
    for i := 0 to |found|
      invariant Distinct(all)
      invariant forall r :: r in all <==> (r in regressions || r in found[..i])
    {
      if found[i] !in all { all := all + [found[i]]; }
    }
  }

  /** Refuses what regressed unnamed, and names that match nothing: 2, 1 or 0 as the exit code. */
  method Guard(baselines: seq<Matrix>, rendered: Matrix, accepted: seq<string>)
    returns (code: nat, unmatched: seq<string>, blocked: seq<Regression>)
    ensures Distinct(blocked)
    ensures forall r :: r in blocked <==> Blocked(baselines, rendered, accepted, r)
    ensures forall name :: name in unmatched <==> (name in accepted && Unmatched(baselines, rendered, name))
    ensures code == if blocked != [] then 2 else if unmatched != [] then 1 else 0
  {
    var regressions := AllRegressions(baselines, rendered);
    unmatched := [];
    for i := 0 to |accepted|
      invariant forall name :: name in unmatched <==> (name in accepted[..i] && Unmatched(baselines, rendered, name))
    {
      if forall r | r in regressions :: !Names(accepted[i], r.test, r.key) {
        unmatched := unmatched + [accepted[i]];
      }
    }
    blocked := [];
    for i := 0 to |regressions|
      invariant Distinct(blocked)
      invariant forall r :: r in blocked <==> (r in regressions[..i] && !Covered(accepted, r.test, r.key))
    {
      if !Covered(accepted, regressions[i].test, regressions[i].key) {
        blocked := blocked + [regressions[i]];
      }
    }
    code := if blocked != [] then 2 else if unmatched != [] then 1 else 0;
  }

  function Baselines(out: Option<Matrix>, head: Option<Matrix>): seq<Matrix>
  {
    (if Usable(head) then [head.value] else []) + (if Usable(out) && out != head then [out.value] else [])
  }

  /** The write decision: what is in the output file afterwards. */
  ghost predicate Writes(out: Option<Matrix>, head: Option<Matrix>, rendered: Matrix, accepted: seq<string>,
          noBaseline: bool)
  {
    && (Baselines(out, head) != [] || noBaseline)
    && (forall r :: !Blocked(Baselines(out, head), rendered, accepted, r))
    && (forall name | name in accepted :: !Unmatched(Baselines(out, head), rendered, name))
  }

  // ---------------------------------------------------------------- one write

  /** Nothing fragile that HEAD has not and that was not named gets written. */
  ghost predicate NothingSmuggled(head: Matrix, rendered: Matrix, accepted: seq<string>)
  {
    forall test, key | FragileAt(rendered, test, key) :: FragileAt(head, test, key) || Covered(accepted, test, key)
  }

  lemma WriteIsSafe(out: Option<Matrix>, head: Matrix, rendered: Matrix, accepted: seq<string>, noBaseline: bool)
    requires head.tests != map[]
    requires Writes(out, Some(head), rendered, accepted, noBaseline)
    ensures NothingSmuggled(head, rendered, accepted)
  {
    var baselines := Baselines(out, Some(head));
    assert baselines[0] == head && head in baselines;
    forall test, key | FragileAt(rendered, test, key) ensures FragileAt(head, test, key) || Covered(accepted, test, key) {
      var r := Regression(test, key, Null);
      if !FragileAt(head, test, key) {
        assert IsRegression(head, rendered, r);
        assert Regressed(baselines, rendered, r);
        assert !Blocked(baselines, rendered, accepted, r);
      }
    }
  }

  /** A matrix with one fragile row. */
  function OneFragileRow(test: string): Matrix
  {
    Matrix("", map[test := Test(None, map["key" := Row("", 0, false, true, false, false)], map[], "")], "")
  }

  lemma {:induction false} SomeFreshName(used: set<string>) returns (unused: string)
    ensures forall name | name in used :: |name| < |unused|
    decreases used
  {
    if used == {} {
      unused := "";
    } else {
      var name :| name in used;
      var rest := SomeFreshName(used - {name});
      unused := seq(|rest| + |name| + 1, i => 'x');
      forall n | n in used ensures |n| < |unused| { if n != name { assert n in used - {name}; } }
    }
  }

  /** Rewriting what the working copy already has passes when HEAD cannot be consulted. */
  lemma UnusableHeadSmuggles(gitReply: Option<Matrix>, head: Matrix)
    requires !Usable(gitReply)
    ensures exists m :: Writes(Some(m), gitReply, m, [], false) && !NothingSmuggled(head, m, [])
  {
    var test := SomeFreshName(head.tests.Keys);
    var m := OneFragileRow(test);
    assert test in m.tests && FragileAt(m, test, "key") && !FragileAt(head, test, "key");
    assert Baselines(Some(m), gitReply) == [m];
    forall r ensures !Blocked([m], m, [], r) {}
    assert Writes(Some(m), gitReply, m, [], false);
    assert !NothingSmuggled(head, m, []);
  }

  /** The guard protects HEAD whatever the working copy holds exactly when git supplies HEAD's tests. */
  lemma ProtectedIffHeadUsable(head: Matrix, gitReply: Option<Matrix>)
    requires gitReply == None || gitReply == Some(head)
    ensures Usable(gitReply) <==>
            (forall out, rendered, accepted, noBaseline | Writes(out, gitReply, rendered, accepted, noBaseline) ::
               NothingSmuggled(head, rendered, accepted))
  {
    hide Writes, NothingSmuggled;
    if Usable(gitReply) {
      forall out, rendered, accepted, noBaseline | Writes(out, gitReply, rendered, accepted, noBaseline)
        ensures NothingSmuggled(head, rendered, accepted)
      {
        WriteIsSafe(out, head, rendered, accepted, noBaseline);
      }
    } else {
      UnusableHeadSmuggles(gitReply, head);
    }
  }

  // ---------------------------------------------------------------- one write, absent keys

  /** The row decodes although its key is absent. */
  predicate Tolerates(m: Matrix, test: string, key: string)
  {
    Has(m, test, key) && !RowAt(m, test, key).absent
  }

  predicate Demands(m: Matrix, test: string, key: string)
  {
    Has(m, test, key) && RowAt(m, test, key).absent
  }

  /** Every row that tolerated absence at HEAD and demands its key in what is written was named. */
  ghost predicate NothingDemandedAgain(head: Matrix, rendered: Matrix, accepted: seq<string>)
  {
    forall test, key | Tolerates(head, test, key) && Demands(rendered, test, key) :: Covered(accepted, test, key)
  }

  lemma WriteKeepsTolerance(out: Option<Matrix>, head: Matrix, rendered: Matrix, accepted: seq<string>, noBaseline: bool)
    requires head.tests != map[]
    requires Writes(out, Some(head), rendered, accepted, noBaseline)
    ensures NothingDemandedAgain(head, rendered, accepted)
  {
    var baselines := Baselines(out, Some(head));
    assert baselines[0] == head && head in baselines;
    forall test, key | Tolerates(head, test, key) && Demands(rendered, test, key) ensures Covered(accepted, test, key) {
      var r := Regression(test, key, Absent);
      assert IsRegression(head, rendered, r);
      assert Regressed(baselines, rendered, r);
      assert !Blocked(baselines, rendered, accepted, r);
    }
  }

  ghost predicate ToleratesAny(head: Matrix)
  {
    exists test, key :: Tolerates(head, test, key)
  }

  /** A matrix with one row, which demands its key. */
  function OneDemandingRow(test: string, key: string): Matrix
  {
    Matrix("", map[test := Test(None, map[key := Row("", 0, true, true, false, false)], map[], "")], "")
  }

  lemma BlindWriteDemands(head: Matrix, test: string, key: string)
    requires Tolerates(head, test, key)
    ensures exists m :: Writes(Some(m), None, m, [], false) && !NothingDemandedAgain(head, m, [])
  {
    var m := OneDemandingRow(test, key);
    assert Demands(m, test, key);
    assert Baselines(Some(m), None) == [m];
    assert Writes(Some(m), None, m, [], false) by { forall r ensures !Blocked([m], m, [], r) {} }
    assert !NothingDemandedAgain(head, m, []);
  }

  /** Tolerated absence is protected exactly when git supplies HEAD's tests, or HEAD tolerates none. */
  lemma ToleranceProtectedIffHeadUsable(head: Matrix, gitReply: Option<Matrix>)
    requires gitReply == None || gitReply == Some(head)
    ensures Usable(gitReply) || !ToleratesAny(head) <==>
            (forall out, rendered, accepted, noBaseline | Writes(out, gitReply, rendered, accepted, noBaseline) ::
               NothingDemandedAgain(head, rendered, accepted))
  {
    hide Writes;
    if Usable(gitReply) {
      forall out, rendered, accepted, noBaseline | Writes(out, gitReply, rendered, accepted, noBaseline)
        ensures NothingDemandedAgain(head, rendered, accepted)
      {
        WriteKeepsTolerance(out, head, rendered, accepted, noBaseline);
      }
    } else if ToleratesAny(head) {
      var test, key :| Tolerates(head, test, key);
      BlindWriteDemands(head, test, key);
    }
  }

  // ---------------------------------------------------------------- the write decision

  /** HEAD and the file that is about to be overwritten both guard, as far as they have tests. */
  ghost predicate IsBaseline(out: Option<Matrix>, head: Option<Matrix>, b: Matrix)
  {
    b.tests != map[] && (head == Some(b) || out == Some(b))
  }

  /** The name stands for a row that got worse than in some baseline. */
  ghost predicate Explains(out: Option<Matrix>, head: Option<Matrix>, rendered: Matrix, name: string)
  {
    exists b, test, key :: IsBaseline(out, head, b) && Names(name, test, key) && GotWorse(b, rendered, test, key)
  }

  ghost predicate GotWorse(b: Matrix, rendered: Matrix, test: string, key: string)
  {
    || (FragileAt(rendered, test, key) && !FragileAt(b, test, key))
    || (Tolerates(b, test, key) && Demands(rendered, test, key))
  }

  /** What the write decision is, without the list of baselines. */
  ghost predicate Allowed(out: Option<Matrix>, head: Option<Matrix>, rendered: Matrix, accepted: seq<string>,
          noBaseline: bool)
  {
    && (noBaseline || exists b :: IsBaseline(out, head, b))
    && (forall b | IsBaseline(out, head, b) :: NothingSmuggled(b, rendered, accepted) && NothingDemandedAgain(b, rendered, accepted))
    && (forall name | name in accepted :: Explains(out, head, rendered, name))
  }

  /** Some row got worse than in a baseline and was not named. */
  ghost predicate UnnamedWorse(out: Option<Matrix>, head: Option<Matrix>, rendered: Matrix, accepted: seq<string>)
  {
    exists b, test, key :: IsBaseline(out, head, b) && GotWorse(b, rendered, test, key) && !Covered(accepted, test, key)
  }

  lemma OwnBaseline(out: Option<Matrix>, head: Option<Matrix>)
    requires out.Some? && out.value.tests != map[]
    ensures IsBaseline(out, head, out.value)
  {}

  lemma UnnamedIff(out: Option<Matrix>, head: Option<Matrix>, rendered: Matrix, accepted: seq<string>)
    ensures UnnamedWorse(out, head, rendered, accepted) <==>
            !(forall b | IsBaseline(out, head, b) :: NothingSmuggled(b, rendered, accepted) && NothingDemandedAgain(b, rendered, accepted))
  {
    hide IsBaseline, Covered;
    if b :| IsBaseline(out, head, b) && !(NothingSmuggled(b, rendered, accepted) && NothingDemandedAgain(b, rendered, accepted)) {
      if !NothingSmuggled(b, rendered, accepted) {
        var test, key :| FragileAt(rendered, test, key) && !FragileAt(b, test, key) && !Covered(accepted, test, key);
        assert GotWorse(b, rendered, test, key);
      } else {
        var test, key :| Tolerates(b, test, key) && Demands(rendered, test, key) && !Covered(accepted, test, key);
        assert GotWorse(b, rendered, test, key);
      }
    }
  }

  lemma BaselinesAre(out: Option<Matrix>, head: Option<Matrix>, b: Matrix)
    ensures IsBaseline(out, head, b) <==> b in Baselines(out, head)
  {}

  lemma GotWorseIff(b: Matrix, rendered: Matrix, test: string, key: string)
    ensures GotWorse(b, rendered, test, key) <==>
            IsRegression(b, rendered, Regression(test, key, Null)) || IsRegression(b, rendered, Regression(test, key, Absent))
  {}

  lemma NothingGotWorse(b: Matrix, rendered: Matrix, accepted: seq<string>)
    ensures NothingSmuggled(b, rendered, accepted) && NothingDemandedAgain(b, rendered, accepted) <==>
            forall r: Regression | IsRegression(b, rendered, r) :: Covered(accepted, r.test, r.key)
  {
    hide Covered;
    if NothingSmuggled(b, rendered, accepted) && NothingDemandedAgain(b, rendered, accepted) {
      forall r: Regression | IsRegression(b, rendered, r) ensures Covered(accepted, r.test, r.key) {}
    }
    if forall r: Regression | IsRegression(b, rendered, r) :: Covered(accepted, r.test, r.key) {
      forall test, key | GotWorse(b, rendered, test, key) ensures Covered(accepted, test, key) {
        GotWorseIff(b, rendered, test, key);
        if IsRegression(b, rendered, Regression(test, key, Null)) {
          assert Covered(accepted, Regression(test, key, Null).test, Regression(test, key, Null).key);
        } else {
          assert Covered(accepted, Regression(test, key, Absent).test, Regression(test, key, Absent).key);
        }
      }
      assert forall test, key :: GotWorse(b, rendered, test, key) ==> Covered(accepted, test, key);
    }
  }

  lemma ExplainsIff(out: Option<Matrix>, head: Option<Matrix>, rendered: Matrix, name: string)
    ensures Explains(out, head, rendered, name) <==> !Unmatched(Baselines(out, head), rendered, name)
  {
    hide Baselines, GotWorse, IsRegression, Names;
    if b, test, key :| IsBaseline(out, head, b) && Names(name, test, key) && GotWorse(b, rendered, test, key) {
      BaselinesAre(out, head, b);
      GotWorseIff(b, rendered, test, key);
      assert Regressed(Baselines(out, head), rendered, Regression(test, key, Null)) || Regressed(Baselines(out, head), rendered, Regression(test, key, Absent));
    }
    if !Unmatched(Baselines(out, head), rendered, name) {
      var r :| Regressed(Baselines(out, head), rendered, r) && Names(name, r.test, r.key);
      var b :| b in Baselines(out, head) && b.tests != map[] && IsRegression(b, rendered, r);
      BaselinesAre(out, head, b);
      GotWorseIff(b, rendered, r.test, r.key);
      match r.kind
      case Null => assert r == Regression(r.test, r.key, Null);
      case Absent => assert r == Regression(r.test, r.key, Absent);
    }
  }

  lemma WritesIffAllowed(out: Option<Matrix>, head: Option<Matrix>, rendered: Matrix, accepted: seq<string>,
          noBaseline: bool)
    ensures Writes(out, head, rendered, accepted, noBaseline) <==> Allowed(out, head, rendered, accepted, noBaseline)
  {
    hide NothingSmuggled, NothingDemandedAgain, IsRegression, Covered, Unmatched, Explains, Baselines;
    forall name ensures Explains(out, head, rendered, name) <==> !Unmatched(Baselines(out, head), rendered, name) {
      ExplainsIff(out, head, rendered, name);
    }
    forall b ensures IsBaseline(out, head, b) <==> b in Baselines(out, head) { BaselinesAre(out, head, b); }
    SomeBaseline(out, head);
    NoneBlockedIff(out, head, rendered, accepted);
  }

  lemma SomeBaseline(out: Option<Matrix>, head: Option<Matrix>)
    ensures Baselines(out, head) != [] <==> exists b :: IsBaseline(out, head, b)
  {
    if Baselines(out, head) != [] {
      var b := Baselines(out, head)[0];
      assert IsBaseline(out, head, b);
    }
    if b :| IsBaseline(out, head, b) { BaselinesAre(out, head, b); }
  }

  lemma NoneBlockedIff(out: Option<Matrix>, head: Option<Matrix>, rendered: Matrix, accepted: seq<string>)
    ensures (forall r :: !Blocked(Baselines(out, head), rendered, accepted, r)) <==>
            forall b | IsBaseline(out, head, b) :: NothingSmuggled(b, rendered, accepted) && NothingDemandedAgain(b, rendered, accepted)
  {
    hide NothingSmuggled, NothingDemandedAgain, IsRegression, Covered, Baselines;
    forall b ensures IsBaseline(out, head, b) <==> b in Baselines(out, head) { BaselinesAre(out, head, b); }
    if forall r :: !Blocked(Baselines(out, head), rendered, accepted, r) {
      forall b | IsBaseline(out, head, b) ensures NothingSmuggled(b, rendered, accepted) && NothingDemandedAgain(b, rendered, accepted) {
        forall r: Regression | IsRegression(b, rendered, r) ensures Covered(accepted, r.test, r.key) {
          assert Regressed(Baselines(out, head), rendered, r);
          assert !Blocked(Baselines(out, head), rendered, accepted, r);
        }
        NothingGotWorse(b, rendered, accepted);
      }
    }
    if forall b | IsBaseline(out, head, b) :: NothingSmuggled(b, rendered, accepted) && NothingDemandedAgain(b, rendered, accepted) {
      forall r ensures !Blocked(Baselines(out, head), rendered, accepted, r) {
        if Regressed(Baselines(out, head), rendered, r) {
          var b :| b in Baselines(out, head) && b.tests != map[] && IsRegression(b, rendered, r);
          assert IsBaseline(out, head, b);
          NothingGotWorse(b, rendered, accepted);
        }
      }
    }
  }

  /** Whatever git answers, a written matrix is guarded by the working copy too. */
  method Regenerate(out: Option<Matrix>, head: Option<Matrix>, rendered: Matrix, accepted: seq<string>,
          noBaseline: bool)
    returns (code: nat, after: Option<Matrix>)
    ensures code == 0 <==> Writes(out, head, rendered, accepted, noBaseline)
    ensures code == 0 <==> Allowed(out, head, rendered, accepted, noBaseline)
    ensures code == 0 && out.Some? && out.value.tests != map[] ==>
              NothingSmuggled(out.value, rendered, accepted) && NothingDemandedAgain(out.value, rendered, accepted)
    ensures after == if code == 0 then Some(rendered) else out
    ensures (forall b :: !IsBaseline(out, head, b)) && !noBaseline ==> code == 1
    ensures code == 2 <==> UnnamedWorse(out, head, rendered, accepted)
  {
    hide Blocked, Unmatched, NothingSmuggled, NothingDemandedAgain, Explains, IsBaseline, UnnamedWorse;
    WritesIffAllowed(out, head, rendered, accepted, noBaseline);
    NoneBlockedIff(out, head, rendered, accepted);
    UnnamedIff(out, head, rendered, accepted);
    SomeBaseline(out, head);
    if out.Some? && out.value.tests != map[] { assert IsBaseline(out, head, out.value) by { OwnBaseline(out, head); } }
    var baselines := Baselines(out, head);
    if baselines == [] && !noBaseline { return 1, out; }
    var unmatched, blocked;
    code, unmatched, blocked := Guard(baselines, rendered, accepted);
    after := out;
    if code == 0 { after := Some(rendered); }
    if blocked != [] { assert Blocked(baselines, rendered, accepted, blocked[0]); }
    if unmatched != [] { assert unmatched[0] in accepted && Unmatched(baselines, rendered, unmatched[0]); }
  }

  // ---------------------------------------------------------------- whole runs

  /**
   * The repository: HEAD, the working copy, whether it is what the last regeneration wrote and the
   * names that one was given, and the names given to the regenerations that were committed.
   */
  datatype State = State(head: Matrix, out: Option<Matrix>, justWritten: bool, pending: seq<string>, granted: seq<string>)

  datatype Event =
    | Regeneration(rendered: Matrix, accepted: seq<string>, noBaseline: bool, gitWorks: bool)
    | Edit(out: Option<Matrix>)
    | Commit

  ghost function Step(s: State, e: Event): State
  {
    match e
    case Regeneration(rendered, accepted, noBaseline, gitWorks) =>
      if Writes(s.out, if gitWorks then Some(s.head) else None, rendered, accepted, noBaseline)
      then s.(out := Some(rendered), justWritten := true, pending := accepted)
      else s
    case Edit(out) => s.(out := out, justWritten := false)
    case Commit =>
      if s.justWritten && s.out.Some? then s.(head := s.out.value, granted := s.granted + s.pending) else s
  }

  ghost function Run(s: State, events: seq<Event>): State
  {
    if events == [] then s else Step(Run(s, events[..|events| - 1]), events[|events| - 1])
  }

  /** Before anything happened in a repository with this HEAD. */
  function Start(head: Matrix, out: Option<Matrix>): State
  {
    State(head, out, false, [], [])
  }

  /** Every render holds the test that counts the cases, so it has a test. */
  predicate RendersTests(events: seq<Event>)
  {
    forall e | e in events && e.Regeneration? :: "CaseCountIsDerived" in e.rendered.tests
  }

  predicate GitAlwaysReads(events: seq<Event>)
  {
    forall e | e in events && e.Regeneration? :: e.gitWorks
  }

  /** HEAD holds no fragile row beyond the first ones and those granted; a fresh write none beyond HEAD's and its names. */
  ghost predicate Ratcheted(first: Matrix, s: State)
  {
    && s.head.tests != map[] && NothingSmuggled(first, s.head, s.granted)
    && (s.justWritten ==> Usable(s.out) && NothingSmuggled(s.head, s.out.value, s.pending))
  }

  lemma GrantedMore(first: Matrix, head: Matrix, out: Matrix, granted: seq<string>, pending: seq<string>)
    requires NothingSmuggled(first, head, granted) && NothingSmuggled(head, out, pending)
    ensures NothingSmuggled(first, out, granted + pending)
  {
    forall test, key | FragileAt(out, test, key) ensures FragileAt(first, test, key) || Covered(granted + pending, test, key) {
      if Covered(pending, test, key) { CoveredLater(granted, pending, test, key); }
      if Covered(granted, test, key) { CoveredLater(granted, pending, test, key); }
    }
  }

  lemma CoveredLater(a: seq<string>, b: seq<string>, test: string, key: string)
    ensures Covered(a, test, key) || Covered(b, test, key) ==> Covered(a + b, test, key)
  {
    if Covered(a, test, key) {
      var name :| name in a && Names(name, test, key);
      assert name in a + b;
    }
    if Covered(b, test, key) {
      var name :| name in b && Names(name, test, key);
      assert name in a + b;
    }
  }

  lemma StepKeepsRatchet(first: Matrix, s: State, e: Event)
    requires Ratcheted(first, s)
    requires e.Regeneration? ==> e.gitWorks && "CaseCountIsDerived" in e.rendered.tests
    ensures Ratcheted(first, Step(s, e))
  {
    if e.Regeneration? && Writes(s.out, Some(s.head), e.rendered, e.accepted, e.noBaseline) {
      WriteIsSafe(s.out, s.head, e.rendered, e.accepted, e.noBaseline);
    }
    if e.Commit? && s.justWritten { GrantedMore(first, s.head, s.out.value, s.granted, s.pending); }
  }

  /**
   * The ratchet: whatever is regenerated, edited, deleted and committed, a null-fragile row at HEAD
   * was there at the start or was named to a regeneration that was committed.
   */
  lemma {:induction false} HeadStaysRatcheted(head: Matrix, out: Option<Matrix>, events: seq<Event>)
    requires head.tests != map[] && GitAlwaysReads(events) && RendersTests(events)
    ensures Ratcheted(head, Run(Start(head, out), events))
    decreases |events|
  {
    if events != [] {
      var before, e := events[..|events| - 1], events[|events| - 1];
      assert events == before + [e];
      assert e in events && forall x | x in before :: x in events;
      HeadStaysRatcheted(head, out, before);
      StepKeepsRatchet(head, Run(Start(head, out), before), e);
    }
  }

  /** One regeneration that cannot read HEAD is enough: an edit, a regeneration and a commit smuggle a row in. */
  lemma OneBlindWriteSmuggles(head: Matrix)
    ensures exists m :: var s := Run(Start(head, Some(head)), Smuggling(m)); !NothingSmuggled(head, s.head, s.granted)
  {
    var test := SomeFreshName(head.tests.Keys);
    var m := OneFragileRow(test);
    BlindRun(Start(head, Some(head)), m);
    assert FragileAt(m, test, "key") && !FragileAt(head, test, "key");
    assert !NothingSmuggled(head, m, []);
    var s := Run(Start(head, Some(head)), Smuggling(m));
    assert s.head == m && s.granted == [];
  }

  function Smuggling(m: Matrix): seq<Event>
  {
    [Edit(Some(m)), Regeneration(m, [], false, false), Commit]
  }

  lemma BlindRun(s: State, m: Matrix)
    requires m.tests != map[]
    ensures Run(s, Smuggling(m)).head == m && Run(s, Smuggling(m)).granted == s.granted
  {
    var events := Smuggling(m);
    assert events[..2] == [Edit(Some(m)), Regeneration(m, [], false, false)];
    assert events[..2][..1] == [Edit(Some(m))];
    assert [Edit(Some(m))][..0] == [];
    assert Baselines(Some(m), None) == [m];
    assert Writes(Some(m), None, m, [], false) by { forall r ensures !Blocked([m], m, [], r) {} }
    assert Run(s, events[..1]) == s.(out := Some(m), justWritten := false);
    assert Run(s, events[..2]) == s.(out := Some(m), justWritten := true, pending := []);
    assert s.granted + [] == s.granted;
  }

  // ---------------------------------------------------------------- whole runs, absent keys

  /** Some HEAD on the way did not have the row at all. */
  ghost predicate LostOnTheWay(start: State, events: seq<Event>, test: string, key: string)
  {
    exists i :: 0 <= i <= |events| && !Has(Run(start, events[..i]).head, test, key)
  }

  /** The row tolerates absence at HEAD or was granted, and so for what was just written. */
  ghost predicate StaysTolerant(s: State, test: string, key: string)
  {
    && (Tolerates(s.head, test, key) || Covered(s.granted, test, key))
    && (s.justWritten && Tolerates(s.head, test, key) ==>
          s.out.Some? && (Demands(s.out.value, test, key) ==> Covered(s.pending, test, key)))
  }

  lemma StepKeepsTolerance(s: State, e: Event, test: string, key: string)
    requires s.head.tests != map[] && StaysTolerant(s, test, key)
    requires e.Regeneration? ==> e.gitWorks
    ensures StaysTolerant(Step(s, e), test, key) || !Has(Step(s, e).head, test, key)
  {
    hide Writes;
    if e.Regeneration? && Writes(s.out, Some(s.head), e.rendered, e.accepted, e.noBaseline) {
      WriteKeepsTolerance(s.out, s.head, e.rendered, e.accepted, e.noBaseline);
    }
    if e.Commit? { CoveredLater(s.granted, s.pending, test, key); }
  }

  lemma LostLater(start: State, events: seq<Event>, e: Event, test: string, key: string)
    ensures LostOnTheWay(start, events, test, key) ==> LostOnTheWay(start, events + [e], test, key)
    ensures !Has(Run(start, events + [e]).head, test, key) ==> LostOnTheWay(start, events + [e], test, key)
  {
    hide Run;
    var all := events + [e];
    assert all[..|all|] == all;
    if LostOnTheWay(start, events, test, key) {
      var i :| 0 <= i <= |events| && !Has(Run(start, events[..i]).head, test, key);
      assert all[..i] == events[..i];
    }
  }

  /**
   * The ratchet for absent keys: whatever is regenerated, edited and committed, a row that
   * tolerated absence in the first HEAD still does, unless it was named to a regeneration that was
   * committed or some HEAD on the way lacked the row.
   */
  lemma {:induction false} ToleranceOutlivesRuns(head: Matrix, out: Option<Matrix>, events: seq<Event>, test: string, key: string)
    requires Tolerates(head, test, key) && GitAlwaysReads(events) && RendersTests(events)
    ensures StaysTolerant(Run(Start(head, out), events), test, key) || LostOnTheWay(Start(head, out), events, test, key)
    decreases |events|
  {
    hide StaysTolerant, LostOnTheWay, Ratcheted;
    if events == [] {
      StartsTolerant(head, out, test, key);
    } else {
      var before, e := events[..|events| - 1], events[|events| - 1];
      assert events == before + [e];
      assert e in events && forall x | x in before :: x in events;
      ToleranceOutlivesRuns(head, out, before, test, key);
      LostLater(Start(head, out), before, e, test, key);
      HeadStaysRatcheted(head, out, before);
      HeadHasTests(head, Run(Start(head, out), before));
      if StaysTolerant(Run(Start(head, out), before), test, key) { StepKeepsTolerance(Run(Start(head, out), before), e, test, key); }
    }
  }

  lemma StartsTolerant(head: Matrix, out: Option<Matrix>, test: string, key: string)
    requires Tolerates(head, test, key)
    ensures StaysTolerant(Start(head, out), test, key)
  {}

  lemma HeadHasTests(first: Matrix, s: State)
    requires Ratcheted(first, s)
    ensures s.head.tests != map[]
  {}

  /** So a row that tolerated absence first and is required later was granted, or was lost on the way. */
  lemma RequiredAgainOnlyAfterLoss(head: Matrix, out: Option<Matrix>, events: seq<Event>, test: string, key: string)
    requires Tolerates(head, test, key) && GitAlwaysReads(events) && RendersTests(events)
    requires Demands(Run(Start(head, out), events).head, test, key)
    ensures Covered(Run(Start(head, out), events).granted, test, key) || LostOnTheWay(Start(head, out), events, test, key)
  {
    ToleranceOutlivesRuns(head, out, events, test, key);
  }

  function WithRows(m: Matrix, test: string, rows: map<string, Row>): Matrix
    requires test in m.tests
  {
    m.(tests := m.tests[test := m.tests[test].(rows := rows)])
  }

  /** The row removed in one commit, and back as required in the next. */
  function RemovedAndBack(removed: Matrix, required: Matrix): seq<Event>
  {
    [Regeneration(removed, [], false, true), Commit, Regeneration(required, [], false, true), Commit]
  }

  lemma QuietWrite(head: Matrix, rendered: Matrix)
    requires head.tests != map[] && forall r :: !IsRegression(head, rendered, r)
    ensures Writes(Some(head), Some(head), rendered, [], false)
  {
    assert Baselines(Some(head), Some(head)) == [head];
    forall r ensures !Blocked([head], rendered, [], r) {}
  }

  lemma RemovedAndBackRun(head: Matrix, removed: Matrix, required: Matrix)
    requires head.tests != map[] && removed.tests != map[]
    requires forall r :: !IsRegression(head, removed, r) && !IsRegression(removed, required, r)
    ensures var s := Run(Start(head, Some(head)), RemovedAndBack(removed, required)); s.head == required && s.granted == []
  {
    hide IsRegression, Writes;
    var events, s := RemovedAndBack(removed, required), Start(head, Some(head));
    QuietWrite(head, removed);
    QuietWrite(removed, required);
    assert events[..3][..2] == events[..2] && events[..2][..1] == events[..1] && events[..1][..0] == [];
    assert Run(s, events[..1]) == Step(s, events[0]);
    assert Run(s, events[..2]) == State(removed, Some(removed), true, [], []);
    assert Run(s, events[..3]) == State(removed, Some(required), true, [], []);
  }

  /** Losing the row is enough: from every HEAD a tolerated row comes back as required, with no name given. */
  lemma RequiredComesBackUnnoticed(head: Matrix, test: string, key: string)
    requires Tolerates(head, test, key) && "CaseCountIsDerived" in head.tests
    ensures exists events ::
              && GitAlwaysReads(events) && RendersTests(events)
              && var s := Run(Start(head, Some(head)), events); Demands(s.head, test, key) && s.granted == []
  {
    var rows := head.tests[test].rows;
    var removed := WithRows(head, test, rows - {key});
    var required := WithRows(head, test, rows[key := rows[key].(absent := true)]);
    forall r ensures !IsRegression(head, removed, r) && !IsRegression(removed, required, r) {}
    RemovedAndBackRun(head, removed, required);
    assert Demands(required, test, key);
    assert GitAlwaysReads(RemovedAndBack(removed, required)) && RendersTests(RemovedAndBack(removed, required));
  }
}
