/** `publish_routes` and `_wait_for_routes`: check every route, then push, then poll. */
module Publication {
  import opened Options
  import opened Cloudsmith

  datatype Outcome = Published | SkippedAlreadyIdentical | Error

  /** The selected routes and the polling parameters, after parsing. */
  datatype Request = Request(
    format: Format,
    candidates: seq<Candidate>,
    safe: bool,            // every coordinate of every selected route matches the safe pattern
    pollAttempts: int,
    pollSecondsValid: bool)

  ghost predicate DistinctAssets(cs: seq<Candidate>)
  {
    forall i, j | 0 <= i < j < |cs| :: cs[i].route.asset != cs[j].route.asset
  }

  /** No two candidates share an asset, and every candidate's digest is known. */
  ghost predicate LocallyValid(request: Request)
  {
    && request.candidates != [] && DistinctAssets(request.candidates) && request.safe
    && forall c | c in request.candidates :: c.digest.Some?
  }

  method AssetsDistinct(cs: seq<Candidate>) returns (distinct: bool)
    ensures distinct <==> DistinctAssets(cs)
  {
    var seen: set<string> := {};
    for i := 0 to |cs|
      invariant forall a :: a in seen <==> exists k :: 0 <= k < i && cs[k].route.asset == a
      invariant DistinctAssets(cs[..i])
    {
      if cs[i].route.asset in seen {
        return false;
      }
      seen := seen + {cs[i].route.asset};
    }
    assert cs[..|cs|] == cs;
    distinct := true;
  }

  /** What a stretch of the run without pushes keeps about the trace. */
  ghost predicate Extends(remote: Remote, format: Format, cs: seq<Candidate>, before: Trace, after: Trace)
  {
    && before <= after
    && (forall i | |before| <= i < |after| :: !after[i].Push?)
    && (AllJustified(remote, format, cs, before) ==> AllJustified(remote, format, cs, after))
  }

  lemma ExtendsTransitive(remote: Remote, format: Format, cs: seq<Candidate>, a: Trace, b: Trace, c: Trace)
    requires Extends(remote, format, cs, a, b) && Extends(remote, format, cs, b, c)
    ensures Extends(remote, format, cs, a, c)
  {}

  lemma ExtendsByEvent(remote: Remote, format: Format, cs: seq<Candidate>, trace: Trace, event: Event)
    requires !event.Push? && !event.Verified?
    ensures Extends(remote, format, cs, trace, trace + [event])
    ensures forall a :: VerifiedCount(trace + [event], a) == VerifiedCount(trace, a)
  {
    if AllJustified(remote, format, cs, trace) { JustifiedMore(remote, format, cs, trace, event); }
    forall a ensures VerifiedCount(trace + [event], a) == VerifiedCount(trace, a) { CountMore(trace, event, a); }
  }

  /** The world has settled: every selected route has one completed, verifiable record. */
  ghost predicate Settled(remote: Remote, format: Format, cs: seq<Candidate>)
  {
    && (forall h: Trace | h != [] && h[|h| - 1] in {CheckTools, FetchKey, WhoAmI} :: remote(h) == Accepted)
    && (forall h: Trace, k | h != [] && 0 <= k < |cs| && h[|h| - 1] == ListRoute(cs[k].route) :: ListsCompleted(remote(h), cs[k], format))
    && (forall h: Trace | h != [] && h[|h| - 1].CheckRpm? :: remote(h) == Accepted)
  }

  ghost predicate ListsCompleted(reply: Reply, c: Candidate, format: Format)
  {
    reply.Listed? && ShownAs(reply.records, format, c, RouteCompleted)
  }

  function Sleeps(trace: Trace): nat
  {
    if trace == [] then 0 else Sleeps(trace[..|trace| - 1]) + if trace[|trace| - 1] == Sleep then 1 else 0
  }

  lemma SleepMore(trace: Trace, event: Event)
    ensures Sleeps(trace + [event]) == Sleeps(trace) + if event == Sleep then 1 else 0
  {
    assert (trace + [event])[..|trace|] == trace;
  }

  ghost predicate ListsUsable(reply: Reply, c: Candidate, format: Format)
  {
    reply.Listed? && exists state :: ShownAs(reply.records, format, c, state)
  }

  /** A listing that contradicts the candidate: two records, one of another package, or a failed one. */
  ghost predicate ListsConflict(reply: Reply, c: Candidate, format: Format)
  {
    && reply.Listed?
    && ((exists i, j :: 0 <= i < j < |reply.records| && reply.records[i].filename == reply.records[j].filename == c.route.asset)
        || exists record | record in reply.records :: record.filename == c.route.asset && Contradicts(record, c, format))
  }

  ghost predicate Contradicts(record: Record, c: Candidate, format: Format)
  {
    || record.syncFailed == Some(true)
    || (format.Apt? && record.checksum != c.digest)
    || record.checksum.None? || |record.checksum.value| != 64
    || (exists digit | digit in record.checksum.value :: digit !in "0123456789abcdef")
    || record.format != Some(match format case Apt => "deb" case Rpm => "rpm")
    || record.distro != Some(c.route.distribution) || record.distroVersion != Some(c.route.release)
  }

  /** Whenever the remote lists some candidate it contradicts that candidate. */
  ghost predicate ConflictsOn(remote: Remote, format: Format, cs: seq<Candidate>)
  {
    exists k :: 0 <= k < |cs| && ConflictsAt(remote, format, cs[k])
  }

  ghost predicate ConflictsAt(remote: Remote, format: Format, c: Candidate)
  {
    forall h: Trace | h != [] && h[|h| - 1] == ListRoute(c.route) :: ListsConflict(remote(h), c, format)
  }

  lemma ListedWithoutConflict(remote: Remote, format: Format, trace: Trace, j: nat, c: Candidate, state: RouteState)
    requires ListedAs(remote, format, trace, j, c, state)
    ensures !ConflictsAt(remote, format, c)
  {
    hide ShownAs, ListsConflict;
    var h := trace[..j + 1];
    assert h[|h| - 1] == ListRoute(c.route);
    if ListsConflict(remote(h), c, format) { ConflictIsNotShown(remote(h), c, format, state); }
  }

  lemma TwiceIsNotOnly(records: seq<Record>, asset: string, i: nat, j: nat)
    requires i < j < |records| && records[i].filename == records[j].filename == asset
    ensures !NotListed(records, asset) && forall record :: !OnlyRecord(records, asset, record)
  {
    assert records[i] in records;
  }

  lemma ContradictedIsNotOnly(records: seq<Record>, c: Candidate, format: Format, record: Record)
    requires record in records && record.filename == c.route.asset && Contradicts(record, c, format)
    ensures !NotListed(records, c.route.asset)
    ensures forall other :: OnlyRecord(records, c.route.asset, other) ==>
              !Identifies(other, c, format) || (!Complete(other) && other.syncFailed == Some(true))
  {
    forall other | OnlyRecord(records, c.route.asset, other) ensures other == record {
      var k :| 0 <= k < |records| && records[k] == record;
    }
  }

  lemma ConflictIsNotShown(reply: Reply, c: Candidate, format: Format, state: RouteState)
    requires ListsConflict(reply, c, format)
    ensures !ShownAs(reply.records, format, c, state)
  {
    if i, j :| 0 <= i < j < |reply.records| && reply.records[i].filename == reply.records[j].filename == c.route.asset {
      TwiceIsNotOnly(reply.records, c.route.asset, i, j);
    } else {
      var record :| record in reply.records && record.filename == c.route.asset && Contradicts(record, c, format);
      ContradictedIsNotOnly(reply.records, c, format, record);
    }
  }

  /** A remote that accepts every command, never lists anything wrong, and has completed every route after `delay` sleeps. */
  ghost predicate Cooperates(remote: Remote, format: Format, cs: seq<Candidate>, delay: nat)
  {
    && (forall h: Trace | h != [] && (h[|h| - 1] in {CheckTools, FetchKey, WhoAmI} || h[|h| - 1].Push? || h[|h| - 1].CheckRpm?) :: remote(h) == Accepted)
    && (forall h: Trace, k | h != [] && 0 <= k < |cs| && h[|h| - 1] == ListRoute(cs[k].route) :: ListsUsable(remote(h), cs[k], format))
    && (forall h: Trace, k | h != [] && 0 <= k < |cs| && h[|h| - 1] == ListRoute(cs[k].route) && Sleeps(h) >= delay ::
          ListsCompleted(remote(h), cs[k], format))
  }

  lemma ListingFacts(remote: Remote, format: Format, cs: seq<Candidate>, k: nat, h: Trace)
    requires k < |cs| && h != [] && h[|h| - 1] == ListRoute(cs[k].route)
    ensures Settled(remote, format, cs) ==> ListsCompleted(remote(h), cs[k], format)
    ensures forall delay: nat :: Cooperates(remote, format, cs, delay) ==>
              ListsUsable(remote(h), cs[k], format) && (Sleeps(h) >= delay ==> ListsCompleted(remote(h), cs[k], format))
  {}

  lemma RpmFacts(remote: Remote, format: Format, cs: seq<Candidate>, h: Trace)
    requires h != [] && h[|h| - 1].CheckRpm?
    ensures Settled(remote, format, cs) ==> remote(h) == Accepted
    ensures forall delay: nat :: Cooperates(remote, format, cs, delay) ==> remote(h) == Accepted
  {}

  /**
   * The part that the check before pushing and the polling share: list one route, look at its
   * exact record and verify it when it is completed.
   */
  method Inspect(remote: Remote, format: Format, ghost cs: seq<Candidate>, ghost k: nat, c: Candidate, trace0: Trace)
    returns (ok: bool, state: RouteState, trace: Trace)
    requires k < |cs| && cs[k] == c && c.digest.Some?
    ensures Extends(remote, format, cs, trace0, trace)
    ensures ok ==> |trace0| < |trace| && ListedAs(remote, format, trace, |trace0|, c, state)
    ensures forall a :: VerifiedCount(trace, a) == VerifiedCount(trace0, a) + if ok && state == RouteCompleted && a == c.route.asset then 1 else 0
    ensures Settled(remote, format, cs) ==> ok && state == RouteCompleted
    ensures Sleeps(trace) == Sleeps(trace0)
    ensures forall delay: nat :: Cooperates(remote, format, cs, delay) ==> ok && (Sleeps(trace0) >= delay ==> state == RouteCompleted)
  {
    hide AllJustified, Sleeps, Settled, Cooperates, ShownAs, IdentityValid, ShowsCompleted, ExactRecord, SyncOf, Extends, VerifiedCount;
    ok, state := false, RouteMissing;
    trace := trace0 + [ListRoute(c.route)];
    SleepMore(trace0, ListRoute(c.route));
    ListingFacts(remote, format, cs, k, trace);
    ExtendsByEvent(remote, format, cs, trace0, ListRoute(c.route));
    assert trace[..|trace0| + 1] == trace;
    var reply := remote(trace);
    if !reply.Listed? { return; }
    ghost var listed := trace;
    ReadingShows(reply.records, format, c);
    match ExactRecord(reply.records, c.route.asset) {
      case Ambiguous => return;
      case Missing => ok := true;
      case Found(record) =>
        if !IdentityValid(record, c, format) { return; }
        match SyncOf(record) {
          case SyncFailed => return;
          case SyncPending => ok, state := true, RoutePending;
          case SyncCompleted =>
            if format == Rpm {
              trace := trace + [CheckRpm(c.route, record)];
              SleepMore(listed, CheckRpm(c.route, record));
              ExtendsByEvent(remote, format, cs, listed, CheckRpm(c.route, record));
              ExtendsTransitive(remote, format, cs, trace0, listed, trace);
              RpmFacts(remote, format, cs, trace);
              if remote(trace) != Accepted { return; }
            }
            CompletedIsJustified(remote, format, c, trace0, listed, trace, record);
            AcceptVerified(remote, format, cs, k, trace0, trace, record);
            SleepMore(trace, Verified(c.route, record));
            trace := trace + [Verified(c.route, record)];
            ok, state := true, RouteCompleted;
        }
    }
  }

  /** Marking a justified verification keeps what the trace promises and counts once. */
  lemma AcceptVerified(remote: Remote, format: Format, cs: seq<Candidate>, k: nat, trace0: Trace, trace: Trace,
          record: Record)
    requires k < |cs|
    requires trace == if format == Rpm then trace0 + [ListRoute(cs[k].route)] + [CheckRpm(cs[k].route, record)] else trace0 + [ListRoute(cs[k].route)]
    requires Justified(remote, format, trace + [Verified(cs[k].route, record)], |trace|, cs[k])
    ensures Extends(remote, format, cs, trace0, trace + [Verified(cs[k].route, record)])
    ensures forall a :: VerifiedCount(trace + [Verified(cs[k].route, record)], a) == VerifiedCount(trace0, a) + if a == cs[k].route.asset then 1 else 0
  {
    hide Justified, AllJustified;
    var c, event := cs[k], Verified(cs[k].route, record);
    BeforeVerified(remote, format, cs, c, trace0, trace, record);
    if AllJustified(remote, format, cs, trace) { JustifiedMore(remote, format, cs, trace, event); }
    forall a ensures VerifiedCount(trace + [event], a) == VerifiedCount(trace0, a) + if a == c.route.asset then 1 else 0 {
      CountMore(trace, event, a);
    }
  }

  lemma BeforeVerified(remote: Remote, format: Format, cs: seq<Candidate>, c: Candidate, trace0: Trace, trace: Trace,
          record: Record)
    requires trace == if format == Rpm then trace0 + [ListRoute(c.route)] + [CheckRpm(c.route, record)] else trace0 + [ListRoute(c.route)]
    ensures Extends(remote, format, cs, trace0, trace)
    ensures forall a :: VerifiedCount(trace, a) == VerifiedCount(trace0, a)
  {
    hide AllJustified;
    var listed := trace0 + [ListRoute(c.route)];
    ExtendsByEvent(remote, format, cs, trace0, ListRoute(c.route));
    if format == Rpm {
      ExtendsByEvent(remote, format, cs, listed, CheckRpm(c.route, record));
      ExtendsTransitive(remote, format, cs, trace0, listed, trace);
    }
  }

  lemma CompletedIsJustified(remote: Remote, format: Format, c: Candidate, trace0: Trace, listed: Trace,
          trace: Trace, record: Record)
    requires listed == trace0 + [ListRoute(c.route)]
    requires remote(listed).Listed? && ShowsCompleted(remote(listed).records, format, c, record)
    requires trace == if format == Rpm then listed + [CheckRpm(c.route, record)] else listed
    requires format == Rpm ==> remote(trace) == Accepted
    ensures ListedAs(remote, format, trace + [Verified(c.route, record)], |trace0|, c, RouteCompleted)
    ensures Justified(remote, format, trace + [Verified(c.route, record)], |trace|, c)
  {
    var done := trace + [Verified(c.route, record)];
    assert done[..|trace0| + 1] == listed;
    assert CompletedAt(remote, format, done, |trace0|, c, record);
    if format == Rpm {
      assert done[..|listed| + 1] == trace;
      assert RpmAccepted(remote, done, |listed|, c.route, record);
    }
  }

  // ---------------------------------------------------------------- phase 1: check every route

  /** Every candidate was listed at `at[k]` in a state the tool may go on with. */
  ghost predicate Prechecked(remote: Remote, format: Format, cs: seq<Candidate>, trace: Trace, at: seq<nat>,
          states: seq<RouteState>)
  {
    && |at| == |cs| == |states|
    && forall k | 0 <= k < |cs| :: ListedAs(remote, format, trace, at[k], cs[k], states[k])
  }

  lemma PrecheckedStable(remote: Remote, format: Format, cs: seq<Candidate>, trace: Trace, trace': Trace,
          at: seq<nat>, states: seq<RouteState>)
    requires Prechecked(remote, format, cs, trace, at, states) && trace <= trace'
    ensures Prechecked(remote, format, cs, trace', at, states)
  {
    forall k | 0 <= k < |cs| ensures ListedAs(remote, format, trace', at[k], cs[k], states[k]) {
      ListedStable(remote, format, trace, trace', at[k], cs[k], states[k]);
    }
  }

  method CheckAll(remote: Remote, format: Format, cs: seq<Candidate>, trace0: Trace)
    returns (ok: bool, states: seq<RouteState>, ghost at: seq<nat>, trace: Trace)
    requires DistinctAssets(cs) && forall c | c in cs :: c.digest.Some?
    ensures Extends(remote, format, cs, trace0, trace)
    ensures ok ==> |states| == |cs| && Prechecked(remote, format, cs, trace, at, states)
    ensures ok ==> forall k :: 0 <= k < |cs| ==>
                     VerifiedCount(trace, cs[k].route.asset) == VerifiedCount(trace0, cs[k].route.asset) + (if states[k] == RouteCompleted then 1 else 0)
    ensures Settled(remote, format, cs) ==> ok && forall k :: 0 <= k < |cs| ==> states[k] == RouteCompleted
    ensures ConflictsOn(remote, format, cs) ==> !ok
    ensures Sleeps(trace) == Sleeps(trace0) && forall delay: nat :: Cooperates(remote, format, cs, delay) ==> ok
  {
    hide ListedAs, Settled, AllJustified, Cooperates, Sleeps, ConflictsAt;
    trace, states, at, ok := trace0, [], [], true;
    for i := 0 to |cs|
      invariant forall k | 0 <= k < i :: !ConflictsAt(remote, format, cs[k])
      invariant Extends(remote, format, cs, trace0, trace)
      invariant |states| == |at| == i
      invariant Prechecked(remote, format, cs[..i], trace, at, states)
      invariant forall k :: 0 <= k < |cs| ==>
                  VerifiedCount(trace, cs[k].route.asset) == VerifiedCount(trace0, cs[k].route.asset) + (if k < i && states[k] == RouteCompleted then 1 else 0)
      invariant Settled(remote, format, cs) ==> forall k :: 0 <= k < i ==> states[k] == RouteCompleted
      invariant Sleeps(trace) == Sleeps(trace0)
    {
      ghost var before, states0, at0 := trace, states, at;
      var state;
      ok, state, trace := Inspect(remote, format, cs, i, cs[i], trace);
      ExtendsTransitive(remote, format, cs, trace0, before, trace);
      if !ok { return; }
      ListedWithoutConflict(remote, format, trace, |before|, cs[i], state);
      states := states + [state];
      at := at + [|before|];
      CheckedOneMore(remote, format, cs, i, before, trace, at0, states0, state);
    }
    assert cs[..|cs|] == cs;
  }

  lemma CheckedOneMore(remote: Remote, format: Format, cs: seq<Candidate>, i: nat, before: Trace, trace: Trace,
          at: seq<nat>, states: seq<RouteState>, state: RouteState)
    requires i < |cs| && Prechecked(remote, format, cs[..i], before, at, states) && before <= trace
    requires ListedAs(remote, format, trace, |before|, cs[i], state)
    ensures Prechecked(remote, format, cs[..i + 1], trace, at + [|before|], states + [state])
  {
    PrecheckedStable(remote, format, cs[..i], before, trace, at, states);
  }

  // ---------------------------------------------------------------- phase 2: push what is missing

  ghost predicate PushOfMissing(cs: seq<Candidate>, states: seq<RouteState>, event: Event)
    requires |states| == |cs|
  {
    exists k :: 0 <= k < |cs| && event == Push(cs[k].route) && states[k] == RouteMissing
  }

  ghost predicate PushedBelow(cs: seq<Candidate>, k: nat, event: Event)
  {
    exists q :: 0 <= q < k && q < |cs| && event == Push(cs[q].route)
  }

  /** The events from `from` on are pushes of missing candidates, each at most once. */
  ghost predicate OnlyMissingPushed(cs: seq<Candidate>, states: seq<RouteState>, trace: Trace, from: nat)
    requires |states| == |cs|
  {
    && (forall i | from <= i < |trace| :: PushOfMissing(cs, states, trace[i]))
    && (forall i, j | from <= i < j < |trace| :: trace[i] != trace[j])
  }

  method PushMissing(remote: Remote, format: Format, cs: seq<Candidate>, states: seq<RouteState>, trace0: Trace)
    returns (ok: bool, published: bool, pending: seq<nat>, trace: Trace)
    requires DistinctAssets(cs) && |states| == |cs|
    ensures trace0 <= trace && OnlyMissingPushed(cs, states, trace, |trace0|)
    ensures AllJustified(remote, format, cs, trace0) ==> AllJustified(remote, format, cs, trace)
    ensures forall a :: VerifiedCount(trace, a) == VerifiedCount(trace0, a)
    ensures ok ==> (published <==> |trace| > |trace0|)
    ensures ok ==> forall k :: k in pending <==> 0 <= k < |cs| && states[k] != RouteCompleted
    ensures ok ==> forall i, j :: 0 <= i < j < |pending| ==> pending[i] != pending[j]
    ensures (forall k | 0 <= k < |cs| :: states[k] == RouteCompleted) ==> ok && pending == [] && !published
    ensures ok ==> forall k | 0 <= k < |cs| && states[k] == RouteMissing :: Push(cs[k].route) in trace
    ensures Sleeps(trace) == Sleeps(trace0) && forall delay: nat :: Cooperates(remote, format, cs, delay) ==> ok
  {
    hide Sleeps, AllJustified, Cooperates, OnlyMissingPushed, PushedBelow;
    NothingPushed(cs, states, trace0);
    ok, published, pending, trace := true, false, [], trace0;
    for k := 0 to |cs|
      invariant trace0 <= trace && OnlyMissingPushed(cs, states, trace, |trace0|)
      invariant forall i | |trace0| <= i < |trace| :: PushedBelow(cs, k, trace[i])
      invariant AllJustified(remote, format, cs, trace0) ==> AllJustified(remote, format, cs, trace)
      invariant forall a :: VerifiedCount(trace, a) == VerifiedCount(trace0, a)
      invariant published <==> |trace| > |trace0|
      invariant forall q :: q in pending <==> 0 <= q < k && states[q] != RouteCompleted
      invariant forall i, j :: 0 <= i < j < |pending| ==> pending[i] != pending[j]
      invariant (forall q | 0 <= q < k :: states[q] == RouteCompleted) ==> pending == [] && !published
      invariant forall q | 0 <= q < k && states[q] == RouteMissing :: Push(cs[q].route) in trace
      invariant Sleeps(trace) == Sleeps(trace0)
    {
      PushesBelowMore(cs, trace, |trace0|, k);
      if states[k] == RouteCompleted {
        continue;
      }
      if states[k] == RouteMissing {
        PushOneMore(remote, format, cs, states, trace, |trace0|, k);
        SleepMore(trace, Push(cs[k].route));
        PushAccepted(remote, format, cs, trace, cs[k].route);
        trace := trace + [Push(cs[k].route)];
        if remote(trace) != Accepted { ok := false; return; }
        published := true;
      }
      pending := pending + [k];
    }
  }

  lemma NothingPushed(cs: seq<Candidate>, states: seq<RouteState>, trace: Trace)
    requires |states| == |cs|
    ensures OnlyMissingPushed(cs, states, trace, |trace|)
  {}

  lemma PushAccepted(remote: Remote, format: Format, cs: seq<Candidate>, trace: Trace, route: Route)
    ensures forall delay: nat :: Cooperates(remote, format, cs, delay) ==> remote(trace + [Push(route)]) == Accepted
  {
    var after := trace + [Push(route)];
    assert after[|after| - 1].Push?;
  }

  lemma PushesBelowMore(cs: seq<Candidate>, trace: Trace, from: nat, k: nat)
    requires k < |cs| && forall i | from <= i < |trace| :: PushedBelow(cs, k, trace[i])
    ensures forall i | from <= i < |trace| :: PushedBelow(cs, k + 1, trace[i])
    ensures PushedBelow(cs, k + 1, Push(cs[k].route))
  {}

  lemma PushOneMore(remote: Remote, format: Format, cs: seq<Candidate>, states: seq<RouteState>, trace: Trace,
          from: nat, k: nat)
    requires DistinctAssets(cs) && |states| == |cs| && k < |cs| && states[k] == RouteMissing && from <= |trace|
    requires OnlyMissingPushed(cs, states, trace, from)
    requires forall i | from <= i < |trace| :: PushedBelow(cs, k, trace[i])
    ensures OnlyMissingPushed(cs, states, trace + [Push(cs[k].route)], from)
    ensures AllJustified(remote, format, cs, trace) ==> AllJustified(remote, format, cs, trace + [Push(cs[k].route)])
    ensures forall a :: VerifiedCount(trace + [Push(cs[k].route)], a) == VerifiedCount(trace, a)
  {
    var event := Push(cs[k].route);
    forall i | from <= i < |trace| ensures trace[i] != event {
      assert PushedBelow(cs, k, trace[i]);
      var q :| 0 <= q < k && q < |cs| && trace[i] == Push(cs[q].route);
      assert cs[q].route.asset != cs[k].route.asset;
    }
    if AllJustified(remote, format, cs, trace) { JustifiedMore(remote, format, cs, trace, event); }
    forall a ensures VerifiedCount(trace + [event], a) == VerifiedCount(trace, a) { CountMore(trace, event, a); }
  }

  // ---------------------------------------------------------------- phase 3: poll

  ghost predicate Distinct(ks: seq<nat>)
  {
    forall i, j | 0 <= i < j < |ks| :: ks[i] != ks[j]
  }

  /** Compared with `trace0`, exactly the pending candidates outside `open` were verified once more. */
  ghost predicate VerifiedOutside(cs: seq<Candidate>, trace0: Trace, trace: Trace, pending: seq<nat>, open: seq<nat>)
  {
    forall k | 0 <= k < |cs| ::
      VerifiedCount(trace, cs[k].route.asset) == VerifiedCount(trace0, cs[k].route.asset) + (if k in pending && k !in open then 1 else 0)
  }

  /** One polling attempt over the remaining routes. */
  method PollOnce(remote: Remote, format: Format, cs: seq<Candidate>, ghost pending: seq<nat>, remaining: seq<nat>,
          ghost trace0: Trace, trace1: Trace)
    returns (ok: bool, next: seq<nat>, trace: Trace)
    requires DistinctAssets(cs) && forall c | c in cs :: c.digest.Some?
    requires Distinct(remaining) && forall k | k in remaining :: k < |cs| && k in pending
    requires VerifiedOutside(cs, trace0, trace1, pending, remaining)
    ensures Extends(remote, format, cs, trace1, trace)
    ensures ok ==> Distinct(next) && forall k | k in next :: k in remaining
    ensures ok ==> VerifiedOutside(cs, trace0, trace, pending, next)
    ensures Sleeps(trace) == Sleeps(trace1)
    ensures forall delay: nat :: Cooperates(remote, format, cs, delay) ==> ok && (Sleeps(trace1) >= delay ==> next == [])
  {
    hide AllJustified, ListedAs, Settled, Cooperates, Sleeps;
    ok, next, trace := true, [], trace1;
    assert remaining[0..] == remaining;
    for i := 0 to |remaining|
      invariant Extends(remote, format, cs, trace1, trace)
      invariant Distinct(next) && (forall k | k in next :: k in remaining[..i])
      invariant VerifiedOutside(cs, trace0, trace, pending, next + remaining[i..])
      invariant Sleeps(trace) == Sleeps(trace1)
      invariant forall delay: nat :: Cooperates(remote, format, cs, delay) && Sleeps(trace1) >= delay ==> next == []
    {
      var k := remaining[i];
      assert k in remaining;
      assert cs[k] in cs;
      ghost var before, open := trace, next + remaining[i..];
      var state;
      ok, state, trace := Inspect(remote, format, cs, k, cs[k], trace);
      ExtendsTransitive(remote, format, cs, trace1, before, trace);
      if !ok { return; }
      RemainingStep(remaining, next, i);
      ghost var next0 := next;
      if state != RouteCompleted {
        next := next + [k];
      }
      InspectedStep(cs, trace0, before, trace, pending, open, next + remaining[i + 1..], k, state);
    }
    assert next + remaining[|remaining|..] == next;
  }

  lemma RemainingStep(remaining: seq<nat>, next: seq<nat>, i: nat)
    requires i < |remaining| && Distinct(remaining) && forall k | k in next :: k in remaining[..i]
    ensures remaining[i] !in next && remaining[i] !in remaining[i + 1..]
    ensures forall k :: k in next + remaining[i..] <==> k == remaining[i] || k in next + remaining[i + 1..]
    ensures forall k :: k in next + [remaining[i]] + remaining[i + 1..] <==> k in next + remaining[i..]
    ensures forall k :: k in remaining[..i + 1] <==> k == remaining[i] || k in remaining[..i]
  {
    assert remaining[i..] == [remaining[i]] + remaining[i + 1..];
    assert remaining[..i + 1] == remaining[..i] + [remaining[i]];
    assert forall j | 0 <= j < i :: remaining[j] != remaining[i];
    assert forall j | i < j < |remaining| :: remaining[i] != remaining[j];
  }

  lemma InspectedStep(cs: seq<Candidate>, trace0: Trace, before: Trace, trace: Trace, pending: seq<nat>,
          open: seq<nat>, open': seq<nat>, k: nat, state: RouteState)
    requires DistinctAssets(cs) && k < |cs| && k in pending && k in open
    requires VerifiedOutside(cs, trace0, before, pending, open)
    requires forall a :: VerifiedCount(trace, a) == VerifiedCount(before, a) + if state == RouteCompleted && a == cs[k].route.asset then 1 else 0
    requires forall q :: q in open' <==> if q == k then state != RouteCompleted else q in open
    ensures VerifiedOutside(cs, trace0, trace, pending, open')
  {
    forall q | 0 <= q < |cs|
      ensures VerifiedCount(trace, cs[q].route.asset) == VerifiedCount(trace0, cs[q].route.asset) + (if q in pending && q !in open' then 1 else 0)
    {
      if q != k { assert cs[q].route.asset != cs[k].route.asset; }
    }
  }

  /** `_wait_for_routes`. */
  method WaitForRoutes(remote: Remote, format: Format, cs: seq<Candidate>, pending: seq<nat>, pollAttempts: int,
          pollSecondsValid: bool, trace0: Trace)
    returns (ok: bool, trace: Trace)
    requires DistinctAssets(cs) && forall c | c in cs :: c.digest.Some?
    requires Distinct(pending) && forall k | k in pending :: k < |cs|
    ensures Extends(remote, format, cs, trace0, trace)
    ensures ok ==> VerifiedOutside(cs, trace0, trace, pending, [])
    ensures Sleeps(trace) <= Sleeps(trace0) + (if pollAttempts >= 1 then pollAttempts - 1 else 0)
    ensures forall delay: nat ::
              Cooperates(remote, format, cs, delay) && delay < Sleeps(trace0) + pollAttempts && pollAttempts >= 1 && pollSecondsValid ==> ok
  {
    hide Cooperates, Sleeps, AllJustified;
    trace, ok := trace0, false;
    if pollAttempts < 1 || !pollSecondsValid { return; }
    var remaining: seq<nat> := pending;
    for attempt := 0 to pollAttempts
      invariant Extends(remote, format, cs, trace0, trace)
      invariant Distinct(remaining) && forall k | k in remaining :: k < |cs| && k in pending
      invariant VerifiedOutside(cs, trace0, trace, pending, remaining)
      invariant attempt < pollAttempts ==> Sleeps(trace) == Sleeps(trace0) + attempt
      invariant Sleeps(trace) <= Sleeps(trace0) + pollAttempts - 1
      invariant forall delay: nat :: Cooperates(remote, format, cs, delay) ==> Sleeps(trace0) + attempt <= delay || attempt == 0
    {
      ghost var before := trace;
      var next;
      ok, next, trace := PollOnce(remote, format, cs, pending, remaining, trace0, trace);
      ExtendsTransitive(remote, format, cs, trace0, before, trace);
      if !ok { return; }
      if next == [] { return; }
      ok := false;
      remaining := next;
      if attempt + 1 < pollAttempts {
        ExtendsByEvent(remote, format, cs, trace, Sleep);
        ExtendsTransitive(remote, format, cs, trace0, trace, trace + [Sleep]);
        SleepMore(trace, Sleep);
        trace := trace + [Sleep];
      }
    }
  }

  // ---------------------------------------------------------------- the whole run

  ghost predicate Authenticated(remote: Remote, trace: Trace, i: nat)
  {
    exists j :: 0 <= j < i && j < |trace| && trace[j] == WhoAmI && remote(trace[..j + 1]) == Accepted
  }

  /** A push comes after authentication and after every check, and its route was not listed. */
  ghost predicate PushJustified(remote: Remote, format: Format, cs: seq<Candidate>, trace: Trace, at: seq<nat>,
          states: seq<RouteState>, i: nat)
    requires i < |trace|
  {
    && Authenticated(remote, trace, i)
    && Prechecked(remote, format, cs, trace, at, states)
    && (forall k | 0 <= k < |cs| :: at[k] < i)
    && PushOfMissing(cs, states, trace[i])
  }

  ghost predicate PushesSafe(remote: Remote, format: Format, cs: seq<Candidate>, trace: Trace, at: seq<nat>,
          states: seq<RouteState>)
  {
    && (forall i | 0 <= i < |trace| && trace[i].Push? :: PushJustified(remote, format, cs, trace, at, states, i))
    && (forall i, j | 0 <= i < j < |trace| && trace[i].Push? && trace[j].Push? :: trace[i] != trace[j])
  }

  /** Every route was checked, and the missing ones were pushed. */
  ghost predicate AllMissingPushed(remote: Remote, format: Format, cs: seq<Candidate>, trace: Trace, at: seq<nat>,
          states: seq<RouteState>)
  {
    Prechecked(remote, format, cs, trace, at, states) && forall k | 0 <= k < |cs| && states[k] == RouteMissing :: Push(cs[k].route) in trace
  }

  lemma MissingStayPushed(remote: Remote, format: Format, cs: seq<Candidate>, checked: Trace, pushed: Trace,
          trace: Trace, at: seq<nat>, states: seq<RouteState>)
    requires checked <= pushed <= trace && Prechecked(remote, format, cs, checked, at, states)
    requires forall k | 0 <= k < |cs| && states[k] == RouteMissing :: Push(cs[k].route) in pushed
    ensures AllMissingPushed(remote, format, cs, trace, at, states)
  {
    PrecheckedStable(remote, format, cs, checked, trace, at, states);
    forall k | 0 <= k < |cs| && states[k] == RouteMissing ensures Push(cs[k].route) in trace {
      var i :| 0 <= i < |pushed| && pushed[i] == Push(cs[k].route);
      assert trace[i] == pushed[i];
    }
  }

  /** What comes before the first listing; an RPM run needs its tools and the repository key first. */
  function Opening(format: Format): Trace
  {
    match format
    case Apt => [WhoAmI]
    case Rpm => [CheckTools, FetchKey, WhoAmI]
  }

  /** The run begins with these commands, and goes on only after each was accepted. */
  ghost predicate Opens(remote: Remote, format: Format, trace: Trace)
  {
    forall i | 0 <= i < |trace| && i < |Opening(format)| ::
      trace[i] == Opening(format)[i] && (i + 1 < |trace| ==> remote(trace[..i + 1]) == Accepted)
  }

  lemma NothingOpened(remote: Remote, format: Format)
    ensures Opens(remote, format, [])
  {}

  lemma OpensMore(remote: Remote, format: Format, trace: Trace)
    requires trace < Opening(format) && Opens(remote, format, trace) && (trace == [] || remote(trace) == Accepted)
    ensures Opens(remote, format, trace + [Opening(format)[|trace|]])
    ensures trace + [Opening(format)[|trace|]] <= Opening(format)
  {
    var after := trace + [Opening(format)[|trace|]];
    forall i | 0 <= i < |after| && i < |Opening(format)|
      ensures after[i] == Opening(format)[i] && (i + 1 < |after| ==> remote(after[..i + 1]) == Accepted)
    {
      if i < |trace| {
        assert trace[i] == Opening(format)[i];
        assert after[..i + 1] == trace[..i + 1];
        if i + 1 == |trace| { assert trace[..i + 1] == trace; }
      }
    }
  }

  lemma OpensOn(remote: Remote, format: Format, started: Trace, trace: Trace)
    requires Opens(remote, format, started) && started <= trace && started == Opening(format)
    requires remote(started) == Accepted
    ensures Opens(remote, format, trace)
  {
    forall i | 0 <= i < |trace| && i < |Opening(format)|
      ensures trace[i] == Opening(format)[i] && (i + 1 < |trace| ==> remote(trace[..i + 1]) == Accepted)
    {
      assert trace[..i + 1] == started[..i + 1];
      if i + 1 == |started| { assert trace[..i + 1] == started; }
    }
  }

  /** The commands before the first listing. */
  method Start(remote: Remote, format: Format, ghost cs: seq<Candidate>) returns (ok: bool, trace: Trace)
    ensures Extends(remote, format, cs, [], trace)
    ensures forall a :: VerifiedCount(trace, a) == 0
    ensures ok ==> Authenticated(remote, trace, |trace|)
    ensures Opens(remote, format, trace) && (ok ==> trace == Opening(format) && remote(trace) == Accepted)
    ensures Settled(remote, format, cs) ==> ok
    ensures Sleeps(trace) == 0 && forall delay: nat :: Cooperates(remote, format, cs, delay) ==> ok
  {
    hide AllJustified, Opens, Extends, VerifiedCount, Sleeps, Settled, Cooperates;
    ok, trace := false, [];
    NothingOpened(remote, format);
    NothingDone(remote, format, cs);
    if format == Rpm {
      Open(remote, format, cs, trace);
      trace := trace + [CheckTools];
      if remote(trace) != Accepted { return; }
      Open(remote, format, cs, trace);
      trace := trace + [FetchKey];
      if remote(trace) != Accepted { return; }
    }
    Open(remote, format, cs, trace);
    trace := trace + [WhoAmI];
    ok := remote(trace) == Accepted;
    if ok { assert trace[..|trace| - 1 + 1] == trace; }
  }

  lemma NothingDone(remote: Remote, format: Format, cs: seq<Candidate>)
    ensures Extends(remote, format, cs, [], []) && Sleeps([]) == 0 && forall a :: VerifiedCount([], a) == 0
  {}

  /** One more of the first commands. */
  lemma Open(remote: Remote, format: Format, cs: seq<Candidate>, trace: Trace)
    requires trace < Opening(format) && Opens(remote, format, trace) && (trace == [] || remote(trace) == Accepted)
    requires Extends(remote, format, cs, [], trace) && Sleeps(trace) == 0 && forall a :: VerifiedCount(trace, a) == 0
    ensures var after := trace + [Opening(format)[|trace|]];
            && Opens(remote, format, after) && after <= Opening(format)
            && Extends(remote, format, cs, [], after) && Sleeps(after) == 0 && (forall a :: VerifiedCount(after, a) == 0)
            && (Settled(remote, format, cs) ==> remote(after) == Accepted)
            && (forall delay: nat :: Cooperates(remote, format, cs, delay) ==> remote(after) == Accepted)
  {
    hide AllJustified, Extends, VerifiedCount, Sleeps, Opens;
    var event := Opening(format)[|trace|];
    var after := trace + [event];
    OpensMore(remote, format, trace);
    ExtendsByEvent(remote, format, cs, trace, event);
    ExtendsTransitive(remote, format, cs, [], trace, after);
    SleepMore(trace, event);
    assert after[|after| - 1] in {CheckTools, FetchKey, WhoAmI};
  }

  /** What the trace of any run promises, whatever its outcome. */
  ghost predicate Safe(remote: Remote, format: Format, cs: seq<Candidate>, trace: Trace, at: seq<nat>,
          states: seq<RouteState>)
  {
    PushesSafe(remote, format, cs, trace, at, states) && AllJustified(remote, format, cs, trace)
  }

  /** The trace confirms a completed record of this very candidate, accepted by the readback if it is an RPM. */
  ghost predicate Confirmed(format: Format, c: Candidate, trace: Trace)
  {
    exists record :: Verified(c.route, record) in trace && Identifies(record, c, format) && Complete(record)
      && (format.Rpm? ==> CheckRpm(c.route, record) in trace)
  }

  lemma {:induction false} CountedIsVerified(trace: Trace, asset: string) returns (i: nat)
    requires VerifiedCount(trace, asset) > 0
    ensures i < |trace| && trace[i].Verified? && trace[i].route.asset == asset
  {
    if trace[|trace| - 1].Verified? && trace[|trace| - 1].route.asset == asset {
      i := |trace| - 1;
    } else {
      i := CountedIsVerified(trace[..|trace| - 1], asset);
    }
  }

  lemma CountedIsConfirmed(remote: Remote, format: Format, cs: seq<Candidate>, trace: Trace, k: nat)
    requires DistinctAssets(cs) && AllJustified(remote, format, cs, trace)
    requires k < |cs| && VerifiedCount(trace, cs[k].route.asset) > 0
    ensures Confirmed(format, cs[k], trace)
  {
    hide VerifiedCount, DistinctAssets, AllJustified;
    var i := CountedIsVerified(trace, cs[k].route.asset);
    SameRoute(remote, format, cs, trace, i, k);
    VerifiedIsCompleted(remote, format, cs, trace, k, trace[i].record);
  }

  lemma SameRoute(remote: Remote, format: Format, cs: seq<Candidate>, trace: Trace, i: nat, k: nat)
    requires DistinctAssets(cs) && AllJustified(remote, format, cs, trace)
    requires i < |trace| && trace[i].Verified? && k < |cs| && trace[i].route.asset == cs[k].route.asset
    ensures trace[i].route == cs[k].route
  {
    hide DistinctAssets;
    var q :| 0 <= q < |cs| && Justified(remote, format, trace, i, cs[q]);
    UniqueAsset(cs, q, k);
  }

  /** What a normal return promises beyond that. */
  ghost predicate Finished(remote: Remote, format: Format, cs: seq<Candidate>, published: bool, trace: Trace,
          at: seq<nat>, states: seq<RouteState>)
  {
    && (forall c | c in cs :: VerifiedCount(trace, c.route.asset) == 1 && Confirmed(format, c, trace))
    && (published <==> HasPush(trace)) && AllMissingPushed(remote, format, cs, trace, at, states)
  }

  /** The three phases after authentication: check everything, push what is missing, poll what is pending. */
  method CheckPushWait(remote: Remote, format: Format, cs: seq<Candidate>, pollAttempts: int, pollSecondsValid: bool,
          started: Trace)
    returns (ok: bool, published: bool, trace: Trace, ghost at: seq<nat>, ghost states: seq<RouteState>)
    requires DistinctAssets(cs) && cs != [] && forall c | c in cs :: c.digest.Some?
    requires Authenticated(remote, started, |started|) && Extends(remote, format, cs, [], started)
    requires Sleeps(started) == 0 && forall a :: VerifiedCount(started, a) == 0
    ensures Safe(remote, format, cs, trace, at, states) && started <= trace
    ensures pollAttempts >= 1 ==> Sleeps(trace) < pollAttempts
    ensures ok ==> Finished(remote, format, cs, published, trace, at, states)
    ensures Settled(remote, format, cs) ==> ok && !published
    ensures ConflictsOn(remote, format, cs) ==> !ok && !HasPush(trace)
    ensures forall delay: nat | Cooperates(remote, format, cs, delay) :: delay < pollAttempts && pollSecondsValid ==> ok
  {
    hide ConflictsOn, AllJustified, Settled, ListedAs, Cooperates, Sleeps, OnlyMissingPushed, PushesSafe, HasPush;
    hide AllMissingPushed, VerifiedCount, Prechecked, Authenticated, DistinctAssets, Confirmed;
    NothingVerified(remote, format, cs);
    ok, published, trace := false, false, started;
    var found;
    ok, found, at, trace := CheckAll(remote, format, cs, started);
    states := found;
    ghost var checked := trace;
    if !ok {
      NoPushIsSafe(remote, format, cs, started, checked, at, states);
      NoPushSoFar(remote, format, cs, started, checked);
      return;
    }
    var pending;
    ok, published, pending, trace := PushMissing(remote, format, cs, found, trace);
    ghost var pushed := trace;
    PushesAreSafe(remote, format, cs, started, checked, pushed, pushed, at, states);
    if !ok { return; }
    if pending != [] {
      ok, trace := WaitForRoutes(remote, format, cs, pending, pollAttempts, pollSecondsValid, trace);
      PushesAreSafe(remote, format, cs, started, checked, pushed, trace, at, states);
      if !ok { return; }
    }
    EachVerifiedOnce(cs, started, checked, pushed, trace, found, pending);
    forall c | c in cs ensures Confirmed(format, c, trace) {
      var k :| 0 <= k < |cs| && cs[k] == c;
      CountedIsConfirmed(remote, format, cs, trace, k);
    }
    PublishedIffPushed(cs, states, started, checked, pushed, trace);
    MissingStayPushed(remote, format, cs, checked, pushed, trace, at, states);
  }

  lemma NoPushSoFar(remote: Remote, format: Format, cs: seq<Candidate>, started: Trace, checked: Trace)
    requires Extends(remote, format, cs, [], started) && Extends(remote, format, cs, started, checked)
    ensures !HasPush(checked)
  {
    ExtendsTransitive(remote, format, cs, [], started, checked);
  }

  lemma NoPushIsSafe(remote: Remote, format: Format, cs: seq<Candidate>, started: Trace, checked: Trace,
          at: seq<nat>, states: seq<RouteState>)
    requires Extends(remote, format, cs, [], started) && Extends(remote, format, cs, started, checked)
    ensures PushesSafe(remote, format, cs, checked, at, states)
  {
    ExtendsTransitive(remote, format, cs, [], started, checked);
  }

  /**
   * `publish_routes`, against a remote that may answer anything. On every outcome all pushes are
   * safe and every recorded verification is justified; a normal return means each selected route
   * was verified exactly once; `Published` means something was pushed, the other result that
   * nothing was, and every route the check did not find was pushed. Against a settled remote
   * nothing is pushed, and a remote that completes every route before the attempts run out never
   * makes the run fail.
   */
  method PublishRoutes(remote: Remote, request: Request)
    returns (outcome: Outcome, trace: Trace, ghost at: seq<nat>, ghost states: seq<RouteState>)
    ensures Safe(remote, request.format, request.candidates, trace, at, states)
    ensures Opens(remote, request.format, trace)
    ensures request.pollAttempts >= 1 ==> Sleeps(trace) < request.pollAttempts
    ensures !LocallyValid(request) ==> outcome == Error && trace == []
    ensures outcome != Error ==> Finished(remote, request.format, request.candidates, outcome == Published, trace, at, states)
    ensures LocallyValid(request) && Settled(remote, request.format, request.candidates) ==> outcome == SkippedAlreadyIdentical
    ensures ConflictsOn(remote, request.format, request.candidates) ==> outcome == Error && !HasPush(trace)
    ensures forall delay: nat | LocallyValid(request) && Cooperates(remote, request.format, request.candidates, delay) ::
              delay < request.pollAttempts && request.pollSecondsValid ==> outcome != Error
  {
    var format, cs := request.format, request.candidates;
    outcome, trace, at, states := Error, [], [], [];
    var distinct := AssetsDistinct(cs);
    NothingVerified(remote, format, cs);
    if cs == [] || !distinct || !request.safe || exists c :: c in cs && c.digest.None? { return; }
    hide AllJustified, Settled, Cooperates, Sleeps, PushesSafe, VerifiedCount, Authenticated, DistinctAssets, Finished, ConflictsOn, HasPush;
    var ok;
    ok, trace := Start(remote, format, cs);
    if !ok {
      NoPushIsSafe(remote, format, cs, [], trace, at, states);
      NoPushSoFar(remote, format, cs, [], trace);
      return;
    }
    var published;
    ghost var started := trace;
    ok, published, trace, at, states := CheckPushWait(remote, format, cs, request.pollAttempts, request.pollSecondsValid, trace);
    OpensOn(remote, format, started, trace);
    if ok { outcome := if published then Published else SkippedAlreadyIdentical; }
  }

  lemma NothingVerified(remote: Remote, format: Format, cs: seq<Candidate>)
    ensures AllJustified(remote, format, cs, [])
  {}

  lemma PushesAreSafe(remote: Remote, format: Format, cs: seq<Candidate>, started: Trace, checked: Trace,
          pushed: Trace, trace: Trace, at: seq<nat>, states: seq<RouteState>)
    requires started <= checked <= pushed <= trace
    requires forall i | 0 <= i < |checked| :: !checked[i].Push?
    requires forall i | |pushed| <= i < |trace| :: !trace[i].Push?
    requires Authenticated(remote, started, |started|)
    requires Prechecked(remote, format, cs, checked, at, states)
    requires OnlyMissingPushed(cs, states, pushed, |checked|)
    ensures PushesSafe(remote, format, cs, trace, at, states)
  {
    var j :| 0 <= j < |started| && started[j] == WhoAmI && remote(started[..j + 1]) == Accepted;
    assert started[..j + 1] == trace[..j + 1];
    PrecheckedStable(remote, format, cs, checked, trace, at, states);
    assert forall i | 0 <= i < |checked| :: trace[i] == checked[i];
    forall i | 0 <= i < |trace| && trace[i].Push? ensures |checked| <= i < |pushed| && PushJustified(remote, format, cs, trace, at, states, i) {
      assert trace[i] == pushed[i];
      assert PushOfMissing(cs, states, pushed[i]);
      forall k | 0 <= k < |cs| ensures at[k] < i { assert ListedAs(remote, format, checked, at[k], cs[k], states[k]); }
    }
  }

  lemma EachVerifiedOnce(cs: seq<Candidate>, started: Trace, checked: Trace, pushed: Trace, trace: Trace,
          states: seq<RouteState>, pending: seq<nat>)
    requires |states| == |cs| && forall a :: VerifiedCount(started, a) == 0
    requires forall k :: 0 <= k < |cs| ==>
               VerifiedCount(checked, cs[k].route.asset) == VerifiedCount(started, cs[k].route.asset) + (if states[k] == RouteCompleted then 1 else 0)
    requires forall a :: VerifiedCount(pushed, a) == VerifiedCount(checked, a)
    requires forall k :: k in pending <==> 0 <= k < |cs| && states[k] != RouteCompleted
    requires if pending == [] then trace == pushed else VerifiedOutside(cs, pushed, trace, pending, [])
    ensures forall c | c in cs :: VerifiedCount(trace, c.route.asset) == 1
  {
    forall c | c in cs ensures VerifiedCount(trace, c.route.asset) == 1 {
      var k :| 0 <= k < |cs| && cs[k] == c;
      assert VerifiedCount(pushed, cs[k].route.asset) == if states[k] == RouteCompleted then 1 else 0;
      assert k in pending <==> states[k] != RouteCompleted;
    }
  }

  lemma PublishedIffPushed(cs: seq<Candidate>, states: seq<RouteState>, started: Trace, checked: Trace,
          pushed: Trace, trace: Trace)
    requires started <= checked <= pushed <= trace && |states| == |cs|
    requires forall i | 0 <= i < |checked| :: !checked[i].Push?
    requires forall i | |pushed| <= i < |trace| :: !trace[i].Push?
    requires OnlyMissingPushed(cs, states, pushed, |checked|)
    ensures HasPush(trace) <==> |pushed| > |checked|
  {
    if |pushed| > |checked| {
      assert PushOfMissing(cs, states, pushed[|checked|]);
      assert trace[|checked|] == pushed[|checked|];
    }
    assert forall i | 0 <= i < |checked| :: trace[i] == checked[i];
  }

  // ---------------------------------------------------------------- running again

  /** A remote that keeps the records the first run verified, and answers everything else well. */
  ghost predicate Keeps(remote: Remote, cs: seq<Candidate>, first: Trace)
  {
    && (forall h: Trace | h != [] && h[|h| - 1] in {CheckTools, FetchKey, WhoAmI} :: remote(h) == Accepted)
    && (forall h: Trace | h != [] && h[|h| - 1].CheckRpm? :: remote(h) == Accepted)
    && (forall h: Trace, k | h != [] && 0 <= k < |cs| && h[|h| - 1] == ListRoute(cs[k].route) :: ListsVerified(remote(h), cs[k].route, first))
  }

  ghost predicate ListsVerified(reply: Reply, route: Route, first: Trace)
  {
    reply.Listed? && exists record :: OnlyRecord(reply.records, route.asset, record) && Verified(route, record) in first
  }

  lemma KeptIsSettled(remote: Remote, remote': Remote, format: Format, cs: seq<Candidate>, first: Trace)
    requires DistinctAssets(cs) && AllJustified(remote, format, cs, first) && Keeps(remote', cs, first)
    ensures Settled(remote', format, cs)
  {
    forall h: Trace, k | h != [] && 0 <= k < |cs| && h[|h| - 1] == ListRoute(cs[k].route)
      ensures ListsCompleted(remote'(h), cs[k], format)
    {
      assert ListsVerified(remote'(h), cs[k].route, first);
      var record :| OnlyRecord(remote'(h).records, cs[k].route.asset, record) && Verified(cs[k].route, record) in first;
      VerifiedIsCompleted(remote, format, cs, first, k, record);
      assert ShowsCompleted(remote'(h).records, format, cs[k], record);
    }
  }

  lemma UniqueAsset(cs: seq<Candidate>, q: nat, k: nat)
    requires DistinctAssets(cs) && q < |cs| && k < |cs| && cs[q].route.asset == cs[k].route.asset
    ensures q == k
  {}

  lemma VerifiedIsCompleted(remote: Remote, format: Format, cs: seq<Candidate>, trace: Trace, k: nat, record: Record)
    requires DistinctAssets(cs) && AllJustified(remote, format, cs, trace)
    requires k < |cs| && Verified(cs[k].route, record) in trace
    ensures Identifies(record, cs[k], format) && Complete(record)
    ensures format.Rpm? ==> CheckRpm(cs[k].route, record) in trace
  {
    var i :| 0 <= i < |trace| && trace[i] == Verified(cs[k].route, record);
    var q :| 0 <= q < |cs| && Justified(remote, format, trace, i, cs[q]);
    UniqueAsset(cs, q, k);
    var j :| 0 <= j < i && CompletedAt(remote, format, trace, j, cs[q], trace[i].record);
  }

  /** After a normal run, a second run against a remote that keeps its records pushes nothing. */
  method PublishAgain(remote: Remote, remote': Remote, request: Request)
    returns (first: Outcome, second: Outcome, trace: Trace, trace': Trace)
    ensures first != Error && Keeps(remote', request.candidates, trace) ==> second == SkippedAlreadyIdentical && !HasPush(trace')
  {
    ghost var at, states, at', states';
    first, trace, at, states := PublishRoutes(remote, request);
    second, trace', at', states' := PublishRoutes(remote', request);
    hide Keeps, Settled, Cooperates, AllJustified;
    if first != Error && Keeps(remote', request.candidates, trace) {
      KeptIsSettled(remote, remote', request.format, request.candidates, trace);
    }
  }
}
