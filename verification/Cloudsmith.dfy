/** Records, identity checks and states of the package provider (`release/cloudsmith_publish.py`). */
module Cloudsmith {
  import opened Options

  datatype Format = Apt | Rpm

  datatype Route = Route(asset: string, distribution: string, release: string)

  /** A selected route with the digest of its local file; `None` for a missing or unsafe file. */
  datatype Candidate = Candidate(route: Route, digest: Option<string>)

  /** A listed package; fields the provider left out or mistyped are `None`. */
  datatype Record = Record(
    filename: string,
    checksum: Option<string>,
    format: Option<string>,
    distro: Option<string>,
    distroVersion: Option<string>,
    syncFailed: Option<bool>,
    syncCompleted: Option<bool>)

  datatype Exact = Ambiguous | Missing | Found(record: Record)

  datatype SyncState = SyncFailed | SyncCompleted | SyncPending

  function Matching(records: seq<Record>, asset: string): seq<Record>
  {
    if records == [] then []
    else (if records[0].filename == asset then [records[0]] else []) + Matching(records[1..], asset)
  }

  /** `_exact_record`. */
  function ExactRecord(records: seq<Record>, asset: string): Exact
  {
    var exact := Matching(records, asset);
    if |exact| > 1 then Ambiguous else if exact == [] then Missing else Found(exact[0])
  }

  predicate IsSha256(text: string)
  {
    |text| == 64 && forall i | 0 <= i < 64 :: '0' <= text[i] <= '9' || 'a' <= text[i] <= 'f'
  }

  function ProviderFormat(format: Format): string
  {
    if format == Apt then "deb" else "rpm"
  }

  /** `_validate_record_identity` does not raise. */
  predicate IdentityValid(record: Record, c: Candidate, format: Format)
  {
    && record.checksum.Some? && IsSha256(record.checksum.value)
    && (format == Apt ==> record.checksum == c.digest)
    && record.format == Some(ProviderFormat(format))
    && record.distro == Some(c.route.distribution)
    && record.distroVersion == Some(c.route.release)
  }

  /** `_sync_state`. */
  function SyncOf(record: Record): SyncState
  {
    if record.syncFailed == Some(true) then SyncFailed
    else if record.syncCompleted == Some(true) && record.syncFailed == Some(false) then SyncCompleted
    else SyncPending
  }

  // ---------------------------------------------------------------- commands and replies

  /** What the tool does, in order. `Verified` marks a finished `_verify_completed_route`. */
  datatype Event =
    | CheckTools
    | FetchKey
    | WhoAmI
    | ListRoute(route: Route)
    | CheckRpm(route: Route, record: Record)
    | Verified(route: Route, record: Record)
    | Push(route: Route)
    | Sleep

  datatype Reply = Refused | Accepted | Listed(records: seq<Record>)

  type Trace = seq<Event>

  /** The outside world: any reply to the last event, depending on everything before it. */
  type Remote = Trace -> Reply

  /** What one listing said about a candidate that the tool went on with. */
  datatype RouteState = RouteMissing | RoutePending | RouteCompleted

  /** What a listing says of an asset when it is the only record with that name. */
  ghost predicate OnlyRecord(records: seq<Record>, asset: string, record: Record)
  {
    exists i :: 0 <= i < |records| && OnlyAt(records, asset, record, i)
  }

  ghost predicate OnlyAt(records: seq<Record>, asset: string, record: Record, i: nat)
    requires i < |records|
  {
    && records[i] == record && record.filename == asset
    && forall j | 0 <= j < |records| && j != i :: records[j].filename != asset
  }

  ghost predicate NotListed(records: seq<Record>, asset: string)
  {
    forall record | record in records :: record.filename != asset
  }

  /** The record is of this very package; an APT package keeps its contents, an RPM is signed anew. */
  ghost predicate Identifies(record: Record, c: Candidate, format: Format)
  {
    && record.filename == c.route.asset
    && record.distro == Some(c.route.distribution) && record.distroVersion == Some(c.route.release)
    && record.format == Some(match format case Apt => "deb" case Rpm => "rpm")
    && record.checksum.Some? && |record.checksum.value| == 64
    && (forall digit | digit in record.checksum.value :: digit in "0123456789abcdef")
    && (format.Apt? ==> record.checksum == c.digest)
  }

  ghost predicate Complete(record: Record)
  {
    record.syncCompleted == Some(true) && record.syncFailed == Some(false)
  }

  lemma {:induction false} MatchingAre(records: seq<Record>, asset: string)
    ensures forall record :: record in Matching(records, asset) <==> record in records && record.filename == asset
    ensures |Matching(records, asset)| == 0 <==> NotListed(records, asset)
    ensures |Matching(records, asset)| == 1 <==> exists record :: OnlyRecord(records, asset, record)
    ensures forall record :: OnlyRecord(records, asset, record) ==> Matching(records, asset) == [record]
  {
    hide OnlyRecord;
    if records == [] {
      forall record ensures !OnlyRecord([], asset, record) { OnlyOfNone(asset, record); }
    } else {
      var first, rest := records[0], records[1..];
      MatchingAre(rest, asset);
      assert records == [first] + rest;
      if first.filename == asset {
        forall record ensures OnlyRecord(records, asset, record) <==> record == first && NotListed(rest, asset) {
          OnlyFirst(first, rest, asset, record);
        }
        assert OnlyRecord(records, asset, first) <==> NotListed(rest, asset);
      } else {
        forall record ensures OnlyRecord(records, asset, record) <==> OnlyRecord(rest, asset, record) {
          OnlyLater(first, rest, asset, record);
        }
      }
    }
  }

  lemma OnlyOfNone(asset: string, record: Record)
    ensures !OnlyRecord([], asset, record)
  {}

  lemma OnlyFirst(first: Record, rest: seq<Record>, asset: string, record: Record)
    requires first.filename == asset
    ensures OnlyRecord([first] + rest, asset, record) <==> record == first && NotListed(rest, asset)
  {
    var records := [first] + rest;
    if i :| 0 <= i < |records| && OnlyAt(records, asset, record, i) {
      assert i == 0 by { assert records[0].filename == asset; }
      forall other | other in rest ensures other.filename != asset {
        var j :| 0 <= j < |rest| && rest[j] == other;
        assert records[j + 1] == other;
      }
    }
    if record == first && NotListed(rest, asset) { assert OnlyAt(records, asset, record, 0); }
  }

  lemma OnlyLater(first: Record, rest: seq<Record>, asset: string, record: Record)
    requires first.filename != asset
    ensures OnlyRecord([first] + rest, asset, record) <==> OnlyRecord(rest, asset, record)
  {
    var records := [first] + rest;
    if i :| 0 <= i < |records| && OnlyAt(records, asset, record, i) {
      forall j | 0 <= j < |rest| && j != i - 1 ensures rest[j].filename != asset { assert records[j + 1] == rest[j]; }
      assert OnlyAt(rest, asset, record, i - 1);
    }
    if i :| 0 <= i < |rest| && OnlyAt(rest, asset, record, i) {
      forall j | 0 <= j < |records| && j != i + 1 ensures records[j].filename != asset {
        if j > 0 { assert records[j] == rest[j - 1]; }
      }
      assert OnlyAt(records, asset, record, i + 1);
    }
  }

  /** The reading of a listing: one record with the name, none, or an ambiguity. */
  lemma ExactRecordIs(records: seq<Record>, asset: string)
    ensures ExactRecord(records, asset).Missing? <==> NotListed(records, asset)
    ensures forall record :: ExactRecord(records, asset) == Found(record) <==> OnlyRecord(records, asset, record)
  {
    hide OnlyRecord, NotListed;
    MatchingAre(records, asset);
    if |Matching(records, asset)| == 1 { var record :| OnlyRecord(records, asset, record); }
  }

  lemma SameIdentity(record: Record, c: Candidate, format: Format)
    requires record.filename == c.route.asset
    ensures IdentityValid(record, c, format) <==> Identifies(record, c, format)
  {
    if record.checksum.Some? {
      var text := record.checksum.value;
      var digits := "0123456789abcdef";
      forall c: char ensures c in digits <==> ('0' <= c <= '9' || 'a' <= c <= 'f') {
        assert digits[0] == '0' && digits[1] == '1' && digits[2] == '2' && digits[3] == '3' && digits[4] == '4';
        assert digits[5] == '5' && digits[6] == '6' && digits[7] == '7' && digits[8] == '8' && digits[9] == '9';
        assert digits[10] == 'a' && digits[11] == 'b' && digits[12] == 'c' && digits[13] == 'd' && digits[14] == 'e';
        assert digits[15] == 'f';
      }
      if IsSha256(text) {
        forall digit | digit in text ensures digit in digits {}
      }
      if |text| == 64 && forall digit | digit in text :: digit in digits {
        forall i | 0 <= i < 64 ensures text[i] in digits { assert text[i] in text; }
      }
    }
  }

  lemma SameSync(record: Record)
    ensures SyncOf(record) == SyncCompleted <==> Complete(record)
    ensures SyncOf(record) == SyncFailed <==> record.syncFailed == Some(true)
  {}

  ghost predicate ListedAs(remote: Remote, format: Format, trace: Trace, j: nat, c: Candidate, state: RouteState)
  {
    && j < |trace| && trace[j] == ListRoute(c.route) && remote(trace[..j + 1]).Listed?
    && ShownAs(remote(trace[..j + 1]).records, format, c, state)
  }

  /** Absent, or one record of this package that has not failed and is complete or not. */
  ghost predicate ShownAs(records: seq<Record>, format: Format, c: Candidate, state: RouteState)
  {
    match state
    case RouteMissing => NotListed(records, c.route.asset)
    case RoutePending => exists record :: ShowsPending(records, format, c, record)
    case RouteCompleted => exists record :: ShowsCompleted(records, format, c, record)
  }

  ghost predicate ShowsPending(records: seq<Record>, format: Format, c: Candidate, record: Record)
  {
    && OnlyRecord(records, c.route.asset, record) && Identifies(record, c, format)
    && !Complete(record) && record.syncFailed != Some(true)
  }

  ghost predicate ShowsCompleted(records: seq<Record>, format: Format, c: Candidate, record: Record)
  {
    OnlyRecord(records, c.route.asset, record) && Identifies(record, c, format) && Complete(record)
  }

  /** How the tool reads a listing is what the listing shows, for every list of records. */
  lemma ReadingShows(records: seq<Record>, format: Format, c: Candidate)
    ensures forall state :: ShownAs(records, format, c, state) <==>
              match ExactRecord(records, c.route.asset)
              case Ambiguous => false
              case Missing => state == RouteMissing
              case Found(record) =>
                && IdentityValid(record, c, format) && SyncOf(record) != SyncFailed
                && state == if SyncOf(record) == SyncCompleted then RouteCompleted else RoutePending
    ensures forall record :: ShowsCompleted(records, format, c, record) <==>
              ExactRecord(records, c.route.asset) == Found(record) && IdentityValid(record, c, format) && SyncOf(record) == SyncCompleted
  {
    var asset := c.route.asset;
    ExactRecordIs(records, asset);
    forall record | OnlyRecord(records, asset, record) ensures IdentityValid(record, c, format) <==> Identifies(record, c, format) {
      SameIdentity(record, c, format);
    }
    forall record ensures SyncOf(record) == SyncCompleted <==> Complete(record) { SameSync(record); }
    forall record ensures SyncOf(record) == SyncFailed <==> record.syncFailed == Some(true) { SameSync(record); }
    hide ExactRecord, OnlyRecord, NotListed, IdentityValid, Identifies, SyncOf, Complete;
    forall state ensures ShownAs(records, format, c, state) <==>
              match ExactRecord(records, asset)
              case Ambiguous => false
              case Missing => state == RouteMissing
              case Found(record) =>
                && IdentityValid(record, c, format) && SyncOf(record) != SyncFailed
                && state == if SyncOf(record) == SyncCompleted then RouteCompleted else RoutePending
    {
      match ExactRecord(records, asset) {
        case Found(record) =>
          assert OnlyRecord(records, asset, record);
          if IdentityValid(record, c, format) && SyncOf(record) == SyncCompleted { assert ShowsCompleted(records, format, c, record); }
          if IdentityValid(record, c, format) && SyncOf(record) == SyncPending { assert ShowsPending(records, format, c, record); }
        case _ =>
      }
    }
  }

  /** A verification the tool had a reason to accept. */
  ghost predicate Justified(remote: Remote, format: Format, trace: Trace, i: nat, c: Candidate)
    requires i < |trace| && trace[i].Verified?
  {
    && trace[i].route == c.route
    && (exists j :: 0 <= j < i && CompletedAt(remote, format, trace, j, c, trace[i].record))
    && (format == Rpm ==> exists j :: 0 <= j < i && RpmAccepted(remote, trace, j, c.route, trace[i].record))
  }

  /** The listing at `j` showed the completed record. */
  ghost predicate CompletedAt(remote: Remote, format: Format, trace: Trace, j: nat, c: Candidate, record: Record)
  {
    && j < |trace| && trace[j] == ListRoute(c.route) && remote(trace[..j + 1]).Listed?
    && ShowsCompleted(remote(trace[..j + 1]).records, format, c, record)
  }

  ghost predicate RpmAccepted(remote: Remote, trace: Trace, j: nat, route: Route, record: Record)
  {
    j < |trace| && trace[j] == CheckRpm(route, record) && remote(trace[..j + 1]) == Accepted
  }

  ghost predicate AllJustified(remote: Remote, format: Format, cs: seq<Candidate>, trace: Trace)
  {
    forall i | 0 <= i < |trace| && trace[i].Verified? :: exists k :: 0 <= k < |cs| && Justified(remote, format, trace, i, cs[k])
  }

  function VerifiedCount(trace: Trace, asset: string): nat
  {
    if trace == [] then 0
    else
      var last := trace[|trace| - 1];
      VerifiedCount(trace[..|trace| - 1], asset) + if last.Verified? && last.route.asset == asset then 1 else 0
  }

  predicate HasPush(trace: Trace)
  {
    exists i :: 0 <= i < |trace| && trace[i].Push?
  }

  lemma CountMore(trace: Trace, event: Event, asset: string)
    ensures VerifiedCount(trace + [event], asset) == VerifiedCount(trace, asset) + if event.Verified? && event.route.asset == asset then 1 else 0
  {
    assert (trace + [event])[..|trace|] == trace;
  }

  lemma ListedStable(remote: Remote, format: Format, trace: Trace, trace': Trace, j: nat, c: Candidate,
          state: RouteState)
    requires trace <= trace' && ListedAs(remote, format, trace, j, c, state)
    ensures ListedAs(remote, format, trace', j, c, state)
    ensures trace[..j + 1] == trace'[..j + 1]
  {
    assert trace[..j + 1] == trace'[..j + 1];
  }

  lemma JustifiedStable(remote: Remote, format: Format, trace: Trace, trace': Trace, i: nat, c: Candidate)
    requires trace <= trace' && i < |trace| && trace[i].Verified? && Justified(remote, format, trace, i, c)
    ensures Justified(remote, format, trace', i, c)
  {
    var j :| 0 <= j < i && CompletedAt(remote, format, trace, j, c, trace[i].record);
    assert trace[..j + 1] == trace'[..j + 1];
    assert CompletedAt(remote, format, trace', j, c, trace'[i].record);
    if format == Rpm {
      var k :| 0 <= k < i && RpmAccepted(remote, trace, k, c.route, trace[i].record);
      assert trace[..k + 1] == trace'[..k + 1];
      assert RpmAccepted(remote, trace', k, c.route, trace'[i].record);
    }
  }

  /** An event that is no verification keeps all verifications justified. */
  lemma JustifiedMore(remote: Remote, format: Format, cs: seq<Candidate>, trace: Trace, event: Event)
    requires AllJustified(remote, format, cs, trace)
    requires event.Verified? ==> exists k :: 0 <= k < |cs| && Justified(remote, format, trace + [event], |trace|, cs[k])
    ensures AllJustified(remote, format, cs, trace + [event])
  {
    var trace' := trace + [event];
    forall i | 0 <= i < |trace'| && trace'[i].Verified?
      ensures exists k :: 0 <= k < |cs| && Justified(remote, format, trace', i, cs[k])
    {
      if i < |trace| {
        var k :| 0 <= k < |cs| && Justified(remote, format, trace, i, cs[k]);
        JustifiedStable(remote, format, trace, trace', i, cs[k]);
      }
    }
  }
}
