/** `propagate_type_fatality` on the census rows themselves. */
module FatalityRows {
  import opened Fatality
  import opened FatalityCap

  class Row {
    const owner: string
    const targetTypes: seq<string>
    var fatality: Severity
    /** `fatality_basis == "reached"`. */
    var reached: bool

    constructor (owner: string, targetTypes: seq<string>, fatality: Severity)
      ensures this.owner == owner && this.targetTypes == targetTypes && this.fatality == fatality && !reached
    {
      this.owner, this.targetTypes, this.fatality, reached := owner, targetTypes, fatality, false;
    }
  }

  /** What a row says about where documents enter. */
  datatype Site = Site(fatality: Severity, targets: seq<string>)

  ghost function Sites(rows: seq<Row>): (sites: seq<Site>)
    reads rows
    ensures |sites| == |rows|
    ensures forall i :: 0 <= i < |rows| ==> sites[i] == Site(rows[i].fatality, rows[i].targetTypes)
  {
    seq(|rows|, i requires 0 <= i < |rows| reads rows => Site(rows[i].fatality, rows[i].targetTypes))
  }

  /** A site of known severity hands a document to type `t`. */
  ghost predicate Enters(sites: seq<Site>, known: set<string>, t: string, f: Severity)
  {
    t in known && f != Unknown && exists i :: 0 <= i < |sites| && sites[i].fatality == f && t in sites[i].targets
  }

  ghost predicate EntryReaches(sites: seq<Site>, known: set<string>, g: Graph, t: string, f: Severity)
  {
    exists s :: Enters(sites, known, s, f) && Reaches(g, s, t)
  }

  /** The worst severity among the entries that reach `t`. */
  ghost predicate WorstEntry(sites: seq<Site>, known: set<string>, g: Graph, t: string, f: Severity)
  {
    EntryReaches(sites, known, g, t, f) && forall f' :: EntryReaches(sites, known, g, t, f') ==> f'.Rank() <= f.Rank()
  }

  /** The first loop's map: per known type the worst severity of the sites that name it. */
  ghost predicate Seeds(sites: seq<Site>, known: set<string>, seeds: map<string, Severity>)
  {
    && (forall t, f :: Enters(sites, known, t, f) ==> t in seeds && f.Rank() <= seeds[t].Rank())
    && (forall t :: t in seeds ==> Enters(sites, known, t, seeds[t]))
  }

  lemma SeedsGiveWorstEntry(sites: seq<Site>, known: set<string>, g: Graph, seeds: map<string, Severity>, t: string,
          f: Severity)
    requires Seeds(sites, known, seeds)
    ensures WorstReaching(seeds, g, t, f) ==> WorstEntry(sites, known, g, t, f)
    ensures EntryReaches(sites, known, g, t, f) ==> Reached(seeds, g, t)
  {
    hide Reaches, Enters;
    if WorstReaching(seeds, g, t, f) {
      var s :| s in seeds && seeds[s] == f && Reaches(g, s, t);
      assert Enters(sites, known, s, f);
      forall f' | EntryReaches(sites, known, g, t, f') ensures f'.Rank() <= f.Rank() {
        var u :| Enters(sites, known, u, f') && Reaches(g, u, t);
        assert u in seeds;
      }
    }
    if EntryReaches(sites, known, g, t, f) {
      var u :| Enters(sites, known, u, f) && Reaches(g, u, t);
      assert u in seeds;
    }
  }

  /** The first loop. */
  method CollectSeeds(rows: seq<Row>, known: set<string>) returns (seeds: map<string, Severity>)
    ensures Seeds(Sites(rows), known, seeds)
  {
    ghost var sites := Sites(rows);
    seeds := map[];
    for i := 0 to |rows|
      invariant Seeds(sites[..i], known, seeds)
    {
      var f, targets := rows[i].fatality, rows[i].targetTypes;
      assert sites[i] == Site(f, targets);
      assert sites[..i + 1] == sites[..i] + [Site(f, targets)];
      if f != Unknown {
        seeds := AddTargets(sites[..i], known, seeds, f, targets);
      } else {
        SilentSite(sites[..i], known, seeds, targets);
      }
    }
    assert sites[..|rows|] == sites;
  }

  lemma EntersOneMore(sites: seq<Site>, known: set<string>, site: Site, t: string, f: Severity)
    ensures Enters(sites + [site], known, t, f) <==>
              Enters(sites, known, t, f) || (t in known && f != Unknown && site.fatality == f && t in site.targets)
  {
    var all := sites + [site];
    if t in known && f != Unknown {
      if i :| 0 <= i < |all| && all[i].fatality == f && t in all[i].targets {
        if i < |sites| { assert sites[i].fatality == f && t in sites[i].targets; }
      }
      if i :| 0 <= i < |sites| && sites[i].fatality == f && t in sites[i].targets { assert all[i].fatality == f && t in all[i].targets; }
      if site.fatality == f && t in site.targets { assert all[|sites|].fatality == f && t in all[|sites|].targets; }
    }
  }

  lemma SilentSite(sites: seq<Site>, known: set<string>, seeds: map<string, Severity>, targets: seq<string>)
    requires Seeds(sites, known, seeds)
    ensures Seeds(sites + [Site(Unknown, targets)], known, seeds)
  {
    hide Enters;
    forall t, f ensures Enters(sites + [Site(Unknown, targets)], known, t, f) <==> Enters(sites, known, t, f) {
      EntersOneMore(sites, known, Site(Unknown, targets), t, f);
      NeverUnknown(sites + [Site(Unknown, targets)], known, t);
    }
  }

  lemma NeverUnknown(sites: seq<Site>, known: set<string>, t: string)
    ensures !Enters(sites, known, t, Unknown)
  {}

  /** The inner loop over one row's target types. */
  method AddTargets(ghost sites: seq<Site>, known: set<string>, seeds0: map<string, Severity>, f: Severity,
          targets: seq<string>)
    returns (seeds: map<string, Severity>)
    requires Seeds(sites, known, seeds0) && f != Unknown
    ensures Seeds(sites + [Site(f, targets)], known, seeds)
  {
    seeds := seeds0;
    assert targets[..0] == [];
    NoTargets(sites, known, seeds, f);
    for j := 0 to |targets|
      invariant Seeds(sites + [Site(f, targets[..j])], known, seeds)
    {
      var t := targets[j];
      assert targets[..j + 1] == targets[..j] + [t];
      ghost var before := seeds;
      if t in known {
        seeds := seeds[t := Worst(if t in seeds then seeds[t] else Unknown, f)];
      }
      OneTarget(sites, known, before, f, targets[..j], t);
    }
    assert targets[..|targets|] == targets;
  }

  lemma NoTargets(sites: seq<Site>, known: set<string>, seeds: map<string, Severity>, f: Severity)
    requires Seeds(sites, known, seeds)
    ensures Seeds(sites + [Site(f, [])], known, seeds)
  {
    hide Enters;
    forall t, f' ensures Enters(sites + [Site(f, [])], known, t, f') <==> Enters(sites, known, t, f') {
      EntersOneMore(sites, known, Site(f, []), t, f');
    }
  }

  lemma OneTarget(sites: seq<Site>, known: set<string>, seeds: map<string, Severity>, f: Severity,
          targets: seq<string>, t: string)
    requires Seeds(sites + [Site(f, targets)], known, seeds) && f != Unknown
    ensures Seeds(sites + [Site(f, targets + [t])], known,
                  if t in known then seeds[t := Worst(if t in seeds then seeds[t] else Unknown, f)] else seeds)
  {
    hide Enters;
    forall x, f'
      ensures Enters(sites + [Site(f, targets + [t])], known, x, f') <==>
              Enters(sites + [Site(f, targets)], known, x, f') || (x == t && t in known && f' == f)
    {
      EntersOneMore(sites, known, Site(f, targets), x, f');
      EntersOneMore(sites, known, Site(f, targets + [t]), x, f');
    }
  }

  /**
   * The whole function: the unknown rows whose owner the capped loop reached take what it recorded,
   * and no other row changes. With at most 3334 known types, to which all delegations lead, that
   * is exactly the worst severity among the entries that reach the owner, if any does.
   */
  method PropagateTypeFatality(rows: seq<Row>, g: Graph, known: set<string>)
    returns (ghost seeds: map<string, Severity>, ghost resolved: map<string, Severity>)
    requires Inside(g, known)
    modifies rows
    ensures Seeds(old(Sites(rows)), known, seeds) && Outcome(seeds, g, resolved)
    ensures forall r :: r in rows ==>
              if old(r.fatality) == Unknown && r.owner in resolved
              then r.fatality == resolved[r.owner] && r.reached
              else r.fatality == old(r.fatality) && r.reached == old(r.reached)
    ensures |known| <= MOST_TYPES ==>
              forall r :: r in rows && old(r.fatality) == Unknown ==>
                (if r.fatality == Unknown
                 then (forall f :: !EntryReaches(old(Sites(rows)), known, g, r.owner, f)) && r.reached == old(r.reached)
                 else WorstEntry(old(Sites(rows)), known, g, r.owner, r.fatality) && r.reached)
  {
    hide EntryReaches, WorstEntry, Seeds, Exact, Sound, Inside, Reached, Outcome;
    ghost var sites := Sites(rows);
    var entries := CollectSeeds(rows, known);
    SeedsKnown(sites, known, entries);
    var recorded;
    ghost var pops;
    recorded, pops := Propagate(entries, g, known);
    if |known| <= MOST_TYPES { ResolvedMeansEntry(sites, known, g, entries, recorded); }
    ResolvedKnown(entries, g, recorded);
    RecordReached(rows, recorded);
    seeds, resolved := entries, recorded;
  }

  /** The last loop. */
  method RecordReached(rows: seq<Row>, resolved: map<string, Severity>)
    requires forall t :: t in resolved ==> resolved[t] != Unknown
    modifies rows
    ensures forall r :: r in rows ==>
              if old(r.fatality) == Unknown && r.owner in resolved
              then r.fatality == resolved[r.owner] && r.reached
              else r.fatality == old(r.fatality) && r.reached == old(r.reached)
  {
    for i := 0 to |rows|
      invariant forall r :: r in rows ==>
        (r.fatality == old(r.fatality) && r.reached == old(r.reached)) ||
        (old(r.fatality) == Unknown && r.owner in resolved && r.fatality == resolved[r.owner] && r.reached)
      invariant forall k :: 0 <= k < i && rows[k].fatality == Unknown ==> rows[k].owner !in resolved
    {
      var r := rows[i];
      if r.fatality == Unknown && r.owner in resolved {
        r.fatality := resolved[r.owner];
        r.reached := true;
      }
    }
  }

  lemma SeedsKnown(sites: seq<Site>, known: set<string>, seeds: map<string, Severity>)
    requires Seeds(sites, known, seeds)
    ensures seeds.Keys <= known && forall s :: s in seeds ==> seeds[s] != Unknown
  {}

  lemma ResolvedKnown(seeds: map<string, Severity>, g: Graph, resolved: map<string, Severity>)
    requires Sound(seeds, g, resolved)
    ensures forall t :: t in resolved ==> resolved[t] != Unknown
  {}

  lemma ResolvedMeansEntry(sites: seq<Site>, known: set<string>, g: Graph, seeds: map<string, Severity>,
          resolved: map<string, Severity>)
    requires Seeds(sites, known, seeds) && Exact(seeds, g, resolved)
    ensures forall t :: t in resolved ==> WorstEntry(sites, known, g, t, resolved[t])
    ensures forall t, f :: t !in resolved ==> !EntryReaches(sites, known, g, t, f)
  {
    hide Seeds, WorstReaching, Reached, WorstEntry, EntryReaches;
    forall t | t in resolved ensures WorstEntry(sites, known, g, t, resolved[t]) {
      SeedsGiveWorstEntry(sites, known, g, seeds, t, resolved[t]);
    }
    forall t, f | t !in resolved ensures !EntryReaches(sites, known, g, t, f) {
      SeedsGiveWorstEntry(sites, known, g, seeds, t, f);
    }
  }
}
