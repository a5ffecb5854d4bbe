/** The host network cohort: `HostStatsCollector` in `benchmark/collect_stats.py` and the audit that judges it. */
module HostNetwork {
  import opened Options

  datatype Counters = Counters(rx: nat, tx: nat)

  type Network = map<string, Counters>

  datatype Cpu = Cpu(total: int, busy: int)

  datatype Memory = Memory(usage: nat, limit: nat)

  /** What the files under `/proc` hold at one tick; `None` when reading one fails. */
  datatype Reading = Reading(cpu: Option<Cpu>, memory: Option<Memory>, network: Option<Network>)

  datatype Sample = Sample(cpuPercent: real, memory: Memory, rx: nat, tx: nat)

  /** `read_host_network` returns at least one interface and no empty name. */
  predicate Readable(r: Reading)
  {
    r.network.Some? ==> r.network.value != map[] && "" !in r.network.value
  }

  ghost function SumRx(m: Network, s: set<string>): nat
    requires s <= m.Keys
  {
    if s == {} then 0 else var x :| x in s; m[x].rx + SumRx(m, s - {x})
  }

  ghost function SumTx(m: Network, s: set<string>): nat
    requires s <= m.Keys
  {
    if s == {} then 0 else var x :| x in s; m[x].tx + SumTx(m, s - {x})
  }

  lemma {:induction false} SumPick(m: Network, s: set<string>, x: string)
    requires s <= m.Keys && x in s
    ensures SumRx(m, s) == m[x].rx + SumRx(m, s - {x}) && SumTx(m, s) == m[x].tx + SumTx(m, s - {x})
    decreases s
  {
    var y :| y in s && SumRx(m, s) == m[y].rx + SumRx(m, s - {y});
    if y != x {
      SumPick(m, s - {y}, x);
      SumPick(m, s - {x}, y);
      assert s - {y} - {x} == s - {x} - {y};
    }
    var z :| z in s && SumTx(m, s) == m[z].tx + SumTx(m, s - {z});
    if z != x {
      SumPick(m, s - {z}, x);
      SumPick(m, s - {x}, z);
      assert s - {z} - {x} == s - {x} - {z};
    }
  }

  /** No counter of the later network is below the earlier one. */
  ghost predicate Advanced(before: Network, after: Network)
  {
    before.Keys == after.Keys && forall x | x in before :: before[x].rx <= after[x].rx && before[x].tx <= after[x].tx
  }

  lemma {:induction false} SumAdvanced(before: Network, after: Network, s: set<string>)
    requires Advanced(before, after) && s <= before.Keys
    ensures SumRx(before, s) <= SumRx(after, s) && SumTx(before, s) <= SumTx(after, s)
    decreases s
  {
    if s != {} {
      var x :| x in s;
      SumAdvanced(before, after, s - {x});
      SumPick(before, s, x);
      SumPick(after, s, x);
    }
  }

  method Totals(m: Network, s: set<string>) returns (rx: nat, tx: nat)
    requires s <= m.Keys
    ensures rx == SumRx(m, s) && tx == SumTx(m, s)
  {
    rx, tx := 0, 0;
    var todo := s;
    while todo != {}
      invariant todo <= s && rx + SumRx(m, todo) == SumRx(m, s) && tx + SumTx(m, todo) == SumTx(m, s)
      decreases todo
    {
      var x :| x in todo;
      SumPick(m, todo, x);
      rx, tx, todo := rx + m[x].rx, tx + m[x].tx, todo - {x};
    }
  }

  class HostStatsCollector {
    const affinity: nat
    const networkInterfaces: set<string>
    var previous: Cpu
    var active: set<string>
    var retired: set<string>
    var ignoredNew: set<string>
    var previousNetwork: Network

    /** The cohort invariant. */
    ghost predicate Valid()
      reads this
    {
      && affinity > 0 && networkInterfaces != {} && "" !in networkInterfaces && "" !in ignoredNew
      && active * retired == {} && active + retired == networkInterfaces
      && ignoredNew * networkInterfaces == {}
      && previousNetwork.Keys == networkInterfaces
    }

    constructor (affinity: nat, cpu: Cpu, network: Network)
      requires affinity > 0 && network != map[] && "" !in network
      ensures Valid() && networkInterfaces == network.Keys && active == network.Keys
      ensures this.affinity == affinity && retired == {} && ignoredNew == {} && previousNetwork == network && previous == cpu
    {
      this.affinity := affinity;
      networkInterfaces := network.Keys;
      previous, active, retired, ignoredNew, previousNetwork := cpu, network.Keys, {}, {}, network;
      var x :| x in network;
    }

    /** What a reading of the network does to the cohort, whether or not the sample is then accepted. */
    twostate predicate Observed(network: Network)
      reads this
    {
      && ignoredNew == old(ignoredNew) + (network.Keys - networkInterfaces)
      && active == old(active) * network.Keys
      && retired == old(retired) + (old(active) - network.Keys)
    }

    /** Interfaces outside the cohort and retired ones keep their last counters; the others may only grow. */
    twostate predicate Frozen(network: Network)
      reads this
    {
      forall x | x in networkInterfaces :: x in previousNetwork && x in old(previousNetwork)
        && (previousNetwork[x] == old(previousNetwork)[x] || (x in active && x in network && previousNetwork[x] == network[x]))
    }

    predicate CpuAdvances(reading: Reading, before: Cpu)
    {
      reading.cpu.Some? && reading.cpu.value.total > before.total && reading.cpu.value.busy >= before.busy
    }

    predicate CountersAdvance(network: Network, active: set<string>, before: Network)
    {
      forall x | x in active && x in network && x in before :: before[x].rx <= network[x].rx && before[x].tx <= network[x].tx
    }

    /** `collect`: a sample, or an error after which the collector is still consistent. */
    method Collect(reading: Reading) returns (sample: Option<Sample>)
      requires Valid() && Readable(reading)
      modifies this
      ensures Valid() && Advanced(old(previousNetwork), previousNetwork)
      ensures sample.Some? <==>
        && CpuAdvances(reading, old(previous)) && reading.memory.Some? && reading.network.Some?
        && old(active) * reading.network.value.Keys != {}
        && CountersAdvance(reading.network.value, old(active), old(previousNetwork))
      ensures sample.Some? ==>
        && sample.value.rx == SumRx(previousNetwork, networkInterfaces) && sample.value.tx == SumTx(previousNetwork, networkInterfaces)
        && sample.value.memory == reading.memory.value
        && sample.value.cpuPercent * (reading.cpu.value.total - old(previous).total) as real
           == (reading.cpu.value.busy - old(previous).busy) as real * affinity as real * 100.0
        && Observed(reading.network.value)
        && forall x | x in networkInterfaces ::
             previousNetwork[x] == if x in active then reading.network.value[x] else old(previousNetwork)[x]
      ensures old(CpuAdvances(reading, previous)) && reading.memory.Some? && reading.network.Some? ==>
        Observed(reading.network.value) && Frozen(reading.network.value)
      ensures !(CpuAdvances(reading, old(previous)) && reading.memory.Some? && reading.network.Some?) ==>
        active == old(active) && retired == old(retired) && ignoredNew == old(ignoredNew) && previousNetwork == old(previousNetwork)
      ensures previous == if reading.cpu.Some? then reading.cpu.value else old(previous)
    {
      sample := None;
      if reading.cpu.None? { return; }
      var totalDelta, busyDelta := reading.cpu.value.total - previous.total, reading.cpu.value.busy - previous.busy;
      previous := reading.cpu.value;
      if totalDelta <= 0 || busyDelta < 0 { return; }
      PercentTimesTotal(busyDelta, totalDelta);
      var cpuPercent := busyDelta as real / totalDelta as real * affinity as real * 100.0;
      if reading.memory.None? || reading.network.None? { return; }
      var network := reading.network.value;
      ignoredNew := ignoredNew + (network.Keys - networkInterfaces);
      var missing := active - network.Keys;
      if missing != {} {
        active := active - missing;
        retired := retired + missing;
      }
      if active == {} { return; }
      ghost var before := previousNetwork;
      var ok := Adopt(network);
      if !ok { return; }
      var rx, tx := Totals(previousNetwork, networkInterfaces);
      sample := Some(Sample(cpuPercent, reading.memory.value, rx, tx));
    }

    /** The share is a quotient, so the product gives it back. */
    lemma PercentTimesTotal(busyDelta: int, totalDelta: int)
      requires totalDelta > 0
      ensures (busyDelta as real / totalDelta as real * affinity as real * 100.0) * totalDelta as real == busyDelta as real * affinity as real * 100.0
    {
      var share := busyDelta as real / totalDelta as real;
      assert share * totalDelta as real == busyDelta as real;
      ProductOrder(share, totalDelta as real, affinity as real);
    }

    lemma ProductOrder(share: real, total: real, cores: real)
      ensures (share * cores * 100.0) * total == (share * total) * cores * 100.0
    {}

    /** The loop over the active interfaces, in any order; it stops at the first counter that was reset. */
    method Adopt(network: Network) returns (ok: bool)
      requires active <= network.Keys && active <= networkInterfaces && previousNetwork.Keys == networkInterfaces
      modifies this`previousNetwork
      ensures previousNetwork.Keys == networkInterfaces && Advanced(old(previousNetwork), previousNetwork)
      ensures ok <==> CountersAdvance(network, active, old(previousNetwork))
      ensures forall x | x in networkInterfaces ::
        previousNetwork[x] == old(previousNetwork)[x] || (x in active && previousNetwork[x] == network[x])
      ensures ok ==> forall x | x in networkInterfaces :: previousNetwork[x] == if x in active then network[x] else old(previousNetwork)[x]
    {
      var todo := active;
      while todo != {}
        invariant todo <= active && previousNetwork.Keys == networkInterfaces
        invariant forall x | x in networkInterfaces ::
          previousNetwork[x] == if x in active - todo then network[x] else old(previousNetwork)[x]
        invariant forall x | x in active - todo :: old(previousNetwork)[x].rx <= network[x].rx && old(previousNetwork)[x].tx <= network[x].tx
        decreases todo
      {
        var x :| x in todo;
        todo := todo - {x};
        if network[x].rx < previousNetwork[x].rx || network[x].tx < previousNetwork[x].tx { return false; }
        previousNetwork := previousNetwork[x := network[x]];
      }
      return true;
    }
  }

  // ---------------------------------------------------------------- the audit

  datatype Audit = Audit(initial: seq<string>, active: seq<string>, retired: seq<string>, ignoredNew: seq<string>)

  datatype Observation = Observation(partial: bool, initial: set<string>, active: set<string>, retired: set<string>, ignoredNew: set<string>)

  function AsSet(s: seq<string>): set<string>
  {
    set x | x in s
  }

  predicate UniqueNames(s: seq<string>)
  {
    (forall i | 0 <= i < |s| :: s[i] != "") && forall i, j | 0 <= i < j < |s| :: s[i] != s[j]
  }

  /** `interface_set` and `host_network_observation`. */
  function HostNetworkObservation(audit: Audit): Option<Observation>
  {
    var initial, active, retired, ignoredNew := AsSet(audit.initial), AsSet(audit.active), AsSet(audit.retired), AsSet(audit.ignoredNew);
    if !UniqueNames(audit.initial) || !UniqueNames(audit.active) || !UniqueNames(audit.retired) || !UniqueNames(audit.ignoredNew) then None
    else if initial == {} || active * retired != {} || active + retired != initial then None
    else if ignoredNew * initial != {} then None
    else Some(Observation(retired != {} || ignoredNew != {}, initial, active, retired, ignoredNew))
  }

  /** A listing of a set without repetition, as sorting makes one. */
  ghost predicate Lists(names: seq<string>, s: set<string>)
  {
    AsSet(names) == s && forall i, j | 0 <= i < j < |names| :: names[i] != names[j]
  }

  ghost predicate AuditOf(c: HostStatsCollector, audit: Audit)
    reads c
  {
    && Lists(audit.initial, c.networkInterfaces) && Lists(audit.active, c.active)
    && Lists(audit.retired, c.retired) && Lists(audit.ignoredNew, c.ignoredNew)
  }

  lemma ListedNames(names: seq<string>, s: set<string>)
    requires Lists(names, s) && "" !in s
    ensures UniqueNames(names)
  {
    forall i | 0 <= i < |names| ensures names[i] != "" { assert names[i] in AsSet(names); }
  }

  /** The audit of a collector is always accepted, and says partial exactly when the cohort lost or met interfaces. */
  lemma AuditPasses(c: HostStatsCollector, audit: Audit)
    requires c.Valid() && AuditOf(c, audit)
    ensures HostNetworkObservation(audit) ==
            Some(Observation(c.retired != {} || c.ignoredNew != {}, c.networkInterfaces, c.active, c.retired, c.ignoredNew))
  {
    assert "" !in c.active && "" !in c.retired by { assert "" !in c.active + c.retired; }
    ListedNames(audit.initial, c.networkInterfaces);
    ListedNames(audit.active, c.active);
    ListedNames(audit.retired, c.retired);
    ListedNames(audit.ignoredNew, c.ignoredNew);
  }

  /** A list of different names, none empty. */
  predicate NamesOnce(names: seq<string>)
  {
    "" !in names && forall i, j | 0 <= i < |names| && 0 <= j < |names| && names[i] == names[j] :: i == j
  }

  /** Every baseline interface is active or retired and not both, nothing else is, and none counts as new. */
  ghost predicate Consistent(audit: Audit)
  {
    && NamesOnce(audit.initial) && NamesOnce(audit.active) && NamesOnce(audit.retired) && NamesOnce(audit.ignoredNew)
    && audit.initial != []
    && (forall x :: x in audit.initial <==> x in audit.active || x in audit.retired)
    && (forall x | x in audit.active :: x !in audit.retired)
    && (forall x | x in audit.ignoredNew :: x !in audit.initial)
  }

  lemma UniqueIff(names: seq<string>)
    ensures UniqueNames(names) <==> NamesOnce(names)
  {}

  lemma InSet(names: seq<string>, x: string)
    ensures x in AsSet(names) <==> x in names
  {}

  /** Audits are accepted exactly if they are consistent, and as partial exactly if something was retired or is new. */
  lemma AcceptedIffConsistent(audit: Audit)
    ensures HostNetworkObservation(audit).Some? <==> Consistent(audit)
    ensures HostNetworkObservation(audit).Some? ==>
              var o := HostNetworkObservation(audit).value;
              && (o.partial <==> audit.retired != [] || audit.ignoredNew != [])
              && (forall x :: x in o.initial <==> x in audit.initial) && (forall x :: x in o.active <==> x in audit.active)
              && (forall x :: x in o.retired <==> x in audit.retired) && (forall x :: x in o.ignoredNew <==> x in audit.ignoredNew)
  {
    UniqueIff(audit.initial);
    UniqueIff(audit.active);
    UniqueIff(audit.retired);
    UniqueIff(audit.ignoredNew);
    hide UniqueNames, NamesOnce;
    EmptyIff(audit.initial);
    EmptyIff(audit.retired);
    EmptyIff(audit.ignoredNew);
    forall x ensures x in AsSet(audit.initial) <==> x in audit.initial { InSet(audit.initial, x); }
    forall x ensures x in AsSet(audit.active) <==> x in audit.active { InSet(audit.active, x); }
    forall x ensures x in AsSet(audit.retired) <==> x in audit.retired { InSet(audit.retired, x); }
    forall x ensures x in AsSet(audit.ignoredNew) <==> x in audit.ignoredNew { InSet(audit.ignoredNew, x); }
    hide AsSet;
    if Consistent(audit) {
      assert AsSet(audit.active) + AsSet(audit.retired) == AsSet(audit.initial);
      assert AsSet(audit.active) * AsSet(audit.retired) == {} && AsSet(audit.ignoredNew) * AsSet(audit.initial) == {};
    }
    if HostNetworkObservation(audit).Some? {
      forall x ensures x in audit.initial <==> x in audit.active || x in audit.retired {
        assert x in AsSet(audit.active) + AsSet(audit.retired) <==> x in AsSet(audit.initial);
      }
      forall x | x in audit.active ensures x !in audit.retired { assert x !in AsSet(audit.active) * AsSet(audit.retired); }
      forall x | x in audit.ignoredNew ensures x !in audit.initial { assert x !in AsSet(audit.ignoredNew) * AsSet(audit.initial); }
    }
  }

  lemma EmptyIff(names: seq<string>)
    ensures AsSet(names) == {} <==> names == []
  {
    if names != [] { assert names[0] in AsSet(names); }
  }

  // ---------------------------------------------------------------- whole runs

  /** No later sample has lower totals. */
  predicate Monotonic(samples: seq<Sample>)
  {
    forall i, j | 0 <= i < j < |samples| :: samples[i].rx <= samples[j].rx && samples[i].tx <= samples[j].tx
  }

  /** Interfaces may vanish, return or appear and readings may fail: the samples stay monotonic and the cohort intact. */
  method RunCollector(c: HostStatsCollector, readings: seq<Reading>) returns (samples: seq<Sample>)
    requires c.Valid() && forall r | r in readings :: Readable(r)
    modifies c
    ensures c.Valid() && Monotonic(samples)
    ensures forall audit | AuditOf(c, audit) :: HostNetworkObservation(audit).Some?
    ensures Advanced(old(c.previousNetwork), c.previousNetwork)
  {
    hide SumRx, SumTx, HostNetworkObservation, Lists;
    samples := [];
    for i := 0 to |readings|
      invariant c.Valid() && Monotonic(samples) && Advanced(old(c.previousNetwork), c.previousNetwork)
      invariant samples != [] ==>
        && samples[|samples| - 1].rx <= SumRx(c.previousNetwork, c.networkInterfaces)
        && samples[|samples| - 1].tx <= SumTx(c.previousNetwork, c.networkInterfaces)
    {
      assert readings[i] in readings;
      ghost var before := c.previousNetwork;
      var sample := c.Collect(readings[i]);
      SumAdvanced(before, c.previousNetwork, c.networkInterfaces);
      if sample.Some? { samples := samples + [sample.value]; }
    }
    forall audit | AuditOf(c, audit) ensures HostNetworkObservation(audit).Some? { AuditPasses(c, audit); }
  }
}
