/**
 * Propagation of the blast radius along type delegations (`propagate_type_fatality` in
 * `scripts/json_census.py`).
 */
module Fatality {

  /** The four severities, mildest first. */
  datatype Severity = Unknown | Message | Session | Process {
    function Rank(): nat
    {
      match this case Unknown => 0 case Message => 1 case Session => 2 case Process => 3
    }
  }

  const FRONTIER_CAP: nat := 10000

  type Graph = map<string, set<string>>

  /** The graver of two severities. */
  function Worst(a: Severity, b: Severity): (r: Severity)
    ensures r == a || r == b
    ensures a.Rank() <= r.Rank() && b.Rank() <= r.Rank()
  {
    if a.Process? || b.Process? then Process
    else if a.Session? || b.Session? then Session
    else if a.Message? || b.Message? then Message
    else Unknown
  }

  /** A type without an entry delegates to nothing. */
  function Delegates(g: Graph, t: string): set<string>
  {
    if t in g then g[t] else {}
  }

  /** `t` is reached from `s` by `n` delegations. */
  ghost predicate ReachesIn(g: Graph, s: string, t: string, n: nat)
    decreases n
  {
    if n == 0 then s == t
    else exists u :: ReachesIn(g, s, u, n - 1) && t in Delegates(g, u)
  }

  ghost predicate Reaches(g: Graph, s: string, t: string)
  {
    exists n: nat :: ReachesIn(g, s, t, n)
  }

  lemma ReachesStep(g: Graph, s: string, u: string, t: string)
    requires Reaches(g, s, u) && t in Delegates(g, u)
    ensures Reaches(g, s, t)
  {
    var n: nat :| ReachesIn(g, s, u, n);
    assert ReachesIn(g, s, t, n + 1);
  }

  lemma ReachesSelf(g: Graph, s: string)
    ensures Reaches(g, s, s)
  {
    assert ReachesIn(g, s, s, 0);
  }

  // ---------------------------------------------------------------- the exact answer

  /** Some seed of severity `f` reaches `t`. */
  ghost predicate Carries(seeds: map<string, Severity>, g: Graph, t: string, f: Severity)
  {
    exists s :: s in seeds && seeds[s] == f && Reaches(g, s, t)
  }

  ghost predicate Reached(seeds: map<string, Severity>, g: Graph, t: string)
  {
    exists s :: s in seeds && Reaches(g, s, t)
  }

  /** `f` is the worst severity among the seeds that reach `t`. */
  ghost predicate WorstReaching(seeds: map<string, Severity>, g: Graph, t: string, f: Severity)
  {
    && Carries(seeds, g, t, f)
    && forall s :: s in seeds && Reaches(g, s, t) ==> seeds[s].Rank() <= f.Rank()
  }

  /** The least fixed point: every reached type with the worst severity that reaches it. */
  ghost predicate Exact(seeds: map<string, Severity>, g: Graph, resolved: map<string, Severity>)
  {
    && (forall t :: t in resolved <==> Reached(seeds, g, t))
    && (forall t :: t in resolved ==> WorstReaching(seeds, g, t, resolved[t]))
  }

  lemma WorstUnique(seeds: map<string, Severity>, g: Graph, t: string, a: Severity, b: Severity)
    requires WorstReaching(seeds, g, t, a) && WorstReaching(seeds, g, t, b)
    ensures a == b
  {
    var s :| s in seeds && seeds[s] == a && Reaches(g, s, t);
    var u :| u in seeds && seeds[u] == b && Reaches(g, u, t);
    assert a.Rank() == b.Rank();
  }

  lemma ExactUnique(seeds: map<string, Severity>, g: Graph, a: map<string, Severity>, b: map<string, Severity>)
    requires Exact(seeds, g, a) && Exact(seeds, g, b)
    ensures a == b
  {
    hide Reached, WorstReaching;
    forall t ensures t in a <==> t in b { assert t in a <==> Reached(seeds, g, t); }
    forall t | t in a ensures a[t] == b[t] { WorstUnique(seeds, g, t, a[t], b[t]); }
  }

  // ---------------------------------------------------------------- runs of the worklist

  datatype Entry = Entry(t: string, f: Severity)

  /** `resolved` and the frontier, whose last entry is popped next. */
  datatype Work = Work(resolved: map<string, Severity>, frontier: seq<Entry>)

  /** A delegate `u` of a type popped with severity `f`. */
  ghost function Record(w: Work, f: Severity, u: string): Work
  {
    var worst := Worst(if u in w.resolved then w.resolved[u] else Unknown, f);
    if u in w.resolved && w.resolved[u] == worst then w
    else Work(w.resolved[u := worst], w.frontier + [Entry(u, worst)])
  }

  ghost function RecordAll(w: Work, f: Severity, us: seq<string>): Work
  {
    if us == [] then w else Record(RecordAll(w, f, us[..|us| - 1]), f, us[|us| - 1])
  }

  /** The elements of a set, each once, in the order a loop over it happens to take. */
  ghost predicate InSomeOrder(us: seq<string>, s: set<string>)
  {
    (forall u :: u in us <==> u in s) && forall i, j :: 0 <= i < j < |us| ==> us[i] != us[j]
  }

  ghost predicate Popped(g: Graph, w: Work, w': Work, us: seq<string>)
    requires w.frontier != []
  {
    var last := |w.frontier| - 1;
    && InSomeOrder(us, Delegates(g, w.frontier[last].t))
    && w' == RecordAll(Work(w.resolved, w.frontier[..last]), w.frontier[last].f, us)
  }

  /** One round of the loop. */
  ghost predicate Pop(g: Graph, w: Work, w': Work)
  {
    w.frontier != [] && exists us :: Popped(g, w, w', us)
  }

  ghost predicate Pops(g: Graph, w: Work, n: nat, w': Work)
    decreases n
  {
    if n == 0 then w == w' else exists between :: Pops(g, w, n - 1, between) && Pop(g, between, w')
  }

  /** The seeds as a list, in some order. */
  ghost predicate ItemsOf(items: seq<Entry>, seeds: map<string, Severity>)
  {
    |items| == |seeds| && forall x :: x in items <==> x.t in seeds && x.f == seeds[x.t]
  }

  ghost predicate StopsAt(seeds: map<string, Severity>, g: Graph, items: seq<Entry>, pops: nat, w: Work)
  {
    && ItemsOf(items, seeds) && Pops(g, Work(seeds, items), pops, w)
    && pops <= FRONTIER_CAP && (w.frontier == [] || pops == FRONTIER_CAP)
  }

  /** What the capped loop may leave, over all orders of seeds and of delegates. */
  ghost predicate Outcome(seeds: map<string, Severity>, g: Graph, resolved: map<string, Severity>)
  {
    exists items, pops, w :: StopsAt(seeds, g, items, pops, w) && w.resolved == resolved
  }

  // ---------------------------------------------------------------- invariants of the worklist

  /** Every recorded severity comes from a seed, and no seed is forgotten. */
  ghost predicate Sound(seeds: map<string, Severity>, g: Graph, resolved: map<string, Severity>)
  {
    && (forall t :: t in resolved ==> resolved[t] != Unknown && Carries(seeds, g, t, resolved[t]))
    && (forall s :: s in seeds ==> s in resolved && seeds[s].Rank() <= resolved[s].Rank())
  }

  /** Popped severities may be stale, never ahead of what is recorded. */
  ghost predicate FrontierSound(resolved: map<string, Severity>, frontier: seq<Entry>)
  {
    forall x :: x in frontier ==> x.t in resolved && x.f != Unknown && x.f.Rank() <= resolved[x.t].Rank()
  }

  predicate Covered(resolved: map<string, Severity>, f: Severity, u: string)
  {
    u in resolved && f.Rank() <= resolved[u].Rank()
  }

  /** A type whose delegates lag behind still waits on the frontier with its current severity. */
  ghost predicate Pending(g: Graph, resolved: map<string, Severity>, frontier: seq<Entry>, skip: string)
  {
    forall t, u :: t in resolved && t != skip && u in Delegates(g, t) ==>
      Covered(resolved, resolved[t], u) || Entry(t, resolved[t]) in frontier
  }

  ghost predicate PendingAll(g: Graph, resolved: map<string, Severity>, frontier: seq<Entry>)
  {
    forall t, u :: t in resolved && u in Delegates(g, t) ==>
      Covered(resolved, resolved[t], u) || Entry(t, resolved[t]) in frontier
  }

  /** The types recorded at severity `level` or worse. */
  ghost function AtLeast(resolved: map<string, Severity>, level: nat): set<string>
  {
    set t | t in resolved && resolved[t].Rank() >= level
  }

  ghost predicate Seeded(seeds: map<string, Severity>, f: Severity)
  {
    exists s :: s in seeds && seeds[s] == f
  }

  /** Every pop raises a type, or was seeded; only severities that were seeded can be raised to. */
  ghost function Weight(seeds: map<string, Severity>, resolved: map<string, Severity>): nat
  {
    |AtLeast(resolved, 1)|
    + (if Seeded(seeds, Session) then |AtLeast(resolved, 2)| else 0)
    + (if Seeded(seeds, Process) then |AtLeast(resolved, 3)| else 0)
  }

  /** The most rounds the loop makes over `n` types without a cap. */
  function MostPops(n: nat): nat
  {
    if n < 2 then n else 3 * n - 3
  }

  ghost predicate Inside(g: Graph, types: set<string>)
  {
    forall t :: Delegates(g, t) <= types
  }

  /** What is left to raise from the seeds on, and the seeds themselves, give the bound. */
  lemma WeightBounded(seeds: map<string, Severity>, resolved: map<string, Severity>, types: set<string>)
    requires resolved.Keys <= types && seeds.Keys <= types
    requires forall s :: s in seeds ==> seeds[s] != Unknown
    requires seeds == map[] ==> resolved == map[]
    ensures |seeds| + Weight(seeds, resolved) - Weight(seeds, seeds) <= MostPops(|types|)
  {
    SubsetSize(AtLeast(resolved, 1), types);
    SubsetSize(AtLeast(resolved, 2), types);
    SubsetSize(AtLeast(resolved, 3), types);
    assert AtLeast(seeds, 1) == seeds.Keys;
    if Seeded(seeds, Session) {
      var s :| s in seeds && seeds[s] == Session;
      SubsetSize({s}, AtLeast(seeds, 2));
      if Seeded(seeds, Process) {
        var p :| p in seeds && seeds[p] == Process;
        SubsetSize({s, p}, AtLeast(seeds, 2));
        SubsetSize({p}, AtLeast(seeds, 3));
        SubsetSize({s, p}, types);
      }
    } else if Seeded(seeds, Process) {
      var p :| p in seeds && seeds[p] == Process;
      SubsetSize({p}, AtLeast(seeds, 3));
    }
    if types == {} { assert seeds == map[]; }
  }

  lemma {:induction false} SubsetSize<T>(a: set<T>, b: set<T>)
    requires a <= b
    ensures |a| <= |b|
  {
    if a != {} {
      var x :| x in a;
      SubsetSize(a - {x}, b - {x});
    }
  }

  /** Raising one type to a seeded severity raises the weight. */
  lemma WeightGrows(seeds: map<string, Severity>, resolved: map<string, Severity>, t: string, f: Severity)
    requires f.Rank() > (if t in resolved then resolved[t].Rank() else 0)
    requires f == Message || Seeded(seeds, f)
    ensures Weight(seeds, resolved[t := f]) >= Weight(seeds, resolved) + 1
  {
    LevelGrows(resolved, t, f, 1);
    LevelGrows(resolved, t, f, 2);
    LevelGrows(resolved, t, f, 3);
  }

  lemma LevelGrows(resolved: map<string, Severity>, t: string, f: Severity, level: nat)
    requires level > 0 && f.Rank() > (if t in resolved then resolved[t].Rank() else 0)
    ensures |AtLeast(resolved[t := f], level)| >= |AtLeast(resolved, level)| + (if level == f.Rank() then 1 else 0)
  {
    var old', new' := AtLeast(resolved, level), AtLeast(resolved[t := f], level);
    if level <= f.Rank() {
      assert new' == old' + {t};
      assert level == f.Rank() ==> t !in old';
    } else {
      assert new' == old';
    }
  }

  lemma CarriesStep(seeds: map<string, Severity>, g: Graph, t: string, f: Severity, u: string)
    requires Carries(seeds, g, t, f) && u in Delegates(g, t)
    ensures Carries(seeds, g, u, f)
  {
    var s :| s in seeds && seeds[s] == f && Reaches(g, s, t);
    ReachesStep(g, s, t, u);
  }

  /** Recording a worse severity for `u` keeps everything but the entry in hand. */
  lemma RaiseKeeps(seeds: map<string, Severity>, g: Graph, resolved: map<string, Severity>, frontier: seq<Entry>,
          t: string, f: Severity, u: string)
    requires Sound(seeds, g, resolved) && FrontierSound(resolved, frontier) && Pending(g, resolved, frontier, t)
    requires t in resolved && f != Unknown && f.Rank() <= resolved[t].Rank() && u in Delegates(g, t)
    requires Carries(seeds, g, t, f)
    requires !Covered(resolved, f, u)
    ensures u != t
    ensures Sound(seeds, g, resolved[u := f]) && FrontierSound(resolved[u := f], frontier + [Entry(u, f)])
    ensures Pending(g, resolved[u := f], frontier + [Entry(u, f)], t)
  {
    hide Carries;
    CarriesStep(seeds, g, t, f, u);
    var resolved', frontier' := resolved[u := f], frontier + [Entry(u, f)];
    forall x, y | x in resolved' && x != t && y in Delegates(g, x)
      ensures Covered(resolved', resolved'[x], y) || Entry(x, resolved'[x]) in frontier'
    {
      if x == u {
        assert frontier'[|frontier|] == Entry(u, f);
      } else if !Covered(resolved, resolved[x], y) {
        assert Entry(x, resolved[x]) in frontier;
      }
    }
  }

  lemma ResolvedIsWorst(seeds: map<string, Severity>, g: Graph, resolved: map<string, Severity>, t: string)
    requires Sound(seeds, g, resolved) && PendingAll(g, resolved, []) && t in resolved
    ensures Reached(seeds, g, t) && WorstReaching(seeds, g, t, resolved[t])
  {
    hide PendingAll, Reaches;
    assert Carries(seeds, g, t, resolved[t]);
    forall s | s in seeds && Reaches(g, s, t) ensures seeds[s].Rank() <= resolved[t].Rank() {
      ReachedIsCovered(seeds, g, resolved, s, t);
    }
  }

  lemma ReachedIsResolved(seeds: map<string, Severity>, g: Graph, resolved: map<string, Severity>, t: string)
    requires Sound(seeds, g, resolved) && PendingAll(g, resolved, []) && Reached(seeds, g, t)
    ensures t in resolved
  {
    hide PendingAll, Reaches, Sound;
    var s :| s in seeds && Reaches(g, s, t);
    ReachedIsCovered(seeds, g, resolved, s, t);
  }

  /** With an empty frontier the recorded severities are the exact answer. */
  lemma DoneIsExact(seeds: map<string, Severity>, g: Graph, resolved: map<string, Severity>)
    requires Sound(seeds, g, resolved) && PendingAll(g, resolved, [])
    ensures Exact(seeds, g, resolved)
  {
    hide Reached, WorstReaching, Sound, PendingAll;
    forall t ensures t in resolved ==> Reached(seeds, g, t) && WorstReaching(seeds, g, t, resolved[t]) {
      if t in resolved { ResolvedIsWorst(seeds, g, resolved, t); }
    }
    forall t ensures Reached(seeds, g, t) ==> t in resolved {
      if Reached(seeds, g, t) { ReachedIsResolved(seeds, g, resolved, t); }
    }
  }

  lemma ReachedIsCovered(seeds: map<string, Severity>, g: Graph, resolved: map<string, Severity>, s: string, t: string)
    requires Sound(seeds, g, resolved) && PendingAll(g, resolved, [])
    requires s in seeds && Reaches(g, s, t)
    ensures Covered(resolved, seeds[s], t)
  {
    var n: nat :| ReachesIn(g, s, t, n);
    ReachedInIsCovered(seeds, g, resolved, s, t, n);
  }

  lemma {:induction false} ReachedInIsCovered(seeds: map<string, Severity>, g: Graph,
          resolved: map<string, Severity>, s: string, t: string, n: nat)
    requires Sound(seeds, g, resolved) && PendingAll(g, resolved, [])
    requires s in seeds && ReachesIn(g, s, t, n)
    ensures Covered(resolved, seeds[s], t)
    decreases n
  {
    hide Carries;
    if n > 0 {
      var u :| ReachesIn(g, s, u, n - 1) && t in Delegates(g, u);
      ReachedInIsCovered(seeds, g, resolved, s, u, n - 1);
    }
  }

  // ---------------------------------------------------------------- what every round keeps

  /** Frontier entries carry severities of seeds that reach them. */
  ghost predicate FromSeeds(seeds: map<string, Severity>, g: Graph, frontier: seq<Entry>)
  {
    forall x :: x in frontier ==> Carries(seeds, g, x.t, x.f)
  }

  ghost predicate Good(seeds: map<string, Severity>, g: Graph, types: set<string>, w: Work)
  {
    && Sound(seeds, g, w.resolved) && FrontierSound(w.resolved, w.frontier) && FromSeeds(seeds, g, w.frontier)
    && PendingAll(g, w.resolved, w.frontier) && w.resolved.Keys <= types
  }

  /** While the delegates of `t`, popped with `f`, are gone through; `done` are those behind. */
  ghost predicate Relaxing(seeds: map<string, Severity>, g: Graph, types: set<string>, w: Work, t: string, f: Severity,
          done: seq<string>)
  {
    && Sound(seeds, g, w.resolved) && FrontierSound(w.resolved, w.frontier) && FromSeeds(seeds, g, w.frontier)
    && Pending(g, w.resolved, w.frontier, t) && w.resolved.Keys <= types
    && t in w.resolved && f != Unknown && f.Rank() <= w.resolved[t].Rank() && Carries(seeds, g, t, f)
    && (forall u :: u in done ==> Covered(w.resolved, f, u))
    && (f != w.resolved[t] ==> forall u :: u in Delegates(g, t) ==> Covered(w.resolved, w.resolved[t], u) || Entry(t, w.resolved[t]) in w.frontier)
  }

  lemma CarriesSeeded(seeds: map<string, Severity>, g: Graph, t: string, f: Severity)
    requires Carries(seeds, g, t, f)
    ensures Seeded(seeds, f)
  {}

  lemma RecordKeeps(seeds: map<string, Severity>, g: Graph, types: set<string>, w: Work, t: string, f: Severity,
          done: seq<string>, u: string)
    requires Relaxing(seeds, g, types, w, t, f, done) && u in Delegates(g, t) && u in types
    ensures var w' := Record(w, f, u);
            && Relaxing(seeds, g, types, w', t, f, done + [u])
            && |w'.frontier| - |w.frontier| <= Weight(seeds, w'.resolved) - Weight(seeds, w.resolved)
  {
    hide Carries, Weight;
    if !Covered(w.resolved, f, u) {
      RaiseKeeps(seeds, g, w.resolved, w.frontier, t, f, u);
      CarriesSeeded(seeds, g, t, f);
      WeightGrows(seeds, w.resolved, u, f);
      CarriesStep(seeds, g, t, f, u);
    }
  }

  lemma {:induction false} RecordAllKeeps(seeds: map<string, Severity>, g: Graph, types: set<string>, w: Work,
          t: string, f: Severity, us: seq<string>)
    requires Relaxing(seeds, g, types, w, t, f, []) && Inside(g, types)
    requires forall u :: u in us ==> u in Delegates(g, t)
    ensures var w' := RecordAll(w, f, us);
            && Relaxing(seeds, g, types, w', t, f, us)
            && |w'.frontier| - |w.frontier| <= Weight(seeds, w'.resolved) - Weight(seeds, w.resolved)
    decreases |us|
  {
    hide Relaxing, Weight, Record;
    if us != [] {
      var before, u := us[..|us| - 1], us[|us| - 1];
      assert us == before + [u];
      RecordAllKeeps(seeds, g, types, w, t, f, before);
      assert u in us;
      InsideDelegates(g, types, t);
      RecordKeeps(seeds, g, types, RecordAll(w, f, before), t, f, before, u);
    }
  }

  lemma InsideDelegates(g: Graph, types: set<string>, t: string)
    requires Inside(g, types)
    ensures Delegates(g, t) <= types
  {}

  lemma StartRelaxing(seeds: map<string, Severity>, g: Graph, types: set<string>, resolved: map<string, Severity>,
          frontier: seq<Entry>, t: string, f: Severity)
    requires Good(seeds, g, types, Work(resolved, frontier + [Entry(t, f)]))
    ensures Relaxing(seeds, g, types, Work(resolved, frontier), t, f, [])
  {
    hide Carries;
    assert Entry(t, f) in frontier + [Entry(t, f)];
    forall x, u | x in resolved && u in Delegates(g, x) && (x != t || f != resolved[x])
      ensures Covered(resolved, resolved[x], u) || Entry(x, resolved[x]) in frontier
    {
      assert Covered(resolved, resolved[x], u) || Entry(x, resolved[x]) in frontier + [Entry(t, f)];
    }
  }

  lemma FinishRelaxing(seeds: map<string, Severity>, g: Graph, types: set<string>, w: Work, t: string, f: Severity,
          us: seq<string>)
    requires Relaxing(seeds, g, types, w, t, f, us) && InSomeOrder(us, Delegates(g, t))
    ensures Good(seeds, g, types, w)
  {
    hide Carries;
  }

  lemma PopKeeps(seeds: map<string, Severity>, g: Graph, types: set<string>, w: Work, w': Work)
    requires Good(seeds, g, types, w) && Inside(g, types) && Pop(g, w, w')
    ensures Good(seeds, g, types, w')
    ensures |w'.frontier| + 1 - |w.frontier| <= Weight(seeds, w'.resolved) - Weight(seeds, w.resolved)
  {
    hide Good, Relaxing, Weight, Inside;
    var us :| Popped(g, w, w', us);
    var x, rest := w.frontier[|w.frontier| - 1], w.frontier[..|w.frontier| - 1];
    assert w == Work(w.resolved, rest + [Entry(x.t, x.f)]);
    StartRelaxing(seeds, g, types, w.resolved, rest, x.t, x.f);
    RecordAllKeeps(seeds, g, types, Work(w.resolved, rest), x.t, x.f, us);
    FinishRelaxing(seeds, g, types, w', x.t, x.f, us);
  }

  lemma {:induction false} PopsKeep(seeds: map<string, Severity>, g: Graph, types: set<string>, w: Work, n: nat, w': Work)
    requires Good(seeds, g, types, w) && Inside(g, types) && Pops(g, w, n, w')
    ensures Good(seeds, g, types, w')
    ensures n + |w'.frontier| - |w.frontier| <= Weight(seeds, w'.resolved) - Weight(seeds, w.resolved)
    decreases n
  {
    hide Good, Weight, Inside, Pop;
    if n > 0 {
      var between :| Pops(g, w, n - 1, between) && Pop(g, between, w');
      PopsKeep(seeds, g, types, w, n - 1, between);
      PopKeeps(seeds, g, types, between, w');
    }
  }

  /** Severities of known types, delegating to known types. */
  ghost predicate Entries(seeds: map<string, Severity>, g: Graph, types: set<string>)
  {
    seeds.Keys <= types && Inside(g, types) && forall s :: s in seeds ==> seeds[s] != Unknown
  }

  lemma SeedCarries(seeds: map<string, Severity>, g: Graph, s: string)
    requires s in seeds
    ensures Carries(seeds, g, s, seeds[s])
  {
    ReachesSelf(g, s);
  }

  lemma StartIsGood(seeds: map<string, Severity>, g: Graph, types: set<string>, items: seq<Entry>)
    requires Entries(seeds, g, types) && ItemsOf(items, seeds)
    ensures Good(seeds, g, types, Work(seeds, items))
  {
    hide Carries;
    forall s | s in seeds ensures Carries(seeds, g, s, seeds[s]) { SeedCarries(seeds, g, s); }
  }

  /** Wherever the loop stops: what it recorded is sound, and its rounds are bounded. */
  lemma StoppedIsBounded(seeds: map<string, Severity>, g: Graph, types: set<string>, items: seq<Entry>, pops: nat, w: Work)
    requires Entries(seeds, g, types) && ItemsOf(items, seeds) && Pops(g, Work(seeds, items), pops, w)
    ensures Good(seeds, g, types, w)
    ensures pops + |w.frontier| <= MostPops(|types|)
  {
    hide Weight, Pops, Carries, Inside, PendingAll;
    StartIsGood(seeds, g, types, items);
    PopsKeep(seeds, g, types, Work(seeds, items), pops, w);
    if seeds == map[] { NothingFromNothing(seeds, g, types, w); }
    WeightBounded(seeds, w.resolved, types);
  }

  lemma NothingFromNothing(seeds: map<string, Severity>, g: Graph, types: set<string>, w: Work)
    requires seeds == map[] && Good(seeds, g, types, w)
    ensures w.resolved == map[]
  {
    forall t, f ensures !Carries(seeds, g, t, f) {}
    assert w.resolved.Keys == {};
  }

  /** If the cap leaves room for every round, the outcome is exact, in whatever order things come. */
  lemma OutcomeIsExact(seeds: map<string, Severity>, g: Graph, types: set<string>, resolved: map<string, Severity>)
    requires Entries(seeds, g, types) && Outcome(seeds, g, resolved) && MostPops(|types|) <= FRONTIER_CAP
    ensures Exact(seeds, g, resolved)
  {
    hide Pops, Exact, Sound;
    var items, pops, w :| StopsAt(seeds, g, items, pops, w) && w.resolved == resolved;
    StoppedIsBounded(seeds, g, types, items, pops, w);
    assert w.frontier == [];
    DoneIsExact(seeds, g, resolved);
  }

  lemma OutcomeIsSound(seeds: map<string, Severity>, g: Graph, types: set<string>, resolved: map<string, Severity>)
    requires Entries(seeds, g, types) && Outcome(seeds, g, resolved)
    ensures Sound(seeds, g, resolved)
  {
    hide Pops, Sound, MostPops;
    var items, pops, w :| StopsAt(seeds, g, items, pops, w) && w.resolved == resolved;
    StoppedIsBounded(seeds, g, types, items, pops, w);
  }

  // ---------------------------------------------------------------- the worklist

  /** The seeds as a list, in some order. */
  method Items(seeds: map<string, Severity>) returns (items: seq<Entry>)
    ensures ItemsOf(items, seeds)
  {
    items := [];
    var todo := seeds.Keys;
    while todo != {}
      invariant todo <= seeds.Keys && |items| + |todo| == |seeds|
      invariant forall x :: x in items <==> x.t in seeds && x.t !in todo && x.f == seeds[x.t]
      decreases todo
    {
      var t :| t in todo;
      todo := todo - {t};
      items := items + [Entry(t, seeds[t])];
    }
  }

  /** The body of the loop for one popped entry. */
  method Relax(g: Graph, resolved0: map<string, Severity>, frontier0: seq<Entry>, t: string, f: Severity)
    returns (resolved: map<string, Severity>, frontier: seq<Entry>, ghost us: seq<string>)
    ensures InSomeOrder(us, Delegates(g, t))
    ensures Work(resolved, frontier) == RecordAll(Work(resolved0, frontier0), f, us)
  {
    resolved, frontier, us := resolved0, frontier0, [];
    var todo := Delegates(g, t);
    while todo != {}
      invariant todo <= Delegates(g, t) && InSomeOrder(us, Delegates(g, t) - todo)
      invariant Work(resolved, frontier) == RecordAll(Work(resolved0, frontier0), f, us)
      decreases todo
    {
      var u :| u in todo;
      todo := todo - {u};
      var worst := Worst(if u in resolved then resolved[u] else Unknown, f);
      if !(u in resolved && resolved[u] == worst) {
        resolved := resolved[u := worst];
        frontier := frontier + [Entry(u, worst)];
      }
      assert (us + [u])[..|us|] == us;
      us := us + [u];
    }
  }

  /** The capped loop: one of the runs, with what is known about its rounds and its result. */
  method Propagate(seeds: map<string, Severity>, g: Graph, ghost types: set<string>)
    returns (resolved: map<string, Severity>, ghost pops: nat)
    requires Entries(seeds, g, types)
    ensures Outcome(seeds, g, resolved)
    ensures pops <= MostPops(|types|)
    ensures Sound(seeds, g, resolved)
    ensures MostPops(|types|) <= FRONTIER_CAP ==> Exact(seeds, g, resolved)
  {
    hide Pops, Sound, Exact, Entries, RecordAll;
    resolved := seeds;
    var frontier := Items(seeds);
    ghost var items := frontier;
    NoPops(g, Work(seeds, items));
    var guard := 0;
    while frontier != [] && guard < FRONTIER_CAP
      invariant guard <= FRONTIER_CAP
      invariant Pops(g, Work(seeds, items), guard, Work(resolved, frontier))
      decreases FRONTIER_CAP - guard
    {
      guard := guard + 1;
      ghost var before := Work(resolved, frontier);
      var x := frontier[|frontier| - 1];
      frontier := frontier[..|frontier| - 1];
      ghost var us;
      resolved, frontier, us := Relax(g, resolved, frontier, x.t, x.f);
      assert Popped(g, before, Work(resolved, frontier), us);
      OnePopMore(g, Work(seeds, items), guard - 1, before, Work(resolved, frontier));
    }
    pops := guard;
    assert StopsAt(seeds, g, items, guard, Work(resolved, frontier));
    StoppedIsBounded(seeds, g, types, items, guard, Work(resolved, frontier));
    OutcomeIsSound(seeds, g, types, resolved);
    if MostPops(|types|) <= FRONTIER_CAP { OutcomeIsExact(seeds, g, types, resolved); }
  }

  lemma NoPops(g: Graph, w: Work)
    ensures Pops(g, w, 0, w)
  {}

  lemma OnePopMore(g: Graph, w: Work, n: nat, between: Work, w': Work)
    requires Pops(g, w, n, between) && Pop(g, between, w')
    ensures Pops(g, w, n + 1, w')
  {}
}
