/**
 * Where the frontier cap starts to matter: the worklist is exact for all graphs over `n` types, in
 * all orders, exactly up to 3334 types.
 */
module FatalityCap {
  import opened Fatality

  // ---------------------------------------------------------------- a chain of types

  function Name(i: nat): (name: string)
    ensures |name| == i
  {
    seq(i, _ => 'a')
  }

  ghost function Names(n: nat): (names: set<string>)
    ensures forall t :: t in names <==> |t| < n && t == Name(|t|)
  {
    set i | 0 <= i < n :: Name(i)
  }

  lemma {:induction false} NamesSize(n: nat)
    ensures |Names(n)| == n
  {
    if n == 0 {
      assert Names(0) == {};
    } else {
      NamesSize(n - 1);
      assert Names(n) == Names(n - 1) + {Name(n - 1)};
    }
  }

  /** Type `i` delegates to type `i + 1`, as far as there is one. */
  ghost function Chain(n: nat): Graph
    requires n > 0
  {
    map t | t in Names(n - 1) :: {Name(|t| + 1)}
  }

  lemma ChainDelegates(n: nat, i: nat)
    requires i < n
    ensures Delegates(Chain(n), Name(i)) == if i + 1 < n then {Name(i + 1)} else {}
  {
    assert Name(i) in Names(n - 1) <==> i < n - 1;
  }

  lemma ChainInside(n: nat)
    requires n > 0
    ensures Inside(Chain(n), Names(n))
  {
    forall t ensures Delegates(Chain(n), t) <= Names(n) {
      if t in Chain(n) { assert Name(|t| + 1) in Names(n); }
    }
  }

  lemma {:induction false} ChainReaches(n: nat, i: nat)
    requires i < n
    ensures ReachesIn(Chain(n), Name(0), Name(i), i)
  {
    if i > 0 {
      ChainReaches(n, i - 1);
      ChainDelegates(n, i - 1);
    }
  }

  // ---------------------------------------------------------------- the run on it

  /** The first `m` types, of which the first `p` are at process, the next up to `s` at session. */
  ghost function Stage(p: nat, s: nat, m: nat): map<string, Severity>
  {
    map t | t in Names(m) :: if |t| < p then Process else if |t| < s then Session else Message
  }

  /** The head is process, the second type session, the third message, popped in reverse order. */
  ghost function Seeds(): map<string, Severity> { Stage(1, 2, 3) }

  function Head(): Entry { Entry(Name(0), Process) }
  function Second(): Entry { Entry(Name(1), Session) }
  function SeedItems(): seq<Entry> { [Head(), Second(), Entry(Name(2), Message)] }

  lemma SeedsAreItems()
    ensures ItemsOf(SeedItems(), Seeds())
  {
    NamesSize(3);
    assert |Seeds().Keys| == 3 by { assert Seeds().Keys == Names(3); }
    assert Name(0) in Names(3) && Name(1) in Names(3) && Name(2) in Names(3);
    forall x | x in SeedItems() ensures x.t in Seeds() && x.f == Seeds()[x.t] {}
    forall x: Entry | x.t in Seeds() && x.f == Seeds()[x.t] ensures x in SeedItems() {
      assert x.t == Name(|x.t|) && |x.t| < 3;
      assert x == Entry(Name(|x.t|), x.f);
      assert SeedItems()[|x.t|] == x;
    }
  }

  /** Popping type `i` raises type `i + 1` if that lags behind. */
  lemma PopRaises(n: nat, resolved: map<string, Severity>, rest: seq<Entry>, i: nat, f: Severity)
    requires i + 1 < n && f != Unknown
    requires Name(i + 1) in resolved ==> resolved[Name(i + 1)].Rank() < f.Rank()
    ensures var next := i + 1;
            Pop(Chain(n), Work(resolved, rest + [Entry(Name(i), f)]), Work(resolved[Name(next) := f], rest + [Entry(Name(next), f)]))
  {
    var w, us := Work(resolved, rest + [Entry(Name(i), f)]), [Name(i + 1)];
    ChainDelegates(n, i);
    assert w.frontier[..|w.frontier| - 1] == rest;
    assert us[..0] == [];
    assert RecordAll(Work(resolved, rest), f, us) == Record(Work(resolved, rest), f, us[0]);
    assert Popped(Chain(n), w, Record(Work(resolved, rest), f, us[0]), us);
  }

  /** Popping the last type raises nothing. */
  lemma PopLast(n: nat, resolved: map<string, Severity>, rest: seq<Entry>, f: Severity)
    requires n > 0
    ensures Pop(Chain(n), Work(resolved, rest + [Entry(Name(n - 1), f)]), Work(resolved, rest))
  {
    var w := Work(resolved, rest + [Entry(Name(n - 1), f)]);
    ChainDelegates(n, n - 1);
    assert w.frontier[..|w.frontier| - 1] == rest;
    assert Popped(Chain(n), w, Work(resolved, rest), []);
  }

  ghost function Start(): Work { Work(Seeds(), SeedItems()) }
  ghost function AtMessage(i: nat): Work { Work(Stage(1, 2, i + 3), [Head(), Second()] + [Entry(Name(i + 2), Message)]) }
  ghost function AtSession(n: nat, i: nat): Work { Work(Stage(1, i + 2, n), [Head()] + [Entry(Name(i + 1), Session)]) }
  ghost function AtProcess(n: nat, i: nat): Work { Work(Stage(i + 1, n, n), [] + [Entry(Name(i), Process)]) }

  lemma StageToMessage(i: nat)
    requires i >= 2
    ensures Name(i + 1) !in Stage(1, 2, i + 1)
    ensures Stage(1, 2, i + 1)[Name(i + 1) := Message] == Stage(1, 2, i + 2)
  {}

  lemma StageToSession(n: nat, i: nat)
    requires 0 < i < n - 1
    ensures Name(i + 1) in Stage(1, i + 1, n) && Stage(1, i + 1, n)[Name(i + 1)] == Message
    ensures Stage(1, i + 1, n)[Name(i + 1) := Session] == Stage(1, i + 2, n)
  {
    assert Name(i + 1) in Names(n);
  }

  lemma StageToProcess(n: nat, i: nat)
    requires 0 < i < n
    ensures Name(i) in Stage(i, n, n) && Stage(i, n, n)[Name(i)] == Session
    ensures Stage(i, n, n)[Name(i) := Process] == Stage(i + 1, n, n)
  {
    assert Name(i) in Names(n);
  }

  lemma {:induction false} MessageRounds(n: nat, i: nat)
    requires i + 3 <= n
    ensures Pops(Chain(n), Start(), i, AtMessage(i))
  {
    hide Pop, Pops, Stage, Chain;
    if i == 0 {
      NoPops(Chain(n), Start());
      assert SeedItems() == [Head(), Second()] + [Entry(Name(2), Message)];
    } else {
      MessageRounds(n, i - 1);
      StageToMessage(i + 1);
      PopRaises(n, Stage(1, 2, i + 2), [Head(), Second()], i + 1, Message);
      OnePopMore(Chain(n), Start(), i - 1, AtMessage(i - 1), AtMessage(i));
    }
  }

  lemma MessageEnds(n: nat)
    requires n >= 3
    ensures Pops(Chain(n), Start(), n - 2, AtSession(n, 0))
  {
    hide Pop, Pops;
    MessageRounds(n, n - 3);
    PopLast(n, Stage(1, 2, n), [Head(), Second()], Message);
    assert [Head(), Second()] == [Head()] + [Second()];
    OnePopMore(Chain(n), Start(), n - 3, AtMessage(n - 3), AtSession(n, 0));
  }

  lemma {:induction false} SessionRounds(n: nat, i: nat)
    requires i + 2 <= n && n >= 3
    ensures Pops(Chain(n), Start(), n - 2 + i, AtSession(n, i))
  {
    hide Pop, Pops, Stage, Chain;
    if i == 0 {
      MessageEnds(n);
    } else {
      SessionRounds(n, i - 1);
      StageToSession(n, i);
      PopRaises(n, Stage(1, i + 1, n), [Head()], i, Session);
      OnePopMore(Chain(n), Start(), n - 2 + i - 1, AtSession(n, i - 1), AtSession(n, i));
    }
  }

  lemma SessionEnds(n: nat)
    requires n >= 3
    ensures Pops(Chain(n), Start(), 2 * n - 3, AtProcess(n, 0))
  {
    hide Pop, Pops;
    SessionRounds(n, n - 2);
    PopLast(n, Stage(1, n, n), [Head()], Session);
    assert [Head()] == [] + [Head()];
    OnePopMore(Chain(n), Start(), 2 * n - 4, AtSession(n, n - 2), AtProcess(n, 0));
  }

  lemma {:induction false} ProcessRounds(n: nat, i: nat)
    requires i < n && n >= 3
    ensures Pops(Chain(n), Start(), 2 * n - 3 + i, AtProcess(n, i))
  {
    hide Pop, Pops, Stage, Chain;
    if i == 0 {
      SessionEnds(n);
    } else {
      ProcessRounds(n, i - 1);
      StageToProcess(n, i);
      PopRaises(n, Stage(i, n, n), [], i - 1, Process);
      OnePopMore(Chain(n), Start(), 2 * n - 3 + i - 1, AtProcess(n, i - 1), AtProcess(n, i));
    }
  }

  /** The chain needs every round `StoppedIsBounded` allows. */
  lemma BoundIsReached(n: nat)
    requires n >= 3
    ensures Pops(Chain(n), Start(), MostPops(n), Work(Stage(n, n, n), []))
  {
    hide Pop, Pops;
    ProcessRounds(n, n - 1);
    PopLast(n, Stage(n, n, n), [], Process);
    OnePopMore(Chain(n), Start(), 3 * n - 4, AtProcess(n, n - 1), Work(Stage(n, n, n), []));
  }

  /** As long as the last type has not been popped at process, it is not recorded as such. */
  lemma LastLagsBehind(n: nat, pops: nat) returns (w: Work)
    requires n >= 3 && pops < 3 * n - 4
    ensures Pops(Chain(n), Start(), pops, w)
    ensures Name(n - 1) in w.resolved ==> w.resolved[Name(n - 1)] != Process
  {
    hide Pops;
    if pops <= n - 3 {
      w := AtMessage(pops);
      MessageRounds(n, pops);
    } else if pops <= 2 * n - 4 {
      w := AtSession(n, pops - (n - 2));
      SessionRounds(n, pops - (n - 2));
    } else {
      w := AtProcess(n, pops - (2 * n - 3));
      ProcessRounds(n, pops - (2 * n - 3));
    }
  }

  lemma ExactMeansProcess(n: nat, resolved: map<string, Severity>)
    requires n >= 3 && Exact(Seeds(), Chain(n), resolved)
    ensures Name(n - 1) in resolved && resolved[Name(n - 1)] == Process
  {
    hide ReachesIn;
    ChainReaches(n, n - 1);
    assert Reaches(Chain(n), Name(0), Name(n - 1));
    assert Name(0) in Names(3) && Seeds()[Name(0)] == Process;
    assert Reached(Seeds(), Chain(n), Name(n - 1));
    assert WorstReaching(Seeds(), Chain(n), Name(n - 1), resolved[Name(n - 1)]);
  }

  /** On a long chain the loop stops at the cap with the last type too mild, or missing. */
  lemma LongChainIsCut(n: nat) returns (resolved: map<string, Severity>)
    requires 3 * n - 4 > FRONTIER_CAP
    ensures Entries(Seeds(), Chain(n), Names(n)) && |Names(n)| == n
    ensures Outcome(Seeds(), Chain(n), resolved) && !Exact(Seeds(), Chain(n), resolved)
  {
    hide Pops, Exact;
    var w := LastLagsBehind(n, FRONTIER_CAP);
    resolved := w.resolved;
    SeedsAreItems();
    assert StopsAt(Seeds(), Chain(n), SeedItems(), FRONTIER_CAP, w);
    if Exact(Seeds(), Chain(n), resolved) { ExactMeansProcess(n, resolved); }
    ChainInside(n);
    NamesSize(n);
    assert Seeds().Keys == Names(3) <= Names(n);
  }

  // ---------------------------------------------------------------- the threshold

  const MOST_TYPES: nat := 3334

  ghost predicate ExactOver(types: set<string>, seeds: map<string, Severity>, g: Graph, resolved: map<string, Severity>)
  {
    Entries(seeds, g, types) && Outcome(seeds, g, resolved) ==> Exact(seeds, g, resolved)
  }

  /** For every graph over `n` types, all seeds and all orders, the capped loop is exact. */
  ghost predicate AlwaysExact(n: nat)
  {
    forall types, seeds, g, resolved :: |types| == n ==> ExactOver(types, seeds, g, resolved)
  }

  lemma ExactIffFewTypes(n: nat)
    ensures AlwaysExact(n) <==> n <= MOST_TYPES
  {
    hide Outcome, Entries, Exact;
    if n <= MOST_TYPES {
      forall types, seeds, g, resolved | |types| == n ensures ExactOver(types, seeds, g, resolved) {
        if Entries(seeds, g, types) && Outcome(seeds, g, resolved) { OutcomeIsExact(seeds, g, types, resolved); }
      }
    } else {
      var resolved := LongChainIsCut(n);
      assert !ExactOver(Names(n), Seeds(), Chain(n), resolved);
    }
  }
}
