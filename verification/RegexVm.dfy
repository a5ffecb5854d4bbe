/** The Pike VM of `src/core/regex.cpp`: thread lists, `add_thread` and `search`. */
module RegexVm {
  import opened Options
  import opened RegexClasses
  import opened RegexMeaning
  import opened RegexPrograms
  import opened RegexLayout
  import opened RegexPaths
  import opened RegexCompiler

  // ---------------------------------------------------------------- programs that stay inside

  predicate StaysInside(instruction: Instruction, a: nat, b: nat, classCount: nat)
  {
    match instruction
    case ISplit(x, y) => a <= x <= b && a <= y <= b
    case IJump(x) => a <= x <= b
    case IClass(k) => k < classCount
    case IMatch => false
    case _ => true
  }

  ghost predicate RegionOk(p: Program, a: nat, b: nat, classCount: nat)
  {
    b <= |p| && forall x | a <= x < b :: StaysInside(p[x], a, b, classCount)
  }

  /** Code ending in its only `IMatch`, with every target inside. */
  ghost predicate ProgramOk(p: Program, classCount: nat)
  {
    |p| > 0 && p[|p| - 1] == IMatch && RegionOk(p, 0, |p| - 1, classCount)
  }

  lemma RegionWiden(p: Program, a: nat, b: nat, a': nat, b': nat, classCount: nat)
    requires a' <= a && b <= b' && RegionOk(p, a, b, classCount)
    ensures forall x | a <= x < b :: StaysInside(p[x], a', b', classCount)
  {}

  lemma {:induction false} CodeStaysInside(p: Program, node: Node, a: nat, b: nat, classCount: nat)
    requires Code(p, node, a, b) && WellFormed(node, classCount)
    ensures RegionOk(p, a, b, classCount)
    decreases node, 0
  {
    match node
    case Concat(cs) =>
      var bs: seq<nat> :| ConcatLayout(p, cs, a, b, bs);
      ConcatStaysInside(p, cs, a, b, bs, 0, classCount);
    case Alternation(cs) =>
      var ss: seq<nat> :| AlternationLayout(p, cs, a, b, ss);
      AlternationStaysInside(p, cs, a, b, ss, 0, classCount);
    case Repeat(c, min, max) =>
      var m: nat, bs: seq<nat> :| CopiesLayout(p, c, min, a, m, bs) && TailLayout(p, c, min, max, m, b);
      TailAscends(p, c, min, max, m, b);
      CopiesAscend(p, c, min, a, m, bs, 0);
      CopiesStayInside(p, c, min, a, m, bs, 0, classCount);
      TailStaysInside(p, c, min, max, m, b, classCount);
      RegionWiden(p, a, m, a, b, classCount);
      RegionWiden(p, m, b, a, b, classCount);
    case _ =>
  }

  lemma {:induction false} ConcatStaysInside(p: Program, cs: seq<Node>, a: nat, b: nat, bs: seq<nat>, q: nat,
          classCount: nat)
    requires ConcatLayout(p, cs, a, b, bs) && q <= |cs| && b <= |p|
    requires forall k | 0 <= k < |cs| :: WellFormed(cs[k], classCount)
    ensures RegionOk(p, bs[q], b, classCount)
    decreases cs, 0, |cs| - q
  {
    if q < |cs| {
      assert Code(p, cs[q], bs[q], bs[q + 1]);
      CodeStaysInside(p, cs[q], bs[q], bs[q + 1], classCount);
      ConcatStaysInside(p, cs, a, b, bs, q + 1, classCount);
      BoundsAscend(p, cs, bs, q + 1, |cs|);
      RegionWiden(p, bs[q], bs[q + 1], bs[q], b, classCount);
      RegionWiden(p, bs[q + 1], b, bs[q], b, classCount);
    }
  }

  lemma {:induction false} AlternationStaysInside(p: Program, cs: seq<Node>, a: nat, b: nat, ss: seq<nat>, q: nat,
          classCount: nat)
    requires AlternationLayout(p, cs, a, b, ss) && q < |cs|
    requires forall k | 0 <= k < |cs| :: WellFormed(cs[k], classCount)
    ensures RegionOk(p, ss[q], b, classCount)
    decreases cs, 0, |cs| - q
  {
    if q == |cs| - 1 {
      CodeStaysInside(p, cs[q], ss[q], b, classCount);
    } else {
      assert AlternativeLayout(p, cs[q], ss[q], ss[q + 1], b);
      StartsAscend(p, cs, ss, b, q + 1);
      CodeStaysInside(p, cs[q], ss[q] + 1, ss[q + 1] - 1, classCount);
      AlternationStaysInside(p, cs, a, b, ss, q + 1, classCount);
      RegionWiden(p, ss[q] + 1, ss[q + 1] - 1, ss[q], b, classCount);
      RegionWiden(p, ss[q + 1], b, ss[q], b, classCount);
    }
  }

  lemma {:induction false} CopiesStayInside(p: Program, c: Node, min: nat, a: nat, m: nat, bs: seq<nat>, q: nat,
          classCount: nat)
    requires CopiesLayout(p, c, min, a, m, bs) && q < |bs| && m <= |p| && WellFormed(c, classCount)
    ensures RegionOk(p, bs[q], m, classCount)
    decreases c, 1, |bs| - q
  {
    if q < |bs| - 1 {
      assert Code(p, c, bs[q], bs[q + 1]);
      CodeStaysInside(p, c, bs[q], bs[q + 1], classCount);
      CopiesStayInside(p, c, min, a, m, bs, q + 1, classCount);
      CopiesAscend(p, c, min, a, m, bs, q + 1);
      RegionWiden(p, bs[q], bs[q + 1], bs[q], m, classCount);
      RegionWiden(p, bs[q + 1], m, bs[q], m, classCount);
    }
  }

  lemma {:induction false} TailStaysInside(p: Program, c: Node, min: nat, max: Option<nat>, m: nat, b: nat,
          classCount: nat)
    requires TailLayout(p, c, min, max, m, b) && b <= |p| && WellFormed(c, classCount)
    ensures RegionOk(p, m, b, classCount)
    decreases c, 2
  {
    match max
    case None =>
      assert LoopLayout(p, c, m, b);
      CodeStaysInside(p, c, m + 1, b - 1, classCount);
      RegionWiden(p, m + 1, b - 1, m, b, classCount);
    case Some(high) =>
      var ss: seq<nat> :| OptionalLayout(p, c, high - min, m, b, ss);
      OptionalStaysInside(p, c, high - min, m, b, ss, 0, classCount);
  }

  lemma {:induction false} OptionalStaysInside(p: Program, c: Node, k: nat, m: nat, b: nat, ss: seq<nat>, q: nat,
          classCount: nat)
    requires OptionalLayout(p, c, k, m, b, ss) && q <= k && b <= |p| && WellFormed(c, classCount)
    ensures RegionOk(p, ss[q], b, classCount)
    decreases c, 1, k - q
  {
    if q < k {
      assert OptionalCopyLayout(p, c, ss[q], ss[q + 1], b);
      OptionalAscend(p, c, k, m, b, ss, q + 1);
      CodeStaysInside(p, c, ss[q] + 1, ss[q + 1], classCount);
      OptionalStaysInside(p, c, k, m, b, ss, q + 1, classCount);
      RegionWiden(p, ss[q] + 1, ss[q + 1], ss[q], b, classCount);
      RegionWiden(p, ss[q + 1], b, ss[q], b, classCount);
    }
  }

  // ---------------------------------------------------------------- acceptance

  /** Some path from the first instruction, started anywhere, reaches the match. */
  ghost predicate Accepts(p: Program, e: Env)
    requires |p| > 0
  {
    ReachesAnywhere(p, e, |p| - 1)
  }

  ghost predicate ReachesAnywhere(p: Program, e: Env, t: nat)
  {
    exists i: nat, k: nat, n: nat :: i <= |e.text| && Path(p, e, 0, i, t, k, n)
  }

  /** A compiled pattern accepts a text exactly when the pattern matches somewhere in it. */
  lemma AcceptsIffFound(p: Program, root: Node, e: Env)
    requires |p| > 0 && p[|p| - 1] == IMatch && Code(p, root, 0, |p| - 1)
    ensures Accepts(p, e) <==> Found(root, e)
  {
    var last := |p| - 1;
    if Accepts(p, e) {
      var i: nat, k: nat, n: nat :| i <= |e.text| && Path(p, e, 0, i, last, k, n);
      var j, n' := PathCrosses(p, root, e, 0, last, i, last, k, n);
    }
    if Found(root, e) {
      var i: nat, j: nat :| i <= |e.text| && Match(root, e, i, j);
      var n := MatchHasPath(p, root, e, 0, last, i, j);
      assert Path(p, e, 0, i, last, j, n);
    }
  }

  // ---------------------------------------------------------------- live threads

  /** `pc` is reached at position `k` from a start the search has tried. */
  ghost predicate Live(p: Program, e: Env, anchored: bool, pc: nat, k: nat)
  {
    exists i: nat, n: nat :: i <= k && (anchored ==> i == 0) && Path(p, e, 0, i, pc, k, n)
  }

  ghost predicate Closed(p: Program, e: Env, i: nat, threads: seq<nat>)
  {
    forall pc: nat, pc': nat :: pc in threads && Silent(p, e, pc, i, pc') ==> pc' in threads
  }

  lemma LiveStep(p: Program, e: Env, anchored: bool, pc: nat, k: nat, pc': nat, k': nat)
    requires Live(p, e, anchored, pc, k) && Step(p, e, pc, k, pc', k')
    ensures Live(p, e, anchored, pc', k')
  {
    var i: nat, n: nat :| i <= k && (anchored ==> i == 0) && Path(p, e, 0, i, pc, k, n);
    OneStep(p, e, pc, k, pc', k');
    JoinPaths(p, e, 0, i, pc, k, n, pc', k', 1);
  }

  lemma LiveAlong(p: Program, e: Env, anchored: bool, pc: nat, k: nat, pc': nat, k': nat, m: nat)
    requires Live(p, e, anchored, pc, k) && Path(p, e, pc, k, pc', k', m)
    ensures Live(p, e, anchored, pc', k')
  {
    var i: nat, n: nat :| i <= k && (anchored ==> i == 0) && Path(p, e, 0, i, pc, k, n);
    JoinPaths(p, e, 0, i, pc, k, n, pc', k', m);
    PathMovesForward(p, e, pc, k, pc', k', m);
  }

  lemma LiveStart(p: Program, e: Env, anchored: bool, k: nat)
    requires anchored ==> k == 0
    ensures Live(p, e, anchored, 0, k)
  {
    assert Path(p, e, 0, k, 0, k, 0);
  }

  /** What the VM has to add at a position so that it misses no live thread there. */
  ghost predicate Complete(p: Program, e: Env, anchored: bool, k: nat, threads: seq<nat>)
  {
    && Closed(p, e, k, threads)
    && ((k == 0 || !anchored) ==> 0 in threads)
    && (k > 0 ==> Receives(p, e, anchored, k - 1, threads))
  }

  /** Every live thread that reads the code point at `k` goes on in `threads`. */
  ghost predicate Receives(p: Program, e: Env, anchored: bool, k: nat, threads: seq<nat>)
  {
    forall pc: nat :: Live(p, e, anchored, pc, k) && Consumes(p, e, pc, k) ==> pc + 1 in threads
  }

  lemma {:induction false} CompleteHasLive(p: Program, e: Env, anchored: bool, k: nat, threads: seq<nat>, i: nat,
          pc: nat, n: nat)
    requires Complete(p, e, anchored, k, threads)
    requires i <= k && (anchored ==> i == 0) && Path(p, e, 0, i, pc, k, n)
    ensures pc in threads
    decreases n
  {
    if n > 0 {
      var u, l := LastStep(p, e, 0, i, pc, k, n);
      if l == k {
        CompleteHasLive(p, e, anchored, k, threads, i, u, n - 1);
      } else {
        PathMovesForward(p, e, 0, i, u, l, n - 1);
        assert Live(p, e, anchored, u, k - 1);
      }
    }
  }

  lemma AllLive(p: Program, e: Env, anchored: bool, k: nat, threads: seq<nat>)
    requires Complete(p, e, anchored, k, threads)
    ensures forall pc: nat :: Live(p, e, anchored, pc, k) ==> pc in threads
  {
    forall pc: nat | Live(p, e, anchored, pc, k) ensures pc in threads {
      var i: nat, n: nat :| i <= k && (anchored ==> i == 0) && Path(p, e, 0, i, pc, k, n);
      CompleteHasLive(p, e, anchored, k, threads, i, pc, n);
    }
  }

  ghost predicate Dead(p: Program, e: Env, k: nat)
  {
    forall pc: nat :: !Live(p, e, true, pc, k)
  }

  /** An anchored search whose threads have all died stays dead. */
  lemma {:induction false} DeadStaysDead(p: Program, e: Env, dead: nat, pc: nat, k: nat, n: nat)
    requires Dead(p, e, dead)
    requires dead <= k && Path(p, e, 0, 0, pc, k, n)
    ensures false
    decreases n
  {
    assert !Live(p, e, true, pc, dead);
    if n == 0 {
      assert Live(p, e, true, pc, dead);
    } else if k != dead {
      var u, l := LastStep(p, e, 0, 0, pc, k, n);
      DeadStaysDead(p, e, dead, u, l, n - 1);
    }
  }

  /** An anchored program cannot match from a later start. */
  lemma AnchoredOnlyAtStart(p: Program, e: Env, i: nat, k: nat, n: nat)
    requires |p| > 0 && p[0] == IAssert(InputStart) && p[|p| - 1] == IMatch
    requires i > 0
    ensures !Path(p, e, 0, i, |p| - 1, k, n)
  {}

  // ---------------------------------------------------------------- thread lists

  lemma {:induction false} DistinctBounded(s: seq<nat>, n: nat)
    requires forall i | 0 <= i < |s| :: s[i] < n
    requires forall i, j | 0 <= i < j < |s| :: s[i] != s[j]
    ensures |s| <= n
    decreases n
  {
    if s != [] {
      assert s[0] < n;
      if n - 1 in s {
        var i :| 0 <= i < |s| && s[i] == n - 1;
        var rest := s[..i] + s[i + 1..];
        forall j | 0 <= j < |rest| ensures rest[j] < n - 1 {
          assert rest[j] == s[if j < i then j else j + 1];
        }
        DistinctBounded(rest, n - 1);
      } else {
        forall j | 0 <= j < |s| ensures s[j] < n - 1 { assert s[j] in s; }
        DistinctBounded(s, n - 1);
      }
    }
  }

  /** The threads alive at one position, in order; every operation takes constant time. */
  class ThreadList {
    const dense: array<nat>
    const sparse: array<nat>
    var count: nat

    ghost predicate Valid()
      reads this, dense, sparse
    {
      && dense != sparse && dense.Length == sparse.Length && count <= dense.Length
      && forall i | 0 <= i < count :: dense[i] < sparse.Length && sparse[dense[i]] == i
    }

    ghost function Threads(): seq<nat>
      requires count <= dense.Length
      reads this, dense
    {
      dense[..count]
    }

    constructor (size: nat)
      ensures Valid() && Threads() == [] && dense.Length == size
      ensures fresh(dense) && fresh(sparse)
    {
      dense := new nat[size](_ => 0);
      sparse := new nat[size](_ => 0);
      count := 0;
    }

    /** The entry of a program counter counts only if it points back. */
    method Contains(pc: nat) returns (found: bool)
      requires Valid() && pc < dense.Length
      ensures found <==> pc in Threads()
    {
      var slot := sparse[pc];
      found := slot < count && dense[slot] == pc;
      if found { assert Threads()[slot] == pc; }
    }

    method Insert(pc: nat)
      requires Valid() && pc < dense.Length && pc !in Threads()
      modifies this`count, dense, sparse
      ensures Valid() && Threads() == old(Threads()) + [pc]
    {
      assert count < dense.Length by {
        var all := Threads() + [pc];
        forall i, j | 0 <= i < j < |all| ensures all[i] != all[j] {
          if j < count { assert sparse[dense[i]] == i && sparse[dense[j]] == j; } else { assert all[i] in Threads(); }
        }
        DistinctBounded(all, dense.Length);
      }
      forall i | 0 <= i < count ensures dense[i] != pc { assert dense[i] in Threads(); }
      sparse[pc] := count;
      dense[count] := pc;
      count := count + 1;
    }

    method Clear()
      requires Valid()
      modifies this`count
      ensures Valid() && Threads() == []
    {
      count := 0;
    }
  }

  /** Two lists that share no memory. */
  ghost predicate Apart(a: ThreadList, b: ThreadList)
  {
    a != b && a.dense != b.dense && a.dense != b.sparse && a.sparse != b.dense && a.sparse != b.sparse
  }

  // ---------------------------------------------------------------- add_thread

  ghost predicate SilentlyFrom(p: Program, e: Env, start: nat, i: nat, pc: nat)
  {
    exists n: nat :: Path(p, e, start, i, pc, i, n)
  }

  lemma SilentlyStep(p: Program, e: Env, start: nat, i: nat, pc: nat, pc': nat)
    requires SilentlyFrom(p, e, start, i, pc) && Silent(p, e, pc, i, pc')
    ensures SilentlyFrom(p, e, start, i, pc')
  {
    var n: nat :| Path(p, e, start, i, pc, i, n);
    OneStep(p, e, pc, i, pc', i);
    JoinPaths(p, e, start, i, pc, i, n, pc', i, 1);
  }

  /** Everything a silent move leads to is listed already or waits on the stack. */
  ghost predicate ClosedBut(p: Program, e: Env, i: nat, threads: seq<nat>, stack: seq<nat>)
  {
    forall pc: nat, pc': nat :: pc in threads && Silent(p, e, pc, i, pc') ==> pc' in threads || pc' in stack
  }

  /** The instructions pushed when `pc` is visited, last one on top. */
  function Successors(p: Program, e: Env, pc: nat, i: nat): seq<nat>
    requires pc < |p| && i <= |e.text|
  {
    match p[pc]
    case IJump(x) => [x]
    case ISplit(x, y) => [y, x]
    case IAssert(a) => if HoldsAt(a, e.text, i) then [pc + 1] else []
    case _ => []
  }

  lemma SuccessorsAreSilent(p: Program, e: Env, pc: nat, i: nat, classCount: nat)
    requires ProgramOk(p, classCount) && pc < |p| && i <= |e.text|
    ensures forall pc': nat :: pc' in Successors(p, e, pc, i) <==> Silent(p, e, pc, i, pc')
    ensures forall pc' | pc' in Successors(p, e, pc, i) :: pc' < |p|
  {
    assert pc < |p| - 1 ==> StaysInside(p[pc], 0, |p| - 1, classCount);
  }

  /** A visited program counter moves from the stack to the list, its successors to the stack. */
  lemma VisitKeepsClosed(p: Program, e: Env, i: nat, threads: seq<nat>, rest: seq<nat>, pc: nat, classCount: nat)
    requires ProgramOk(p, classCount) && pc < |p| && i <= |e.text|
    requires ClosedBut(p, e, i, threads, rest + [pc])
    ensures ClosedBut(p, e, i, threads + [pc], rest + Successors(p, e, pc, i))
  {
    SuccessorsAreSilent(p, e, pc, i, classCount);
    forall x: nat, y: nat | x in threads + [pc] && Silent(p, e, x, i, y)
      ensures y in threads + [pc] || y in rest + Successors(p, e, pc, i)
    {
      if x in threads { assert y in threads || y in rest + [pc]; }
    }
  }

  lemma ListedKeepsClosed(p: Program, e: Env, i: nat, threads: seq<nat>, rest: seq<nat>, pc: nat)
    requires ClosedBut(p, e, i, threads, rest + [pc]) && pc in threads
    ensures ClosedBut(p, e, i, threads, rest)
  {}

  /** Program counters that lie inside and are reached silently from `start`. */
  ghost predicate AllReached(p: Program, e: Env, start: nat, i: nat, pcs: seq<nat>)
  {
    forall pc | pc in pcs :: pc < |p| && SilentlyFrom(p, e, start, i, pc)
  }

  lemma PopReached(p: Program, e: Env, start: nat, i: nat, stack: seq<nat>)
    requires stack != [] && AllReached(p, e, start, i, stack)
    ensures AllReached(p, e, start, i, stack[..|stack| - 1])
    ensures stack[|stack| - 1] < |p| && SilentlyFrom(p, e, start, i, stack[|stack| - 1])
  {
    assert stack[|stack| - 1] in stack;
  }

  lemma VisitKeepsReached(p: Program, e: Env, start: nat, i: nat, rest: seq<nat>, pc: nat, classCount: nat)
    requires ProgramOk(p, classCount) && pc < |p| && i <= |e.text|
    requires AllReached(p, e, start, i, rest) && SilentlyFrom(p, e, start, i, pc)
    ensures AllReached(p, e, start, i, rest + Successors(p, e, pc, i))
  {
    SuccessorsAreSilent(p, e, pc, i, classCount);
    forall x | x in Successors(p, e, pc, i) ensures x < |p| && SilentlyFrom(p, e, start, i, x) {
      SilentlyStep(p, e, start, i, pc, x);
    }
  }

  /**
   * `add_thread`: a depth-first walk over the silent moves from `start`, with an explicit stack.
   * It adds everything reachable that is not listed yet and reports whether a match is.
   */
  method AddThread(p: Program, e: Env, list: ThreadList, start: nat, i: nat) returns (matched: bool)
    requires ProgramOk(p, |e.classes|) && start < |p| && i <= |e.text|
    requires list.Valid() && list.dense.Length == |p| && (forall pc | pc in list.Threads() :: pc < |p|)
    requires Closed(p, e, i, list.Threads()) && |p| - 1 !in list.Threads()
    modifies list`count, list.dense, list.sparse
    ensures list.Valid() && old(list.Threads()) <= list.Threads() && start in list.Threads()
    ensures Closed(p, e, i, list.Threads())
    ensures forall pc | pc in list.Threads() :: pc < |p| && (pc in old(list.Threads()) || SilentlyFrom(p, e, start, i, pc))
    ensures matched <==> |p| - 1 in list.Threads()
  {
    hide SilentlyFrom, Silent;
    ghost var before := list.Threads();
    ghost var added: seq<nat> := [];
    var stack: seq<nat> := [start];
    matched := false;
    StartReached(p, e, start, i);
    while stack != []
      invariant list.Valid() && list.Threads() == before + added
      invariant start in added || start in before || start in stack
      invariant ClosedBut(p, e, i, list.Threads(), stack)
      invariant AllReached(p, e, start, i, added) && AllReached(p, e, start, i, stack)
      invariant matched <==> |p| - 1 in added
      decreases |p| - list.count, |stack|
    {
      var pc := stack[|stack| - 1];
      ghost var threads, rest := list.Threads(), stack[..|stack| - 1];
      assert stack == rest + [pc];
      PopReached(p, e, start, i, stack);
      stack := stack[..|stack| - 1];
      var listed := list.Contains(pc);
      if listed {
        ListedKeepsClosed(p, e, i, threads, rest, pc);
        continue;
      }
      list.Insert(pc);
      added := added + [pc];
      VisitKeepsClosed(p, e, i, threads, rest, pc, |e.classes|);
      VisitKeepsReached(p, e, start, i, rest, pc, |e.classes|);
      match p[pc] {
        case IJump(x) => stack := stack + [x];
        case ISplit(x, y) => stack := stack + [y] + [x];
        case IAssert(a) =>
          if HoldsAt(a, e.text, i) { stack := stack + [pc + 1]; }
        case IMatch => matched := true;
        case _ =>
      }
      assert stack == rest + Successors(p, e, pc, i);
      OnlyLastMatches(p, pc, |e.classes|);
    }
  }

  lemma StartReached(p: Program, e: Env, start: nat, i: nat)
    ensures SilentlyFrom(p, e, start, i, start)
  {
    assert Path(p, e, start, i, start, i, 0);
  }

  lemma OnlyLastMatches(p: Program, pc: nat, classCount: nat)
    requires ProgramOk(p, classCount) && pc < |p|
    ensures p[pc] == IMatch <==> pc == |p| - 1
  {
    assert pc < |p| - 1 ==> StaysInside(p[pc], 0, |p| - 1, classCount);
  }

  // ---------------------------------------------------------------- search

  /** The threads at position `k` are exactly the live ones, and none of them is the match. */
  ghost predicate ExactlyLive(p: Program, e: Env, anchored: bool, k: nat, threads: seq<nat>)
    requires |p| > 0
  {
    && (forall pc | pc in threads :: pc < |p|)
    && (forall pc: nat :: pc in threads <==> Live(p, e, anchored, pc, k))
    && |p| - 1 !in threads
  }

  ghost predicate NoneUpTo(p: Program, e: Env, anchored: bool, t: nat, k: nat)
  {
    forall l: nat | l <= k :: !Live(p, e, anchored, t, l)
  }

  lemma LiveMatchAccepts(p: Program, e: Env, anchored: bool, k: nat)
    requires |p| > 0 && k <= |e.text| && Live(p, e, anchored, |p| - 1, k)
    ensures Accepts(p, e)
  {}

  lemma AcceptingPathIsLive(p: Program, e: Env, anchored: bool, i: nat, k: nat, n: nat)
    requires |p| > 0 && p[|p| - 1] == IMatch
    requires anchored ==> p[0] == IAssert(InputStart)
    requires i <= |e.text| && Path(p, e, 0, i, |p| - 1, k, n)
    ensures k <= |e.text| && Live(p, e, anchored, |p| - 1, k)
  {
    PathMovesForward(p, e, 0, i, |p| - 1, k, n);
    if anchored && i > 0 { AnchoredOnlyAtStart(p, e, i, k, n); }
  }

  lemma NoMatchRejects(p: Program, e: Env, anchored: bool)
    requires |p| > 0 && p[|p| - 1] == IMatch
    requires anchored ==> p[0] == IAssert(InputStart)
    requires NoneUpTo(p, e, anchored, |p| - 1, |e.text|)
    ensures !Accepts(p, e)
  {
    if Accepts(p, e) {
      var i: nat, k: nat, n: nat :| i <= |e.text| && Path(p, e, 0, i, |p| - 1, k, n);
      AcceptingPathIsLive(p, e, anchored, i, k, n);
    }
  }

  lemma DeadRejects(p: Program, e: Env, k: nat)
    requires |p| > 0 && p[|p| - 1] == IMatch && p[0] == IAssert(InputStart)
    requires NoneUpTo(p, e, true, |p| - 1, k) && Dead(p, e, k + 1)
    ensures !Accepts(p, e)
  {
    var t := |p| - 1;
    forall l: nat | l <= |e.text| ensures !Live(p, e, true, t, l) {
      if l > k && Live(p, e, true, t, l) {
        var i: nat, n: nat :| i <= l && i == 0 && Path(p, e, 0, i, t, l, n);
        DeadStaysDead(p, e, k + 1, t, l, n);
      }
    }
    NoMatchRejects(p, e, true);
  }

  /** The two ways a list grows keep it live and closed. */
  lemma StartsAreLive(p: Program, e: Env, anchored: bool, start: nat, k: nat, before: seq<nat>, after: seq<nat>)
    requires Live(p, e, anchored, start, k)
    requires forall pc | pc in before :: Live(p, e, anchored, pc, k)
    requires forall pc | pc in after :: pc in before || SilentlyFrom(p, e, start, k, pc)
    ensures forall pc | pc in after :: Live(p, e, anchored, pc, k)
  {
    forall pc | pc in after ensures Live(p, e, anchored, pc, k) {
      if pc !in before {
        var n: nat :| Path(p, e, start, k, pc, k, n);
        LiveAlong(p, e, anchored, start, k, pc, k, n);
      }
    }
  }

  lemma BecomesExact(p: Program, e: Env, anchored: bool, k: nat, threads: seq<nat>)
    requires |p| > 0 && Complete(p, e, anchored, k, threads) && |p| - 1 !in threads
    requires forall pc | pc in threads :: pc < |p| && Live(p, e, anchored, pc, k)
    ensures ExactlyLive(p, e, anchored, k, threads)
  {
    AllLive(p, e, anchored, k, threads);
  }

  /** The switch in the inner loop of `search`. */
  method Reads(p: Program, e: Env, pc: nat, k: nat) returns (consumes: bool)
    requires ProgramOk(p, |e.classes|) && pc < |p| && k < |e.text|
    requires forall c | c in e.classes :: Canonical(c)
    ensures consumes <==> Consumes(p, e, pc, k)
  {
    match p[pc] {
      case IChar(c) => consumes := c == e.text[k];
      case IAny => consumes := !IsLineTerminator(e.text[k]);
      case IClass(index) =>
        assert StaysInside(p[pc], 0, |p| - 1, |e.classes|);
        consumes := RegexClasses.Contains(e.classes[index], e.text[k]);
      case _ => consumes := false;
    }
  }

  /** Runs every thread over the code point at `k`; stops as soon as a match is reached. */
  method Advance(p: Program, e: Env, anchored: bool, current: ThreadList, next: ThreadList,
          k: nat) returns (matched: bool)
    requires ProgramOk(p, |e.classes|) && k < |e.text|
    requires forall c | c in e.classes :: Canonical(c)
    requires current.Valid() && next.Valid() && current.dense.Length == |p| == next.dense.Length
    requires Apart(current, next)
    requires ExactlyLive(p, e, anchored, k, current.Threads()) && next.Threads() == []
    modifies next`count, next.dense, next.sparse
    ensures next.Valid()
    ensures matched ==> Live(p, e, anchored, |p| - 1, k + 1)
    ensures !matched ==> |p| - 1 !in next.Threads() && Closed(p, e, k + 1, next.Threads())
    ensures !matched ==> forall pc | pc in next.Threads() :: pc < |p| && Live(p, e, anchored, pc, k + 1)
    ensures !matched ==> Receives(p, e, anchored, k, next.Threads())
  {
    ghost var threads := current.Threads();
    for i := 0 to current.count
      invariant next.Valid() && current.Threads() == threads
      invariant |p| - 1 !in next.Threads() && Closed(p, e, k + 1, next.Threads())
      invariant forall pc | pc in next.Threads() :: pc < |p| && Live(p, e, anchored, pc, k + 1)
      invariant forall j | 0 <= j < i :: Consumes(p, e, threads[j], k) ==> threads[j] + 1 in next.Threads()
    {
      var pc := current.dense[i];
      assert pc == threads[i] && pc in threads;
      var consumes := Reads(p, e, pc, k);
      if consumes {
        LiveStep(p, e, anchored, pc, k, pc + 1, k + 1);
        ghost var before := next.Threads();
        assert pc != |p| - 1;
        matched := AddThread(p, e, next, pc + 1, k + 1);
        StartsAreLive(p, e, anchored, pc + 1, k + 1, before, next.Threads());
        if matched { return; }
      }
    }
    forall pc: nat | Live(p, e, anchored, pc, k) && Consumes(p, e, pc, k) ensures pc + 1 in next.Threads() {
      assert pc in threads;
      var j :| 0 <= j < |threads| && threads[j] == pc;
    }
    matched := false;
  }

  /** One turn of the main loop, after the budget has paid for it. */
  method NextPosition(p: Program, e: Env, anchored: bool, current: ThreadList, next: ThreadList,
          k: nat) returns (matched: bool)
    requires ProgramOk(p, |e.classes|) && k < |e.text|
    requires forall c | c in e.classes :: Canonical(c)
    requires current.Valid() && next.Valid() && current.dense.Length == |p| == next.dense.Length
    requires Apart(current, next)
    requires ExactlyLive(p, e, anchored, k, current.Threads())
    modifies next`count, next.dense, next.sparse
    ensures next.Valid()
    ensures matched ==> Live(p, e, anchored, |p| - 1, k + 1)
    ensures !matched ==> ExactlyLive(p, e, anchored, k + 1, next.Threads())
  {
    next.Clear();
    matched := Advance(p, e, anchored, current, next, k);
    if matched { return; }
    // Without an anchor new threads start behind every code point that was read.
    if !anchored {
      LiveStart(p, e, anchored, k + 1);
      ghost var before := next.Threads();
      matched := AddThread(p, e, next, 0, k + 1);
      StartsAreLive(p, e, anchored, 0, k + 1, before, next.Threads());
      if matched { return; }
    }
    BecomesExact(p, e, anchored, k + 1, next.Threads());
  }

  lemma EmptyIsDead(p: Program, e: Env, k: nat, threads: seq<nat>)
    requires |p| > 0 && ExactlyLive(p, e, true, k, threads) && threads == []
    ensures Dead(p, e, k)
  {
    forall pc: nat ensures !Live(p, e, true, pc, k) { assert pc !in threads; }
  }

  lemma NoneOneMore(p: Program, e: Env, anchored: bool, k: nat, threads: seq<nat>)
    requires |p| > 0 && NoneUpTo(p, e, anchored, |p| - 1, k) && ExactlyLive(p, e, anchored, k + 1, threads)
    ensures NoneUpTo(p, e, anchored, |p| - 1, k + 1)
  {}

  // ---------------------------------------------------------------- the cost of a search

  /** The program counters alive at a position. */
  ghost function LiveSet(p: Program, e: Env, anchored: bool, k: nat): set<nat>
  {
    set pc: nat | pc < |p| && Live(p, e, anchored, pc, k)
  }

  /** The search can answer at this position: a match is reached, nothing is alive, or the text ends. */
  ghost predicate Answers(p: Program, e: Env, anchored: bool, k: nat)
    requires |p| > 0
  {
    k == |e.text| || Live(p, e, anchored, |p| - 1, k) || (anchored && Dead(p, e, k))
  }

  /** The first position from `k` on where it can. */
  ghost function FirstAnswer(p: Program, e: Env, anchored: bool, k: nat): (stop: nat)
    requires |p| > 0 && k <= |e.text|
    ensures k <= stop <= |e.text| && Answers(p, e, anchored, stop)
    ensures forall l | k <= l < stop :: !Answers(p, e, anchored, l)
    decreases |e.text| - k
  {
    if Answers(p, e, anchored, k) then k else FirstAnswer(p, e, anchored, k + 1)
  }

  /** The program's size, and for every position read a step and one more for each thread alive there. */
  ghost function CostUpTo(p: Program, e: Env, anchored: bool, k: nat): nat
  {
    if k == 0 then |p| else CostUpTo(p, e, anchored, k - 1) + 1 + |LiveSet(p, e, anchored, k - 1)|
  }

  /** What the whole search costs, up to the first position where it can answer. */
  ghost function Cost(p: Program, e: Env, anchored: bool): nat
    requires |p| > 0
  {
    CostUpTo(p, e, anchored, FirstAnswer(p, e, anchored, 0))
  }

  /** The bound that is linear in the text. */
  function Bound(positions: nat, size: nat): nat
  {
    size + positions * (size + 1)
  }

  lemma {:induction false} CostBounded(p: Program, e: Env, anchored: bool, k: nat)
    ensures CostUpTo(p, e, anchored, k) <= Bound(k, |p|)
  {
    hide LiveSet;
    if k == 0 {
      BoundGrows(0, 0, |p|);
    } else {
      CostBounded(p, e, anchored, k - 1);
      BoundGrows(k - 1, k, |p|);
      LiveSetBounded(p, e, anchored, k - 1);
    }
  }

  lemma LiveSetBounded(p: Program, e: Env, anchored: bool, k: nat)
    ensures |LiveSet(p, e, anchored, k)| <= |p|
  {
    BelowBounded(LiveSet(p, e, anchored, k), |p|);
  }

  lemma {:induction false} BelowBounded(a: set<nat>, n: nat)
    requires forall x | x in a :: x < n
    ensures |a| <= n
    decreases n
  {
    if n == 0 {
      assert a == {};
    } else {
      BelowBounded(a - {n - 1}, n - 1);
    }
  }

  lemma {:induction false} CostGrows(p: Program, e: Env, anchored: bool, k: nat, l: nat)
    requires k <= l
    ensures CostUpTo(p, e, anchored, k) <= CostUpTo(p, e, anchored, l)
    decreases l
  {
    if k < l { CostGrows(p, e, anchored, k, l - 1); }
  }

  lemma {:induction false} DistinctSize(s: seq<nat>, a: set<nat>)
    requires forall i, j | 0 <= i < j < |s| :: s[i] != s[j]
    requires forall x :: x in a <==> x in s
    ensures |a| == |s|
    decreases |s|
  {
    if s == [] {
      assert a == {};
    } else {
      var rest, last := s[..|s| - 1], s[|s| - 1];
      assert s == rest + [last];
      assert last in s;
      forall x ensures x in a - {last} <==> x in rest {
        if x in rest { assert x in s; }
      }
      DistinctSize(rest, a - {last});
    }
  }

  /** The list holds one entry for each thread that is alive. */
  lemma ThreadsCount(p: Program, e: Env, anchored: bool, k: nat, list: ThreadList)
    requires list.Valid() && |p| > 0 && ExactlyLive(p, e, anchored, k, list.Threads())
    ensures list.count == |LiveSet(p, e, anchored, k)|
  {
    var threads := list.Threads();
    forall i, j | 0 <= i < j < |threads| ensures threads[i] != threads[j] {
      assert list.sparse[list.dense[i]] == i && list.sparse[list.dense[j]] == j;
    }
    DistinctSize(threads, LiveSet(p, e, anchored, k));
  }

  /** Where the search answers is determined by where it answers first. */
  lemma AnswersFirst(p: Program, e: Env, anchored: bool, stop: nat)
    requires |p| > 0 && stop <= |e.text| && Answers(p, e, anchored, stop)
    requires forall l: nat | l < stop :: !Answers(p, e, anchored, l)
    ensures FirstAnswer(p, e, anchored, 0) == stop
  {
    var first := FirstAnswer(p, e, anchored, 0);
  }

  lemma NotYet(p: Program, e: Env, anchored: bool, k: nat)
    requires |p| > 0 && k <= |e.text| && forall l: nat | l <= k :: !Answers(p, e, anchored, l)
    ensures FirstAnswer(p, e, anchored, 0) > k
  {
    assert Answers(p, e, anchored, FirstAnswer(p, e, anchored, 0));
  }

  /**
   * `search` with a step budget. An answer is always right and costs exactly the documented steps
   * of the search up to the first position where it can be given; there is none exactly if the
   * budget is smaller.
   */
  method Search(p: Program, e: Env, anchored: bool, budget: nat) returns (result: Option<bool>, left: nat)
    requires ProgramOk(p, |e.classes|)
    requires anchored <==> p[0] == IAssert(InputStart)
    requires forall c | c in e.classes :: Canonical(c)
    ensures result.Some? ==> (result.value <==> Accepts(p, e))
    ensures result.Some? <==> Cost(p, e, anchored) <= budget
    ensures left == if result.Some? then budget - Cost(p, e, anchored) else 0
    ensures Cost(p, e, anchored) <= Bound(|e.text|, |p|)
  {
    hide Accepts, Bound, ExactlyLive, NoneUpTo, Answers, CostUpTo;
    CostBounded(p, e, anchored, FirstAnswer(p, e, anchored, 0));
    BoundGrows(FirstAnswer(p, e, anchored, 0), |e.text|, |p|);
    NoCostYet(p, e, anchored);
    CostGrows(p, e, anchored, 0, FirstAnswer(p, e, anchored, 0));
    var current := new ThreadList(|p|);
    var next := new ThreadList(|p|);
    left := budget;
    if |p| > left { return None, 0; }
    left := left - |p|;
    var matched := FirstPosition(p, e, anchored, current);
    if matched {
      LiveMatchAccepts(p, e, anchored, 0);
      MatchAnswers(p, e, anchored, 0);
      AnswersFirst(p, e, anchored, 0);
      return Some(true), left;
    }
    result, left := Run(p, e, anchored, current, next, left);
  }

  lemma NoCostYet(p: Program, e: Env, anchored: bool)
    ensures CostUpTo(p, e, anchored, 0) == |p|
  {}

  lemma MatchAnswers(p: Program, e: Env, anchored: bool, k: nat)
    requires |p| > 0 && Live(p, e, anchored, |p| - 1, k)
    ensures Answers(p, e, anchored, k)
  {}

  lemma DeadAnswers(p: Program, e: Env, k: nat)
    requires |p| > 0 && Dead(p, e, k)
    ensures Answers(p, e, true, k)
  {}

  lemma EndAnswers(p: Program, e: Env, anchored: bool)
    requires |p| > 0
    ensures Answers(p, e, anchored, |e.text|)
  {}

  /** Before the end, threads that are alive without a match leave the search open. */
  lemma AliveGoesOn(p: Program, e: Env, anchored: bool, k: nat, threads: seq<nat>)
    requires |p| > 0 && k < |e.text| && ExactlyLive(p, e, anchored, k, threads) && (anchored ==> threads != [])
    ensures !Answers(p, e, anchored, k)
  {
    if anchored {
      assert threads[0] in threads;
      assert Live(p, e, anchored, threads[0], k);
    }
  }

  lemma StartAlive(p: Program, e: Env, anchored: bool, threads: seq<nat>)
    requires |p| > 0 && ExactlyLive(p, e, anchored, 0, threads)
    ensures threads != []
  {
    LiveStart(p, e, anchored, 0);
    assert 0 in threads;
  }

  lemma CostOfTurn(p: Program, e: Env, anchored: bool, k: nat)
    ensures CostUpTo(p, e, anchored, k + 1) == CostUpTo(p, e, anchored, k) + 1 + |LiveSet(p, e, anchored, k)|
  {}

  /** The main loop of `search`, from the threads at position 0. */
  method Run(p: Program, e: Env, anchored: bool, first: ThreadList, spare: ThreadList,
          budget: nat) returns (result: Option<bool>, left: nat)
    requires ProgramOk(p, |e.classes|)
    requires anchored <==> p[0] == IAssert(InputStart)
    requires forall c | c in e.classes :: Canonical(c)
    requires first.Valid() && spare.Valid() && first.dense.Length == |p| == spare.dense.Length && Apart(first, spare)
    requires ExactlyLive(p, e, anchored, 0, first.Threads()) && NoneUpTo(p, e, anchored, |p| - 1, 0)
    modifies first`count, first.dense, first.sparse, spare`count, spare.dense, spare.sparse
    ensures result.Some? ==> (result.value <==> Accepts(p, e))
    ensures result.Some? <==> Cost(p, e, anchored) <= budget + |p|
    ensures left == if result.Some? then budget + |p| - Cost(p, e, anchored) else 0
  {
    hide Accepts, Live, ExactlyLive, NoneUpTo, Dead, Answers, CostUpTo, LiveSet;
    var current, next, k := first, spare, 0;
    left := budget;
    NoCostYet(p, e, anchored);
    StartAlive(p, e, anchored, first.Threads());
    while k < |e.text|
      invariant 0 <= k <= |e.text|
      invariant (current == first && next == spare) || (current == spare && next == first)
      invariant current.Valid() && next.Valid()
      invariant ExactlyLive(p, e, anchored, k, current.Threads()) && (anchored ==> current.count > 0)
      invariant NoneUpTo(p, e, anchored, |p| - 1, k)
      invariant forall l: nat | l < k :: !Answers(p, e, anchored, l)
      invariant left + CostUpTo(p, e, anchored, k) == budget + |p|
    {
      ThreadsCount(p, e, anchored, k, current);
      CostOfTurn(p, e, anchored, k);
      AliveGoesOn(p, e, anchored, k, current.Threads());
      NotYet(p, e, anchored, k);
      CostGrows(p, e, anchored, k + 1, FirstAnswer(p, e, anchored, 0));
      if current.count + 1 > left { return None, 0; }
      left := left - (current.count + 1);
      var matched := NextPosition(p, e, anchored, current, next, k);
      if matched {
        LiveMatchAccepts(p, e, anchored, k + 1);
        MatchAnswers(p, e, anchored, k + 1);
        AnswersFirst(p, e, anchored, k + 1);
        return Some(true), left;
      }
      if anchored && next.count == 0 {
        EmptyIsDead(p, e, k + 1, next.Threads());
        DeadAnswers(p, e, k + 1);
        AnswersFirst(p, e, anchored, k + 1);
        DeadRejects(p, e, k);
        return Some(false), left;
      }
      NoneOneMore(p, e, anchored, k, next.Threads());
      current, next := next, current;
      k := k + 1;
    }
    EndAnswers(p, e, anchored);
    AnswersFirst(p, e, anchored, |e.text|);
    NoMatchRejects(p, e, anchored);
    return Some(false), left;
  }

  method FirstPosition(p: Program, e: Env, anchored: bool, list: ThreadList) returns (matched: bool)
    requires ProgramOk(p, |e.classes|)
    requires list.Valid() && list.dense.Length == |p| && list.Threads() == []
    modifies list`count, list.dense, list.sparse
    ensures list.Valid()
    ensures matched ==> Live(p, e, anchored, |p| - 1, 0)
    ensures !matched ==> ExactlyLive(p, e, anchored, 0, list.Threads()) && NoneUpTo(p, e, anchored, |p| - 1, 0)
  {
    LiveStart(p, e, anchored, 0);
    matched := AddThread(p, e, list, 0, 0);
    StartsAreLive(p, e, anchored, 0, 0, [], list.Threads());
    if !matched { BecomesExact(p, e, anchored, 0, list.Threads()); }
  }

  lemma BoundGrows(k: nat, n: nat, size: nat)
    requires k <= n
    ensures Bound(0, size) == size && Bound(k, size) <= Bound(n, size)
    ensures Bound(k + 1, size) == Bound(k, size) + size + 1
  {
    assert k * (size + 1) <= n * (size + 1);
  }
}
