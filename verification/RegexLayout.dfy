/**
 * The layout of compiled code (`Compiler` in `src/core/regex.cpp`), and the proof that a region
 * laid out for a node is crossed exactly where the node matches.
 */
module RegexLayout {
  import opened Options
  import opened RegexClasses
  import opened RegexMeaning
  import opened RegexPrograms

  /** The instructions `[a, b)` of `p` are code for `node`. */
  ghost predicate Code(p: Program, node: Node, a: nat, b: nat)
    decreases node, 0
  {
    && a <= b <= |p|
    && match node
       case Empty => a == b
       case Char(c) => b == a + 1 && p[a] == IChar(c)
       case Any => b == a + 1 && p[a] == IAny
       case Class(k) => b == a + 1 && p[a] == IClass(k)
       case Assert(s) => b == a + 1 && p[a] == IAssert(s)
       case Concat(cs) => exists bs: seq<nat> :: ConcatLayout(p, cs, a, b, bs)
       case Alternation(cs) => exists ss: seq<nat> :: AlternationLayout(p, cs, a, b, ss)
       case Repeat(c, min, max) => exists m: nat, bs: seq<nat> :: CopiesLayout(p, c, min, a, m, bs) && TailLayout(p, c, min, max, m, b)
  }

  ghost predicate ConcatLayout(p: Program, cs: seq<Node>, a: nat, b: nat, bs: seq<nat>)
    decreases cs, 0
  {
    && |bs| == |cs| + 1 && bs[0] == a && bs[|cs|] == b
    && forall i | 0 <= i < |cs| :: Code(p, cs[i], bs[i], bs[i + 1])
  }

  /** Alternative `i` starts at `ss[i]`: a split, its code, and a jump to the common end. */
  ghost predicate AlternationLayout(p: Program, cs: seq<Node>, a: nat, b: nat, ss: seq<nat>)
    decreases cs, 0
  {
    && |cs| > 0 && |ss| == |cs| && ss[0] == a
    && (forall i | 0 <= i < |cs| - 1 :: AlternativeLayout(p, cs[i], ss[i], ss[i + 1], b))
    && Code(p, cs[|cs| - 1], ss[|cs| - 1], b)
  }

  ghost predicate AlternativeLayout(p: Program, c: Node, s: nat, s': nat, end: nat)
    decreases c, 1
  {
    && s + 2 <= s' <= |p|
    && p[s] == ISplit(s + 1, s') && Code(p, c, s + 1, s' - 1) && p[s' - 1] == IJump(end)
  }

  /** `min` copies one after the other; the expansion stops at a copy that compiles to nothing. */
  ghost predicate CopiesLayout(p: Program, c: Node, min: nat, a: nat, m: nat, bs: seq<nat>)
    decreases c, 1
  {
    && 1 <= |bs| <= min + 1 && bs[0] == a && bs[|bs| - 1] == m
    && (forall i | 0 <= i < |bs| - 1 :: Code(p, c, bs[i], bs[i + 1]))
    && (|bs| == min + 1 || (|bs| >= 2 && bs[|bs| - 2] == m))
  }

  ghost predicate TailLayout(p: Program, c: Node, min: nat, max: Option<nat>, m: nat, b: nat)
    decreases c, 4
  {
    match max
    case None => LoopLayout(p, c, m, b)
    case Some(high) => min <= high && OptionalTail(p, c, high - min, m, b)
  }

  ghost predicate OptionalTail(p: Program, c: Node, k: nat, m: nat, b: nat)
    decreases c, 3
  {
    exists ss: seq<nat> :: OptionalLayout(p, c, k, m, b, ss)
  }

  /** A loop: a split into the operand or past it, the operand, and a jump back to the split. */
  ghost predicate LoopLayout(p: Program, c: Node, m: nat, b: nat)
    decreases c, 1
  {
    && m + 2 <= b <= |p|
    && p[m] == ISplit(m + 1, b) && Code(p, c, m + 1, b - 1) && p[b - 1] == IJump(m)
  }

  /** `k` optional copies; every split leaves to the same end. */
  ghost predicate OptionalLayout(p: Program, c: Node, k: nat, m: nat, b: nat, ss: seq<nat>)
    decreases c, 2
  {
    && |ss| == k + 1 && ss[0] == m && ss[k] == b
    && forall i | 0 <= i < k :: OptionalCopyLayout(p, c, ss[i], ss[i + 1], b)
  }

  ghost predicate OptionalCopyLayout(p: Program, c: Node, s: nat, s': nat, end: nat)
    decreases c, 1
  {
    s < s' <= |p| && p[s] == ISplit(s + 1, end) && Code(p, c, s + 1, s')
  }

  // ---------------------------------------------------------------- code that is empty

  /** Nodes that compile to no instruction at all. */
  predicate Nothing(node: Node)
  {
    match node
    case Empty => true
    case Concat(cs) => forall k | 0 <= k < |cs| :: Nothing(cs[k])
    case Repeat(c, min, max) => max == Some(min) && (min == 0 || Nothing(c))
    case Alternation(cs) => |cs| == 1 && Nothing(cs[0])
    case _ => false
  }

  lemma {:induction false} EmptyCode(p: Program, node: Node, a: nat)
    requires Code(p, node, a, a)
    ensures Nothing(node)
    decreases node
  {
    match node
    case Concat(cs) =>
      var bs: seq<nat> :| ConcatLayout(p, cs, a, a, bs);
      forall k | 0 <= k < |cs| ensures Nothing(cs[k]) {
        BoundsAscend(p, cs, bs, 0, k);
        BoundsAscend(p, cs, bs, k + 1, |cs|);
        EmptyCode(p, cs[k], a);
      }
    case Alternation(cs) =>
      var ss: seq<nat> :| AlternationLayout(p, cs, a, a, ss);
      EmptyAlternation(p, cs, a, ss);
      EmptyCode(p, cs[0], a);
    case Repeat(c, min, max) =>
      var m: nat, bs: seq<nat> :| CopiesLayout(p, c, min, a, m, bs) && TailLayout(p, c, min, max, m, a);
      CopiesAscend(p, c, min, a, m, bs, 0);
      assert !LoopLayout(p, c, m, a);
      assert max.Some?;
      EmptyOptional(p, c, max.value - min, m, a);
      if min > 0 {
        CopiesAscend(p, c, min, a, m, bs, 1);
        assert Code(p, c, bs[0], bs[1]);
        EmptyCode(p, c, a);
      }
    case _ =>
  }

  lemma EmptyAlternation(p: Program, cs: seq<Node>, a: nat, ss: seq<nat>)
    requires AlternationLayout(p, cs, a, a, ss)
    ensures |cs| == 1
  {
    if |cs| > 1 { StartsAscend(p, cs, ss, a, 1); }
  }

  lemma EmptyOptional(p: Program, c: Node, k: nat, m: nat, b: nat)
    requires OptionalTail(p, c, k, m, b) && m >= b
    ensures k == 0 && m == b
  {
    var ss: seq<nat> :| OptionalLayout(p, c, k, m, b, ss);
    if k > 0 {
      assert OptionalCopyLayout(p, c, ss[0], ss[1], b);
      OptionalAscend(p, c, k, m, b, ss, 1);
    }
  }

  lemma {:induction false} BoundsAscend(p: Program, cs: seq<Node>, bs: seq<nat>, i: nat, j: nat)
    requires |bs| == |cs| + 1 && i <= j <= |cs|
    requires forall i | 0 <= i < |cs| :: Code(p, cs[i], bs[i], bs[i + 1])
    ensures bs[i] <= bs[j]
    decreases j - i
  {
    if i < j { BoundsAscend(p, cs, bs, i + 1, j); assert Code(p, cs[i], bs[i], bs[i + 1]); }
  }

  lemma {:induction false} StartsAscend(p: Program, cs: seq<Node>, ss: seq<nat>, b: nat, i: nat)
    requires |ss| == |cs| && i < |cs|
    requires forall i | 0 <= i < |cs| - 1 :: AlternativeLayout(p, cs[i], ss[i], ss[i + 1], b)
    requires Code(p, cs[|cs| - 1], ss[|cs| - 1], b)
    ensures ss[i] <= b
    decreases |cs| - i
  {
    if i + 1 < |cs| { StartsAscend(p, cs, ss, b, i + 1); assert AlternativeLayout(p, cs[i], ss[i], ss[i + 1], b); }
  }

  lemma {:induction false} CopiesAscend(p: Program, c: Node, min: nat, a: nat, m: nat, bs: seq<nat>, i: nat)
    requires CopiesLayout(p, c, min, a, m, bs) && i < |bs|
    ensures a <= bs[i] <= m
  {
    CopiesAscendFrom(p, c, bs, 0, i);
    CopiesAscendFrom(p, c, bs, i, |bs| - 1);
  }

  lemma {:induction false} CopiesAscendFrom(p: Program, c: Node, bs: seq<nat>, i: nat, j: nat)
    requires i <= j < |bs|
    requires forall i | 0 <= i < |bs| - 1 :: Code(p, c, bs[i], bs[i + 1])
    ensures bs[i] <= bs[j]
    decreases j - i
  {
    if i < j { CopiesAscendFrom(p, c, bs, i + 1, j); assert Code(p, c, bs[i], bs[i + 1]); }
  }

  lemma {:induction false} OptionalAscend(p: Program, c: Node, k: nat, m: nat, b: nat, ss: seq<nat>, i: nat)
    requires OptionalLayout(p, c, k, m, b, ss) && i <= k
    ensures ss[i] <= b
    decreases k - i
  {
    if i < k { OptionalAscend(p, c, k, m, b, ss, i + 1); assert OptionalCopyLayout(p, c, ss[i], ss[i + 1], b); }
  }

  /** Such a node matches the empty text everywhere, and nothing else. */
  lemma {:induction false} NothingAccepts(node: Node, e: Env, i: nat)
    requires Nothing(node) && i <= |e.text|
    ensures Match(node, e, i, i)
    decreases node, 0, 0
  {
    match node
    case Empty =>
    case Concat(cs) => NothingAcceptsAll(cs, e, i);
    case Alternation(cs) => NothingAccepts(cs[0], e, i);
    case Repeat(c, min, max) =>
      if min > 0 { NothingAcceptsTimes(c, min, e, i); }
      assert MatchTimes(c, min, e, i, i);
  }

  lemma {:induction false} NothingAcceptsAll(cs: seq<Node>, e: Env, i: nat)
    requires (forall k | 0 <= k < |cs| :: Nothing(cs[k])) && i <= |e.text|
    ensures MatchAll(cs, e, i, i)
    decreases cs, 0, 0
  {
    if cs != [] {
      NothingAccepts(cs[0], e, i);
      NothingAcceptsAll(cs[1..], e, i);
    }
  }

  lemma {:induction false} NothingAcceptsTimes(c: Node, n: nat, e: Env, i: nat)
    requires Nothing(c) && i <= |e.text|
    ensures MatchTimes(c, n, e, i, i)
    decreases c, 1, n
  {
    if n > 0 {
      NothingAccepts(c, e, i);
      NothingAcceptsTimes(c, n - 1, e, i);
    }
  }

  lemma {:induction false} NothingAdvances(node: Node, e: Env, i: nat, j: nat)
    requires Nothing(node) && Match(node, e, i, j)
    ensures i == j
    decreases node, 0, 0
  {
    match node
    case Empty =>
    case Concat(cs) => NothingAdvancesAll(cs, e, i, j);
    case Alternation(cs) => NothingAdvances(cs[0], e, i, j);
    case Repeat(c, min, max) =>
      var n: nat :| min <= n && (max.Some? ==> n <= max.value) && MatchTimes(c, n, e, i, j);
      if n > 0 { NothingAdvancesTimes(c, n, e, i, j); }
  }

  lemma {:induction false} NothingAdvancesAll(cs: seq<Node>, e: Env, i: nat, j: nat)
    requires (forall k | 0 <= k < |cs| :: Nothing(cs[k])) && MatchAll(cs, e, i, j)
    ensures i == j
    decreases cs, 0, 0
  {
    if cs != [] {
      var m: nat :| Match(cs[0], e, i, m) && MatchAll(cs[1..], e, m, j);
      NothingAdvances(cs[0], e, i, m);
      NothingAdvancesAll(cs[1..], e, m, j);
    }
  }

  lemma {:induction false} NothingAdvancesTimes(c: Node, n: nat, e: Env, i: nat, j: nat)
    requires Nothing(c) && MatchTimes(c, n, e, i, j)
    ensures i == j
    decreases c, 1, n
  {
    if n > 0 {
      var m: nat :| Match(c, e, i, m) && MatchTimes(c, n - 1, e, m, j);
      NothingAdvances(c, e, i, m);
      NothingAdvancesTimes(c, n - 1, e, m, j);
    }
  }
}
