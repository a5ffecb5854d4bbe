/** A region laid out for a node is crossed exactly where the node matches. */
module RegexPaths {
  import opened Options
  import opened RegexClasses
  import opened RegexMeaning
  import opened RegexPrograms
  import opened RegexLayout

  // ---------------------------------------------------------------- every match has a path

  lemma {:induction false} MatchHasPath(p: Program, node: Node, e: Env, a: nat, b: nat, i: nat, j: nat) returns (n: nat)
    requires Code(p, node, a, b) && Match(node, e, i, j)
    ensures Path(p, e, a, i, b, j, n)
    decreases node, 0, 0
  {
    MatchMovesForward(node, e, i, j);
    match node
    case Empty =>
      n := 0;
    case Concat(cs) =>
      var bs: seq<nat> :| ConcatLayout(p, cs, a, b, bs);
      assert cs[0..] == cs;
      n := AllHavePath(p, cs, e, a, b, bs, 0, i, j);
    case Alternation(cs) =>
      var ss: seq<nat> :| AlternationLayout(p, cs, a, b, ss);
      var k :| 0 <= k < |cs| && Match(cs[k], e, i, j);
      n := AlternativeHasPath(p, cs, e, a, b, ss, k, i, j);
      var n' := ReachAlternative(p, cs, e, a, b, ss, k, i);
      JoinPaths(p, e, a, i, ss[k], i, n', b, j, n);
      n := n' + n;
    case Repeat(c, min, max) =>
      var m: nat, bs: seq<nat> :| CopiesLayout(p, c, min, a, m, bs) && TailLayout(p, c, min, max, m, b);
      var times: nat :| min <= times && (max.Some? ==> times <= max.value) && MatchTimes(c, times, e, i, j);
      n := CopiesHavePath(p, c, min, max, e, a, m, b, bs, 0, times, i, j);
    case _ =>
      assert Step(p, e, a, i, b, j);
      OneStep(p, e, a, i, b, j);
      n := 1;
  }

  lemma {:induction false} AllHavePath(p: Program, cs: seq<Node>, e: Env, a: nat, b: nat, bs: seq<nat>, k: nat,
          i: nat, j: nat) returns (n: nat)
    requires ConcatLayout(p, cs, a, b, bs) && k <= |cs| && MatchAll(cs[k..], e, i, j)
    ensures Path(p, e, bs[k], i, b, j, n)
    decreases cs, 0, |cs| - k
  {
    if k == |cs| {
      n := 0;
    } else {
      var m: nat :| Match(cs[k..][0], e, i, m) && MatchAll(cs[k..][1..], e, m, j);
      assert cs[k..][1..] == cs[k + 1..];
      assert Code(p, cs[k], bs[k], bs[k + 1]);
      var n1 := MatchHasPath(p, cs[k], e, bs[k], bs[k + 1], i, m);
      var n2 := AllHavePath(p, cs, e, a, b, bs, k + 1, m, j);
      JoinPaths(p, e, bs[k], i, bs[k + 1], m, n1, b, j, n2);
      n := n1 + n2;
    }
  }

  lemma {:induction false} ReachAlternative(p: Program, cs: seq<Node>, e: Env, a: nat, b: nat, ss: seq<nat>, k: nat,
          i: nat) returns (n: nat)
    requires AlternationLayout(p, cs, a, b, ss) && k < |cs| && i <= |e.text|
    ensures Path(p, e, a, i, ss[k], i, n)
    decreases k
  {
    if k == 0 {
      n := 0;
    } else {
      var n' := ReachAlternative(p, cs, e, a, b, ss, k - 1, i);
      assert AlternativeLayout(p, cs[k - 1], ss[k - 1], ss[k - 1 + 1], b);
      assert Step(p, e, ss[k - 1], i, ss[k], i);
      OneStep(p, e, ss[k - 1], i, ss[k], i);
      JoinPaths(p, e, a, i, ss[k - 1], i, n', ss[k], i, 1);
      n := n' + 1;
    }
  }

  lemma {:induction false} AlternativeHasPath(p: Program, cs: seq<Node>, e: Env, a: nat, b: nat, ss: seq<nat>,
          k: nat, i: nat, j: nat) returns (n: nat)
    requires AlternationLayout(p, cs, a, b, ss) && k < |cs| && Match(cs[k], e, i, j)
    ensures Path(p, e, ss[k], i, b, j, n)
    decreases cs, 0, 0
  {
    MatchMovesForward(cs[k], e, i, j);
    if k == |cs| - 1 {
      n := MatchHasPath(p, cs[k], e, ss[k], b, i, j);
    } else {
      assert AlternativeLayout(p, cs[k], ss[k], ss[k + 1], b);
      n := MatchHasPath(p, cs[k], e, ss[k] + 1, ss[k + 1] - 1, i, j);
      assert Step(p, e, ss[k], i, ss[k] + 1, i);
      OneStep(p, e, ss[k], i, ss[k] + 1, i);
      JoinPaths(p, e, ss[k], i, ss[k] + 1, i, 1, ss[k + 1] - 1, j, n);
      assert Step(p, e, ss[k + 1] - 1, j, b, j);
      OneStep(p, e, ss[k + 1] - 1, j, b, j);
      JoinPaths(p, e, ss[k], i, ss[k + 1] - 1, j, 1 + n, b, j, 1);
      n := 1 + n + 1;
    }
  }

  /** From copy `q` on, `times` more repetitions: through the copies, then through the tail. */
  lemma {:induction false} CopiesHavePath(p: Program, c: Node, min: nat, max: Option<nat>, e: Env, a: nat, m: nat,
          b: nat, bs: seq<nat>,
                                          q: nat, times: nat, i: nat, j: nat) returns (n: nat)
    requires CopiesLayout(p, c, min, a, m, bs) && TailLayout(p, c, min, max, m, b)
    requires q < |bs| && q + times >= min && (max.Some? ==> q + times <= max.value)
    requires MatchTimes(c, times, e, i, j)
    ensures Path(p, e, bs[q], i, b, j, n)
    decreases c, 2, |bs| - q
  {
    if q == |bs| - 1 {
      if |bs| < min + 1 {
        // The expansion stopped at an empty copy: the remaining repetitions match nothing.
        assert Code(p, c, bs[q - 1], bs[q - 1 + 1]);
        EmptyCode(p, c, m);
        NothingAdvancesTimes'(c, times, e, i, j);
        n := TailHasPath(p, c, min, max, e, m, b, 0, i, j);
      } else {
        n := TailHasPath(p, c, min, max, e, m, b, times, i, j);
      }
    } else {
      var k: nat :| Match(c, e, i, k) && MatchTimes(c, times - 1, e, k, j);
      assert Code(p, c, bs[q], bs[q + 1]);
      var n1 := MatchHasPath(p, c, e, bs[q], bs[q + 1], i, k);
      var n2 := CopiesHavePath(p, c, min, max, e, a, m, b, bs, q + 1, times - 1, k, j);
      JoinPaths(p, e, bs[q], i, bs[q + 1], k, n1, b, j, n2);
      n := n1 + n2;
    }
  }

  lemma NothingAdvancesTimes'(c: Node, times: nat, e: Env, i: nat, j: nat)
    requires Nothing(c) && MatchTimes(c, times, e, i, j)
    ensures i == j && MatchTimes(c, 0, e, i, j)
  {
    NothingAdvancesTimes(c, times, e, i, j);
    MatchTimesMovesForward(c, times, e, i, j);
  }

  lemma {:induction false} TailHasPath(p: Program, c: Node, min: nat, max: Option<nat>, e: Env, m: nat, b: nat,
          times: nat, i: nat, j: nat) returns (n: nat)
    requires TailLayout(p, c, min, max, m, b) && MatchTimes(c, times, e, i, j)
    requires max.Some? ==> times + min <= max.value
    ensures Path(p, e, m, i, b, j, n)
    decreases c, 1, 0
  {
    match max
    case None => n := LoopHasPath(p, c, e, m, b, times, i, j);
    case Some(high) =>
      var ss: seq<nat> :| OptionalLayout(p, c, high - min, m, b, ss);
      n := OptionalHasPath(p, c, high - min, e, m, b, ss, 0, times, i, j);
  }

  lemma {:induction false} LoopHasPath(p: Program, c: Node, e: Env, m: nat, b: nat, times: nat, i: nat,
          j: nat) returns (n: nat)
    requires LoopLayout(p, c, m, b) && MatchTimes(c, times, e, i, j)
    ensures Path(p, e, m, i, b, j, n)
    decreases c, 0, times
  {
    MatchTimesMovesForward(c, times, e, i, j);
    if times == 0 {
      assert Step(p, e, m, i, b, i);
      OneStep(p, e, m, i, b, i);
      n := 1;
    } else {
      var k: nat :| Match(c, e, i, k) && MatchTimes(c, times - 1, e, k, j);
      MatchMovesForward(c, e, i, k);
      var n1 := MatchHasPath(p, c, e, m + 1, b - 1, i, k);
      var n2 := LoopHasPath(p, c, e, m, b, times - 1, k, j);
      assert Step(p, e, m, i, m + 1, i) && Step(p, e, b - 1, k, m, k);
      OneStep(p, e, m, i, m + 1, i);
      OneStep(p, e, b - 1, k, m, k);
      JoinPaths(p, e, m, i, m + 1, i, 1, b - 1, k, n1);
      JoinPaths(p, e, m, i, b - 1, k, 1 + n1, m, k, 1);
      JoinPaths(p, e, m, i, m, k, 1 + n1 + 1, b, j, n2);
      n := 1 + n1 + 1 + n2;
    }
  }

  lemma {:induction false} OptionalHasPath(p: Program, c: Node, k: nat, e: Env, m: nat, b: nat, ss: seq<nat>, q: nat,
          times: nat, i: nat, j: nat) returns (n: nat)
    requires OptionalLayout(p, c, k, m, b, ss) && q <= k && q + times <= k && MatchTimes(c, times, e, i, j)
    ensures Path(p, e, ss[q], i, b, j, n)
    decreases c, 0, k - q
  {
    MatchTimesMovesForward(c, times, e, i, j);
    if q == k {
      n := 0;
    } else {
      assert OptionalCopyLayout(p, c, ss[q], ss[q + 1], b);
      if times == 0 {
        assert Step(p, e, ss[q], i, b, i);
        OneStep(p, e, ss[q], i, b, i);
        n := 1;
      } else {
        var l: nat :| Match(c, e, i, l) && MatchTimes(c, times - 1, e, l, j);
        MatchMovesForward(c, e, i, l);
        var n1 := MatchHasPath(p, c, e, ss[q] + 1, ss[q + 1], i, l);
        var n2 := OptionalHasPath(p, c, k, e, m, b, ss, q + 1, times - 1, l, j);
        assert Step(p, e, ss[q], i, ss[q] + 1, i);
        OneStep(p, e, ss[q], i, ss[q] + 1, i);
        JoinPaths(p, e, ss[q], i, ss[q] + 1, i, 1, ss[q + 1], l, n1);
        JoinPaths(p, e, ss[q], i, ss[q + 1], l, 1 + n1, b, j, n2);
        n := 1 + n1 + n2;
      }
    }
  }

  // ---------------------------------------------------------------- every crossing is a match

  /**
   * A path that starts at the beginning of a region and ends outside it leaves the region at its
   * end, after matching the node; the rest of the path is shorter unless the region is empty.
   */
  lemma {:induction false} PathCrosses(p: Program, node: Node, e: Env, a: nat, b: nat, i: nat, t: nat, k: nat, n: nat)
    returns (j: nat, n': nat)
    requires Code(p, node, a, b) && i <= |e.text| && !(a <= t < b) && Path(p, e, a, i, t, k, n)
    ensures Match(node, e, i, j) && j <= |e.text| && Path(p, e, b, j, t, k, n')
    ensures n' <= n && (a < b ==> n' < n)
    decreases node, 0, 0
  {
    match node
    case Empty =>
      j, n' := i, n;
    case Concat(cs) =>
      var bs: seq<nat> :| ConcatLayout(p, cs, a, b, bs);
      assert cs[0..] == cs;
      j, n' := ConcatCrosses(p, cs, e, a, b, bs, 0, i, t, k, n);
    case Alternation(cs) =>
      var ss: seq<nat> :| AlternationLayout(p, cs, a, b, ss);
      j, n' := AlternationCrosses(p, cs, e, a, b, ss, 0, i, t, k, n);
    case Repeat(c, min, max) =>
      var m: nat, bs: seq<nat> :| CopiesLayout(p, c, min, a, m, bs) && TailLayout(p, c, min, max, m, b);
      var times: nat;
      times, j, n' := CopiesCross(p, c, min, max, e, a, m, b, bs, 0, i, t, k, n);
    case _ =>
      var pc': nat, i': nat :| Step(p, e, a, i, pc', i') && Path(p, e, pc', i', t, k, n - 1);
      j, n' := i', n - 1;
  }

  lemma {:induction false} ConcatCrosses(p: Program, cs: seq<Node>, e: Env, a: nat, b: nat, bs: seq<nat>, q: nat,
          i: nat, t: nat, k: nat, n: nat)
    returns (j: nat, n': nat)
    requires ConcatLayout(p, cs, a, b, bs) && q <= |cs| && i <= |e.text|
    requires !(bs[q] <= t < b) && Path(p, e, bs[q], i, t, k, n)
    ensures MatchAll(cs[q..], e, i, j) && j <= |e.text| && Path(p, e, b, j, t, k, n')
    ensures n' <= n && (bs[q] < b ==> n' < n)
    decreases cs, 0, |cs| - q
  {
    if q == |cs| {
      j, n' := i, n;
    } else {
      assert Code(p, cs[q], bs[q], bs[q + 1]);
      BoundsAscend(p, cs, bs, q + 1, |cs|);
      var l, n1 := PathCrosses(p, cs[q], e, bs[q], bs[q + 1], i, t, k, n);
      j, n' := ConcatCrosses(p, cs, e, a, b, bs, q + 1, l, t, k, n1);
      assert cs[q..][0] == cs[q] && cs[q..][1..] == cs[q + 1..];
    }
  }

  lemma {:induction false} AlternationCrosses(p: Program, cs: seq<Node>, e: Env, a: nat, b: nat, ss: seq<nat>,
          q: nat, i: nat, t: nat, k: nat, n: nat)
    returns (j: nat, n': nat)
    requires AlternationLayout(p, cs, a, b, ss) && q < |cs| && i <= |e.text|
    requires !(ss[q] <= t < b) && Path(p, e, ss[q], i, t, k, n)
    ensures Match(Alternation(cs), e, i, j) && j <= |e.text| && Path(p, e, b, j, t, k, n')
    ensures n' <= n && (ss[q] < b ==> n' < n)
    decreases cs, 0, |cs| - q
  {
    if q == |cs| - 1 {
      j, n' := PathCrosses(p, cs[q], e, ss[q], b, i, t, k, n);
    } else {
      assert AlternativeLayout(p, cs[q], ss[q], ss[q + 1], b);
      StartsAscend(p, cs, ss, b, q + 1);
      var pc': nat, i': nat :| Step(p, e, ss[q], i, pc', i') && Path(p, e, pc', i', t, k, n - 1);
      if pc' == ss[q + 1] {
        j, n' := AlternationCrosses(p, cs, e, a, b, ss, q + 1, i, t, k, n - 1);
      } else {
        var n1;
        j, n1 := PathCrosses(p, cs[q], e, ss[q] + 1, ss[q + 1] - 1, i, t, k, n - 1);
        var pc'': nat, i'': nat :| Step(p, e, ss[q + 1] - 1, j, pc'', i'') && Path(p, e, pc'', i'', t, k, n1 - 1);
        n' := n1 - 1;
      }
    }
  }

  lemma {:induction false} CopiesCross(p: Program, c: Node, min: nat, max: Option<nat>, e: Env, a: nat, m: nat,
          b: nat, bs: seq<nat>, q: nat,
                                       i: nat, t: nat, k: nat, n: nat)
    returns (times: nat, j: nat, n': nat)
    requires CopiesLayout(p, c, min, a, m, bs) && TailLayout(p, c, min, max, m, b)
    requires q < |bs| && i <= |e.text|
    requires !(bs[q] <= t < b) && Path(p, e, bs[q], i, t, k, n)
    ensures q + times >= min && (max.Some? ==> q + times <= max.value)
    ensures MatchTimes(c, times, e, i, j) && j <= |e.text| && Path(p, e, b, j, t, k, n')
    ensures n' <= n && (bs[q] < b ==> n' < n)
    decreases c, 2, |bs| - q
  {
    TailAscends(p, c, min, max, m, b);
    if q == |bs| - 1 {
      times, j, n' := TailCrosses(p, c, min, max, e, m, b, i, t, k, n);
      if |bs| < min + 1 {
        // The expansion stopped at an empty copy: the missing repetitions match the empty text.
        assert Code(p, c, bs[q - 1], bs[q - 1 + 1]);
        EmptyCode(p, c, m);
        NothingAdvancesTimes(c, times, e, i, j);
        times := min - q;
        NothingAcceptsTimes(c, times, e, i);
      }
    } else {
      assert Code(p, c, bs[q], bs[q + 1]);
      CopiesAscend(p, c, min, a, m, bs, q + 1);
      var l, n1 := PathCrosses(p, c, e, bs[q], bs[q + 1], i, t, k, n);
      var rest;
      rest, j, n' := CopiesCross(p, c, min, max, e, a, m, b, bs, q + 1, l, t, k, n1);
      times := rest + 1;
    }
  }

  lemma TailAscends(p: Program, c: Node, min: nat, max: Option<nat>, m: nat, b: nat)
    requires TailLayout(p, c, min, max, m, b)
    ensures m <= b && (max.Some? ==> min <= max.value)
  {
    match max
    case None => assert LoopLayout(p, c, m, b);
    case Some(high) =>
      var ss: seq<nat> :| OptionalLayout(p, c, high - min, m, b, ss);
      OptionalAscend(p, c, high - min, m, b, ss, 0);
  }

  lemma {:induction false} TailCrosses(p: Program, c: Node, min: nat, max: Option<nat>, e: Env, m: nat, b: nat,
          i: nat, t: nat, k: nat, n: nat)
    returns (times: nat, j: nat, n': nat)
    requires TailLayout(p, c, min, max, m, b) && i <= |e.text|
    requires !(m <= t < b) && Path(p, e, m, i, t, k, n)
    ensures max.Some? ==> min + times <= max.value
    ensures MatchTimes(c, times, e, i, j) && j <= |e.text| && Path(p, e, b, j, t, k, n')
    ensures n' <= n && (m < b ==> n' < n)
    decreases c, 1, 0
  {
    match max
    case None => times, j, n' := LoopCrosses(p, c, e, m, b, i, t, k, n);
    case Some(high) =>
      var ss: seq<nat> :| OptionalLayout(p, c, high - min, m, b, ss);
      times, j, n' := OptionalCrosses(p, c, high - min, e, m, b, ss, 0, i, t, k, n);
  }

  lemma {:induction false} LoopCrosses(p: Program, c: Node, e: Env, m: nat, b: nat, i: nat, t: nat, k: nat, n: nat)
    returns (times: nat, j: nat, n': nat)
    requires LoopLayout(p, c, m, b) && i <= |e.text|
    requires !(m <= t < b) && Path(p, e, m, i, t, k, n)
    ensures MatchTimes(c, times, e, i, j) && j <= |e.text| && Path(p, e, b, j, t, k, n') && n' < n
    decreases c, 0, n
  {
    var pc': nat, i': nat :| Step(p, e, m, i, pc', i') && Path(p, e, pc', i', t, k, n - 1);
    if pc' == b {
      times, j, n' := 0, i, n - 1;
    } else {
      var l, n1 := PathCrosses(p, c, e, m + 1, b - 1, i, t, k, n - 1);
      var pc'': nat, i'': nat :| Step(p, e, b - 1, l, pc'', i'') && Path(p, e, pc'', i'', t, k, n1 - 1);
      var rest;
      rest, j, n' := LoopCrosses(p, c, e, m, b, l, t, k, n1 - 1);
      times := rest + 1;
    }
  }

  lemma {:induction false} OptionalCrosses(p: Program, c: Node, high: nat, e: Env, m: nat, b: nat, ss: seq<nat>,
          q: nat, i: nat, t: nat, k: nat, n: nat)
    returns (times: nat, j: nat, n': nat)
    requires OptionalLayout(p, c, high, m, b, ss) && q <= high && i <= |e.text|
    requires !(ss[q] <= t < b) && Path(p, e, ss[q], i, t, k, n)
    ensures q + times <= high
    ensures MatchTimes(c, times, e, i, j) && j <= |e.text| && Path(p, e, b, j, t, k, n')
    ensures n' <= n && (ss[q] < b ==> n' < n)
    decreases c, 0, high - q
  {
    if q == high {
      times, j, n' := 0, i, n;
    } else {
      assert OptionalCopyLayout(p, c, ss[q], ss[q + 1], b);
      OptionalAscend(p, c, high, m, b, ss, q + 1);
      var pc': nat, i': nat :| Step(p, e, ss[q], i, pc', i') && Path(p, e, pc', i', t, k, n - 1);
      if pc' == b {
        times, j, n' := 0, i, n - 1;
      } else {
        var l, n1 := PathCrosses(p, c, e, ss[q] + 1, ss[q + 1], i, t, k, n - 1);
        var rest;
        rest, j, n' := OptionalCrosses(p, c, high, e, m, b, ss, q + 1, l, t, k, n1);
        times := rest + 1;
      }
    }
  }
}
