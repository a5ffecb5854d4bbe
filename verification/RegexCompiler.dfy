/** `Compiler` of `src/core/regex.cpp`: it appends instructions and patches jump targets in place. */
module RegexCompiler {
  import opened Options
  import opened RegexClasses
  import opened RegexMeaning
  import opened RegexPrograms
  import opened RegexLayout

  const MAX_PROGRAM_SIZE: nat := 20000

  // ---------------------------------------------------------------- how much code a node takes

  function Size(node: Node): nat
    decreases node, 0
  {
    match node
    case Empty => 0
    case Concat(cs) => SizeOfAll(cs)
    case Alternation(cs) => SizeOfAll(cs) + (if cs == [] then 0 else 2 * (|cs| - 1))
    case Repeat(c, min, max) => min * Size(c) + TailSize(Size(c), min, max)
    case _ => 1
  }

  function TailSize(size: nat, min: nat, max: Option<nat>): nat
  {
    match max
    case None => size + 2
    case Some(high) => if high < min then 0 else (high - min) * (size + 1)
  }

  function SizeOfAll(cs: seq<Node>): nat
    decreases cs, 0
  {
    if cs == [] then 0 else SizeOfAll(cs[..|cs| - 1]) + Size(cs[|cs| - 1])
  }

  lemma SizeOfPrefix(cs: seq<Node>, i: nat)
    requires i < |cs|
    ensures SizeOfAll(cs[..i + 1]) == SizeOfAll(cs[..i]) + Size(cs[i])
  {
    assert cs[..i + 1][..i] == cs[..i];
  }

  lemma {:induction false} SizeOfPrefixBounded(cs: seq<Node>, i: nat)
    requires i <= |cs|
    ensures SizeOfAll(cs[..i]) <= SizeOfAll(cs)
    decreases |cs| - i
  {
    if i < |cs| {
      SizeOfPrefix(cs, i);
      SizeOfPrefixBounded(cs, i + 1);
    } else {
      assert cs[..i] == cs;
    }
  }

  // ---------------------------------------------------------------- code does not move

  /** `q` has the instructions of `p` on `[a, b)`. */
  ghost predicate Agree(p: Program, q: Program, a: nat, b: nat)
  {
    b <= |p| && b <= |q| && forall x | a <= x < b :: p[x] == q[x]
  }

  lemma {:induction false} CodeLocal(p: Program, q: Program, node: Node, a: nat, b: nat)
    requires Code(p, node, a, b) && Agree(p, q, a, b)
    ensures Code(q, node, a, b)
    decreases node, 0
  {
    match node
    case Concat(cs) =>
      var bs: seq<nat> :| ConcatLayout(p, cs, a, b, bs);
      forall i | 0 <= i < |cs| ensures Code(q, cs[i], bs[i], bs[i + 1]) {
        BoundsAscend(p, cs, bs, 0, i);
        BoundsAscend(p, cs, bs, i + 1, |cs|);
        CodeLocal(p, q, cs[i], bs[i], bs[i + 1]);
      }
      assert ConcatLayout(q, cs, a, b, bs);
    case Alternation(cs) =>
      var ss: seq<nat> :| AlternationLayout(p, cs, a, b, ss);
      AlternationLocal(p, q, cs, a, b, ss);
    case Repeat(c, min, max) =>
      var m: nat, bs: seq<nat> :| CopiesLayout(p, c, min, a, m, bs) && TailLayout(p, c, min, max, m, b);
      TailLocal(p, q, c, min, max, a, m, b, bs);
      forall i | 0 <= i < |bs| - 1 ensures Code(q, c, bs[i], bs[i + 1]) {
        CopiesAscend(p, c, min, a, m, bs, i);
        CopiesAscend(p, c, min, a, m, bs, i + 1);
        CodeLocal(p, q, c, bs[i], bs[i + 1]);
      }
      assert CopiesLayout(q, c, min, a, m, bs);
    case _ =>
  }

  lemma {:induction false} AlternationLocal(p: Program, q: Program, cs: seq<Node>, a: nat, b: nat, ss: seq<nat>)
    requires AlternationLayout(p, cs, a, b, ss) && Agree(p, q, a, b)
    ensures AlternationLayout(q, cs, a, b, ss)
    decreases cs, 0
  {
    StartsAfter(p, cs, a, b, ss, |cs| - 1);
    StartsAscend(p, cs, ss, b, |cs| - 1);
    CodeLocal(p, q, cs[|cs| - 1], ss[|cs| - 1], b);
    forall i | 0 <= i < |cs| - 1 ensures AlternativeLayout(q, cs[i], ss[i], ss[i + 1], b) {
      StartsAfter(p, cs, a, b, ss, i);
      StartsAscend(p, cs, ss, b, i + 1);
      assert AlternativeLayout(p, cs[i], ss[i], ss[i + 1], b);
      CodeLocal(p, q, cs[i], ss[i] + 1, ss[i + 1] - 1);
    }
  }

  lemma {:induction false} StartsAfter(p: Program, cs: seq<Node>, a: nat, b: nat, ss: seq<nat>, i: nat)
    requires AlternationLayout(p, cs, a, b, ss) && i < |cs|
    ensures a <= ss[i]
  {
    if i > 0 {
      StartsAfter(p, cs, a, b, ss, i - 1);
      assert AlternativeLayout(p, cs[i - 1], ss[i - 1], ss[i - 1 + 1], b);
    }
  }

  lemma {:induction false} TailLocal(p: Program, q: Program, c: Node, min: nat, max: Option<nat>, a: nat, m: nat,
          b: nat, bs: seq<nat>)
    requires CopiesLayout(p, c, min, a, m, bs) && TailLayout(p, c, min, max, m, b) && Agree(p, q, a, b)
    ensures TailLayout(q, c, min, max, m, b) && m <= b
    decreases c, 1
  {
    CopiesAscend(p, c, min, a, m, bs, 0);
    match max
    case None =>
      assert LoopLayout(p, c, m, b);
      CodeLocal(p, q, c, m + 1, b - 1);
    case Some(high) =>
      var k := high - min;
      assert OptionalTail(p, c, k, m, b);
      var ss: seq<nat> :| OptionalLayout(p, c, k, m, b, ss);
      OptionalAscend(p, c, k, m, b, ss, 0);
      forall i | 0 <= i < k ensures OptionalCopyLayout(q, c, ss[i], ss[i + 1], b) {
        assert OptionalCopyLayout(p, c, ss[i], ss[i + 1], b);
        OptionalAfter(p, c, k, m, b, ss, i);
        OptionalAscend(p, c, k, m, b, ss, i + 1);
        CodeLocal(p, q, c, ss[i] + 1, ss[i + 1]);
      }
      assert OptionalLayout(q, c, k, m, b, ss);
  }

  lemma {:induction false} OptionalAfter(p: Program, c: Node, k: nat, m: nat, b: nat, ss: seq<nat>, i: nat)
    requires OptionalLayout(p, c, k, m, b, ss) && i <= k
    ensures m <= ss[i]
  {
    if i > 0 {
      OptionalAfter(p, c, k, m, b, ss, i - 1);
      assert OptionalCopyLayout(p, c, ss[i - 1], ss[i - 1 + 1], b);
    }
  }

  // ---------------------------------------------------------------- code under construction

  /** An alternative whose closing jump has no target yet. */
  ghost predicate OpenAlternative(p: Program, c: Node, s: nat, s': nat)
  {
    && s + 2 <= s' <= |p|
    && p[s] == ISplit(s + 1, s') && Code(p, c, s + 1, s' - 1)
  }

  ghost predicate OpenAlternatives(p: Program, cs: seq<Node>, ss: seq<nat>)
  {
    && 0 < |ss| <= |cs| && ss[|ss| - 1] <= |p|
    && forall i | 0 <= i < |ss| - 1 :: OpenAlternative(p, cs[i], ss[i], ss[i + 1])
  }

  lemma {:induction false} OpenAscend(p: Program, cs: seq<Node>, ss: seq<nat>, i: nat, j: nat)
    requires OpenAlternatives(p, cs, ss) && i <= j < |ss|
    ensures ss[i] + 2 * (j - i) <= ss[j]
    decreases j - i
  {
    if i < j {
      OpenAscend(p, cs, ss, i + 1, j);
      assert OpenAlternative(p, cs[i], ss[i], ss[i + 1]);
    }
  }

  lemma OpenLocal(p: Program, q: Program, cs: seq<Node>, ss: seq<nat>)
    requires OpenAlternatives(p, cs, ss) && Agree(p, q, ss[0], ss[|ss| - 1])
    ensures OpenAlternatives(q, cs, ss)
  {
    forall i | 0 <= i < |ss| - 1 ensures OpenAlternative(q, cs[i], ss[i], ss[i + 1]) {
      assert OpenAlternative(p, cs[i], ss[i], ss[i + 1]);
      OpenAscend(p, cs, ss, 0, i);
      OpenAscend(p, cs, ss, i + 1, |ss| - 1);
      CodeLocal(p, q, cs[i], ss[i] + 1, ss[i + 1] - 1);
    }
  }

  lemma OpenOneMore(p: Program, cs: seq<Node>, ss: seq<nat>, s': nat)
    requires OpenAlternatives(p, cs, ss) && |ss| < |cs|
    requires OpenAlternative(p, cs[|ss| - 1], ss[|ss| - 1], s')
    ensures OpenAlternatives(p, cs, ss + [s'])
  {
    var ss' := ss + [s'];
    forall i | 0 <= i < |ss'| - 1 ensures OpenAlternative(p, cs[i], ss'[i], ss'[i + 1]) {
      if i < |ss| - 1 { assert OpenAlternative(p, cs[i], ss[i], ss[i + 1]); }
    }
  }

  lemma OpenNext(p: Program, q: Program, cs: seq<Node>, ss: seq<nat>)
    requires OpenAlternatives(p, cs, ss) && |ss| < |cs| && ss[|ss| - 1] == |p| && p <= q
    requires OpenAlternative(q, cs[|ss| - 1], |p|, |q|)
    ensures OpenAlternatives(q, cs, ss + [|q|])
  {
    OpenLocal(p, q, cs, ss);
    OpenOneMore(q, cs, ss, |q|);
  }

  /** `q` is `p` with the instructions at `holes` replaced by `fill`. */
  ghost predicate Patched(p: Program, q: Program, holes: seq<nat>, fill: Instruction)
  {
    && |q| == |p|
    && (forall i | 0 <= i < |holes| :: holes[i] < |q| && q[holes[i]] == fill)
    && forall x | 0 <= x < |p| :: x in holes || q[x] == p[x]
  }

  /** The closing jumps stand right before the next alternative. */
  ghost predicate ClosingJumps(ss: seq<nat>, jumps: seq<nat>)
  {
    |ss| == |jumps| + 1 && forall i | 0 <= i < |jumps| :: ss[i + 1] == jumps[i] + 1
  }

  lemma NoJumpInside(p: Program, cs: seq<Node>, ss: seq<nat>, jumps: seq<nat>, i: nat, x: nat)
    requires OpenAlternatives(p, cs, ss) && ClosingJumps(ss, jumps) && i < |ss|
    requires ss[i] <= x && (i < |jumps| ==> x < jumps[i])
    ensures x !in jumps
  {
    forall k | 0 <= k < |jumps| ensures jumps[k] != x {
      if k < i { OpenAscend(p, cs, ss, k + 1, i); } else { OpenAscend(p, cs, ss, i + 1, k + 1); }
    }
  }

  /** Setting every closing jump to the common end completes the alternation. */
  lemma CloseAlternatives(p: Program, q: Program, cs: seq<Node>, ss: seq<nat>, jumps: seq<nat>, b: nat)
    requires OpenAlternatives(p, cs, ss) && |ss| == |cs| && Code(p, cs[|cs| - 1], ss[|cs| - 1], b)
    requires ClosingJumps(ss, jumps) && Patched(p, q, jumps, IJump(b))
    ensures AlternationLayout(q, cs, ss[0], b, ss)
  {
    var n := |cs| - 1;
    forall x | ss[n] <= x < b ensures p[x] == q[x] { NoJumpInside(p, cs, ss, jumps, n, x); }
    CodeLocal(p, q, cs[n], ss[n], b);
    forall i | 0 <= i < n ensures AlternativeLayout(q, cs[i], ss[i], ss[i + 1], b) {
      assert OpenAlternative(p, cs[i], ss[i], ss[i + 1]);
      assert ss[i + 1] == jumps[i] + 1;
      forall x | ss[i] <= x < jumps[i] ensures p[x] == q[x] { NoJumpInside(p, cs, ss, jumps, i, x); }
      CodeLocal(p, q, cs[i], ss[i] + 1, ss[i + 1] - 1);
    }
  }

  /** Optional copies whose splits have no exit yet. */
  ghost predicate OpenOptional(p: Program, c: Node, ss: seq<nat>)
  {
    && 0 < |ss| && ss[|ss| - 1] <= |p|
    && forall i | 0 <= i < |ss| - 1 :: OpenCopy(p, c, ss[i], ss[i + 1])
  }

  ghost predicate OpenCopy(p: Program, c: Node, s: nat, s': nat)
  {
    s < s' <= |p| && Code(p, c, s + 1, s')
  }

  lemma {:induction false} OpenCopiesAscend(p: Program, c: Node, ss: seq<nat>, i: nat, j: nat)
    requires OpenOptional(p, c, ss) && i <= j < |ss|
    ensures ss[i] + (j - i) <= ss[j]
    decreases j - i
  {
    if i < j {
      OpenCopiesAscend(p, c, ss, i + 1, j);
      assert OpenCopy(p, c, ss[i], ss[i + 1]);
    }
  }

  lemma OpenOptionalLocal(p: Program, q: Program, c: Node, ss: seq<nat>)
    requires OpenOptional(p, c, ss) && Agree(p, q, ss[0], ss[|ss| - 1])
    ensures OpenOptional(q, c, ss)
  {
    forall i | 0 <= i < |ss| - 1 ensures OpenCopy(q, c, ss[i], ss[i + 1]) {
      assert OpenCopy(p, c, ss[i], ss[i + 1]);
      OpenCopiesAscend(p, c, ss, 0, i);
      OpenCopiesAscend(p, c, ss, i + 1, |ss| - 1);
      CodeLocal(p, q, c, ss[i] + 1, ss[i + 1]);
    }
  }

  lemma OpenOptionalOneMore(p: Program, c: Node, ss: seq<nat>, s': nat)
    requires OpenOptional(p, c, ss) && OpenCopy(p, c, ss[|ss| - 1], s')
    ensures OpenOptional(p, c, ss + [s'])
  {
    var ss' := ss + [s'];
    forall i | 0 <= i < |ss'| - 1 ensures OpenCopy(p, c, ss'[i], ss'[i + 1]) {
      if i < |ss| - 1 { assert OpenCopy(p, c, ss[i], ss[i + 1]); }
    }
  }

  lemma OpenOptionalNext(p: Program, q: Program, c: Node, ss: seq<nat>)
    requires OpenOptional(p, c, ss) && ss[|ss| - 1] == |p| && p <= q && OpenCopy(q, c, |p|, |q|)
    ensures OpenOptional(q, c, ss + [|q|])
  {
    OpenOptionalLocal(p, q, c, ss);
    OpenOptionalOneMore(q, c, ss, |q|);
  }

  lemma NoSplitInside(p: Program, c: Node, ss: seq<nat>, i: nat, x: nat)
    requires OpenOptional(p, c, ss) && i < |ss| - 1 && ss[i] < x < ss[i + 1]
    ensures x !in ss[..|ss| - 1]
  {
    forall k | 0 <= k < |ss| - 1 ensures x != ss[k] {
      if k < i { OpenCopiesAscend(p, c, ss, k, i); } else if i < k { OpenCopiesAscend(p, c, ss, i + 1, k); }
    }
  }

  /** Every split of an optional copy gets its own continuation and the common end. */
  lemma CloseOptional(p: Program, q: Program, c: Node, ss: seq<nat>, b: nat)
    requires OpenOptional(p, c, ss) && ss[|ss| - 1] == b && |q| == |p|
    requires forall i | 0 <= i < |ss| - 1 :: ss[i] < |q| && q[ss[i]] == ISplit(ss[i] + 1, b)
    requires forall x | 0 <= x < |p| :: x in ss[..|ss| - 1] || q[x] == p[x]
    ensures OptionalLayout(q, c, |ss| - 1, ss[0], b, ss)
  {
    forall i | 0 <= i < |ss| - 1 ensures OptionalCopyLayout(q, c, ss[i], ss[i + 1], b) {
      assert OpenCopy(p, c, ss[i], ss[i + 1]);
      forall x | ss[i] < x < ss[i + 1] ensures p[x] == q[x] { NoSplitInside(p, c, ss, i, x); }
      CodeLocal(p, q, c, ss[i] + 1, ss[i + 1]);
    }
  }

  lemma TimesMonotone(i: nat, n: nat, s: nat)
    requires i <= n
    ensures i * s <= n * s
    ensures (i + 1) * s == i * s + s
  {}

  lemma CopiesOneMore(p: Program, c: Node, bs: seq<nat>, b: nat)
    requires bs != [] && Code(p, c, bs[|bs| - 1], b)
    requires forall i | 0 <= i < |bs| - 1 :: Code(p, c, bs[i], bs[i + 1])
    ensures forall i | 0 <= i < |bs + [b]| - 1 :: Code(p, c, (bs + [b])[i], (bs + [b])[i + 1])
  {
    var bs' := bs + [b];
    forall i | 0 <= i < |bs'| - 1 ensures Code(p, c, bs'[i], bs'[i + 1]) {
      if i < |bs| - 1 { assert Code(p, c, bs[i], bs[i + 1]); }
    }
  }

  lemma CopiesLocal(p: Program, q: Program, c: Node, bs: seq<nat>)
    requires bs != [] && bs[|bs| - 1] <= |p| && p <= q
    requires forall i | 0 <= i < |bs| - 1 :: Code(p, c, bs[i], bs[i + 1])
    ensures forall i | 0 <= i < |bs| - 1 :: Code(q, c, bs[i], bs[i + 1])
  {
    forall i | 0 <= i < |bs| - 1 ensures Code(q, c, bs[i], bs[i + 1]) {
      assert Code(p, c, bs[i], bs[i + 1]);
      CodeLocal(p, q, c, bs[i], bs[i + 1]);
    }
  }

  /** The first children of a concatenation, one after the other. */
  ghost predicate ConcatPrefix(p: Program, cs: seq<Node>, bs: seq<nat>)
  {
    && 0 < |bs| <= |cs| + 1 && bs[|bs| - 1] == |p|
    && forall k | 0 <= k < |bs| - 1 :: Code(p, cs[k], bs[k], bs[k + 1])
  }

  lemma ConcatOneMore(p: Program, q: Program, cs: seq<Node>, bs: seq<nat>)
    requires ConcatPrefix(p, cs, bs) && |bs| <= |cs| && p <= q && Code(q, cs[|bs| - 1], |p|, |q|)
    ensures ConcatPrefix(q, cs, bs + [|q|])
  {
    var bs' := bs + [|q|];
    forall k | 0 <= k < |bs'| - 1 ensures Code(q, cs[k], bs'[k], bs'[k + 1]) {
      if k < |bs| - 1 {
        assert Code(p, cs[k], bs[k], bs[k + 1]);
        CodeLocal(p, q, cs[k], bs[k], bs[k + 1]);
      }
    }
  }

  lemma ConcatAppended(before: Program, after: Program, cs: seq<Node>, bs: seq<nat>)
    requires ConcatPrefix(after, cs, bs) && |bs| == |cs| + 1 && bs[0] == |before|
    requires before <= after && |after| == |before| + SizeOfAll(cs)
    ensures Appended(before, after, Concat(cs))
  {
    assert ConcatLayout(after, cs, |before|, |after|, bs);
  }

  /** What a successful compilation of `node` has appended. */
  ghost predicate Appended(before: Program, after: Program, node: Node)
  {
    before <= after && |after| == |before| + Size(node) && Code(after, node, |before|, |after|)
  }

  lemma RepeatAppended(before: Program, copies: Program, after: Program, c: Node, min: nat, max: Option<nat>,
          bs: seq<nat>)
    requires before <= copies <= after
    requires CopiesLayout(copies, c, min, |before|, |copies|, bs)
    requires |copies| == |before| + min * Size(c) && |after| == |copies| + TailSize(Size(c), min, max)
    requires TailLayout(after, c, min, max, |copies|, |after|)
    ensures Appended(before, after, Repeat(c, min, max))
  {
    CopiesLocal(copies, after, c, bs);
    assert CopiesLayout(after, c, min, |before|, |copies|, bs);
  }

  class Compiler {
    var program: Program

    constructor ()
      ensures program == []
    {
      program := [];
    }

    /** `emit`: appends, or raises `RegexError` when the program is full. */
    method Emit(instruction: Instruction) returns (ok: bool, at: nat)
      modifies this
      ensures ok <==> |old(program)| < MAX_PROGRAM_SIZE
      ensures program == if ok then old(program) + [instruction] else old(program)
      ensures at == |old(program)|
    {
      at := |program|;
      ok := at < MAX_PROGRAM_SIZE;
      if ok { program := program + [instruction]; }
    }

    /**
     * `compile`: succeeds exactly when the code fits, and then the new instructions are code for
     * the node; nothing before them has changed.
     */
    method Compile(node: Node, ghost classCount: nat) returns (ok: bool)
      requires WellFormed(node, classCount) && |program| <= MAX_PROGRAM_SIZE
      modifies this
      ensures ok <==> |old(program)| + Size(node) <= MAX_PROGRAM_SIZE
      ensures ok ==> Appended(old(program), program, node)
      decreases node, 1
    {
      var at;
      match node {
        case Empty => ok := true;
        case Char(c) => ok, at := Emit(IChar(c));
        case Any => ok, at := Emit(IAny);
        case Class(k) => ok, at := Emit(IClass(k));
        case Assert(a) => ok, at := Emit(IAssert(a));
        case Concat(cs) => ok := CompileConcat(cs, classCount);
        case Alternation(cs) => ok := CompileAlternation(cs, classCount);
        case Repeat(c, min, max) => ok := CompileRepeat(c, min, max, classCount);
      }
    }

    method CompileConcat(cs: seq<Node>, ghost classCount: nat) returns (ok: bool)
      requires WellFormed(Concat(cs), classCount) && |program| <= MAX_PROGRAM_SIZE
      modifies this
      ensures ok <==> |old(program)| + Size(Concat(cs)) <= MAX_PROGRAM_SIZE
      ensures ok ==> Appended(old(program), program, Concat(cs))
      decreases cs, 0
    {
      hide Code;
      ghost var start := |program|;
      ghost var bs: seq<nat> := [start];
      for i := 0 to |cs|
        invariant |bs| == i + 1 && bs[0] == start && ConcatPrefix(program, cs, bs)
        invariant old(program) <= program && |program| == start + SizeOfAll(cs[..i]) <= MAX_PROGRAM_SIZE
      {
        SizeOfPrefix(cs, i);
        SizeOfPrefixBounded(cs, i + 1);
        ghost var before := program;
        var fits := Compile(cs[i], classCount);
        if !fits { return false; }
        ConcatOneMore(before, program, cs, bs);
        bs := bs + [|program|];
      }
      assert cs[..|cs|] == cs;
      ConcatAppended(old(program), program, cs, bs);
      ok := true;
    }

    method CompileAlternation(cs: seq<Node>, ghost classCount: nat) returns (ok: bool)
      requires WellFormed(Alternation(cs), classCount) && |program| <= MAX_PROGRAM_SIZE
      modifies this
      ensures ok <==> |old(program)| + Size(Alternation(cs)) <= MAX_PROGRAM_SIZE
      ensures ok ==> Appended(old(program), program, Alternation(cs))
      decreases cs, 1
    {
      ghost var start := |program|;
      SizeOfPrefix(cs, |cs| - 1);
      assert cs[..|cs| - 1 + 1] == cs;
      ghost var ss;
      var jumps;
      ok, jumps, ss := CompileAllButLast(cs, classCount);
      if !ok { return; }
      ghost var before := program;
      ok := Compile(cs[|cs| - 1], classCount);
      if !ok { return; }
      OpenLocal(before, program, cs, ss);
      ghost var open := program;
      OpenJumpsInside(open, cs, ss, jumps, start);
      CloseJumps(jumps, start);
      CloseAlternatives(open, program, cs, ss, jumps, |program|);
    }

    /** The first loop of `compile_alternation`. */
    method CompileAllButLast(cs: seq<Node>, ghost classCount: nat) returns (ok: bool, jumps: seq<nat>,
            ghost ss: seq<nat>)
      requires WellFormed(Alternation(cs), classCount) && |program| <= MAX_PROGRAM_SIZE
      modifies this
      ensures ok <==> |old(program)| + SizeOfAll(cs[..|cs| - 1]) + 2 * (|cs| - 1) <= MAX_PROGRAM_SIZE
      ensures ok ==> old(program) <= program && |program| == |old(program)| + SizeOfAll(cs[..|cs| - 1]) + 2 * (|cs| - 1)
      ensures ok ==> |ss| == |cs| && ss[0] == |old(program)| && ss[|cs| - 1] == |program|
      ensures ok ==> OpenAlternatives(program, cs, ss) && ClosingJumps(ss, jumps)
      decreases cs, 0
    {
      ghost var start := |program|;
      ss := [start];
      jumps := [];
      for i := 0 to |cs| - 1
        invariant |ss| == i + 1 && ss[0] == start && ss[i] == |program|
        invariant ClosingJumps(ss, jumps)
        invariant old(program) <= program && |program| == start + SizeOfAll(cs[..i]) + 2 * i <= MAX_PROGRAM_SIZE
        invariant OpenAlternatives(program, cs, ss)
      {
        SizeOfPrefix(cs, i);
        SizeOfPrefixBounded(cs[..|cs| - 1], i + 1);
        assert cs[..|cs| - 1][..i + 1] == cs[..i + 1];
        ghost var before := program;
        var jump;
        ok, jump := CompileAlternative(cs[i], classCount);
        if !ok { return; }
        OpenNext(before, program, cs, ss);
        jumps := jumps + [jump];
        ss := ss + [|program|];
      }
      ok := true;
    }

    /** One turn of the first loop of `compile_alternation`: split, code, open jump. */
    method CompileAlternative(c: Node, ghost classCount: nat) returns (ok: bool, jump: nat)
      requires WellFormed(c, classCount) && |program| <= MAX_PROGRAM_SIZE
      modifies this
      ensures ok <==> |old(program)| + Size(c) + 2 <= MAX_PROGRAM_SIZE
      ensures ok ==> old(program) <= program && |program| == |old(program)| + Size(c) + 2 && jump == |program| - 1
      ensures ok ==> OpenAlternative(program, c, |old(program)|, |program|)
      decreases c, 2
    {
      var split;
      ok, split := Emit(ISplit(0, 0));
      jump := 0;
      if !ok { return; }
      program := program[split := ISplit(|program|, 0)];
      ghost var before := program;
      ok := Compile(c, classCount);
      if !ok { return; }
      ghost var coded := program;
      ok, jump := Emit(IJump(0));
      if !ok { return; }
      program := program[split := ISplit(split + 1, |program|)];
      CodeLocal(coded, program, c, split + 1, |program| - 1);
    }

    /** The last loop of `compile_alternation`. */
    method CloseJumps(jumps: seq<nat>, ghost start: nat)
      requires forall i | 0 <= i < |jumps| :: start <= jumps[i] < |program|
      modifies this
      ensures Patched(old(program), program, jumps, IJump(|old(program)|))
      ensures start <= |program| ==> program[..start] == old(program)[..start]
    {
      for i := 0 to |jumps|
        invariant |program| == |old(program)|
        invariant Patched(old(program), program, jumps[..i], IJump(|program|))
        invariant start <= |program| ==> program[..start] == old(program)[..start]
      {
        program := program[jumps[i] := IJump(|program|)];
        assert jumps[..i + 1] == jumps[..i] + [jumps[i]];
      }
      assert jumps[..|jumps|] == jumps;
    }

    method CompileRepeat(c: Node, min: nat, max: Option<nat>, ghost classCount: nat) returns (ok: bool)
      requires WellFormed(Repeat(c, min, max), classCount) && |program| <= MAX_PROGRAM_SIZE
      modifies this
      ensures ok <==> |old(program)| + Size(Repeat(c, min, max)) <= MAX_PROGRAM_SIZE
      ensures ok ==> Appended(old(program), program, Repeat(c, min, max))
      decreases c, 5
    {
      hide Code, CopiesLayout, LoopLayout, OptionalTail;
      ghost var bs;
      ok, bs := CompileCopies(c, min, classCount);
      if !ok { return; }
      ghost var copies := program;
      match max {
        case None => ok := CompileLoop(c, classCount);
        case Some(high) => ok := CompileOptional(c, high - min, classCount);
      }
      if ok {
        RepeatAppended(old(program), copies, program, c, min, max, bs);
      }
    }

    /** The copies that must match; expanding stops at an operand that compiles to nothing. */
    method CompileCopies(c: Node, min: nat, ghost classCount: nat) returns (ok: bool, ghost bs: seq<nat>)
      requires WellFormed(c, classCount) && |program| <= MAX_PROGRAM_SIZE
      modifies this
      ensures ok <==> |old(program)| + min * Size(c) <= MAX_PROGRAM_SIZE
      ensures ok ==> old(program) <= program && |program| == |old(program)| + min * Size(c)
      ensures ok ==> CopiesLayout(program, c, min, |old(program)|, |program|, bs)
      decreases c, 2
    {
      ghost var start, s := |program|, Size(c);
      bs := [start];
      var i := 0;
      while i < min
        invariant 0 <= i <= min && |bs| == i + 1 && bs[0] == start && bs[i] == |program|
        invariant old(program) <= program && |program| == start + i * s <= MAX_PROGRAM_SIZE
        invariant forall k | 0 <= k < |bs| - 1 :: Code(program, c, bs[k], bs[k + 1])
      {
        TimesMonotone(i + 1, min, s);
        TimesMonotone(i, min, s);
        ghost var before := program;
        var size := |program|;
        ok := Compile(c, classCount);
        if !ok { return; }
        CopiesLocal(before, program, c, bs);
        CopiesOneMore(program, c, bs, |program|);
        bs := bs + [|program|];
        i := i + 1;
        if |program| == size {
          // An empty operand makes all further copies empty too.
          assert s == 0 && i * s == 0 && min * s == 0;
          break;
        }
      }
      ok := true;
    }

    method CompileLoop(c: Node, ghost classCount: nat) returns (ok: bool)
      requires WellFormed(c, classCount) && |program| <= MAX_PROGRAM_SIZE
      modifies this
      ensures ok <==> |old(program)| + Size(c) + 2 <= MAX_PROGRAM_SIZE
      ensures ok ==> old(program) <= program && |program| == |old(program)| + Size(c) + 2
      ensures ok ==> LoopLayout(program, c, |old(program)|, |program|)
      decreases c, 2
    {
      var split, jump;
      ok, split := Emit(ISplit(0, 0));
      if !ok { return; }
      program := program[split := ISplit(|program|, 0)];
      ok := Compile(c, classCount);
      if !ok { return; }
      ghost var coded := program;
      ok, jump := Emit(IJump(split));
      if !ok { return; }
      program := program[split := ISplit(split + 1, |program|)];
      CodeLocal(coded, program, c, split + 1, |program| - 1);
    }

    method CompileOptional(c: Node, k: nat, ghost classCount: nat) returns (ok: bool)
      requires WellFormed(c, classCount) && |program| <= MAX_PROGRAM_SIZE
      modifies this
      ensures ok <==> |old(program)| + k * (Size(c) + 1) <= MAX_PROGRAM_SIZE
      ensures ok ==> old(program) <= program && |program| == |old(program)| + k * (Size(c) + 1)
      ensures ok ==> OptionalTail(program, c, k, |old(program)|, |program|)
      decreases c, 4
    {
      ghost var start := |program|;
      var splits;
      ok, splits := CompileOptionalCopies(c, k, classCount);
      if !ok { return; }
      ghost var open, ss := program, splits + [|program|];
      forall i | 0 <= i < |splits| ensures start <= splits[i] {
        OpenCopiesAscend(open, c, ss, 0, i);
      }
      CloseSplits(splits, start);
      assert ss[..|ss| - 1] == splits;
      CloseOptional(open, program, c, ss, |program|);
    }

    /** The last but one loop of `compile_repeat`: split and copy, `k` times. */
    method CompileOptionalCopies(c: Node, k: nat, ghost classCount: nat) returns (ok: bool, splits: seq<nat>)
      requires WellFormed(c, classCount) && |program| <= MAX_PROGRAM_SIZE
      modifies this
      ensures ok <==> |old(program)| + k * (Size(c) + 1) <= MAX_PROGRAM_SIZE
      ensures ok ==> old(program) <= program && |program| == |old(program)| + k * (Size(c) + 1)
      ensures ok ==> |splits| == k && (splits + [|program|])[0] == |old(program)| && OpenOptional(program, c, splits + [|program|])
      ensures ok ==> forall q | 0 <= q < k :: splits[q] < |program| && program[splits[q]] == ISplit(splits[q] + 1, 0)
      decreases c, 3
    {
      ghost var start, s := |program|, Size(c) + 1;
      splits := [];
      for i := 0 to k
        invariant |splits| == i && (splits + [|program|])[0] == start
        invariant old(program) <= program && |program| == start + i * s <= MAX_PROGRAM_SIZE
        invariant OpenOptional(program, c, splits + [|program|])
        invariant forall q | 0 <= q < i :: splits[q] < |program| && program[splits[q]] == ISplit(splits[q] + 1, 0)
      {
        TimesMonotone(i + 1, k, s);
        TimesMonotone(i, k, s);
        ghost var before, ss := program, splits + [|program|];
        var split;
        ok, split := CompileOptionalCopy(c, classCount);
        if !ok { return; }
        OpenOptionalNext(before, program, c, ss);
        splits := splits + [split];
        assert splits + [|program|] == ss + [|program|];
      }
      ok := true;
    }

    method CompileOptionalCopy(c: Node, ghost classCount: nat) returns (ok: bool, split: nat)
      requires WellFormed(c, classCount) && |program| <= MAX_PROGRAM_SIZE
      modifies this
      ensures ok <==> |old(program)| + Size(c) + 1 <= MAX_PROGRAM_SIZE
      ensures ok ==> old(program) <= program && |program| == |old(program)| + Size(c) + 1 && split == |old(program)|
      ensures ok ==> OpenCopy(program, c, split, |program|) && program[split] == ISplit(split + 1, 0)
      decreases c, 2
    {
      ok, split := Emit(ISplit(0, 0));
      if !ok { return; }
      program := program[split := ISplit(|program|, 0)];
      ok := Compile(c, classCount);
    }

    /** The last loop of `compile_repeat`: every split exits to the end. */
    method CloseSplits(splits: seq<nat>, ghost start: nat)
      requires forall i | 0 <= i < |splits| :: start <= splits[i] < |program| && program[splits[i]] == ISplit(splits[i] + 1, 0)
      modifies this
      ensures |program| == |old(program)|
      ensures forall i | 0 <= i < |splits| :: program[splits[i]] == ISplit(splits[i] + 1, |program|)
      ensures forall x | 0 <= x < |program| :: x in splits || program[x] == old(program)[x]
      ensures start <= |program| ==> program[..start] == old(program)[..start]
    {
      for i := 0 to |splits|
        invariant |program| == |old(program)|
        invariant forall q | 0 <= q < i :: program[splits[q]] == ISplit(splits[q] + 1, |program|)
        invariant forall q | i <= q < |splits| :: program[splits[q]].ISplit? && program[splits[q]].x == splits[q] + 1
        invariant forall x | 0 <= x < |program| :: x in splits || program[x] == old(program)[x]
        invariant start <= |program| ==> program[..start] == old(program)[..start]
      {
        program := program[splits[i] := ISplit(program[splits[i]].x, |program|)];
      }
    }
  }

  lemma OpenJumpsInside(p: Program, cs: seq<Node>, ss: seq<nat>, jumps: seq<nat>, start: nat)
    requires OpenAlternatives(p, cs, ss) && ClosingJumps(ss, jumps) && ss[0] == start
    ensures forall i | 0 <= i < |jumps| :: start <= jumps[i] < |p|
  {
    forall i | 0 <= i < |jumps| ensures start <= jumps[i] < |p| {
      OpenAscend(p, cs, ss, 0, i + 1);
      OpenAscend(p, cs, ss, i + 1, |ss| - 1);
    }
  }
}
