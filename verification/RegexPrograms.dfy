/** Programs of the Pike VM and the paths through them. */
module RegexPrograms {
  import opened RegexClasses
  import opened RegexMeaning

  datatype Instruction =
    | IChar(c: nat)
    | IAny
    | IClass(index: nat)
    | ISplit(x: nat, y: nat)
    | IJump(x: nat)
    | IAssert(assertion: Assertion)
    | IMatch

  type Program = seq<Instruction>

  /** A move that reads nothing, at position `i`. */
  predicate Silent(p: Program, e: Env, pc: nat, i: nat, pc': nat)
  {
    && pc < |p| && i <= |e.text|
    && match p[pc]
       case ISplit(x, y) => pc' == x || pc' == y
       case IJump(x) => pc' == x
       case IAssert(a) => HoldsAt(a, e.text, i) && pc' == pc + 1
       case _ => false
  }

  /** The instruction reads the code point at `i` and goes on behind itself. */
  predicate Consumes(p: Program, e: Env, pc: nat, i: nat)
  {
    && pc < |p| && i < |e.text|
    && match p[pc]
       case IChar(c) => e.text[i] == c
       case IAny => !IsLineTerminator(e.text[i])
       case IClass(k) => k < |e.classes| && In(e.classes[k], e.text[i])
       case _ => false
  }

  predicate Step(p: Program, e: Env, pc: nat, i: nat, pc': nat, i': nat)
  {
    || (i' == i && Silent(p, e, pc, i, pc'))
    || (i' == i + 1 && pc' == pc + 1 && Consumes(p, e, pc, i))
  }

  /** A path of `n` steps from `(pc, i)` to `(t, k)`. */
  ghost predicate Path(p: Program, e: Env, pc: nat, i: nat, t: nat, k: nat, n: nat)
    decreases n
  {
    if n == 0 then pc == t && i == k
    else exists pc': nat, i': nat :: Step(p, e, pc, i, pc', i') && Path(p, e, pc', i', t, k, n - 1)
  }

  lemma OneStep(p: Program, e: Env, pc: nat, i: nat, pc': nat, i': nat)
    requires Step(p, e, pc, i, pc', i')
    ensures Path(p, e, pc, i, pc', i', 1)
  {
    assert Path(p, e, pc', i', pc', i', 0);
  }

  lemma {:induction false} JoinPaths(p: Program, e: Env, pc: nat, i: nat, t: nat, k: nat, n: nat, u: nat, l: nat,
          m: nat)
    requires Path(p, e, pc, i, t, k, n) && Path(p, e, t, k, u, l, m)
    ensures Path(p, e, pc, i, u, l, n + m)
    decreases n
  {
    if n > 0 {
      var pc': nat, i': nat :| Step(p, e, pc, i, pc', i') && Path(p, e, pc', i', t, k, n - 1);
      JoinPaths(p, e, pc', i', t, k, n - 1, u, l, m);
    }
  }

  /** The last step of a nonempty path. */
  lemma {:induction false} LastStep(p: Program, e: Env, pc: nat, i: nat, t: nat, k: nat, n: nat) returns (u: nat,
          l: nat)
    requires n > 0 && Path(p, e, pc, i, t, k, n)
    ensures Path(p, e, pc, i, u, l, n - 1) && Step(p, e, u, l, t, k)
    decreases n
  {
    var pc': nat, i': nat :| Step(p, e, pc, i, pc', i') && Path(p, e, pc', i', t, k, n - 1);
    if n == 1 {
      u, l := pc, i;
    } else {
      u, l := LastStep(p, e, pc', i', t, k, n - 1);
    }
  }

  lemma {:induction false} PathMovesForward(p: Program, e: Env, pc: nat, i: nat, t: nat, k: nat, n: nat)
    requires Path(p, e, pc, i, t, k, n)
    ensures i <= k && (n > 0 ==> k <= |e.text|)
    decreases n
  {
    if n > 0 {
      var pc': nat, i': nat :| Step(p, e, pc, i, pc', i') && Path(p, e, pc', i', t, k, n - 1);
      PathMovesForward(p, e, pc', i', t, k, n - 1);
    }
  }
}
