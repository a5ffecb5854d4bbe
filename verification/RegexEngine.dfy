/** The `Regex` object: a compiled pattern and the searches it answers. */
module RegexEngine {
  import opened Options
  import opened RegexClasses
  import opened RegexMeaning
  import opened RegexPrograms
  import opened RegexLayout
  import opened RegexCompiler
  import opened RegexVm
  import opened Utf8

  datatype RegexProgram = RegexProgram(instructions: Program, classes: seq<seq<Range>>, anchored: bool)

  ghost predicate CompiledFrom(r: RegexProgram, root: Node)
  {
    && ProgramOk(r.instructions, |r.classes|)
    && Code(r.instructions, root, 0, |r.instructions| - 1)
    && (r.anchored <==> r.instructions[0] == IAssert(InputStart))
    && forall c | c in r.classes :: Canonical(c)
  }

  /** The constructor after parsing: refused exactly when the program would be too large. */
  method CompilePattern(root: Node, classes: seq<seq<Range>>) returns (result: Option<RegexProgram>)
    requires WellFormed(root, |classes|) && forall c | c in classes :: Canonical(c)
    ensures result.Some? <==> Size(root) + 1 <= 20_000
    ensures result.Some? ==> CompiledFrom(result.value, root) && result.value.classes == classes
    ensures result.Some? ==> |result.value.instructions| == Size(root) + 1
  {
    var compiler := new Compiler();
    var ok := compiler.Compile(root, |classes|);
    if !ok { return None; }
    ghost var body := compiler.program;
    var at;
    ok, at := compiler.Emit(IMatch);
    if !ok { return None; }
    CodeLocal(body, compiler.program, root, 0, |body|);
    CodeStaysInside(compiler.program, root, 0, |body|, |classes|);
    result := Some(RegexProgram(compiler.program, classes, compiler.program[0] == IAssert(InputStart)));
  }

  /**
   * `search(input, steps_left)`: compiling and simulating preserve the meaning of the pattern,
   * for the documented steps and no other, which are linear in the input for a fixed program.
   */
  method Search(r: RegexProgram, ghost root: Node, input: seq<Byte>, budget: nat) returns (result: Option<bool>,
          left: nat)
    requires CompiledFrom(r, root)
    ensures var e := Env(DecodeAll(input, 0), r.classes);
            var cost := Cost(r.instructions, e, r.anchored);
            && (result.Some? ==> (result.value <==> Found(root, e)))
            && (result.Some? <==> cost <= budget) && left == (if result.Some? then budget - cost else 0)
            && cost <= Bound(|e.text|, |r.instructions|)
  {
    var e := Env(DecodeAll(input, 0), r.classes);
    AcceptsIffFound(r.instructions, root, e);
    result, left := RegexVm.Search(r.instructions, e, r.anchored, budget);
  }
}
