/** What a regular expression means, over a text of Unicode code points. */
module RegexMeaning {
  import opened Options
  import opened RegexClasses

  datatype Assertion = InputStart | InputEnd | WordBoundary | NotWordBoundary

  /** The parsed pattern. A class names an entry of the class table. */
  datatype Node =
    | Empty
    | Char(c: nat)
    | Any
    | Class(index: nat)
    | Concat(children: seq<Node>)
    | Alternation(children: seq<Node>)
    | Repeat(child: Node, min: nat, max: Option<nat>)
    | Assert(assertion: Assertion)

  datatype Env = Env(text: seq<nat>, classes: seq<seq<Range>>)

  predicate IsWordCharacter(c: nat)
  {
    'a' as nat <= c <= 'z' as nat || 'A' as nat <= c <= 'Z' as nat || '0' as nat <= c <= '9' as nat || c == '_' as nat
  }

  predicate IsLineTerminator(c: nat)
  {
    c == '\n' as nat || c == '\r' as nat || c == 0x2028 || c == 0x2029
  }

  predicate HoldsAt(a: Assertion, text: seq<nat>, i: nat)
    requires i <= |text|
  {
    var before := i > 0 && IsWordCharacter(text[i - 1]);
    var after := i < |text| && IsWordCharacter(text[i]);
    match a
    case InputStart => i == 0
    case InputEnd => i == |text|
    case WordBoundary => before != after
    case NotWordBoundary => before == after
  }

  /** `node` matches the text from `i` up to `j`. */
  ghost predicate Match(node: Node, e: Env, i: nat, j: nat)
    decreases node, 0, 0
  {
    match node
    case Empty => i == j <= |e.text|
    case Char(c) => j == i + 1 <= |e.text| && e.text[i] == c
    case Any => j == i + 1 <= |e.text| && !IsLineTerminator(e.text[i])
    case Class(k) => j == i + 1 <= |e.text| && k < |e.classes| && In(e.classes[k], e.text[i])
    case Concat(cs) => MatchAll(cs, e, i, j)
    case Alternation(cs) => exists k :: 0 <= k < |cs| && Match(cs[k], e, i, j)
    case Repeat(c, min, max) => exists n: nat :: min <= n && (max.Some? ==> n <= max.value) && MatchTimes(c, n, e, i, j)
    case Assert(a) => i == j <= |e.text| && HoldsAt(a, e.text, i)
  }

  ghost predicate MatchAll(cs: seq<Node>, e: Env, i: nat, j: nat)
    decreases cs, 0, 0
  {
    if cs == [] then i == j <= |e.text|
    else exists m: nat :: Match(cs[0], e, i, m) && MatchAll(cs[1..], e, m, j)
  }

  ghost predicate MatchTimes(c: Node, n: nat, e: Env, i: nat, j: nat)
    decreases c, 1, n
  {
    if n == 0 then i == j <= |e.text|
    else exists m: nat :: Match(c, e, i, m) && MatchTimes(c, n - 1, e, m, j)
  }

  /** The pattern matches somewhere in the text: what `search` answers. */
  ghost predicate Found(node: Node, e: Env)
  {
    exists i: nat, j: nat :: i <= |e.text| && Match(node, e, i, j)
  }

  /** What the parser guarantees about its nodes. */
  predicate WellFormed(node: Node, classCount: nat)
  {
    match node
    case Class(k) => k < classCount
    case Concat(cs) => forall k | 0 <= k < |cs| :: WellFormed(cs[k], classCount)
    case Alternation(cs) => |cs| >= 2 && forall k | 0 <= k < |cs| :: WellFormed(cs[k], classCount)
    case Repeat(c, min, max) => WellFormed(c, classCount) && (max.Some? ==> min <= max.value)
    case _ => true
  }

  /** What `\w` stands for in a pattern. */
  function WordRanges(): seq<Range>
  {
    [Range(0x30, 0x39), Range(0x41, 0x5A), Range(0x5F, 0x5F), Range(0x61, 0x7A)]
  }

  /** Word boundaries and the class of word characters agree on what a word character is. */
  lemma WordClassAgrees(c: nat)
    ensures IsWordCharacter(c) <==> In(WordRanges(), c)
    ensures Canonical(WordRanges())
  {
    var r := WordRanges();
    assert r[0] == Range(0x30, 0x39) && r[1] == Range(0x41, 0x5A) && r[2] == Range(0x5F, 0x5F) && r[3] == Range(0x61, 0x7A);
  }

  lemma LineTerminatorIff(c: nat)
    ensures IsLineTerminator(c) <==> c in {10, 13, 8232, 8233}
  {}

  /** A boundary lies where exactly one of two neighbours is a word character; beyond the text there is none. */
  lemma BoundaryIff(text: seq<nat>, i: nat)
    requires i <= |text|
    ensures HoldsAt(WordBoundary, text, i) <==>
            (exists k | 0 <= k < |text| :: (k == i || k + 1 == i) && In(WordRanges(), text[k]))
            && !(0 < i < |text| && In(WordRanges(), text[i - 1]) && In(WordRanges(), text[i]))
    ensures HoldsAt(NotWordBoundary, text, i) <==> !HoldsAt(WordBoundary, text, i)
  {
    if i > 0 { WordClassAgrees(text[i - 1]); }
    if i < |text| { WordClassAgrees(text[i]); }
    hide In, IsWordCharacter;
    if i > 0 && IsWordCharacter(text[i - 1]) { assert i - 1 + 1 == i; }
  }

  /** A pattern may repeat from any count to the same or a higher one, and choose between any two patterns. */
  lemma WellFormedShapes(a: Node, b: Node, n: nat, more: nat, classCount: nat)
    requires WellFormed(a, classCount) && WellFormed(b, classCount)
    ensures WellFormed(Repeat(a, n, Some(n + more)), classCount) && WellFormed(Repeat(a, n, None), classCount)
    ensures !WellFormed(Repeat(a, n + more + 1, Some(n)), classCount)
    ensures WellFormed(Alternation([a, b]), classCount) && WellFormed(Concat([a, b]), classCount)
  {}

  lemma {:induction false} MatchMovesForward(node: Node, e: Env, i: nat, j: nat)
    requires Match(node, e, i, j)
    ensures i <= j <= |e.text|
    decreases node, 0, 0
  {
    match node
    case Concat(cs) => MatchAllMovesForward(cs, e, i, j);
    case Alternation(cs) =>
      var k :| 0 <= k < |cs| && Match(cs[k], e, i, j);
      MatchMovesForward(cs[k], e, i, j);
    case Repeat(c, min, max) =>
      var n: nat :| min <= n && (max.Some? ==> n <= max.value) && MatchTimes(c, n, e, i, j);
      MatchTimesMovesForward(c, n, e, i, j);
    case _ =>
  }

  lemma {:induction false} MatchAllMovesForward(cs: seq<Node>, e: Env, i: nat, j: nat)
    requires MatchAll(cs, e, i, j)
    ensures i <= j <= |e.text|
    decreases cs, 0, 0
  {
    if cs != [] {
      var m: nat :| Match(cs[0], e, i, m) && MatchAll(cs[1..], e, m, j);
      MatchMovesForward(cs[0], e, i, m);
      MatchAllMovesForward(cs[1..], e, m, j);
    }
  }

  lemma {:induction false} MatchTimesMovesForward(c: Node, n: nat, e: Env, i: nat, j: nat)
    requires MatchTimes(c, n, e, i, j)
    ensures i <= j <= |e.text|
    decreases c, 1, n
  {
    if n > 0 {
      var m: nat :| Match(c, e, i, m) && MatchTimes(c, n - 1, e, m, j);
      MatchMovesForward(c, e, i, m);
      MatchTimesMovesForward(c, n - 1, e, m, j);
    }
  }
}
