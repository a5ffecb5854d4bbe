/** What is comment and what is literal in a C++ text, character by character; every quote delimits a literal. */
module SourceLexer {

  predicate IsQuote(c: char)
  {
    c == '"' || c == '\''
  }

  /**
   * Where a reader of the text is. `Opening` is before the star that opens a block comment,
   * `Closing` before the slash that closes one.
   */
  datatype State = Code | Quoted(quote: char) | Escaped(quote: char) | InLine | Opening | InBlock | Closing

  datatype Region = InCode | InLiteral | InComment

  predicate Begins(s: string, first: char, second: char)
  {
    |s| >= 2 && s[0] == first && s[1] == second
  }

  /** After the first character of `s`. */
  function Next(state: State, s: string): State
    requires s != []
  {
    match state
    case Code =>
      if IsQuote(s[0]) then Quoted(s[0])
      else if Begins(s, '/', '/') then InLine
      else if Begins(s, '/', '*') then Opening
      else Code
    case Quoted(quote) => if s[0] == '\\' then Escaped(quote) else if s[0] == quote then Code else state
    case Escaped(quote) => Quoted(quote)
    case InLine => if s[0] == '\n' then Code else InLine
    case Opening => InBlock
    case InBlock => if Begins(s, '*', '/') then Closing else InBlock
    case Closing => Code
  }

  /** What the first character of `s` belongs to; the newline behind a line comment is code. */
  function RegionOf(state: State, s: string): Region
    requires s != []
  {
    match state
    case Code => if IsQuote(s[0]) then InLiteral else if Next(state, s) == Code then InCode else InComment
    case Quoted(_) => InLiteral
    case Escaped(_) => InLiteral
    case InLine => if s[0] == '\n' then InCode else InComment
    case _ => InComment
  }

  function Regions(state: State, s: string): (r: seq<Region>)
    ensures |r| == |s|
    decreases s
  {
    if s == [] then [] else [RegionOf(state, s)] + Regions(Next(state, s), s[1..])
  }

  /** Before character `k`. */
  function StateAt(state: State, s: string, k: nat): State
    requires k <= |s|
    decreases k
  {
    if k == 0 then state else StateAt(Next(state, s), s[1..], k - 1)
  }

  function Uncommented(s: string, regions: seq<Region>): (r: string)
    requires |regions| == |s|
    ensures |r| == |s|
  {
    seq(|s|, i requires 0 <= i < |s| => if regions[i] == InComment && s[i] != '\n' then ' ' else s[i])
  }

  /** The text with every character of a comment, but no newline, replaced by a space. */
  function WithoutComments(s: string): (r: string)
    ensures |r| == |s|
  {
    Uncommented(s, Regions(Code, s))
  }

  // ---------------------------------------------------------------- comments that are never closed

  /** A block comment opens at `k`, has a character inside, and is not closed. */
  ghost predicate LeftOpen(s: string, k: nat)
  {
    && k + 2 < |s| && StateAt(Code, s, k) == Code && s[k] == '/' && s[k + 1] == '*'
    && forall j | k + 2 <= j < |s| - 1 :: !(s[j] == '*' && s[j + 1] == '/')
  }

  /** The text ends inside a block comment, behind at least one character of its body. */
  ghost predicate EndsInComment(s: string)
  {
    exists k :: LeftOpen(s, k)
  }

  lemma {:induction false} OneStepOn(state: State, s: string, k: nat)
    requires k < |s|
    ensures StateAt(state, s, k + 1) == Next(StateAt(state, s, k), s[k..])
    decreases k
  {
    if k == 0 {
      assert s[0..] == s;
    } else {
      OneStepOn(Next(state, s), s[1..], k - 1);
      assert s[1..][k - 1..] == s[k..];
    }
  }

  /** Inside an open comment the reader stays in it. */
  lemma {:induction false} StaysInside(s: string, k: nat, i: nat)
    requires LeftOpen(s, k) && k + 2 <= i < |s|
    ensures StateAt(Code, s, i) == InBlock
    decreases i
  {
    OneStepOn(Code, s, i - 1);
    if i == k + 2 {
      OneStepOn(Code, s, k);
    } else {
      StaysInside(s, k, i - 1);
    }
  }

  ghost predicate OpenSince(s: string, k: nat, i: nat)
    requires i < |s|
  {
    && k + 2 <= i && StateAt(Code, s, k) == Code && s[k] == '/' && s[k + 1] == '*'
    && forall j | k + 2 <= j < i :: !(s[j] == '*' && s[j + 1] == '/')
  }

  lemma OpenedBefore(s: string, i: nat) returns (k: nat)
    requires 0 < i < |s| && StateAt(Code, s, i) == Opening
    ensures k == i - 1 && StateAt(Code, s, k) == Code && s[k] == '/' && s[i] == '*'
  {
    k := i - 1;
    OneStepOn(Code, s, k);
  }

  lemma {:induction false} InsideWasOpened(s: string, i: nat) returns (k: nat)
    requires i < |s| && StateAt(Code, s, i) == InBlock
    ensures OpenSince(s, k, i)
    decreases i
  {
    OneStepOn(Code, s, i - 1);
    if StateAt(Code, s, i - 1) == Opening {
      k := OpenedBefore(s, i - 1);
    } else {
      k := InsideWasOpened(s, i - 1);
    }
  }

  /** The reader is inside a block comment before the last character exactly if the text leaves one open there. */
  lemma EndsInCommentIff(s: string)
    ensures EndsInComment(s) <==> s != [] && StateAt(Code, s, |s| - 1) == InBlock
  {
    if k :| LeftOpen(s, k) { StaysInside(s, k, |s| - 1); }
    if s != [] && StateAt(Code, s, |s| - 1) == InBlock {
      var k := InsideWasOpened(s, |s| - 1);
      assert LeftOpen(s, k);
    }
  }
}
