/** Comment stripping and line numbers (`strip_comments`, `line_index` and `line_of` in `scripts/json_census.py`). */
module SourceText {
  import opened SourceLexer

  // ---------------------------------------------------------------- tokens

  /** How many characters of `s`, which follows an opening quote, belong to the literal. */
  function QuotedLength(s: string, quote: char): (n: nat)
    ensures n <= |s|
  {
    if s == [] then 0
    else if s[0] == '\\' then if |s| == 1 then 1 else 2 + QuotedLength(s[2..], quote)
    else if s[0] == quote then 1
    else 1 + QuotedLength(s[1..], quote)
  }

  function LineLength(s: string): (n: nat)
    ensures n <= |s|
    ensures forall i | 0 <= i < n :: s[i] != '\n'
  {
    if s == [] || s[0] == '\n' then 0 else 1 + LineLength(s[1..])
  }

  /**
   * How many characters of `s`, which follows the opening of a block comment, the comment takes.
   * An unterminated comment leaves the last character behind.
   */
  function CommentLength(s: string): (n: nat)
    ensures n <= |s|
  {
    if |s| <= 1 then 0
    else if s[0] == '*' && s[1] == '/' then 2
    else 1 + CommentLength(s[1..])
  }

  datatype Kind = Literal | Comment | Plain

  function KindOf(s: string): Kind
    requires s != []
  {
    if IsQuote(s[0]) then Literal
    else if |s| >= 2 && s[0] == '/' && (s[1] == '/' || s[1] == '*') then Comment
    else Plain
  }

  function TokenLength(s: string): (n: nat)
    requires s != []
    ensures 1 <= n <= |s|
  {
    match KindOf(s)
    case Literal => 1 + QuotedLength(s[1..], s[0])
    case Comment => if s[1] == '/' then 2 + LineLength(s[2..]) else 2 + CommentLength(s[2..])
    case Plain => 1
  }

  function Blanked(s: string): (r: string)
    ensures |r| == |s| && forall i | 0 <= i < |s| :: r[i] == if s[i] == '\n' then '\n' else ' '
  {
    seq(|s|, i requires 0 <= i < |s| => if s[i] == '\n' then '\n' else ' ')
  }

  function Stripped(s: string): (r: string)
    ensures |r| == |s|
    decreases |s|
  {
    if s == [] then []
    else
      var n := TokenLength(s);
      (if KindOf(s) == Comment then Blanked(s[..n]) else s[..n]) + Stripped(s[n..])
  }

  // ---------------------------------------------------------------- what stripping keeps

  /** Nothing moves, newlines stay, and a character is kept or becomes a space. */
  lemma {:induction false} StrippedKeeps(s: string, i: nat)
    requires i < |s|
    ensures Stripped(s)[i] == s[i] || (Stripped(s)[i] == ' ' && s[i] != '\n')
    decreases |s|
  {
    var n := TokenLength(s);
    if i >= n { StrippedKeeps(s[n..], i - n); }
  }

  lemma OneBlank(c: char, rest: string)
    requires c == ' ' || c == '\n'
    ensures Stripped([c] + rest) == [c] + Stripped(rest)
  {
    var s := [c] + rest;
    assert s[..1] == [c] && s[1..] == rest;
  }

  /** Text of spaces and newlines passes unchanged. */
  lemma {:induction false} BlankPrefix(a: string, b: string)
    requires forall i | 0 <= i < |a| :: a[i] == ' ' || a[i] == '\n'
    ensures Stripped(a + b) == a + Stripped(b)
    decreases |a|
  {
    hide Stripped;
    if a == [] {
      assert a + b == b;
    } else {
      BlankPrefix(a[1..], b);
      OneBlank(a[0], a[1..] + b);
      assert a + b == [a[0]] + (a[1..] + b);
      assert a == [a[0]] + a[1..];
    }
  }

  /** A literal ends where its own characters say, whatever follows; an open one reaches the end. */
  lemma {:induction false} QuotedPrefix(s: string, quote: char, t: string)
    requires |t| == |s| && t[..QuotedLength(s, quote)] == s[..QuotedLength(s, quote)]
    ensures QuotedLength(t, quote) == QuotedLength(s, quote)
    decreases |s|
  {
    var n := QuotedLength(s, quote);
    if s != [] {
      assert t[0] == t[..n][0] == s[0];
      if s[0] == '\\' {
        if |s| > 1 {
          assert t[2..][..n - 2] == t[..n][2..] == s[2..][..n - 2];
          QuotedPrefix(s[2..], quote, t[2..]);
        }
      } else if s[0] != quote {
        assert t[1..][..n - 1] == t[..n][1..] == s[1..][..n - 1];
        QuotedPrefix(s[1..], quote, t[1..]);
      }
    }
  }

  lemma StripStep(s: string)
    requires s != []
    ensures Stripped(s) == (if KindOf(s) == Comment then Blanked(s[..TokenLength(s)]) else s[..TokenLength(s)]) + Stripped(s[TokenLength(s)..])
  {}

  lemma LiteralAgain(s: string, r: string)
    requires s != [] && KindOf(s) == Literal && r == Stripped(s[TokenLength(s)..]) && Stripped(r) == r
    ensures Stripped(Stripped(s)) == Stripped(s)
  {
    var n := TokenLength(s);
    StripStep(s);
    hide Stripped;
    var t := Stripped(s);
    assert t == s[..n] + r;
    assert t[..n] == s[..n] && t[n..] == r;
    assert t[0] == s[..n][0];
    assert t[1..][..n - 1] == t[..n][1..] == s[1..][..n - 1];
    QuotedPrefix(s[1..], s[0], t[1..]);
    assert TokenLength(t) == n;
    hide TokenLength, QuotedLength;
    StripStep(t);
  }

  lemma PlainAgain(s: string, r: string)
    requires s != [] && KindOf(s) == Plain && r == Stripped(s[1..]) && Stripped(r) == r
    ensures Stripped(Stripped(s)) == Stripped(s)
  {
    StripStep(s);
    hide Stripped;
    var t := Stripped(s);
    assert t == [s[0]] + r && t[1..] == r;
    if |s| >= 2 {
      StrippedKeeps(s[1..], 0);
    }
    assert KindOf(t) == Plain;
    hide KindOf;
    StripStep(t);
  }

  /** Stripping twice is stripping once. */
  lemma {:induction false} Idempotent(s: string)
    ensures Stripped(Stripped(s)) == Stripped(s)
    decreases |s|
  {
    if s != [] {
      var n := TokenLength(s);
      Idempotent(s[n..]);
      match KindOf(s)
      case Literal => LiteralAgain(s, Stripped(s[n..]));
      case Comment => BlankPrefix(Blanked(s[..n]), Stripped(s[n..]));
      case Plain => PlainAgain(s, Stripped(s[1..]));
    }
  }

  // ---------------------------------------------------------------- tokens, letter by letter

  lemma {:induction false} QuotedUpTo(s: string, quote: char, rest: string)
    requires forall c | c in s :: c != quote && c != '\\'
    requires quote != '\\'
    ensures QuotedLength(s + [quote] + rest, quote) == |s| + 1
    decreases |s|
  {
    var t := s + [quote] + rest;
    if s == [] {
      assert t[0] == quote;
    } else {
      assert t[0] == s[0] && s[0] in s;
      assert t[1..] == s[1..] + [quote] + rest;
      forall c | c in s[1..] ensures c in s {}
      QuotedUpTo(s[1..], quote, rest);
    }
  }

  /** Between double or between single quotes nothing is blanked. */
  lemma LiteralIsKept(s: string, quote: char, rest: string)
    requires quote as int == 34 || quote as int == 39
    requires forall c | c in s :: c != quote && c as int != 92
    ensures Stripped([quote] + s + [quote] + rest) == [quote] + s + [quote] + Stripped(rest)
  {
    var t := [quote] + s + [quote] + rest;
    assert t[1..] == s + [quote] + rest && t[0] == quote;
    QuotedUpTo(s, quote, rest);
    var n := |s| + 2;
    assert TokenLength(t) == n;
    StripStep(t);
    assert t[..n] == [quote] + s + [quote] && t[n..] == rest;
  }

  /** Any other character that does not open a comment is kept, and the text behind it stripped. */
  lemma OrdinaryIsKept(c: char, rest: string)
    requires c as int != 34 && c as int != 39
    requires c as int == 47 ==> rest == [] || (rest[0] as int != 47 && rest[0] as int != 42)
    ensures Stripped([c] + rest) == [c] + Stripped(rest)
  {
    var t := [c] + rest;
    assert t[1..] == rest && t[..1] == [c];
    if |t| >= 2 { assert t[1] == rest[0]; }
    StripStep(t);
  }

  lemma {:induction false} LineUpTo(s: string, rest: string)
    requires '\n' !in s && (rest == [] || rest[0] == '\n')
    ensures LineLength(s + rest) == |s|
  {
    if s == [] {
      assert s + rest == rest;
    } else {
      assert (s + rest)[1..] == s[1..] + rest;
      LineUpTo(s[1..], rest);
    }
  }

  lemma LineToken(s: string, rest: string)
    requires '\n' !in s && (rest == [] || rest[0] as int == 10)
    ensures var t := ['/', '/'] + (s + rest); KindOf(t) == Comment && TokenLength(t) == |s| + 2 && t[|s| + 2..] == rest
  {
    var t := ['/', '/'] + (s + rest);
    assert t[2..] == s + rest;
    LineUpTo(s, rest);
  }

  lemma AllBlank(s: string)
    requires '\n' !in s
    ensures Blanked(s) == seq(|s|, _ => ' ')
  {}

  /** Two slashes blank the rest of their line. */
  lemma LineIsBlanked(s: string, rest: string)
    requires '\n' !in s && (rest == [] || rest[0] as int == 10)
    ensures Stripped(['/', '/'] + (s + rest)) == seq(|s| + 2, _ => ' ') + Stripped(rest)
  {
    var t := ['/', '/'] + (s + rest);
    LineToken(s, rest);
    StripStep(t);
    hide *;
    var line := ['/', '/'] + s;
    assert t[..|s| + 2] == line;
    AllBlank(line);
  }

  // ---------------------------------------------------------------- comments become blank

  /** The character in the last place of a comment that is never closed is not reached. */
  predicate Unreached(state: State, s: string)
  {
    state == InBlock && |s| == 1
  }

  /** Stripping by the reader's states instead of by tokens. */
  function Painted(state: State, s: string): (r: string)
    ensures |r| == |s|
    decreases s
  {
    if s == [] then []
    else
      [if RegionOf(state, s) == InComment && !Unreached(state, s) && s[0] != '\n' then ' ' else s[0]]
      + Painted(Next(state, s), s[1..])
  }

  lemma PaintedStep(s: string, n: nat)
    requires 0 < n <= |s|
    ensures s[..n] == [s[0]] + s[1..][..n - 1] && s[n..] == s[1..][n - 1..]
    ensures Blanked(s[..n]) == [if s[0] == '\n' then '\n' else ' '] + Blanked(s[1..][..n - 1])
  {}

  /** Literals are kept. */
  lemma LiteralCharacter(state: State, s: string)
    requires s != [] && (state.Quoted? || state.Escaped?)
    ensures Painted(state, s) == [s[0]] + Painted(Next(state, s), s[1..])
  {}

  lemma EscapedPair(s: string, quote: char)
    requires |s| >= 2 && s[0] == '\\'
    ensures Painted(Quoted(quote), s) == s[..2] + Painted(Quoted(quote), s[2..])
  {
    hide Painted;
    LiteralCharacter(Quoted(quote), s);
    LiteralCharacter(Escaped(quote), s[1..]);
    assert s[1..][1..] == s[2..];
    assert s[..2] == [s[0]] + [s[1..][0]];
  }

  lemma {:induction false} QuotedPainted(s: string, quote: char)
    requires IsQuote(quote)
    ensures var n := QuotedLength(s, quote); Painted(Quoted(quote), s) == s[..n] + Painted(Code, s[n..])
    decreases |s|
  {
    hide Painted;
    var n := QuotedLength(s, quote);
    if s == [] {
      NothingPainted(Quoted(quote));
      NothingPainted(Code);
    } else if s[0] == '\\' && |s| > 1 {
      EscapedPair(s, quote);
      QuotedPainted(s[2..], quote);
      assert s[..n] == s[..2] + s[2..][..n - 2] && s[n..] == s[2..][n - 2..];
    } else {
      LiteralCharacter(Quoted(quote), s);
      PaintedStep(s, n);
      if s[0] == '\\' {
        NothingPainted(Escaped(quote));
        NothingPainted(Code);
      } else if s[0] != quote {
        QuotedPainted(s[1..], quote);
      }
    }
  }

  lemma NothingPainted(state: State)
    ensures Painted(state, []) == []
  {}

  lemma {:induction false} LinePainted(s: string)
    ensures var n := LineLength(s); Painted(InLine, s) == Blanked(s[..n]) + Painted(Code, s[n..])
    decreases |s|
  {
    var n := LineLength(s);
    if n == 0 {
      assert s[0..] == s && Blanked(s[..0]) == [];
    } else {
      LinePainted(s[1..]);
      PaintedStep(s, n);
    }
  }

  lemma CommentCharacter(state: State, s: string)
    requires s != [] && RegionOf(state, s) == InComment && !Unreached(state, s)
    ensures Painted(state, s) == [if s[0] == '\n' then '\n' else ' '] + Painted(Next(state, s), s[1..])
  {}

  lemma ClosingPair(s: string)
    requires Begins(s, '*', '/')
    ensures Painted(InBlock, s) == Blanked(s[..2]) + Painted(Code, s[2..])
  {
    hide Painted;
    CommentCharacter(InBlock, s);
    CommentCharacter(Closing, s[1..]);
    assert s[1..][1..] == s[2..];
    assert Blanked(s[..2]) == [' ', ' '];
  }

  lemma Unpainted(s: string)
    requires |s| <= 1
    ensures Painted(InBlock, s) == Painted(Code, s)
  {}

  lemma {:induction false} BlockPainted(s: string)
    ensures var n := CommentLength(s); Painted(InBlock, s) == Blanked(s[..n]) + Painted(Code, s[n..])
    decreases |s|
  {
    hide Painted;
    var n := CommentLength(s);
    if n == 0 {
      Unpainted(s);
      assert s[0..] == s && Blanked(s[..0]) == [];
    } else if Begins(s, '*', '/') {
      ClosingPair(s);
    } else {
      CommentCharacter(InBlock, s);
      BlockPainted(s[1..]);
      PaintedStep(s, n);
    }
  }

  lemma CommentPainted(s: string)
    requires s != [] && KindOf(s) == Comment
    ensures var n := TokenLength(s); Painted(Code, s) == Blanked(s[..n]) + Painted(Code, s[n..])
  {
    hide Painted, LineLength, CommentLength;
    var n, inside := TokenLength(s), if s[1] == '/' then InLine else InBlock;
    assert Painted(Code, s) == "  " + Painted(inside, s[2..]) by { OpeningPainted(s); }
    if s[1] == '/' { LinePainted(s[2..]); } else { BlockPainted(s[2..]); }
    assert s[2..][n - 2..] == s[n..] && s[..n][2..] == s[2..][..n - 2];
    assert Blanked(s[..n]) == "  " + Blanked(s[2..][..n - 2]);
  }

  lemma OpeningPainted(s: string)
    requires s != [] && KindOf(s) == Comment
    ensures Painted(Code, s) == "  " + Painted(if s[1] == '/' then InLine else InBlock, s[2..])
  {
    var first := if s[1] == '/' then InLine else Opening;
    assert s[1..][1..] == s[2..];
    assert Painted(first, s[1..]) == [' '] + Painted(if s[1] == '/' then InLine else InBlock, s[2..]);
    assert Painted(Code, s) == [' '] + Painted(first, s[1..]);
  }

  lemma OpeningQuote(s: string)
    requires s != [] && IsQuote(s[0])
    ensures Painted(Code, s) == [s[0]] + Painted(Quoted(s[0]), s[1..])
  {}

  lemma FirstOf(s: string, n: nat, rest: string)
    requires 0 < n <= |s|
    ensures [s[0]] + (s[1..][..n - 1] + rest) == s[..n] + rest && s[1..][n - 1..] == s[n..]
  {}

  lemma LiteralPainted(s: string)
    requires s != [] && KindOf(s) == Literal
    ensures var n := TokenLength(s); Painted(Code, s) == s[..n] + Painted(Code, s[n..])
  {
    var n := TokenLength(s);
    assert n == 1 + QuotedLength(s[1..], s[0]);
    OpeningQuote(s);
    hide Painted, QuotedLength, TokenLength;
    QuotedPainted(s[1..], s[0]);
    FirstOf(s, n, Painted(Code, s[n..]));
  }

  lemma PlainPainted(s: string)
    requires s != [] && KindOf(s) == Plain
    ensures Painted(Code, s) == s[..1] + Painted(Code, s[1..])
  {
    assert s[..1] == [s[0]];
  }

  /** Going by tokens and going by states is the same. */
  lemma {:induction false} StrippedIsPainted(s: string)
    ensures Stripped(s) == Painted(Code, s)
    decreases |s|
  {
    if s == [] {
      NothingPainted(Code);
    } else {
      StripStep(s);
      hide Stripped, Painted;
      StrippedIsPainted(s[TokenLength(s)..]);
      match KindOf(s)
      case Literal => LiteralPainted(s);
      case Comment => CommentPainted(s);
      case Plain => PlainPainted(s);
    }
  }

  /** The text without comments, but for the character that is not reached. */
  lemma {:induction false} PaintedIs(state: State, s: string)
    ensures var w := Uncommented(s, Regions(state, s));
            Painted(state, s) ==
            if s != [] && StateAt(state, s, |s| - 1) == InBlock then w[|s| - 1 := s[|s| - 1]] else w
    decreases s
  {
    if s != [] {
      var w, rest := Uncommented(s, Regions(state, s)), Uncommented(s[1..], Regions(Next(state, s), s[1..]));
      PaintedIs(Next(state, s), s[1..]);
      assert Regions(state, s)[1..] == Regions(Next(state, s), s[1..]);
      assert w[1..] == rest;
    }
  }

  /** What is not blanked although it should be: the last character of an open comment. */
  ghost predicate LeavesOne(s: string)
  {
    EndsInComment(s) && s[|s| - 1] != '\n' && s[|s| - 1] != ' '
  }

  /** For every text: comments become blank and nothing else changes, up to that one character. */
  lemma StrippedIs(s: string)
    ensures Stripped(s) == if EndsInComment(s) then WithoutComments(s)[|s| - 1 := s[|s| - 1]] else WithoutComments(s)
  {
    hide Stripped, Painted, Regions;
    StrippedIsPainted(s);
    PaintedIs(Code, s);
    EndsInCommentIff(s);
  }

  lemma {:induction false} LastRegion(state: State, s: string)
    requires s != [] && StateAt(state, s, |s| - 1) == InBlock
    ensures Regions(state, s)[|s| - 1] == InComment
    decreases s
  {
    if |s| > 1 { LastRegion(Next(state, s), s[1..]); }
  }

  /** All comments are blanked, and only they, exactly if no such character is left. */
  lemma BlanksCommentsIff(s: string)
    ensures Stripped(s) == WithoutComments(s) <==> !LeavesOne(s)
  {
    hide Stripped, Regions;
    StrippedIs(s);
    EndsInCommentIff(s);
    if EndsInComment(s) { LastRegion(Code, s); }
  }

  /** A brace in an open comment survives. */
  lemma OpenCommentLeavesBrace()
    ensures Stripped("/*{") == "  {" && WithoutComments("/*{") == "   "
  {
    var s := "/*{";
    assert s[1..] == "*{" && s[1..][1..] == "{" && s[1..][1..][1..] == [];
    assert Regions(InBlock, "{") == [InComment];
    assert Regions(Opening, "*{") == [InComment, InComment];
    assert Regions(Code, s) == [InComment, InComment, InComment];
    assert StateAt(InBlock, "{", 0) == InBlock;
    assert StateAt(Opening, "*{", 1) == InBlock;
    assert StateAt(Code, s, 2) == InBlock;
    EndsInCommentIff(s);
    StrippedIs(s);
  }

  // ---------------------------------------------------------------- the in-place scan

  lemma LiteralStep(s: string, n: nat, quote: char)
    requires n < |s|
    ensures s[n..] != []
    ensures s[n] == '\\' ==> QuotedLength(s[n..], quote) == if n + 2 <= |s| then 2 + QuotedLength(s[n + 2..], quote) else 1
    ensures s[n] != '\\' ==> QuotedLength(s[n..], quote) == if s[n] == quote then 1 else 1 + QuotedLength(s[n + 1..], quote)
  {
    if s[n] == '\\' && n + 2 <= |s| { assert s[n..][2..] == s[n + 2..]; }
    if s[n] != '\\' { assert s[n..][1..] == s[n + 1..]; }
  }

  /** Skips the rest of a literal; the index may pass the end after a trailing backslash. */
  method SkipLiteral(text: string, start: nat, quote: char) returns (i: nat)
    requires start <= |text|
    ensures i == start + QuotedLength(text[start..], quote) || (i == |text| + 1 && start + QuotedLength(text[start..], quote) == |text|)
  {
    i := start;
    ghost var target := start + QuotedLength(text[start..], quote);
    while i < |text|
      invariant start <= i
      invariant i <= |text| ==> i + QuotedLength(text[i..], quote) == target
      invariant i > |text| ==> i == |text| + 1 && target == |text|
    {
      LiteralStep(text, i, quote);
      if text[i] == '\\' {
        i := i + 2;
        continue;
      }
      if text[i] == quote {
        i := i + 1;
        return;
      }
      i := i + 1;
    }
  }

  /** What has been written so far, and the rest still to do. */
  ghost predicate Progress(text: string, out: seq<char>, i: nat)
  {
    && i <= |text| == |out|
    && out[i..] == text[i..]
    && out[..i] + Stripped(text[i..]) == Stripped(text)
  }

  lemma ProgressStep(text: string, before: seq<char>, after: seq<char>, i: nat, n: nat)
    requires Progress(text, before, i) && i < |text| && n == TokenLength(text[i..])
    requires |after| == |text| && after[..i] == before[..i] && after[i + n..] == text[i + n..]
    requires after[i..i + n] == if KindOf(text[i..]) == Comment then Blanked(text[i..i + n]) else text[i..i + n]
    ensures Progress(text, after, i + n)
  {
    hide Stripped, KindOf, TokenLength;
    var s := text[i..];
    StripStep(s);
    assert s[..n] == text[i..i + n] && s[n..] == text[i + n..];
    assert after[..i + n] == before[..i] + after[i..i + n];
  }

  /** Characters one by one, as slices. */
  lemma AsSlices(text: string, before: seq<char>, after: seq<char>, start: nat, i: nat)
    requires start <= i <= |text| == |before| == |after|
    requires forall k | 0 <= k < start :: after[k] == before[k]
    requires forall k | start <= k < i :: after[k] == if text[k] == '\n' then '\n' else ' '
    requires forall k | i <= k < |text| :: after[k] == text[k]
    ensures after[..start] == before[..start] && after[i..] == text[i..] && after[start..i] == Blanked(text[start..i])
  {}

  /** Blanks every comment, but for the last character of one that is never closed. */
  method StripComments(text: string) returns (stripped: string)
    ensures stripped == Stripped(text)
    ensures stripped ==
            if EndsInComment(text) then WithoutComments(text)[|text| - 1 := text[|text| - 1]] else WithoutComments(text)
  {
    hide Stripped, TokenLength, KindOf;
    var n := |text|;
    var out := new char[n](i requires 0 <= i < n => text[i]);
    assert out[..] == text;
    var i := 0;
    assert text[0..] == text && out[..][..0] == [];
    while i < n
      invariant i <= n && Progress(text, out[..], i)
    {
      i := Token(text, out, i);
    }
    assert out[..][..n] == out[..] && text[n..] == [];
    NothingLeft();
    StrippedIs(text);
    return out[..];
  }

  lemma NothingLeft()
    ensures Stripped([]) == []
  {}

  lemma LineStep(text: string, i: nat)
    requires i <= |text|
    ensures LineLength(text[i..]) == if i == |text| || text[i] == '\n' then 0 else 1 + LineLength(text[i + 1..])
  {
    if i < |text| { assert text[i..][1..] == text[i + 1..]; }
  }

  lemma CommentStep(text: string, i: nat)
    requires i <= |text|
    ensures CommentLength(text[i..]) ==
            if i + 1 >= |text| then 0 else if text[i] == '*' && text[i + 1] == '/' then 2 else 1 + CommentLength(text[i + 1..])
  {
    if i < |text| { assert text[i..][1..] == text[i + 1..]; }
  }

  /** The token at an index. */
  lemma TokenAt(text: string, i: nat)
    requires i < |text|
    ensures IsQuote(text[i]) ==> KindOf(text[i..]) == Literal && TokenLength(text[i..]) == 1 + QuotedLength(text[i + 1..], text[i])
    ensures i + 1 < |text| && text[i] == '/' && text[i + 1] == '/' ==>
            KindOf(text[i..]) == Comment && TokenLength(text[i..]) == 2 + LineLength(text[i + 2..])
    ensures i + 1 < |text| && text[i] == '/' && text[i + 1] == '*' ==>
            KindOf(text[i..]) == Comment && TokenLength(text[i..]) == 2 + CommentLength(text[i + 2..])
    ensures !IsQuote(text[i]) && !(i + 1 < |text| && text[i] == '/' && (text[i + 1] == '/' || text[i + 1] == '*')) ==>
            KindOf(text[i..]) == Plain && TokenLength(text[i..]) == 1
  {
    hide QuotedLength, LineLength, CommentLength;
    var s := text[i..];
    assert s[0] == text[i] && s[1..] == text[i + 1..];
    if i + 1 < |text| { assert s[1] == text[i + 1] && s[2..] == text[i + 2..]; }
  }

  lemma Unscanned(text: string, out: seq<char>, i: nat)
    requires Progress(text, out, i)
    ensures i <= |text| == |out| && out[i..] == text[i..]
  {}

  /** One token: a literal or plain character is passed, a comment is overwritten. */
  method Token(text: string, out: array<char>, i: nat) returns (next: nat)
    requires i < |text| && Progress(text, out[..], i)
    modifies out
    ensures i < next <= |text| && Progress(text, out[..], next)
  {
    hide Stripped, Progress, Blanked, KindOf, TokenLength, QuotedLength, LineLength, CommentLength;
    ghost var before := out[..];
    Unscanned(text, before, i);
    TokenAt(text, i);
    if IsQuote(text[i]) {
      next := SkipLiteral(text, i + 1, text[i]);
      next := if next > |text| then |text| else next;
    } else if text[i] == '/' && i + 1 < |text| && text[i + 1] == '/' {
      next := BlankLine(text, out, i);
    } else if text[i] == '/' && i + 1 < |text| && text[i + 1] == '*' {
      next := BlankBlock(text, out, i);
    } else {
      next := i + 1;
    }
    assert before[i..][next - i..] == before[next..] && text[i..][next - i..] == text[next..];
    assert before[i..next] == before[i..][..next - i] && text[i..next] == text[i..][..next - i];
    ProgressStep(text, before, out[..], i, next - i);
  }

  method BlankLine(text: string, out: array<char>, start: nat) returns (i: nat)
    requires start + 1 < |text| == out.Length && text[start] == '/' && text[start + 1] == '/' && out[start..] == text[start..]
    modifies out
    ensures i == start + 2 + LineLength(text[start + 2..])
    ensures out[..start] == old(out[..start]) && out[i..] == text[i..] && out[start..i] == Blanked(text[start..i])
  {
    hide LineLength, Blanked;
    i := start;
    ghost var before := out[..];
    assert forall k | start <= k < |text| :: out[k] == out[start..][k - start] == text[start..][k - start];
    ghost var end := start + 2 + LineLength(text[start + 2..]);
    while i < |text| && text[i] != '\n'
      invariant start <= i <= |text| && i <= end
      invariant i < start + 2 || i + LineLength(text[i..]) == end
      invariant forall k | start <= k < i :: out[k] == ' ' && text[k] != '\n'
      invariant forall k | i <= k < |text| :: out[k] == text[k]
      invariant forall k | 0 <= k < start :: out[k] == before[k]
    {
      if i >= start + 2 { LineStep(text, i); }
      out[i] := ' ';
      i := i + 1;
    }
    LineStep(text, i);
    AsSlices(text, before, out[..], start, i);
  }

  method BlankBlock(text: string, out: array<char>, start: nat) returns (i: nat)
    requires start + 1 < |text| == out.Length && text[start] == '/' && text[start + 1] == '*' && out[start..] == text[start..]
    modifies out
    ensures i == start + 2 + CommentLength(text[start + 2..])
    ensures out[..start] == old(out[..start]) && out[i..] == text[i..] && out[start..i] == Blanked(text[start..i])
  {
    hide CommentLength, Blanked;
    ghost var before := out[..];
    assert forall k | start <= k < |text| :: out[k] == out[start..][k - start] == text[start..][k - start];
    out[start], out[start + 1] := ' ', ' ';
    i := start + 2;
    ghost var end := start + 2 + CommentLength(text[start + 2..]);
    while i + 1 < |text| && !(text[i] == '*' && text[i + 1] == '/')
      invariant start + 2 <= i <= |text| && i + CommentLength(text[i..]) == end
      invariant forall k | start <= k < i :: out[k] == if text[k] == '\n' then '\n' else ' '
      invariant forall k | i <= k < |text| :: out[k] == text[k]
      invariant forall k | 0 <= k < start :: out[k] == before[k]
    {
      CommentStep(text, i);
      if text[i] != '\n' { out[i] := ' '; }
      i := i + 1;
    }
    CommentStep(text, i);
    if i + 1 < |text| {
      out[i], out[i + 1] := ' ', ' ';
      i := i + 2;
    }
    AsSlices(text, before, out[..], start, i);
  }

  // ---------------------------------------------------------------- lines

  function Newlines(s: string): nat
  {
    if s == [] then 0 else Newlines(s[..|s| - 1]) + if s[|s| - 1] == '\n' then 1 else 0
  }

  /** Where the lines of the first `k` characters start. */
  function Starts(text: string, k: nat): (starts: seq<nat>)
    requires k <= |text|
    ensures |starts| == 1 + Newlines(text[..k])
  {
    if k == 0 then [0]
    else
      assert text[..k][..k - 1] == text[..k - 1];
      Starts(text, k - 1) + if text[k - 1] == '\n' then [k] else []
  }

  method LineIndex(text: string) returns (starts: seq<nat>)
    ensures starts == Starts(text, |text|)
  {
    starts := [0];
    for i := 0 to |text|
      invariant starts == Starts(text, i)
    {
      if text[i] == '\n' { starts := starts + [i + 1]; }
    }
  }

  /** The line starts at or before an offset are those of the newlines before it. */
  lemma {:induction false} StartsBefore(text: string, k: nat, offset: nat)
    requires offset <= k <= |text|
    ensures forall j | 0 <= j < |Starts(text, k)| :: Starts(text, k)[j] <= offset <==> j <= Newlines(text[..offset])
    ensures Newlines(text[..offset]) <= Newlines(text[..k])
    decreases k
  {
    assert text[..k][..if k > 0 then k - 1 else 0] == text[..if k > 0 then k - 1 else 0];
    if offset < k {
      StartsBefore(text, k - 1, offset);
    } else if k > 0 {
      StartsBefore(text, k - 1, k - 1);
      StartsBounded(text, k);
    }
  }

  lemma {:induction false} StartsBounded(text: string, k: nat)
    requires k <= |text|
    ensures forall j | 0 <= j < |Starts(text, k)| :: Starts(text, k)[j] <= k
  {
    if k > 0 { StartsBounded(text, k - 1); }
  }

  /** Binary search for the line: one more than the newlines before the offset. */
  method LineOf(text: string, starts: seq<nat>, offset: nat) returns (line: nat)
    requires starts == Starts(text, |text|) && offset <= |text|
    ensures line == 1 + Newlines(text[..offset])
  {
    hide Starts, Newlines;
    StartsBefore(text, |text|, offset);
    assert text[..|text|] == text;
    var lo, hi := 0, |starts| - 1;
    while lo < hi
      invariant 0 <= lo <= Newlines(text[..offset]) <= hi < |starts|
    {
      var mid := (lo + hi + 1) / 2;
      if starts[mid] <= offset {
        lo := mid;
      } else {
        hi := mid - 1;
      }
    }
    line := lo + 1;
  }

  lemma {:induction false} StrippedNewlines(s: string, offset: nat)
    requires offset <= |s|
    ensures Newlines(Stripped(s)[..offset]) == Newlines(s[..offset])
  {
    if offset > 0 {
      StrippedNewlines(s, offset - 1);
      StrippedKeeps(s, offset - 1);
      assert s[..offset][..offset - 1] == s[..offset - 1];
      assert Stripped(s)[..offset][..offset - 1] == Stripped(s)[..offset - 1];
    }
  }

  /** An offset has the same line in the stripped text, with the line index of either text. */
  lemma {:induction false} SameStarts(s: string, k: nat)
    requires k <= |s|
    ensures Starts(Stripped(s), k) == Starts(s, k)
  {
    if k > 0 {
      SameStarts(s, k - 1);
      StrippedKeeps(s, k - 1);
    }
  }
}
