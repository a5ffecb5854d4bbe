/**
 * What the brace tree of a stripped text says about the text itself: its blocks are those of the
 * braces outside comments and literals, and when they are not.
 */
module SourceBraces {
  import opened SourceLexer
  import opened SourceText
  import opened SourceBlocks

  function MarksOf(s: string, regions: seq<Region>): (m: seq<Mark>)
    requires |regions| == |s|
    ensures |m| == |s|
  {
    seq(|s|, i requires 0 <= i < |s| => if regions[i] == InCode then MarkOf(s[i]) else Other)
  }

  /** The braces outside comments and literals. */
  function CodeMarks(s: string): (m: seq<Mark>)
    ensures |m| == |s|
  {
    MarksOf(s, Regions(Code, s))
  }

  // ---------------------------------------------------------------- marks of the stripped text

  /** The marks the parser sees, by the reader's states. */
  function Seen(state: State, s: string): (m: seq<Mark>)
    ensures |m| == |s|
    decreases s
  {
    if s == [] then []
    else [if RegionOf(state, s) == InCode || Unreached(state, s) then MarkOf(s[0]) else Other] + Seen(Next(state, s), s[1..])
  }

  function Others(n: nat): (m: seq<Mark>)
    ensures |m| == n
  {
    seq(n, _ => Other)
  }

  lemma OneOther(n: nat)
    requires n > 0
    ensures Others(n) == [Other] + Others(n - 1)
  {}

  lemma NothingSeen(state: State)
    ensures Seen(state, []) == []
  {}

  lemma HiddenCharacter(state: State, s: string)
    requires s != [] && RegionOf(state, s) != InCode && !Unreached(state, s)
    ensures Seen(state, s) == [Other] + Seen(Next(state, s), s[1..])
  {}

  lemma {:induction false} QuotedSeen(s: string, quote: char)
    requires IsQuote(quote)
    ensures var n := QuotedLength(s, quote); Seen(Quoted(quote), s) == Others(n) + Seen(Code, s[n..])
    decreases |s|
  {
    hide Seen, Others;
    var n := QuotedLength(s, quote);
    if s == [] {
      NothingSeen(Quoted(quote));
      NothingSeen(Code);
    } else {
      HiddenCharacter(Quoted(quote), s);
      OneOther(n);
      if s[0] == '\\' && |s| > 1 {
        HiddenCharacter(Escaped(quote), s[1..]);
        OneOther(n - 1);
        QuotedSeen(s[2..], quote);
        assert s[1..][1..] == s[2..] && s[2..][n - 2..] == s[n..];
      } else if s[0] == '\\' {
        NothingSeen(Escaped(quote));
        NothingSeen(Code);
      } else if s[0] != quote {
        QuotedSeen(s[1..], quote);
        assert s[1..][n - 1..] == s[n..];
      }
    }
  }

  lemma {:induction false} LineSeen(s: string)
    ensures var n := LineLength(s); Seen(InLine, s) == Others(n) + Seen(Code, s[n..])
    decreases |s|
  {
    var n := LineLength(s);
    if n > 0 {
      hide Seen, Others;
      HiddenCharacter(InLine, s);
      OneOther(n);
      LineSeen(s[1..]);
      assert s[1..][n - 1..] == s[n..];
    }
  }

  lemma Unseen(s: string)
    requires |s| <= 1
    ensures Seen(InBlock, s) == Seen(Code, s)
  {}

  lemma {:induction false} BlockSeen(s: string)
    ensures var n := CommentLength(s); Seen(InBlock, s) == Others(n) + Seen(Code, s[n..])
    decreases |s|
  {
    hide Seen;
    var n := CommentLength(s);
    if n == 0 {
      Unseen(s);
      assert s[0..] == s && Others(0) == [];
    } else {
      hide Others;
      HiddenCharacter(InBlock, s);
      OneOther(n);
      if Begins(s, '*', '/') {
        HiddenCharacter(Closing, s[1..]);
        OneOther(1);
        assert Others(0) == [] && s[1..][1..] == s[2..];
      } else {
        BlockSeen(s[1..]);
        assert s[1..][n - 1..] == s[n..];
      }
    }
  }

  lemma CommentSeen(s: string)
    requires s != [] && KindOf(s) == Comment
    ensures var n := TokenLength(s); Seen(Code, s) == Others(n) + Seen(Code, s[n..])
  {
    hide Seen, Others, LineLength, CommentLength;
    var n := TokenLength(s);
    HiddenCharacter(Code, s);
    HiddenCharacter(if s[1] == '/' then InLine else Opening, s[1..]);
    OneOther(n);
    OneOther(n - 1);
    assert s[1..][1..] == s[2..] && s[2..][n - 2..] == s[n..];
    if s[1] == '/' { LineSeen(s[2..]); } else { BlockSeen(s[2..]); }
  }

  lemma OpeningSeen(s: string)
    requires s != [] && IsQuote(s[0])
    ensures Seen(Code, s) == [Other] + Seen(Quoted(s[0]), s[1..])
  {}

  lemma LiteralSeen(s: string)
    requires s != [] && KindOf(s) == Literal
    ensures var n := TokenLength(s); Seen(Code, s) == Others(n) + Seen(Code, s[n..])
  {
    var n := TokenLength(s);
    assert n == 1 + QuotedLength(s[1..], s[0]);
    OpeningSeen(s);
    hide Seen, Others, QuotedLength, TokenLength;
    QuotedSeen(s[1..], s[0]);
    OtherBefore(n, Seen(Code, s[n..]));
    FirstOf(s, n, []);
  }

  lemma OtherBefore(n: nat, rest: seq<Mark>)
    requires n > 0
    ensures [Other] + (Others(n - 1) + rest) == Others(n) + rest
  {}

  lemma PlainSeen(s: string)
    requires s != [] && KindOf(s) == Plain
    ensures Seen(Code, s) == [MarkOf(s[0])] + Seen(Code, s[1..])
  {}

  lemma PlainMarks(c: char, r: string)
    requires !IsQuote(c)
    ensures Marks([c] + r) == [MarkOf(c)] + Marks(r)
  {
    assert ([c] + r)[1..] == r;
  }

  lemma {:induction false} BlankMarks(a: string, r: string)
    requires forall i | 0 <= i < |a| :: a[i] == ' ' || a[i] == '\n'
    ensures Marks(a + r) == Others(|a|) + Marks(r)
    decreases |a|
  {
    hide Marks;
    if a == [] {
      assert a + r == r;
    } else {
      BlankMarks(a[1..], r);
      PlainMarks(a[0], a[1..] + r);
      assert a + r == [a[0]] + (a[1..] + r);
    }
  }

  lemma MarksOfLiteral(t: string)
    requires t != [] && IsQuote(t[0])
    ensures var n := 1 + QuotedLength(t[1..], t[0]); Marks(t) == Others(n) + Marks(t[n..])
  {}

  lemma SameLiteral(s: string, r: string, n: nat)
    requires s != [] && IsQuote(s[0]) && n == 1 + QuotedLength(s[1..], s[0]) && |r| == |s| - n
    ensures var t := s[..n] + r; t[0] == s[0] && t[n..] == r && QuotedLength(t[1..], t[0]) == n - 1
  {
    var t := s[..n] + r;
    assert t[0] == s[0] && t[n..] == r;
    assert t[1..][..n - 1] == t[..n][1..] == s[1..][..n - 1];
    QuotedPrefix(s[1..], s[0], t[1..]);
  }

  /** A literal of the text is one of the stripped text. */
  lemma LiteralMarks(s: string, r: string)
    requires s != [] && KindOf(s) == Literal && |r| == |s| - TokenLength(s)
    ensures var n := TokenLength(s); Marks(s[..n] + r) == Others(n) + Marks(r)
  {
    hide Marks, Others, QuotedLength;
    var n := TokenLength(s);
    SameLiteral(s, r, n);
    MarksOfLiteral(s[..n] + r);
  }

  /** The parser sees the marks of code, and the character that stripping does not reach. */
  lemma {:induction false} StrippedIsSeen(s: string)
    ensures Marks(Stripped(s)) == Seen(Code, s)
    decreases |s|
  {
    if s == [] {
      NothingSeen(Code);
    } else {
      var n := TokenLength(s);
      var r := Stripped(s[n..]);
      StripStep(s);
      hide Stripped, Seen, Marks, Others, TokenLength;
      StrippedIsSeen(s[n..]);
      match KindOf(s)
      case Literal =>
        LiteralMarks(s, r);
        LiteralSeen(s);
      case Comment =>
        BlankMarks(Blanked(s[..n]), r);
        CommentSeen(s);
      case Plain =>
        PlainLength(s);
        PlainMarks(s[0], r);
        PlainSeen(s);
        assert s[..1] == [s[0]];
    }
  }

  lemma PlainLength(s: string)
    requires s != [] && KindOf(s) == Plain
    ensures TokenLength(s) == 1 && !IsQuote(s[0])
  {}

  lemma MarksFront(s: string, regions: seq<Region>)
    requires s != [] && |regions| == |s|
    ensures MarksOf(s, regions) == [if regions[0] == InCode then MarkOf(s[0]) else Other] + MarksOf(s[1..], regions[1..])
  {
    hide MarkOf;
    var m, front := MarksOf(s, regions), if regions[0] == InCode then MarkOf(s[0]) else Other;
    var rest := MarksOf(s[1..], regions[1..]);
    forall i | 0 <= i < |s| ensures m[i] == ([front] + rest)[i] {
      if i > 0 { assert ([front] + rest)[i] == rest[i - 1]; }
    }
  }

  lemma MarksStep(state: State, s: string)
    requires s != []
    ensures MarksOf(s, Regions(state, s)) ==
            [if RegionOf(state, s) == InCode then MarkOf(s[0]) else Other]
            + MarksOf(s[1..], Regions(Next(state, s), s[1..]))
  {
    hide MarksOf, RegionOf, Next, MarkOf;
    var regions := Regions(state, s);
    MarksFront(s, regions);
    assert regions[1..] == Regions(Next(state, s), s[1..]);
  }

  lemma {:induction false} SeenIs(state: State, s: string)
    ensures var m := MarksOf(s, Regions(state, s));
            Seen(state, s) == if s != [] && StateAt(state, s, |s| - 1) == InBlock then m[|s| - 1 := MarkOf(s[|s| - 1])] else m
    decreases s
  {
    hide MarksOf, Regions, Next;
    if s != [] {
      SeenIs(Next(state, s), s[1..]);
      MarksStep(state, s);
    }
  }

  /** For every text: the parser sees the braces of code, up to the last character of an open comment. */
  lemma StrippedMarks(s: string)
    ensures var m := CodeMarks(s);
            Marks(Stripped(s)) == if EndsInComment(s) then m[|s| - 1 := MarkOf(s[|s| - 1])] else m
    ensures EndsInComment(s) ==> CodeMarks(s)[|s| - 1] == Other
  {
    hide Stripped, Seen, Marks, Regions, MarksOf, StateAt, EndsInComment;
    StrippedIsSeen(s);
    SeenIs(Code, s);
    EndsInCommentIff(s);
    if EndsInComment(s) { LastIsHidden(s); }
  }

  lemma LastIsHidden(s: string)
    requires s != [] && StateAt(Code, s, |s| - 1) == InBlock
    ensures CodeMarks(s)[|s| - 1] == Other
  {
    LastRegion(Code, s);
  }

  // ---------------------------------------------------------------- blocks of the stripped text

  lemma {:induction false} SameExcess(m: seq<Mark>, c: seq<Mark>, a: nat, b: nat)
    requires a <= b <= |m| == |c| && m[..b] == c[..b]
    ensures Excess(m, a, b) == Excess(c, a, b)
    decreases b
  {
    if a < b {
      assert m[b - 1] == m[..b][b - 1] == c[b - 1];
      assert m[..b - 1] == m[..b][..b - 1] == c[..b - 1];
      SameExcess(m, c, a, b - 1);
    }
  }

  /** Blocks that end before the last character do not depend on it. */
  lemma SameBlocks(m: seq<Mark>, c: seq<Mark>, a: nat, e: nat)
    requires |m| == |c| && e + 1 < |m| && m[..|m| - 1] == c[..|m| - 1]
    ensures IsBlock(m, a, e) <==> IsBlock(c, a, e)
  {
    if 1 <= a <= e {
      var last := |m| - 1;
      assert m[a - 1] == m[..last][a - 1] == c[a - 1] && m[e] == m[..last][e] == c[e];
      forall k | a <= k <= e ensures Excess(m, a, k) == Excess(c, a, k) {
        assert m[..k] == m[..last][..k] == c[..k];
        SameExcess(m, c, a, k);
      }
    }
  }

  /** Some opening brace has no closing one. */
  ghost predicate Unbalanced(m: seq<Mark>)
  {
    exists a :: IsBlock(m, a, |m|)
  }

  /** A position where the excess is zero for the last time. */
  lemma {:induction false} LastBalance(m: seq<Mark>, a: nat, e: nat) returns (k: nat)
    requires a <= e <= |m| && Within(m, a, e) && Excess(m, a, e) > 0
    ensures a <= k < e && Excess(m, a, k) == 0 && m[k].Opens? && forall j | k < j <= e :: Excess(m, a, j) > 0
    decreases e
  {
    if Excess(m, a, e - 1) == 0 {
      k := e - 1;
    } else {
      k := LastBalance(m, a, e - 1);
    }
  }

  /** Of the blocks that reach the end the innermost is balanced inside. */
  lemma {:induction false} InnermostIsBalanced(m: seq<Mark>, a: nat) returns (b: nat)
    requires IsBlock(m, a, |m|)
    ensures IsBlock(m, b, |m|) && Excess(m, b, |m|) == 0
    decreases |m| - a
  {
    if Excess(m, a, |m|) == 0 {
      b := a;
    } else {
      var k := LastBalance(m, a, |m|);
      var next := k + 1;
      assert Excess(m, a, next) == 1;
      forall j | next <= j <= |m| ensures Excess(m, next, j) == Excess(m, a, j) - 1 { ExcessSplits(m, a, next, j); }
      b := InnermostIsBalanced(m, next);
    }
  }

  ghost predicate SameTree(m: seq<Mark>, c: seq<Mark>)
  {
    forall a: nat, e: nat :: IsBlock(m, a, e) <==> IsBlock(c, a, e)
  }

  /** `m` is `c` with another mark in the last place, where `c` has none. */
  ghost predicate OneMore(m: seq<Mark>, c: seq<Mark>)
  {
    c != [] && c[|c| - 1].Other? && |m| == |c| && m[..|m| - 1] == c[..|c| - 1]
  }

  lemma OneMoreOpens(m: seq<Mark>, c: seq<Mark>)
    requires OneMore(m, c) && m[|m| - 1].Opens?
    ensures !SameTree(m, c)
  {
    assert IsBlock(m, |m|, |m|) && !IsBlock(c, |m|, |m|);
  }

  lemma ExcessAtEnd(m: seq<Mark>, c: seq<Mark>, a: nat)
    requires OneMore(m, c) && m[|m| - 1].Closes? && a < |m|
    ensures Excess(m, a, |m|) == Excess(c, a, |c|) - 1
    ensures forall k | a <= k < |m| :: Excess(m, a, k) == Excess(c, a, k)
  {
    var last := |m| - 1;
    forall k | a <= k < |m| ensures Excess(m, a, k) == Excess(c, a, k) {
      assert m[..k] == m[..last][..k] == c[..last][..k] == c[..k];
      SameExcess(m, c, a, k);
    }
    assert Excess(m, a, |m|) == Excess(m, a, last) - 1;
  }

  lemma OneMoreCloses(m: seq<Mark>, c: seq<Mark>)
    requires OneMore(m, c) && m[|m| - 1].Closes? && Unbalanced(c)
    ensures !SameTree(m, c)
  {
    var a :| IsBlock(c, a, |c|);
    var b := InnermostIsBalanced(c, a);
    ExcessAtEnd(m, c, b);
    assert !IsBlock(m, b, |m|);
  }

  /** A closing brace that has nothing to close makes no difference. */
  lemma IdleClosing(m: seq<Mark>, c: seq<Mark>, a: nat, e: nat)
    requires OneMore(m, c) && m[|m| - 1].Closes? && !Unbalanced(c)
    ensures IsBlock(m, a, e) <==> IsBlock(c, a, e)
  {
    var last := |m| - 1;
    if e < last {
      SameBlocks(m, c, a, e);
    } else if 1 <= a <= e <= |m| && a < |m| {
      ExcessAtEnd(m, c, a);
      assert m[a - 1] == m[..last][a - 1] == c[..last][a - 1] == c[a - 1];
      assert Excess(c, a, |c|) == Excess(c, a, last);
      assert !IsBlock(c, a, |c|);
    } else if a == |m| {
      assert !IsBlock(m, a, e) && !IsBlock(c, a, e);
    }
  }

  lemma SameTreeIff(m: seq<Mark>, c: seq<Mark>)
    requires OneMore(m, c)
    ensures SameTree(m, c) <==> m[|m| - 1].Other? || (m[|m| - 1].Closes? && !Unbalanced(c))
  {
    hide IsBlock, Unbalanced;
    match m[|m| - 1]
    case Opens => OneMoreOpens(m, c);
    case Closes =>
      if Unbalanced(c) {
        OneMoreCloses(m, c);
      } else {
        forall a: nat, e: nat ensures IsBlock(m, a, e) <==> IsBlock(c, a, e) { IdleClosing(m, c, a, e); }
      }
    case Other =>
      assert m == m[..|m| - 1] + [m[|m| - 1]] && c == c[..|c| - 1] + [c[|c| - 1]];
  }

  /** An open comment ends in a brace that the parser takes for one of the program, and that matters. */
  ghost predicate MisplacesBrace(s: string)
  {
    EndsInComment(s) && (s[|s| - 1] == '{' || (s[|s| - 1] == '}' && Unbalanced(CodeMarks(s))))
  }

  /** The blocks of the stripped text are those of the braces of code exactly if no brace is left in a comment that matters. */
  lemma BlocksAreOfCodeIff(s: string)
    ensures SameTree(Marks(Stripped(s)), CodeMarks(s)) <==> !MisplacesBrace(s)
  {
    hide Stripped, Marks, IsBlock, Unbalanced, EndsInComment;
    StrippedMarks(s);
    if EndsInComment(s) {
      EndsInCommentIff(s);
      SameTreeIff(Marks(Stripped(s)), CodeMarks(s));
    }
  }

  /** So the tree of a source file holds exactly the blocks of its braces outside comments and literals. */
  lemma SourceTreeIsExact(text: string, root: Block, s: nat, e: nat)
    requires IsTree(Marks(Stripped(text)), root) && !MisplacesBrace(text)
    ensures IsBlock(CodeMarks(text), s, e) <==> exists b | b in All(root.children) :: b.start == s && b.end == e
  {
    hide Stripped, Marks, IsBlock, MisplacesBrace, IsTree, CodeMarks;
    BlocksAreOfCodeIff(text);
    TreeIsExact(Marks(Stripped(text)), root, s, e);
  }

  /** A brace in a comment that is never closed becomes a block. */
  lemma BraceInCommentIsBlock()
    ensures Stripped("/*{") == "  {" && IsBlock(Marks(Stripped("/*{")), 3, 3) && !IsBlock(CodeMarks("/*{"), 3, 3)
  {
    var s := "/*{";
    OpenCommentLeavesBrace();
    EndsInCommentIff(s);
    assert EndsInComment(s);
    hide Stripped, Marks, EndsInComment;
    StrippedMarks(s);
  }
}
