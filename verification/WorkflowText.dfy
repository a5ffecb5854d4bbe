/** What one raw line of a workflow file stands for, stated on its characters. */
module WorkflowText {
  import opened Options
  import opened WorkflowYaml
  import opened WorkflowLines

  const WHITE: set<char> :=
    {' ', '\t', '\n', '\r', '\U{0b}', '\U{0c}', '\U{1c}', '\U{1d}', '\U{1e}', '\U{1f}'}

  predicate AllWhite(s: string)
  {
    forall c | c in s :: c in WHITE
  }

  /** No white space at either end. */
  predicate Trimmed(s: string)
  {
    s == "" || (s[0] !in WHITE && s[|s| - 1] !in WHITE)
  }

  // ---------------------------------------------------------------- block scalars

  const SIGNS: set<string> := {"+", "-"}
  const DIGITS: set<string> := {"1", "2", "3", "4", "5", "6", "7", "8", "9"}

  /** What follows the `|` or `>`: nothing, a sign, a digit, or both in either order. */
  ghost predicate Indicators(s: string)
  {
    || s == "" || s in SIGNS || s in DIGITS
    || exists sign, digit | sign in SIGNS && digit in DIGITS :: s == sign + digit || s == digit + sign
  }

  ghost predicate Opener(s: string)
  {
    exists indicators | Indicators(indicators) :: s == "|" + indicators || s == ">" + indicators
  }

  /** The value, up to white space around it, opens a block scalar. */
  ghost predicate OpensBlock(value: string)
  {
    exists before, core, after :: AllWhite(before) && AllWhite(after) && Opener(core) && value == before + core + after
  }

  lemma OneCharacter(c: char)
    ensures IsSign(c) <==> [c] in SIGNS
    ensures '1' <= c <= '9' <==> [c] in DIGITS
  {
    assert [c] == "+" <==> c == '+' by { assert [c][0] == c && "+"[0] == '+'; }
    assert [c] == "-" <==> c == '-' by { assert [c][0] == c && "-"[0] == '-'; }
    DigitTexts(c);
  }

  lemma DigitTexts(c: char)
    ensures '1' <= c <= '9' <==> [c] in DIGITS
  {
    if [c] in DIGITS { assert c == [c][0]; }
    if '1' <= c <= '9' {
      assert [c] == "1" || [c] == "2" || [c] == "3" || [c] == "4" || [c] == "5" || [c] == "6" || [c] == "7" || [c] == "8" || [c] == "9";
    }
  }

  lemma SingleTexts(s: string)
    ensures s in SIGNS || s in DIGITS ==> |s| == 1
  {}

  lemma IndicatorsIff(s: string)
    ensures Indicators(s) <==>
            || s == "" || (|s| == 1 && (IsSign(s[0]) || '1' <= s[0] <= '9'))
            || (|s| == 2 && ((IsSign(s[0]) && '1' <= s[1] <= '9') || ('1' <= s[0] <= '9' && IsSign(s[1]))))
  {
    SingleTexts(s);
    if |s| == 1 {
      OneCharacter(s[0]);
      assert s == [s[0]];
    }
    if |s| == 2 {
      OneCharacter(s[0]);
      OneCharacter(s[1]);
      hide SIGNS, DIGITS, IsSign;
      assert s == [s[0]] + [s[1]];
    }
    if sign, digit :| sign in SIGNS && digit in DIGITS && (s == sign + digit || s == digit + sign) {
      SingleTexts(sign);
      SingleTexts(digit);
      hide SIGNS, DIGITS, IsSign;
      assert |s| == 2 && (s == sign + digit ==> [s[0]] == sign && [s[1]] == digit) && (s == digit + sign ==> [s[0]] == digit && [s[1]] == sign);
    }
  }

  /** The pattern of block scalar openers, spelled out. */
  lemma BlockScalarIff(s: string)
    ensures BlockScalar(s) <==> Opener(s)
  {
    if s != "" {
      IndicatorsIff(s[1..]);
      hide Indicators, IsSign;
      assert s == [s[0]] + s[1..];
      assert s[0] == '|' ==> s == "|" + s[1..];
      assert s[0] == '>' ==> s == ">" + s[1..];
      if Opener(s) {
        var indicators :| Indicators(indicators) && (s == "|" + indicators || s == ">" + indicators);
        assert indicators == s[1..];
      }
    }
  }

  lemma OpenersAreTrimmed(s: string)
    requires Opener(s)
    ensures s != "" && Trimmed(s)
  {
    BlockScalarIff(s);
    hide Opener;
  }

  // ---------------------------------------------------------------- white space around a value

  lemma {:induction false} WhiteStart(a: string, rest: string)
    requires AllWhite(a) && (rest != "" ==> rest[0] !in WHITE)
    ensures FirstInk(a + rest) == |a|
    decreases |a|
  {
    if a == "" {
      assert a + rest == rest;
      if rest != "" { SpaceIsWhite(rest[0]); }
    } else {
      SpaceIsWhite(a[0]);
      assert (a + rest)[1..] == a[1..] + rest;
      WhiteStart(a[1..], rest);
    }
  }

  lemma SpaceIsWhite(c: char)
    ensures IsSpace(c) <==> c in WHITE
  {}

  lemma {:induction false} WhiteEnd(rest: string, b: string)
    requires AllWhite(b) && (rest != "" ==> rest[|rest| - 1] !in WHITE)
    ensures RightInk(rest + b) == |rest|
    decreases |b|
  {
    if b == "" {
      assert rest + b == rest;
      if rest != "" { SpaceIsWhite(rest[|rest| - 1]); }
    } else {
      SpaceIsWhite(b[|b| - 1]);
      assert (rest + b)[..|rest + b| - 1] == rest + b[..|b| - 1];
      WhiteEnd(rest, b[..|b| - 1]);
    }
  }

  /** Trimming finds the one trimmed part. */
  lemma StrippedIs(a: string, core: string, b: string)
    requires AllWhite(a) && AllWhite(b) && core != "" && Trimmed(core)
    ensures Stripped(a + core + b) == core
  {
    hide FirstInk, RightInk, WHITE;
    var s := a + core + b;
    assert s == a + (core + b);
    WhiteStart(a, core + b);
    assert s[|a|..] == core + b;
    WhiteEnd(core, b);
  }

  lemma {:induction false} StartIsWhite(s: string)
    ensures AllWhite(s[..FirstInk(s)])
  {
    if s != "" && IsSpace(s[0]) {
      StartIsWhite(s[1..]);
      assert s[..FirstInk(s)] == [s[0]] + s[1..][..FirstInk(s[1..])];
    }
  }

  lemma {:induction false} EndIsWhite(s: string)
    ensures AllWhite(s[RightInk(s)..])
    decreases |s|
  {
    if s != "" && IsSpace(s[|s| - 1]) {
      var most := s[..|s| - 1];
      EndIsWhite(most);
      assert s[RightInk(s)..] == most[RightInk(most)..] + [s[|s| - 1]];
    }
  }

  lemma StrippedInside(s: string)
    ensures exists a, b :: AllWhite(a) && AllWhite(b) && s == a + Stripped(s) + b
  {
    hide FirstInk, RightInk, AllWhite;
    var m := FirstInk(s);
    var rest := s[m..];
    var n := RightInk(rest);
    StartIsWhite(s);
    EndIsWhite(rest);
    assert s == s[..m] + Stripped(s) + rest[n..];
  }

  /** A value opens a block scalar exactly if that is what stands between its white space. */
  lemma OpensBlockIff(value: string)
    ensures BlockScalar(Stripped(value)) <==> OpensBlock(value)
  {
    hide BlockScalar, Stripped, AllWhite, Opener;
    if BlockScalar(Stripped(value)) {
      BlockScalarIff(Stripped(value));
      StrippedInside(value);
      var a, b :| AllWhite(a) && AllWhite(b) && value == a + Stripped(value) + b;
    }
    if before, core, after :| AllWhite(before) && AllWhite(after) && Opener(core) && value == before + core + after {
      OpenersAreTrimmed(core);
      StrippedIs(before, core, after);
      BlockScalarIff(core);
    }
  }

  // ---------------------------------------------------------------- quoted keys

  /** How a key is written between single quotes. */
  function Doubled(inner: string): string
  {
    if inner == "" then "" else (if inner[0] == '\'' then "''" else [inner[0]]) + Doubled(inner[1..])
  }

  lemma {:induction false} UnpairedDoubled(inner: string)
    ensures Unpaired(Doubled(inner)) == inner
  {
    if inner != "" {
      var rest := Doubled(inner[1..]);
      UnpairedDoubled(inner[1..]);
      if inner[0] == '\'' {
        assert Doubled(inner)[2..] == rest;
      } else {
        assert Doubled(inner)[1..] == rest;
        assert [inner[0]] + inner[1..] == inner;
      }
    }
  }

  lemma {:induction false} UnitsAreDoubled(units: seq<string>) returns (inner: string)
    requires forall unit | unit in units :: SingleUnit(unit)
    ensures Concat(units) == Doubled(inner)
  {
    if units == [] {
      inner := "";
    } else {
      var rest := UnitsAreDoubled(units[1..]);
      assert SingleUnit(units[0]);
      inner := [units[0][0]] + rest;
      assert inner[1..] == rest;
    }
  }

  predicate KeyStart(c: char)
  {
    65 <= c as int <= 90 || 97 <= c as int <= 122 || c as int == 95
  }

  /** A plain key, by the codes of its characters: letters and underscores, and behind them digits, dots and hyphens too. */
  lemma PlainKeyIff(token: string)
    ensures PlainKey(token) <==>
            token != "" && KeyStart(token[0])
            && forall c | c in token :: KeyStart(c) || 48 <= c as int <= 57 || c as int == 46 || c as int == 45
  {
    if token != "" && forall c | c in token :: KeyStart(c) || 48 <= c as int <= 57 || c as int == 46 || c as int == 45 {
      forall i | 0 < i < |token| ensures IsKeyChar(token[i]) { assert token[i] in token; }
    }
    if PlainKey(token) {
      forall c | c in token ensures KeyStart(c) || 48 <= c as int <= 57 || c as int == 46 || c as int == 45 {
        var i :| 0 <= i < |token| && token[i] == c;
      }
    }
  }

  /** What a key means. */
  ghost predicate KeyMeans(token: string, unquote: string -> Option<string>, key: Option<string>)
  {
    || (token != "" && token[0] == '"' && key == unquote(token))
    || (token != "" && token[0] == '\'' && exists inner :: token == "'" + Doubled(inner) + "'" && key == Some(inner))
    || (token != "" && token[0] != '"' && token[0] != '\'' && key == Some(token))
  }

  lemma SingleQuotedKey(token: string) returns (inner: string)
    requires IsKey(token) && token[0] == '\''
    ensures token == "'" + Doubled(inner) + "'"
  {
    var units :| SingleQuoted(token[1..], units);
    inner := UnitsAreDoubled(units);
    assert token == "'" + token[1..];
  }

  lemma KeyNotEmpty(token: string)
    requires IsKey(token)
    ensures token != "" && token[0] !in WHITE && token[0] != '#' && token[0] != '-'
  {}

  lemma KeyMeansIff(token: string, unquote: string -> Option<string>, key: Option<string>)
    requires IsKey(token)
    ensures KeyMeans(token, unquote, key) <==> key == KeyValue(token, unquote)
  {
    KeyNotEmpty(token);
    if token[0] == '\'' {
      var inner := SingleQuotedKey(token);
      hide IsKey, Unpaired;
      forall other | token == "'" + Doubled(other) + "'" ensures Some(other) == KeyValue(token, unquote) {
        assert token[1..|token| - 1] == Doubled(other);
        UnpairedDoubled(other);
      }
      assert Some(inner) == KeyValue(token, unquote);
    }
  }

  // ---------------------------------------------------------------- lines

  /** The line is this entry, with what that means. */
  ghost predicate IsEntryOf(raw: string, unquote: string -> Option<string>, indent: nat, entry: Entry, e: RawEntry)
  {
    && raw == EntryText(e) && IsKey(e.token)
    && e.indent == indent && (entry.item <==> e.gap > 0)
    && KeyMeans(e.token, unquote, entry.key) && (entry.opensBlockScalar <==> OpensBlock(e.value))
  }

  ghost predicate IsNoEntry(raw: string)
  {
    forall e :: raw == EntryText(e) ==> !IsKey(e.token)
  }

  /** Some text at this indentation: not blank, and no comment. */
  ghost predicate IsText(raw: string, indent: nat)
  {
    && indent < |raw| && (forall i | 0 <= i < indent :: raw[i] == ' ') && raw[indent] != ' '
    && !AllWhite(raw) && !IsComment(raw)
  }

  ghost predicate IsComment(raw: string)
  {
    exists before, rest :: AllWhite(before) && raw == before + "#" + rest
  }

  /** What the line stands for, from its characters. */
  ghost predicate ReadsAs(raw: string, unquote: string -> Option<string>, line: Line)
  {
    && (line.hasTab <==> '\t' in raw)
    && match line.content
       case Blank => AllWhite(raw)
       case Comment => IsComment(raw)
       case Text(indent, None) => IsText(raw, indent) && IsNoEntry(raw)
       case Text(indent, Some(entry)) => IsText(raw, indent) && exists e :: IsEntryOf(raw, unquote, indent, entry, e)
  }

  lemma BlankIff(raw: string)
    ensures AllWhite(raw) <==> FirstInk(raw) == |raw|
  {
    if AllWhite(raw) {
      WhiteStart(raw, "");
      assert raw + "" == raw;
    }
    StartIsWhite(raw);
    assert raw[..|raw|] == raw;
  }

  lemma CommentIff(raw: string)
    ensures IsComment(raw) <==> FirstInk(raw) < |raw| && raw[FirstInk(raw)] == '#'
  {
    hide FirstInk, AllWhite;
    var n := FirstInk(raw);
    if before, rest :| AllWhite(before) && raw == before + "#" + rest {
      assert raw == before + ("#" + rest);
      WhiteStart(before, "#" + rest);
    }
    if n < |raw| && raw[n] == '#' {
      StartIsWhite(raw);
      assert raw == raw[..n] + "#" + raw[n + 1..];
    }
  }

  lemma TextIff(raw: string, indent: nat)
    ensures IsText(raw, indent) <==> FirstInk(raw) < |raw| && raw[FirstInk(raw)] != '#' && indent == Indent(raw)
  {
    hide FirstInk, AllWhite, IsComment;
    BlankIff(raw);
    CommentIff(raw);
    IndentIff(raw, indent);
    if !AllWhite(raw) { SomeInk(raw); }
  }

  lemma SomeInk(raw: string)
    requires !AllWhite(raw)
    ensures Indent(raw) < |raw|
  {
    var c :| c in raw && c !in WHITE;
    var i :| 0 <= i < |raw| && raw[i] == c;
    assert raw[..Indent(raw)] == Blanks(Indent(raw));
  }

  lemma IndentIff(raw: string, indent: nat)
    ensures indent < |raw| && (forall i | 0 <= i < indent :: raw[i] == ' ') && raw[indent] != ' ' <==> indent == Indent(raw) < |raw|
  {
    hide Indent;
    var n := Indent(raw);
    assert forall i | 0 <= i < n :: raw[i] == raw[..n][i] == Blanks(n)[i];
  }

  lemma EntryIndent(e: RawEntry)
    requires IsKey(e.token)
    ensures Indent(EntryText(e)) == e.indent
  {
    KeyNotEmpty(e.token);
    TextParts(e);
    hide IsKey, EntryText, Blanks, Indent;
    var tail := e.token + ":" + e.value;
    if e.gap > 0 { IndentIs(e.indent, "-" + Blanks(e.gap) + tail); } else { IndentIs(e.indent, tail); }
  }

  lemma EntryIff(raw: string, unquote: string -> Option<string>, indent: nat, entry: Entry)
    ensures (exists e :: IsEntryOf(raw, unquote, indent, entry, e)) <==>
            indent == Indent(raw) && EntryOfLine(raw, unquote) == Some(entry)
  {
    hide Indent, EntryText, IsKey, KeyMeans, KeyValue, MatchEntry, OpensBlock, BlockScalar, Stripped;
    if e :| IsEntryOf(raw, unquote, indent, entry, e) {
      MatchIsExact(raw, e);
      EntryIndent(e);
      KeyMeansIff(e.token, unquote, entry.key);
      OpensBlockIff(e.value);
    }
    if indent == Indent(raw) && EntryOfLine(raw, unquote) == Some(entry) {
      var e := MatchEntry(raw).value;
      MatchIsExact(raw, e);
      EntryIndent(e);
      KeyMeansIff(e.token, unquote, entry.key);
      OpensBlockIff(e.value);
      assert IsEntryOf(raw, unquote, indent, entry, e);
    }
  }

  lemma NoEntryIff(raw: string, unquote: string -> Option<string>)
    ensures IsNoEntry(raw) <==> EntryOfLine(raw, unquote) == None
  {
    hide EntryText, IsKey, MatchEntry, KeyValue, BlockScalar, Stripped;
    if MatchEntry(raw).Some? { MatchIsExact(raw, MatchEntry(raw).value); }
    forall e | raw == EntryText(e) && IsKey(e.token) ensures MatchEntry(raw) == Some(e) { MatchIsExact(raw, e); }
  }

  /** Every line is read as exactly what it stands for. */
  lemma LexedIff(raw: string, unquote: string -> Option<string>, line: Line)
    ensures ReadsAs(raw, unquote, line) <==> line == Lexed(raw, unquote)
  {
    hide FirstInk, AllWhite, IsComment, IsText, IsNoEntry, IsEntryOf, Indent, EntryOfLine;
    BlankIff(raw);
    CommentIff(raw);
    forall indent ensures IsText(raw, indent) <==> FirstInk(raw) < |raw| && raw[FirstInk(raw)] != '#' && indent == Indent(raw) {
      TextIff(raw, indent);
    }
    NoEntryIff(raw, unquote);
    match line.content {
      case Text(indent, Some(entry)) => EntryIff(raw, unquote, indent, entry);
      case _ =>
    }
  }

  ghost predicate AllReadAs(raws: seq<string>, unquote: string -> Option<string>, lines: seq<Line>)
  {
    |lines| == |raws| && forall k | 0 <= k < |raws| :: ReadsAs(raws[k], unquote, lines[k])
  }

  /** The whole check: the pairwise rule on what the raw lines of a file stand for. */
  method ValidateText(raws: seq<string>, unquote: string -> Option<string>) returns (r: Outcome, ghost lines: seq<Line>)
    ensures AllReadAs(raws, unquote, lines) && Verdict(lines, r)
  {
    hide Verdict, Lexed, ReadsAs;
    lines := AllLexed(raws, unquote);
    forall k | 0 <= k < |raws| ensures ReadsAs(raws[k], unquote, lines[k]) { LexedIff(raws[k], unquote, lines[k]); }
    r := Validate(AllLexed(raws, unquote));
  }
}
