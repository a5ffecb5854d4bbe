/** Reading one raw line of a workflow file: the patterns at the top of `scripts/workflow_yaml.py`. */
module WorkflowLines {
  import opened Options
  import opened WorkflowYaml

  predicate IsSpace(c: char)
  {
    c == ' ' || '\U{09}' <= c <= '\U{0d}' || '\U{1c}' <= c <= '\U{1f}'
  }

  function FirstInk(raw: string): (n: nat)
    ensures n <= |raw| && (n < |raw| ==> !IsSpace(raw[n]))
  {
    if raw == [] || !IsSpace(raw[0]) then 0 else 1 + FirstInk(raw[1..])
  }

  /** How many blanks the line starts with. */
  function Indent(raw: string): (n: nat)
    ensures n <= |raw| && (n < |raw| ==> raw[n] != ' ') && raw[..n] == Blanks(n)
  {
    if raw == [] || raw[0] != ' ' then 0
    else
      assert raw[..1 + Indent(raw[1..])] == [raw[0]] + raw[1..][..Indent(raw[1..])];
      1 + Indent(raw[1..])
  }

  function Blanks(n: nat): (s: string)
    ensures |s| == n && forall i | 0 <= i < n :: s[i] == ' '
  {
    seq(n, _ => ' ')
  }

  // ---------------------------------------------------------------- keys

  predicate IsLetter(c: char)
  {
    'A' <= c <= 'Z' || 'a' <= c <= 'z' || c == '_'
  }

  predicate IsKeyChar(c: char)
  {
    IsLetter(c) || '0' <= c <= '9' || c == '.' || c == '-'
  }

  function KeyRun(s: string): (n: nat)
    ensures n <= |s| && (forall i | 0 <= i < n :: IsKeyChar(s[i])) && (n < |s| ==> !IsKeyChar(s[n]))
  {
    if s == [] || !IsKeyChar(s[0]) then 0 else 1 + KeyRun(s[1..])
  }

  /** Where a double-quoted key ends, counted from behind its opening quote; a backslash takes the next character along. */
  function DoubleClose(s: string): (n: Option<nat>)
    ensures n.Some? ==> 0 < n.value <= |s|
  {
    if s == [] then None
    else if s[0] == '"' then Some(1)
    else
      var step := if s[0] == '\\' then 2 else 1;
      if step > |s| || DoubleClose(s[step..]).None? then None else Some(step + DoubleClose(s[step..]).value)
  }

  /** Where a single-quoted key ends: two quotes in a row stand for one. */
  function SingleClose(s: string): (n: Option<nat>)
    ensures n.Some? ==> 0 < n.value <= |s|
  {
    if s == [] then None
    else if s[0] == '\'' && (|s| == 1 || s[1] != '\'') then Some(1)
    else
      var step := if s[0] == '\'' then 2 else 1;
      if SingleClose(s[step..]).None? then None else Some(step + SingleClose(s[step..]).value)
  }

  /** The length of the key at the start of the text. */
  function KeyLength(s: string): (n: Option<nat>)
    ensures n.Some? ==> 0 < n.value <= |s|
  {
    if s == [] then None
    else if IsLetter(s[0]) then Some(1 + KeyRun(s[1..]))
    else if "<<" <= s then Some(2)
    else if s[0] == '"' && DoubleClose(s[1..]).Some? then Some(1 + DoubleClose(s[1..]).value)
    else if s[0] == '\'' && SingleClose(s[1..]).Some? then Some(1 + SingleClose(s[1..]).value)
    else None
  }

  /** A text the scan takes for a key as a whole. */
  predicate ScansWhole(token: string)
  {
    KeyLength(token) == Some(|token|)
  }

  // ---------------------------------------------------------------- what a key is

  /** A letter and then letters, digits, dots and hyphens. */
  predicate PlainKey(token: string)
  {
    token != [] && IsLetter(token[0]) && forall i | 0 < i < |token| :: IsKeyChar(token[i])
  }

  /** Inside double quotes: a character, or a backslash and the character it escapes. */
  predicate DoubleUnit(unit: string)
  {
    (|unit| == 1 && unit[0] != '"' && unit[0] != '\\') || (|unit| == 2 && unit[0] == '\\')
  }

  /** Inside single quotes: a character, or two quotes that stand for one. */
  predicate SingleUnit(unit: string)
  {
    (|unit| == 1 && unit[0] != '\'') || unit == "''"
  }

  function Concat(units: seq<string>): string
  {
    if units == [] then "" else units[0] + Concat(units[1..])
  }

  ghost predicate DoubleQuoted(text: string, units: seq<string>)
  {
    (forall unit | unit in units :: DoubleUnit(unit)) && text == Concat(units) + ['"']
  }

  ghost predicate SingleQuoted(text: string, units: seq<string>)
  {
    (forall unit | unit in units :: SingleUnit(unit)) && text == Concat(units) + ['\'']
  }

  /** The four forms of a key. */
  ghost predicate IsKey(token: string)
  {
    || PlainKey(token)
    || token == "<<"
    || (token != [] && token[0] == '"' && exists units :: DoubleQuoted(token[1..], units))
    || (token != [] && token[0] == '\'' && exists units :: SingleQuoted(token[1..], units))
  }

  lemma {:induction false} RunOfKeyChars(s: string)
    ensures KeyRun(s) == |s| <==> forall i | 0 <= i < |s| :: IsKeyChar(s[i])
  {
    if s != [] {
      RunOfKeyChars(s[1..]);
      if KeyRun(s) == |s| { assert forall i | 0 < i < |s| :: s[i] == s[1..][i - 1]; }
    }
  }

  lemma {:induction false} DoubleCloseUnits(s: string) returns (units: seq<string>)
    requires DoubleClose(s) == Some(|s|)
    ensures DoubleQuoted(s, units)
    decreases |s|
  {
    if s[0] == '"' {
      units := [];
      assert s == Concat(units) + ['"'];
    } else {
      var step := if s[0] == '\\' then 2 else 1;
      var rest := DoubleCloseUnits(s[step..]);
      units := [s[..step]] + rest;
      assert units[1..] == rest;
      assert s == s[..step] + s[step..];
    }
  }

  lemma {:induction false} UnitsDoubleClose(s: string, units: seq<string>)
    requires DoubleQuoted(s, units)
    ensures DoubleClose(s) == Some(|s|)
    decreases |units|
  {
    if units != [] {
      var step := |units[0]|;
      assert DoubleUnit(units[0]);
      assert s == units[0] + (Concat(units[1..]) + ['"']);
      assert s[step..] == Concat(units[1..]) + ['"'] && s[0] == units[0][0];
      UnitsDoubleClose(s[step..], units[1..]);
    }
  }

  lemma {:induction false} SingleCloseUnits(s: string) returns (units: seq<string>)
    requires SingleClose(s) == Some(|s|)
    ensures SingleQuoted(s, units)
    decreases |s|
  {
    if s[0] == '\'' && (|s| == 1 || s[1] != '\'') {
      units := [];
      assert s == Concat(units) + ['\''];
    } else {
      var step := if s[0] == '\'' then 2 else 1;
      var rest := SingleCloseUnits(s[step..]);
      units := [s[..step]] + rest;
      assert units[1..] == rest;
      assert s == s[..step] + s[step..];
    }
  }

  lemma {:induction false} UnitsSingleClose(s: string, units: seq<string>)
    requires SingleQuoted(s, units)
    ensures SingleClose(s) == Some(|s|)
    decreases |units|
  {
    if units != [] {
      var step := |units[0]|;
      assert SingleUnit(units[0]);
      assert s == units[0] + (Concat(units[1..]) + ['\'']);
      assert s[step..] == Concat(units[1..]) + ['\''] && s[..step] == units[0];
      assert s[0] == units[0][0] && (step == 2 ==> s[1] == units[0][1]);
      UnitsSingleClose(s[step..], units[1..]);
    }
  }

  lemma DoubleForm(token: string)
    requires token != [] && token[0] == '"'
    ensures ScansWhole(token) <==> exists units :: DoubleQuoted(token[1..], units)
  {
    if ScansWhole(token) { var units := DoubleCloseUnits(token[1..]); }
    if units :| DoubleQuoted(token[1..], units) { UnitsDoubleClose(token[1..], units); }
  }

  lemma SingleForm(token: string)
    requires token != [] && token[0] == '\''
    ensures ScansWhole(token) <==> exists units :: SingleQuoted(token[1..], units)
  {
    if ScansWhole(token) { var units := SingleCloseUnits(token[1..]); }
    if units :| SingleQuoted(token[1..], units) { UnitsSingleClose(token[1..], units); }
  }

  lemma PlainForm(token: string)
    requires token != [] && IsLetter(token[0])
    ensures ScansWhole(token) <==> PlainKey(token)
  {
    RunOfKeyChars(token[1..]);
    if forall i | 0 <= i < |token[1..]| :: IsKeyChar(token[1..][i]) {
      assert forall i | 0 < i < |token| :: token[i] == token[1..][i - 1];
    }
  }

  /** The scan takes exactly the keys for keys. */
  lemma KeyIsScanned(token: string)
    ensures IsKey(token) <==> ScansWhole(token)
  {
    if token != [] {
      if IsLetter(token[0]) { PlainForm(token); }
      else if token[0] == '"' { DoubleForm(token); }
      else if token[0] == '\'' { SingleForm(token); }
    }
  }

  // ---------------------------------------------------------------- entries

  datatype RawEntry = RawEntry(indent: nat, gap: nat, token: string, value: string)

  /** The text of an entry; a gap of zero means that it is no list item. */
  function EntryText(e: RawEntry): string
  {
    Blanks(e.indent) + (if e.gap > 0 then "-" + Blanks(e.gap) else "") + e.token + ":" + e.value
  }

  function MatchKey(indent: nat, gap: nat, rest: string): Option<RawEntry>
  {
    var k := KeyLength(rest);
    if k.Some? && k.value < |rest| && rest[k.value] == ':' then Some(RawEntry(indent, gap, rest[..k.value], rest[k.value + 1..])) else None
  }

  /** The entry pattern, matched against the whole line. */
  function MatchEntry(raw: string): Option<RawEntry>
  {
    var indent := Indent(raw);
    var rest := raw[indent..];
    if rest != [] && rest[0] == '-' then
      var gap := Indent(rest[1..]);
      if gap == 0 then None else MatchKey(indent, gap, rest[1 + gap..])
    else MatchKey(indent, 0, rest)
  }

  lemma {:induction false} DoubleCloseAlone(s: string, more: string)
    ensures DoubleClose(s).Some? ==> DoubleClose(s + more) == DoubleClose(s)
    ensures DoubleClose(s + more).Some? && DoubleClose(s + more).value <= |s| ==> DoubleClose(s) == DoubleClose(s + more)
    decreases |s|
  {
    if s != [] && s[0] != '"' {
      var step := if s[0] == '\\' then 2 else 1;
      if step <= |s| {
        assert (s + more)[step..] == s[step..] + more;
        DoubleCloseAlone(s[step..], more);
      }
    }
  }

  lemma {:induction false} SingleCloseAlone(s: string, more: string)
    requires more != [] && more[0] != '\''
    ensures SingleClose(s).Some? && SingleClose(s).value == |s| ==> SingleClose(s + more) == SingleClose(s)
    ensures SingleClose(s + more).Some? && SingleClose(s + more).value == |s| ==> SingleClose(s) == SingleClose(s + more)
    decreases |s|
  {
    if s != [] {
      var step := if s[0] == '\'' then 2 else 1;
      if step <= |s| {
        assert (s + more)[step..] == s[step..] + more;
        SingleCloseAlone(s[step..], more);
      }
    }
  }

  lemma {:induction false} KeyRunAlone(s: string, more: string)
    requires more != [] && !IsKeyChar(more[0])
    ensures KeyRun(s + more) == KeyRun(s)
    decreases |s|
  {
    if s != [] && IsKeyChar(s[0]) {
      assert (s + more)[1..] == s[1..] + more;
      KeyRunAlone(s[1..], more);
    } else if s == [] {
      assert s + more == more;
    }
  }

  lemma LetterKey(token: string, more: string)
    requires more != [] && more[0] == ':' && token != [] && IsLetter(token[0])
    ensures KeyLength(token + more) == Some(|token|) <==> ScansWhole(token)
  {
    assert (token + more)[1..] == token[1..] + more;
    KeyRunAlone(token[1..], more);
    hide KeyRun;
  }

  lemma AngleKey(token: string, more: string)
    requires more != [] && more[0] == ':' && token != [] && token[0] == '<'
    ensures KeyLength(token + more) == Some(|token|) <==> ScansWhole(token)
  {
    var s := token + more;
    assert s[0] == '<' && (|token| == 1 ==> s[1] == ':') && (|token| >= 2 ==> s[1] == token[1]);
  }

  lemma DoubleKey(token: string, more: string)
    requires more != [] && more[0] == ':' && token != [] && token[0] == '"'
    ensures KeyLength(token + more) == Some(|token|) <==> ScansWhole(token)
  {
    assert (token + more)[1..] == token[1..] + more;
    DoubleCloseAlone(token[1..], more);
    hide DoubleClose;
  }

  lemma SingleKey(token: string, more: string)
    requires more != [] && more[0] == ':' && token != [] && token[0] == '\''
    ensures KeyLength(token + more) == Some(|token|) <==> ScansWhole(token)
  {
    assert (token + more)[1..] == token[1..] + more;
    SingleCloseAlone(token[1..], more);
    hide SingleClose;
  }

  lemma NoKey(s: string)
    requires s != [] && !IsLetter(s[0]) && s[0] != '<' && s[0] != '"' && s[0] != '\''
    ensures KeyLength(s).None?
  {}

  /** Before a colon the key that is found is the key that stands there. */
  lemma KeyBeforeColon(token: string, more: string)
    requires more != [] && more[0] == ':' && token != []
    ensures KeyLength(token + more) == Some(|token|) <==> ScansWhole(token)
  {
    hide KeyLength;
    if IsLetter(token[0]) { LetterKey(token, more); }
    else if token[0] == '<' { AngleKey(token, more); }
    else if token[0] == '"' { DoubleKey(token, more); }
    else if token[0] == '\'' { SingleKey(token, more); }
    else {
      NoKey(token);
      NoKey(token + more);
    }
  }

  lemma KeyLengthPositive(s: string)
    ensures KeyLength(s).Some? ==> 0 < KeyLength(s).value <= |s|
  {}

  lemma MatchKeyExact(indent: nat, gap: nat, rest: string, e: RawEntry)
    ensures MatchKey(indent, gap, rest) == Some(e) <==>
            e.indent == indent && e.gap == gap && rest == e.token + ":" + e.value && IsKey(e.token)
  {
    hide KeyLength, IsKey;
    KeyIsScanned(e.token);
    if MatchKey(indent, gap, rest) == Some(e) {
      var k := |e.token|;
      KeyLengthPositive(rest);
      assert rest == e.token + rest[k..] && rest[k..] == [':'] + e.value;
      KeyBeforeColon(e.token, rest[k..]);
    }
    if rest == e.token + ":" + e.value && IsKey(e.token) {
      KeyIsNotEmpty(e.token);
      assert rest == e.token + (":" + e.value);
      KeyBeforeColon(e.token, ":" + e.value);
      assert rest[..|e.token|] == e.token && rest[|e.token| + 1..] == e.value;
    }
  }

  lemma KeyIsNotEmpty(token: string)
    requires IsKey(token)
    ensures token != [] && token[0] != ' ' && token[0] != '-'
  {
    hide IsKey;
    KeyIsScanned(token);
  }

  lemma {:induction false} IndentIs(n: nat, rest: string)
    requires rest != [] ==> rest[0] != ' '
    ensures Indent(Blanks(n) + rest) == n
  {
    var s := Blanks(n) + rest;
    if n == 0 {
      assert s == rest;
    } else {
      IndentIs(n - 1, rest);
      assert s[1..] == Blanks(n - 1) + rest;
    }
  }

  /** The scan matches exactly the lines the pattern describes, and reads them in one way. */
  lemma MatchIsExact(raw: string, e: RawEntry)
    ensures MatchEntry(raw) == Some(e) <==> raw == EntryText(e) && IsKey(e.token)
  {
    hide MatchKey, IsKey, Indent;
    if MatchEntry(raw) == Some(e) { MatchedText(raw, e); }
    if raw == EntryText(e) && IsKey(e.token) { TextMatches(e); }
  }

  lemma Parts(a: string, b: string, c: string)
    ensures (a + b + c)[|a|..] == b + c && (a + b + c)[|a| + |b|..] == c && a + (b + c) == a + b + c
  {}

  /** The text of an entry, cut where the scan cuts it. */
  lemma TextParts(e: RawEntry)
    ensures var tail := e.token + ":" + e.value;
            EntryText(e) == Blanks(e.indent) + (if e.gap > 0 then "-" + Blanks(e.gap) + tail else tail)
  {
    hide Blanks;
    var item := if e.gap > 0 then "-" + Blanks(e.gap) else "";
    Parts(Blanks(e.indent), item, e.token + ":" + e.value);
  }

  lemma IndentFound(raw: string)
    ensures raw == Blanks(Indent(raw)) + raw[Indent(raw)..]
  {
    hide Indent, Blanks;
    assert raw == raw[..Indent(raw)] + raw[Indent(raw)..];
  }

  lemma DashFound(rest: string)
    requires rest != [] && rest[0] == '-'
    ensures var gap := Indent(rest[1..]); rest == "-" + Blanks(gap) + rest[1 + gap..]
  {
    var gap := Indent(rest[1..]);
    IndentFound(rest[1..]);
    assert rest[1..][gap..] == rest[1 + gap..];
    assert rest == "-" + rest[1..];
  }

  lemma MatchedText(raw: string, e: RawEntry)
    requires MatchEntry(raw) == Some(e)
    ensures raw == EntryText(e) && IsKey(e.token)
  {
    TextParts(e);
    hide MatchKey, IsKey, EntryText, Blanks, Indent;
    IndentFound(raw);
    var indent := Indent(raw);
    var rest := raw[indent..];
    if rest != [] && rest[0] == '-' {
      var gap := Indent(rest[1..]);
      MatchKeyExact(indent, gap, rest[1 + gap..], e);
      DashFound(rest);
    } else {
      MatchKeyExact(indent, 0, rest, e);
    }
  }

  lemma IndentCuts(n: nat, rest: string)
    requires rest != [] && rest[0] != ' '
    ensures Indent(Blanks(n) + rest) == n && (Blanks(n) + rest)[n..] == rest
  {
    IndentIs(n, rest);
  }

  lemma ItemMatches(indent: nat, gap: nat, tail: string)
    requires gap > 0 && tail != [] && tail[0] != ' '
    ensures MatchEntry(Blanks(indent) + ("-" + Blanks(gap) + tail)) == MatchKey(indent, gap, tail)
  {
    hide MatchKey, Indent, Blanks;
    var rest := "-" + Blanks(gap) + tail;
    assert rest == "-" + (Blanks(gap) + tail) && rest[1..] == Blanks(gap) + tail;
    IndentCuts(indent, rest);
    IndentCuts(gap, tail);
    assert rest[1 + gap..] == rest[1..][gap..];
  }

  lemma PlainMatches(indent: nat, tail: string)
    requires tail != [] && tail[0] != ' ' && tail[0] != '-'
    ensures MatchEntry(Blanks(indent) + tail) == MatchKey(indent, 0, tail)
  {
    hide MatchKey, Indent, Blanks;
    IndentCuts(indent, tail);
  }

  lemma TextMatches(e: RawEntry)
    requires IsKey(e.token)
    ensures MatchEntry(EntryText(e)) == Some(e)
  {
    KeyIsNotEmpty(e.token);
    TextParts(e);
    hide MatchKey, MatchEntry, IsKey, Indent, EntryText, Blanks;
    var tail := e.token + ":" + e.value;
    MatchKeyExact(e.indent, e.gap, tail, e);
    if e.gap > 0 { ItemMatches(e.indent, e.gap, tail); } else { PlainMatches(e.indent, tail); }
  }

  // ---------------------------------------------------------------- the line as the check sees it

  /** Every pair of single quotes becomes one. */
  function Unpaired(s: string): string
  {
    if |s| >= 2 && s[0] == '\'' && s[1] == '\'' then "'" + Unpaired(s[2..])
    else if s == [] then []
    else [s[0]] + Unpaired(s[1..])
  }

  /** `_key_value`; reading a double-quoted JSON string is left to `unquote`. */
  function KeyValue(token: string, unquote: string -> Option<string>): Option<string>
    requires IsKey(token)
  {
    if token[0] == '"' then unquote(token)
    else if token[0] == '\'' then Some(Unpaired(token[1..|token| - 1]))
    else Some(token)
  }

  function RightInk(s: string): (n: nat)
    ensures n <= |s|
  {
    if s != [] && IsSpace(s[|s| - 1]) then RightInk(s[..|s| - 1]) else |s|
  }

  function Stripped(s: string): string
  {
    s[FirstInk(s)..][..RightInk(s[FirstInk(s)..])]
  }

  predicate IsSign(c: char)
  {
    c == '+' || c == '-'
  }

  /** A block scalar opener: at most one sign and one digit, in either order. */
  predicate BlockScalar(s: string)
  {
    && 1 <= |s| <= 3 && (s[0] == '|' || s[0] == '>')
    && (|s| == 2 ==> IsSign(s[1]) || '1' <= s[1] <= '9')
    && (|s| == 3 ==> (IsSign(s[1]) && '1' <= s[2] <= '9') || ('1' <= s[1] <= '9' && IsSign(s[2])))
  }

  /** One raw line. */
  function Lexed(raw: string, unquote: string -> Option<string>): Line
  {
    var ink := FirstInk(raw);
    Line('\t' in raw,
         if ink == |raw| then Blank
         else if raw[ink] == '#' then Comment
         else Text(Indent(raw), EntryOfLine(raw, unquote)))
  }

  function EntryOfLine(raw: string, unquote: string -> Option<string>): Option<Entry>
  {
    var e := MatchEntry(raw);
    if e.None? then None
    else
      MatchIsExact(raw, e.value);
      Some(Entry(e.value.gap > 0, KeyValue(e.value.token, unquote), BlockScalar(Stripped(e.value.value))))
  }

  function AllLexed(raws: seq<string>, unquote: string -> Option<string>): (lines: seq<Line>)
    ensures |lines| == |raws| && forall k | 0 <= k < |raws| :: lines[k] == Lexed(raws[k], unquote)
  {
    seq(|raws|, k requires 0 <= k < |raws| => Lexed(raws[k], unquote))
  }
}
