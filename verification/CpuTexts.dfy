/** What a field of a CPU list may look like, letter by letter, as Python reads integers. */
module CpuTexts {
  import opened Options
  import opened Decimals
  import opened CpuList

  // ---------------------------------------------------------------- white space

  predicate White(c: char)
  {
    c as int in {9, 10, 11, 12, 13, 28, 29, 30, 31, 32}
  }

  predicate AllWhite(s: string)
  {
    forall i | 0 <= i < |s| :: White(s[i])
  }

  lemma SpaceIsWhite(c: char)
    ensures IsSpace(c) <==> White(c)
  {}

  predicate Trimmed(s: string)
  {
    s != [] && !White(s[0]) && !White(s[|s| - 1])
  }

  lemma {:induction false} LeftStrippedIs(a: string, rest: string)
    requires AllWhite(a) && rest != [] && !White(rest[0])
    ensures LeftStripped(a + rest) == rest
    decreases |a|
  {
    if a == [] {
      assert a + rest == rest;
      SpaceIsWhite(rest[0]);
    } else {
      SpaceIsWhite(a[0]);
      assert (a + rest)[1..] == a[1..] + rest;
      LeftStrippedIs(a[1..], rest);
    }
  }

  lemma {:induction false} RightStrippedIs(rest: string, b: string)
    requires AllWhite(b) && rest != [] && !White(rest[|rest| - 1])
    ensures RightStripped(rest + b) == rest
    decreases |b|
  {
    if b == [] {
      assert rest + b == rest;
      SpaceIsWhite(rest[|rest| - 1]);
    } else {
      SpaceIsWhite(b[|b| - 1]);
      assert (rest + b)[..|rest + b| - 1] == rest + b[..|b| - 1];
      RightStrippedIs(rest, b[..|b| - 1]);
    }
  }

  lemma StrippedIs(a: string, core: string, b: string)
    requires AllWhite(a) && AllWhite(b) && Trimmed(core)
    ensures Stripped(a + core + b) == core
  {
    hide LeftStripped, RightStripped, White;
    assert a + core + b == a + (core + b);
    LeftStrippedIs(a, core + b);
    RightStrippedIs(core, b);
  }

  lemma {:induction false} LeftPart(s: string) returns (a: string)
    ensures AllWhite(a) && s == a + LeftStripped(s)
  {
    a := [];
    if s != [] && IsSpace(s[0]) {
      SpaceIsWhite(s[0]);
      var front := LeftPart(s[1..]);
      a := [s[0]] + front;
    }
  }

  lemma {:induction false} RightPart(s: string) returns (b: string)
    ensures AllWhite(b) && s == RightStripped(s) + b
    decreases |s|
  {
    b := [];
    if s != [] && IsSpace(s[|s| - 1]) {
      SpaceIsWhite(s[|s| - 1]);
      var most := RightPart(s[..|s| - 1]);
      b := most + [s[|s| - 1]];
    }
  }

  lemma StrippedInside(s: string) returns (a: string, b: string)
    ensures AllWhite(a) && AllWhite(b) && s == a + Stripped(s) + b
  {
    hide LeftStripped, RightStripped, AllWhite;
    a := LeftPart(s);
    b := RightPart(LeftStripped(s));
  }

  // ---------------------------------------------------------------- integers

  predicate Groups(groups: seq<string>)
  {
    groups != [] && forall g | g in groups :: g != [] && forall i | 0 <= i < |g| :: 48 <= g[i] as int <= 57
  }

  function Underscored(groups: seq<string>): string
  {
    if groups == [] then [] else if |groups| == 1 then groups[0] else groups[0] + ['_'] + Underscored(groups[1..])
  }

  function Concatenated(groups: seq<string>): string
  {
    if groups == [] then [] else groups[0] + Concatenated(groups[1..])
  }

  lemma {:induction false} DigitsFirst(g: string, rest: string)
    requires AllDigits(g) && forall i | 0 <= i < |rest| :: IsDigit(rest[i]) || rest[i] == '_'
    ensures WithoutUnderscores(g + rest) == g + WithoutUnderscores(rest)
  {
    if g == [] {
      assert g + rest == rest;
    } else {
      assert (g + rest)[1..] == g[1..] + rest && g == [g[0]] + g[1..];
      DigitsFirst(g[1..], rest);
    }
  }

  lemma FirstGroup(g: string, rest: string)
    requires g != [] && AllDigits(g) && DigitGroups(rest)
    ensures DigitGroups(g + ['_'] + rest) && WithoutUnderscores(g + ['_'] + rest) == g + WithoutUnderscores(rest)
  {
    assert g + ['_'] + rest == g + (['_'] + rest);
    DigitsFirst(g, ['_'] + rest);
    assert (['_'] + rest)[1..] == rest;
  }

  lemma {:induction false} UnderscoredReads(groups: seq<string>)
    requires Groups(groups)
    ensures DigitGroups(Underscored(groups)) && WithoutUnderscores(Underscored(groups)) == Concatenated(groups)
  {
    var first := groups[0];
    assert first in groups && AllDigits(first);
    if |groups| == 1 {
      DigitsFirst(first, []);
      assert first + [] == first;
      assert groups[1..] == [];
    } else {
      assert forall g | g in groups[1..] :: g in groups;
      UnderscoredReads(groups[1..]);
      FirstGroup(first, Underscored(groups[1..]));
    }
  }

  function FirstUnderscore(s: string): (n: nat)
    ensures n <= |s| && (n < |s| ==> s[n] == '_') && forall i | 0 <= i < n :: s[i] != '_'
  {
    if s == [] || s[0] == '_' then 0 else 1 + FirstUnderscore(s[1..])
  }

  lemma {:induction false} GroupsOf(s: string) returns (groups: seq<string>)
    requires DigitGroups(s)
    ensures Groups(groups) && s == Underscored(groups)
    decreases |s|
  {
    var n := FirstUnderscore(s);
    if n == |s| {
      groups := [s];
    } else {
      var rest := GroupsOf(s[n + 1..]);
      groups := [s[..n]] + rest;
      assert groups[1..] == rest;
      assert s == s[..n] + ['_'] + s[n + 1..];
    }
  }

  // ---------------------------------------------------------------- with sign and white space

  ghost predicate Sign(sign: string)
  {
    sign == [] || sign == ['+'] || sign == ['-']
  }

  ghost predicate Spells(text: string, a: string, sign: string, groups: seq<string>, b: string)
  {
    AllWhite(a) && AllWhite(b) && Sign(sign) && Groups(groups) && text == a + (sign + Underscored(groups)) + b
  }

  lemma GroupsAreDigits(groups: seq<string>)
    requires Groups(groups)
    ensures AllDigits(Concatenated(groups))
  {
    UnderscoredReads(groups);
  }

  /** The number that digits in groups behind a sign stand for. */
  function Meaning(sign: string, groups: seq<string>): int
    requires Groups(groups)
  {
    GroupsAreDigits(groups);
    var magnitude: int := Value(Concatenated(groups));
    if sign == ['-'] then -magnitude else magnitude
  }

  lemma UnsignedReads(text: string, digits: string)
    requires Stripped(text) == digits && DigitGroups(digits)
    ensures ParseInt(text) == Some(Magnitude(digits))
  {
    assert digits[0] != '-' && digits[0] != '+';
    hide Stripped, Magnitude, DigitGroups;
  }

  lemma SignedReads(text: string, sign: char, digits: string)
    requires Stripped(text) == [sign] + digits && (sign == '+' || sign == '-') && DigitGroups(digits)
    ensures var magnitude: int := Magnitude(digits); ParseInt(text) == Some(if sign == '-' then -magnitude else magnitude)
  {
    hide Stripped, Magnitude, DigitGroups;
    assert ([sign] + digits)[1..] == digits;
  }

  lemma MagnitudeIs(groups: seq<string>)
    requires Groups(groups)
    ensures DigitGroups(Underscored(groups)) && AllDigits(Concatenated(groups))
    ensures Magnitude(Underscored(groups)) == Value(Concatenated(groups))
  {
    UnderscoredReads(groups);
  }

  lemma MeaningIs(sign: string, groups: seq<string>)
    requires Groups(groups) && DigitGroups(Underscored(groups))
    ensures var magnitude: int := Magnitude(Underscored(groups));
            Meaning(sign, groups) == if sign == ['-'] then -magnitude else magnitude
  {
    MagnitudeIs(groups);
  }

  lemma SignIs(sign: string)
    requires Sign(sign)
    ensures sign == [] || sign == ['+'] || sign == ['-']
  {}

  lemma CoreReads(text: string, sign: string, groups: seq<string>)
    requires Sign(sign) && Groups(groups) && Stripped(text) == sign + Underscored(groups)
    ensures ParseInt(text) == Some(Meaning(sign, groups))
  {
    hide *;
    var digits := Underscored(groups);
    MagnitudeIs(groups);
    SignIs(sign);
    MeaningIs(sign, groups);
    if sign == [] {
      assert sign + digits == digits;
      UnsignedReads(text, digits);
    } else if sign == ['-'] {
      SignedReads(text, '-', digits);
    } else {
      SignedReads(text, '+', digits);
    }
  }

  lemma CoreIsTrimmed(sign: string, groups: seq<string>)
    requires Sign(sign) && Groups(groups)
    ensures Trimmed(sign + Underscored(groups))
  {
    UnderscoredReads(groups);
    hide Underscored, Groups;
  }

  lemma CoreOf(text: string) returns (sign: string, groups: seq<string>)
    requires ParseInt(text).Some?
    ensures Sign(sign) && Groups(groups) && Stripped(text) == sign + Underscored(groups)
  {
    var s := Stripped(text);
    hide Stripped, DigitGroups, Underscored, Groups;
    var signed := s != [] && (s[0] == '-' || s[0] == '+');
    sign := if signed then s[..1] else [];
    groups := GroupsOf(if signed then s[1..] else s);
  }

  /** An integer is white space, perhaps a sign, groups of digits with single underscores between them, and white space. */
  lemma IntegerIff(text: string, n: int)
    ensures ParseInt(text) == Some(n) <==> exists a, sign, groups, b :: Spells(text, a, sign, groups, b) && n == Meaning(sign, groups)
  {
    hide ParseInt, Stripped, Underscored, Groups, Meaning, Sign, AllWhite;
    if ParseInt(text) == Some(n) {
      var a, b := StrippedInside(text);
      var sign, groups := CoreOf(text);
      CoreReads(text, sign, groups);
      assert Spells(text, a, sign, groups, b);
    }
    if a, sign, groups, b :| Spells(text, a, sign, groups, b) && n == Meaning(sign, groups) {
      CoreIsTrimmed(sign, groups);
      StrippedIs(a, sign + Underscored(groups), b);
      CoreReads(text, sign, groups);
    }
  }
}
