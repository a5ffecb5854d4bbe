/** The release version profile: `SemVer` in `release/model.py`, with the Debian and RPM orders it must embed in. */
module Versions {
  import opened Options
  import opened Decimals

  datatype SemVer = SemVer(major: nat, minor: nat, patch: nat, rc: Option<nat>)

  /** What the constructor demands. */
  predicate Valid(v: SemVer)
  {
    v.rc.Some? ==> v.rc.value >= 1
  }

  function Core(v: SemVer): string
  {
    Decimal(v.major) + "." + Decimal(v.minor) + "." + Decimal(v.patch)
  }

  function Print(v: SemVer): string
  {
    Core(v) + if v.rc.Some? then "-rc." + Decimal(v.rc.value) else ""
  }

  function DebianVersion(v: SemVer): string
  {
    Core(v) + (if v.rc.Some? then "~rc." + Decimal(v.rc.value) else "") + "-1"
  }

  datatype RpmVersion = RpmVersion(version: string, release: string)

  function RpmVersionRelease(v: SemVer): RpmVersion
  {
    RpmVersion(Core(v), if v.rc.Some? then "0." + Decimal(v.rc.value) + ".rc." + Decimal(v.rc.value) else "1")
  }

  function AbiVersion(v: SemVer): string
  {
    if v.major == 0 then Core(v) else Decimal(v.major)
  }

  // ---------------------------------------------------------------- parsing

  /** The length of the longest run of digits at the start. */
  function DigitRun(s: string): (n: nat)
    ensures n <= |s| && AllDigits(s[..n]) && (n < |s| ==> !IsDigit(s[n]))
  {
    if s != [] && IsDigit(s[0]) then 1 + DigitRun(s[1..]) else 0
  }

  lemma {:induction false} DigitRunIs(s: string, n: nat)
    requires n <= |s| && AllDigits(s[..n]) && (n < |s| ==> !IsDigit(s[n]))
    ensures DigitRun(s) == n
    decreases n
  {
    if n > 0 {
      assert s[0] == s[..n][0];
      assert s[1..][..n - 1] == s[..n][1..];
      DigitRunIs(s[1..], n - 1);
    }
  }

  /** A numeral without leading zeros and what follows it. */
  function Number(s: string): Option<(nat, string)>
  {
    var n := DigitRun(s);
    if Canonical(s[..n]) then Some((Value(s[..n]), s[n..])) else None
  }

  lemma NumberOfDecimal(x: nat, rest: string)
    requires rest != [] ==> !IsDigit(rest[0])
    ensures Number(Decimal(x) + rest) == Some((x, rest))
  {
    var s := Decimal(x) + rest;
    assert s[..|Decimal(x)|] == Decimal(x) && s[|Decimal(x)|..] == rest;
    DigitRunIs(s, |Decimal(x)|);
    ValueOfDecimal(x);
  }

  lemma NumberTaken(s: string)
    requires Number(s).Some?
    ensures s == Decimal(Number(s).value.0) + Number(s).value.1
  {
    var n := DigitRun(s);
    DecimalOfValue(s[..n]);
    assert s == s[..n] + s[n..];
  }

  /** A dot and a numeral. */
  function DotNumber(s: string): Option<(nat, string)>
  {
    if s != [] && s[0] == '.' then Number(s[1..]) else None
  }

  /** The end of the text: nothing, or `-rc.` and a positive numeral. */
  function Suffix(s: string): Option<Option<nat>>
  {
    if s == [] then Some(None)
    else if "-rc." <= s && Number(s[4..]).Some? && Number(s[4..]).value.1 == [] && Number(s[4..]).value.0 > 0 then
      Some(Some(Number(s[4..]).value.0))
    else None
  }

  function Parse(text: string): Option<SemVer>
  {
    if |text| > 64 || Number(text).None? then None
    else
      var (major, rest1) := Number(text).value;
      if DotNumber(rest1).None? then None
      else
        var (minor, rest2) := DotNumber(rest1).value;
        if DotNumber(rest2).None? then None
        else
          var (patch, rest3) := DotNumber(rest2).value;
          if Suffix(rest3).None? then None else Some(SemVer(major, minor, patch, Suffix(rest3).value))
  }

  function SuffixText(rc: Option<nat>): string
  {
    if rc.Some? then "-rc." + Decimal(rc.value) else ""
  }

  lemma SuffixExact(s: string, rc: Option<nat>)
    ensures Suffix(s) == Some(rc) <==> s == SuffixText(rc) && (rc.Some? ==> rc.value >= 1)
  {
    if Suffix(s) == Some(rc) && rc.Some? {
      NumberTaken(s[4..]);
      assert s == "-rc." + s[4..];
    }
    if s == SuffixText(rc) && rc.Some? {
      assert s[4..] == Decimal(rc.value) + [];
      NumberOfDecimal(rc.value, []);
    }
  }

  lemma DotNumberExact(s: string, x: nat, rest: string)
    requires rest != [] ==> !IsDigit(rest[0])
    ensures DotNumber(s) == Some((x, rest)) <==> s == "." + Decimal(x) + rest
  {
    if DotNumber(s) == Some((x, rest)) {
      NumberTaken(s[1..]);
      assert s == "." + s[1..];
    }
    if s == "." + Decimal(x) + rest {
      assert s[1..] == Decimal(x) + rest;
      NumberOfDecimal(x, rest);
    }
  }

  lemma NumberExact(s: string, x: nat, rest: string)
    requires rest != [] ==> !IsDigit(rest[0])
    ensures Number(s) == Some((x, rest)) <==> s == Decimal(x) + rest
  {
    if Number(s) == Some((x, rest)) { NumberTaken(s); }
    if s == Decimal(x) + rest { NumberOfDecimal(x, rest); }
  }

  /** Text and version determine each other: what parses is exactly what prints, up to 64 characters. */
  lemma ParseIffPrinted(text: string, v: SemVer)
    ensures Parse(text) == Some(v) <==> text == Print(v) && Valid(v) && |text| <= 64
  {
    if Parse(text) == Some(v) { ParsedIsPrinted(text, v); }
    if text == Print(v) && Valid(v) && |text| <= 64 { PrintedParses(v); }
  }

  lemma ParsedIsPrinted(text: string, v: SemVer)
    requires Parse(text) == Some(v)
    ensures text == Print(v) && Valid(v) && |text| <= 64
  {
    hide Number, Suffix, DotNumber, Decimal;
    var (major, rest1) := Number(text).value;
    var (minor, rest2) := DotNumber(rest1).value;
    var (patch, rest3) := DotNumber(rest2).value;
    SuffixExact(rest3, v.rc);
    assert rest3 != [] ==> rest3[0] == '-';
    DotNumberExact(rest2, patch, rest3);
    DotNumberExact(rest1, minor, rest2);
    NumberExact(text, major, rest1);
    assert text == Print(v);
  }

  lemma PrintedParses(v: SemVer)
    requires Valid(v) && |Print(v)| <= 64
    ensures Parse(Print(v)) == Some(v)
  {
    hide Number, Suffix, DotNumber;
    var rest3 := SuffixText(v.rc);
    var rest2 := "." + Decimal(v.patch) + rest3;
    var rest1 := "." + Decimal(v.minor) + rest2;
    assert Print(v) == Decimal(v.major) + rest1;
    SuffixExact(rest3, v.rc);
    DotNumberExact(rest2, v.patch, rest3);
    DotNumberExact(rest1, v.minor, rest2);
    NumberExact(Print(v), v.major, rest1);
  }

  // ---------------------------------------------------------------- derived texts

  function Dots(v: SemVer): string
  {
    Decimal(v.major) + ['.'] + Decimal(v.minor) + ['.'] + Decimal(v.patch)
  }

  /** The package versions, letter by letter. */
  lemma PackageTexts(v: SemVer)
    ensures Print(v) == Dots(v) + (match v.rc case None => [] case Some(n) => ['-', 'r', 'c', '.'] + Decimal(n))
    ensures DebianVersion(v) == Dots(v) + (match v.rc case None => [] case Some(n) => ['~', 'r', 'c', '.'] + Decimal(n)) + ['-', '1']
    ensures RpmVersionRelease(v).version == Dots(v)
    ensures RpmVersionRelease(v).release ==
            match v.rc case None => ['1'] case Some(n) => ['0', '.'] + Decimal(n) + ['.', 'r', 'c', '.'] + Decimal(n)
  {
    hide Decimal;
  }

  /** Two versions have one ABI version exactly if they share the major one, and below 1.0.0 the whole core. */
  lemma SameAbiIff(v: SemVer, w: SemVer)
    ensures AbiVersion(v) == AbiVersion(w) <==>
            v.major == w.major && (v.major == 0 ==> v.minor == w.minor && v.patch == w.patch)
  {
    hide Number, Decimal;
    AbiReads(v);
    AbiReads(w);
  }

  /** What can be read back from an ABI version. */
  lemma AbiReads(v: SemVer)
    ensures Number(AbiVersion(v)).Some? && Number(AbiVersion(v)).value.0 == v.major
    ensures var rest := Number(AbiVersion(v)).value.1;
            if v.major != 0 then rest == []
            else DotNumber(rest).Some? && DotNumber(rest).value.0 == v.minor
                 && DotNumber(DotNumber(rest).value.1) == Some((v.patch, []))
  {
    hide Number, DotNumber, Decimal;
    var patch := "." + Decimal(v.patch) + [];
    var rest := "." + Decimal(v.minor) + patch;
    DotNumberExact(patch, v.patch, []);
    DotNumberExact(rest, v.minor, patch);
    if v.major == 0 {
      assert AbiVersion(v) == Decimal(v.major) + rest;
      NumberExact(AbiVersion(v), v.major, rest);
    } else {
      assert AbiVersion(v) == Decimal(v.major) + [];
      NumberExact(AbiVersion(v), v.major, []);
    }
  }

  // ---------------------------------------------------------------- precedence

  function Sign(a: int, b: int): (s: int)
    ensures -1 <= s <= 1
  {
    if a < b then -1 else if a > b then 1 else 0
  }

  // Section 11.4 of Semantic Versioning 2.0.0, for any list of pre-release identifiers.

  predicate Numeric(id: string)
  {
    id != [] && AllDigits(id)
  }

  /** ASCII sort order. */
  function CompareText(a: string, b: string): (s: int)
    ensures -1 <= s <= 1
  {
    if a == [] || b == [] then Sign(|a|, |b|)
    else if a[0] != b[0] then Sign(a[0] as int, b[0] as int)
    else CompareText(a[1..], b[1..])
  }

  /** Numeric identifiers compare as numbers and precede all others, which compare as texts. */
  function CompareIdentifier(a: string, b: string): (s: int)
    ensures -1 <= s <= 1
  {
    if Numeric(a) && Numeric(b) then Sign(Value(a), Value(b))
    else if Numeric(a) then -1
    else if Numeric(b) then 1
    else CompareText(a, b)
  }

  /** The first difference decides; of two lists that agree as far as they go the longer one is higher. */
  function CompareIdentifiers(a: seq<string>, b: seq<string>): (s: int)
    ensures -1 <= s <= 1
  {
    if a == [] || b == [] then Sign(|a|, |b|)
    else
      var first := CompareIdentifier(a[0], b[0]);
      if first != 0 then first else CompareIdentifiers(a[1..], b[1..])
  }

  /** A version without pre-release identifiers is higher than one with them. */
  function ComparePreRelease(a: seq<string>, b: seq<string>): int
  {
    if a == [] && b != [] then 1
    else if a != [] && b == [] then -1
    else CompareIdentifiers(a, b)
  }

  /** The dot-separated identifiers behind the hyphen. */
  function PreRelease(v: SemVer): seq<string>
  {
    if v.rc.Some? then ["rc", Decimal(v.rc.value)] else []
  }

  function Dotted(ids: seq<string>): string
    requires ids != []
  {
    if |ids| == 1 then ids[0] else ids[0] + "." + Dotted(ids[1..])
  }

  /** These are the identifiers of the printed version. */
  lemma PrintedPreRelease(v: SemVer)
    ensures Print(v) == Core(v) + (if PreRelease(v) == [] then "" else "-" + Dotted(PreRelease(v)))
  {
    if v.rc.Some? {
      var ids := PreRelease(v);
      assert ids[1..] == [Decimal(v.rc.value)];
      assert "-" + Dotted(ids) == "-rc." + Decimal(v.rc.value);
    }
  }

  /** Precedence under section 11 of Semantic Versioning 2.0.0. */
  function Precedence(v: SemVer, w: SemVer): int
  {
    if v.major != w.major then Sign(v.major, w.major)
    else if v.minor != w.minor then Sign(v.minor, w.minor)
    else if v.patch != w.patch then Sign(v.patch, w.patch)
    else ComparePreRelease(PreRelease(v), PreRelease(w))
  }

  /** On this profile: the core decides, then a release over its candidates, then the candidate's number. */
  lemma PrecedenceOfProfile(v: SemVer, w: SemVer)
    ensures Precedence(v, w) ==
            (if v.major != w.major then Sign(v.major, w.major)
             else if v.minor != w.minor then Sign(v.minor, w.minor)
             else if v.patch != w.patch then Sign(v.patch, w.patch)
             else if v.rc.Some? && w.rc.Some? then Sign(v.rc.value, w.rc.value)
             else if v.rc.Some? then -1
             else if w.rc.Some? then 1
             else 0)
    ensures Precedence(v, w) == 0 <==> v == w
  {
    if v.rc.Some? && w.rc.Some? { CandidateNumbers(v.rc.value, w.rc.value); }
  }

  /** Two texts compare at their first difference; a text comes before what it begins. */
  lemma {:induction false} CompareTextIs(common: string, a: string, b: string)
    requires a != [] && b != [] ==> a[0] != b[0]
    ensures CompareText(common + a, common + b) ==
            if a == [] && b == [] then 0 else if a == [] then -1 else if b == [] then 1
            else if a[0] as int < b[0] as int then -1 else 1
  {
    if common == [] {
      assert common + a == a && common + b == b;
    } else {
      assert (common + a)[1..] == common[1..] + a && (common + b)[1..] == common[1..] + b;
      CompareTextIs(common[1..], a, b);
    }
  }

  /** Numbers compare by value and come before texts. */
  lemma NumbersBeforeTexts(x: nat, y: nat, text: string)
    requires text != [] && exists c | c in text :: !IsDigit(c)
    ensures CompareIdentifier(Decimal(x), Decimal(y)) == if x < y then -1 else if x > y then 1 else 0
    ensures CompareIdentifier(Decimal(x), text) == -1 && CompareIdentifier(text, Decimal(x)) == 1
    ensures CompareIdentifier(text, text) == CompareText(text, text)
  {
    ValueOfDecimal(x);
    ValueOfDecimal(y);
    var c :| c in text && !IsDigit(c);
    var i :| 0 <= i < |text| && text[i] == c;
  }

  lemma CandidateNumbers(m: nat, n: nat)
    ensures CompareIdentifiers(["rc", Decimal(m)], ["rc", Decimal(n)]) == Sign(m, n)
  {
    var a, b := ["rc", Decimal(m)], ["rc", Decimal(n)];
    ValueOfDecimal(m);
    ValueOfDecimal(n);
    assert CompareText("rc", "rc") == 0 by { assert "rc"[1..] == "c"; assert "c"[1..] == ""; }
    assert !AllDigits("rc") by { assert "rc"[0] == 'r'; }
    assert a[1..] == [Decimal(m)] && b[1..] == [Decimal(n)];
    assert a[1..][1..] == [] && b[1..][1..] == [];
    assert CompareIdentifiers(a[1..], b[1..]) == CompareIdentifier(Decimal(m), Decimal(n));
  }
}

/** Version comparison of Debian Policy, section 5.6.12, for versions without an epoch. */
module DebianOrder {
  import opened Options
  import opened Decimals
  import opened Versions

  function CharOrder(c: char): int
  {
    if c == '~' then -1
    else if 'a' <= c <= 'z' || 'A' <= c <= 'Z' then c as int
    else c as int + 256
  }

  function OrderAt(s: string): int
  {
    if s == [] then 0 else CharOrder(s[0])
  }

  predicate Letter(c: char)
  {
    65 <= c as int <= 90 || 97 <= c as int <= 122
  }

  /** A tilde comes first, even before the end, then letters, then everything else; each by code point. */
  lemma CharOrderIs(c: char, d: char)
    ensures CharOrder(c) < 0 <==> c as int == 126
    ensures CharOrder(c) != OrderAt("")
    ensures CharOrder(c) < CharOrder(d) <==>
            (c as int == 126 && d as int != 126) || (Letter(c) && !Letter(d) && d as int != 126)
            || (Letter(c) && Letter(d) && c < d) || (!Letter(c) && !Letter(d) && c as int != 126 && d as int != 126 && c < d)
  {}

  /** Two non-digit parts: letters before non-letters, a tilde before everything, even the end. */
  function CompareLexical(a: string, b: string): int
  {
    if a == [] && b == [] then 0
    else if OrderAt(a) != OrderAt(b) then Sign(OrderAt(a), OrderAt(b))
    else if a == [] || b == [] then 0
    else CompareLexical(a[1..], b[1..])
  }

  function NonDigitRun(s: string): (n: nat)
    ensures n <= |s| && (n < |s| ==> IsDigit(s[n]))
    ensures forall i | 0 <= i < n :: !IsDigit(s[i])
  {
    if s != [] && !IsDigit(s[0]) then 1 + NonDigitRun(s[1..]) else 0
  }

  function LeadingText(s: string): string { s[..NonDigitRun(s)] }

  /** The number behind the leading text; zero if there is none. */
  function LeadingNumber(s: string): nat
  {
    var digits := s[NonDigitRun(s)..];
    Value(digits[..DigitRun(digits)])
  }

  function Rest(s: string): (rest: string)
    ensures |rest| <= |s| && (s != [] ==> |rest| < |s|)
  {
    var digits := s[NonDigitRun(s)..];
    digits[DigitRun(digits)..]
  }

  /** Upstream versions and revisions are compared alike: non-digit part, number, and so on. */
  function ComparePart(a: string, b: string): int
    decreases |a| + |b|
  {
    if a == [] && b == [] then 0
    else
      var lexical := CompareLexical(LeadingText(a), LeadingText(b));
      if lexical != 0 then lexical
      else if LeadingNumber(a) != LeadingNumber(b) then Sign(LeadingNumber(a), LeadingNumber(b))
      else ComparePart(Rest(a), Rest(b))
  }

  /** The last hyphen separates the revision; without one there is none. */
  function UpstreamLength(s: string): (n: nat)
    ensures n <= |s|
  {
    if s == [] then 0 else if s[|s| - 1] == '-' then |s| - 1
    else if UpstreamLength(s[..|s| - 1]) == |s| - 1 then |s| else UpstreamLength(s[..|s| - 1])
  }

  /** The revision stands behind the last hyphen. */
  lemma {:induction false} UpstreamLengthIs(s: string)
    ensures UpstreamLength(s) < |s| ==> s[UpstreamLength(s)] == '-' && forall i | UpstreamLength(s) < i < |s| :: s[i] != '-'
    ensures UpstreamLength(s) == |s| ==> '-' !in s
  {
    if s != [] && s[|s| - 1] != '-' {
      UpstreamLengthIs(s[..|s| - 1]);
      assert s == s[..|s| - 1] + [s[|s| - 1]];
    }
  }

  function Compare(a: string, b: string): int
  {
    var m, n := UpstreamLength(a), UpstreamLength(b);
    var upstream := ComparePart(a[..m], b[..n]);
    if upstream != 0 then upstream else ComparePart(if m < |a| then a[m + 1..] else "", if n < |b| then b[n + 1..] else "")
  }

  lemma {:induction false} SameLexical(a: string)
    ensures CompareLexical(a, a) == 0
  {
    if a != [] { SameLexical(a[1..]); }
  }

  /** A shared non-digit part and a number on each side: the numbers decide, or what follows. */
  lemma NumberDecides(pre: string, x: nat, r: string, y: nat, s: string)
    requires forall i | 0 <= i < |pre| :: !IsDigit(pre[i])
    requires (r != [] ==> !IsDigit(r[0])) && (s != [] ==> !IsDigit(s[0]))
    ensures ComparePart(pre + Decimal(x) + r, pre + Decimal(y) + s) == if x != y then Sign(x, y) else ComparePart(r, s)
  {
    hide Decimal, CompareLexical, LeadingText, LeadingNumber, Rest;
    Splits(pre, x, r);
    Splits(pre, y, s);
    SameLexical(pre);
  }

  lemma Splits(pre: string, x: nat, r: string)
    requires forall i | 0 <= i < |pre| :: !IsDigit(pre[i])
    requires r != [] ==> !IsDigit(r[0])
    ensures var a := pre + Decimal(x) + r;
            LeadingText(a) == pre && LeadingNumber(a) == x && Rest(a) == r
  {
    hide Decimal, Value, DigitRun, NonDigitRun;
    var a := pre + Decimal(x) + r;
    assert forall i | 0 <= i < |pre| :: a[i] == pre[i];
    assert a[|pre|] == Decimal(x)[0];
    assert a[|pre|..] == Decimal(x) + r;
    TextRun(a, |pre|);
    assert (Decimal(x) + r)[..|Decimal(x)|] == Decimal(x);
    DigitRunIs(a[|pre|..], |Decimal(x)|);
    ValueOfDecimal(x);
  }

  lemma {:induction false} TextRun(s: string, n: nat)
    requires n < |s| && IsDigit(s[n]) && forall i | 0 <= i < n :: !IsDigit(s[i])
    ensures NonDigitRun(s) == n
    decreases n
  {
    if n > 0 { TextRun(s[1..], n - 1); }
  }

  function Tail(rc: Option<nat>): string
  {
    if rc.Some? then "~rc." + Decimal(rc.value) else ""
  }

  function TailOrder(p: Option<nat>, q: Option<nat>): int
  {
    if p.Some? && q.Some? then Sign(p.value, q.value) else if p.Some? then -1 else if q.Some? then 1 else 0
  }

  lemma CompareTails(p: Option<nat>, q: Option<nat>)
    ensures ComparePart(Tail(p), Tail(q)) == TailOrder(p, q)
  {
    if p.Some? && q.Some? {
      assert Tail(p) == "~rc." + Decimal(p.value) + [] && Tail(q) == "~rc." + Decimal(q.value) + [];
      NumberDecides("~rc.", p.value, [], q.value, []);
    } else if p.Some? {
      TildeFirst(p.value);
    } else if q.Some? {
      TildeFirst(q.value);
    }
  }

  /** A tilde sorts before the end of the version. */
  lemma TildeFirst(x: nat)
    ensures ComparePart("~rc." + Decimal(x), "") == -1 && ComparePart("", "~rc." + Decimal(x)) == 1
  {
    var a := "~rc." + Decimal(x);
    assert a == "~rc." + Decimal(x) + [];
    Splits("~rc.", x, []);
    assert LeadingText("") == "";
    assert LeadingText(a)[0] == '~';
    assert CompareLexical(LeadingText(a), "") == -1 && CompareLexical("", LeadingText(a)) == 1;
  }

  lemma UpstreamOf(upstream: string)
    ensures UpstreamLength(upstream + "-1") == |upstream|
  {
    var s := upstream + "-1";
    assert s[..|s| - 1] == upstream + "-";
  }

  function Upstream(v: SemVer): string
  {
    Core(v) + Tail(v.rc)
  }

  lemma CompareUpstream(v: SemVer, w: SemVer)
    ensures ComparePart(Upstream(v), Upstream(w)) == Precedence(v, w)
  {
    hide ComparePart, Decimal, Precedence;
    PrecedenceOfProfile(v, w);
    var v3, w3 := Tail(v.rc), Tail(w.rc);
    var v2, w2 := "." + Decimal(v.patch) + v3, "." + Decimal(w.patch) + w3;
    var v1, w1 := "." + Decimal(v.minor) + v2, "." + Decimal(w.minor) + w2;
    assert Upstream(v) == [] + Decimal(v.major) + v1 && Upstream(w) == [] + Decimal(w.major) + w1;
    NumberDecides([], v.major, v1, w.major, w1);
    NumberDecides(".", v.minor, v2, w.minor, w2);
    NumberDecides(".", v.patch, v3, w.patch, w3);
    CompareTails(v.rc, w.rc);
  }

  /** Debian packages sort as their versions do. */
  lemma OrderEmbeds(v: SemVer, w: SemVer)
    ensures Compare(DebianVersion(v), DebianVersion(w)) == Precedence(v, w)
  {
    hide ComparePart, UpstreamLength;
    var a, b := DebianVersion(v), DebianVersion(w);
    assert a == Upstream(v) + "-1" && b == Upstream(w) + "-1";
    UpstreamOf(Upstream(v));
    UpstreamOf(Upstream(w));
    assert a[..|Upstream(v)|] == Upstream(v) && b[..|Upstream(w)|] == Upstream(w);
    CompareUpstream(v, w);
    assert a[|Upstream(v)| + 1..] == "1" && b[|Upstream(w)| + 1..] == "1";
    SameRevision();
  }

  lemma SameRevision()
    ensures ComparePart("1", "1") == 0
  {
    assert NonDigitRun("1") == 0 && DigitRun("1") == 1;
    assert "1"[0..] == "1" && "1"[..1] == "1" && "1"[1..] == "";
  }
}

/** RPM's segment-wise version comparison. */
module RpmOrder {
  import opened Options
  import opened Decimals
  import opened Versions

  predicate IsLetter(c: char)
  {
    'a' <= c <= 'z' || 'A' <= c <= 'Z'
  }

  predicate IsSeparator(c: char)
  {
    !IsDigit(c) && !IsLetter(c) && c != '~' && c != '^'
  }

  function SkipSeparators(s: string): (r: string)
    ensures |r| <= |s| && (r != [] ==> !IsSeparator(r[0]))
  {
    if s != [] && IsSeparator(s[0]) then SkipSeparators(s[1..]) else s
  }

  function LetterRun(s: string): (n: nat)
    ensures n <= |s| && (s != [] && IsLetter(s[0]) ==> n > 0)
  {
    if s != [] && IsLetter(s[0]) then 1 + LetterRun(s[1..]) else 0
  }

  function CompareLetters(a: string, b: string): (s: int)
    ensures -1 <= s <= 1
  {
    if a == [] && b == [] then 0
    else if a == [] then -1
    else if b == [] then 1
    else if a[0] != b[0] then Sign(a[0] as int, b[0] as int)
    else CompareLetters(a[1..], b[1..])
  }

  function CompareSegments(s: string, t: string): (r: int)
    ensures -1 <= r <= 1
    decreases |s| + |t|
  {
    var a, b := SkipSeparators(s), SkipSeparators(t);
    if (a != [] && a[0] == '~') || (b != [] && b[0] == '~') then
      if a == [] || a[0] != '~' then 1
      else if b == [] || b[0] != '~' then -1
      else CompareSegments(a[1..], b[1..])
    else if (a != [] && a[0] == '^') || (b != [] && b[0] == '^') then
      if a == [] then -1
      else if b == [] then 1
      else if a[0] != '^' then 1
      else if b[0] != '^' then -1
      else CompareSegments(a[1..], b[1..])
    else if a == [] || b == [] then Sign(|a|, |b|)
    else if IsDigit(a[0]) then
      var m, n := DigitRun(a), DigitRun(b);
      if n == 0 then 1
      else if Value(a[..m]) != Value(b[..n]) then Sign(Value(a[..m]), Value(b[..n]))
      else CompareSegments(a[m..], b[n..])
    else
      var m, n := LetterRun(a), LetterRun(b);
      if n == 0 then -1
      else if CompareLetters(a[..m], b[..n]) != 0 then CompareLetters(a[..m], b[..n])
      else CompareSegments(a[m..], b[n..])
  }

  function Compare(a: RpmVersion, b: RpmVersion): int
  {
    var version := CompareSegments(a.version, b.version);
    if version != 0 then version else CompareSegments(a.release, b.release)
  }

  /** Segments are digits or letters; tilde and caret have their own meaning, and all else separates. */
  lemma CharactersAre(c: char)
    ensures IsLetter(c) <==> 65 <= c as int <= 90 || 97 <= c as int <= 122
    ensures IsSeparator(c) <==>
            !(48 <= c as int <= 57) && !(65 <= c as int <= 90) && !(97 <= c as int <= 122) && c as int != 126 && c as int != 94
  {}

  /** Letters compare as texts do. */
  lemma {:induction false} LettersAreTexts(a: string, b: string)
    ensures CompareLetters(a, b) == if a == [] || b == [] then Sign(|a|, |b|) else CompareText(a, b)
  {
    if a != [] && b != [] && a[0] == b[0] { LettersAreTexts(a[1..], b[1..]); }
  }

  /** A segment of letters comes before one of digits, and two of them compare as texts, equal ones by what follows. */
  lemma LetterSegments(a: string, b: string)
    requires a != [] && IsLetter(a[0]) && b != [] && (IsLetter(b[0]) || IsDigit(b[0]))
    ensures IsDigit(b[0]) ==> CompareSegments(a, b) == -1 && CompareSegments(b, a) == 1
    ensures IsLetter(b[0]) && a[..LetterRun(a)] == b[..LetterRun(b)] ==>
              CompareSegments(a, b) == CompareSegments(a[LetterRun(a)..], b[LetterRun(b)..])
    ensures IsLetter(b[0]) && a[..LetterRun(a)] != b[..LetterRun(b)] ==>
              CompareSegments(a, b) == CompareText(a[..LetterRun(a)], b[..LetterRun(b)]) != 0
  {
    var x, y := a[..LetterRun(a)], b[..LetterRun(b)];
    LettersAreTexts(x, y);
    SameLetters(x);
    if IsLetter(b[0]) && x != y { DifferentTexts(x, y); }
    if IsDigit(b[0]) { assert LetterRun(b) == 0 && DigitRun(a) == 0; }
    hide CompareLetters;
  }

  lemma {:induction false} DifferentTexts(a: string, b: string)
    requires a != b
    ensures CompareLetters(a, b) != 0 && CompareText(a, b) == CompareLetters(a, b)
  {
    if a != [] && b != [] && a[0] == b[0] {
      assert a == [a[0]] + a[1..] && b == [b[0]] + b[1..];
      DifferentTexts(a[1..], b[1..]);
    }
  }

  /** How two numeric segments are compared. */
  lemma NumericSegments(s: string, t: string, a: string, b: string)
    requires SkipSeparators(s) == a && SkipSeparators(t) == b && a != [] && b != [] && IsDigit(a[0]) && IsDigit(b[0])
    ensures DigitRun(b) > 0
    ensures var m, n := DigitRun(a), DigitRun(b);
            var x, y := Value(a[..m]), Value(b[..n]);
            CompareSegments(s, t) == if x != y then Sign(x, y) else CompareSegments(a[m..], b[n..])
  {
    hide SkipSeparators, Value;
  }

  /** A numeral on each side, perhaps after a dot: the numbers decide, or what follows. */
  lemma NumberDecides(pre: string, x: nat, r: string, y: nat, s: string)
    requires pre == "" || pre == "."
    requires (r != [] ==> !IsDigit(r[0])) && (s != [] ==> !IsDigit(s[0]))
    ensures CompareSegments(pre + Decimal(x) + r, pre + Decimal(y) + s) == if x != y then Sign(x, y) else CompareSegments(r, s)
  {
    hide CompareSegments, SkipSeparators, Value, Decimal, DigitRun;
    Skipped(pre, x, r);
    Skipped(pre, y, s);
    NumericSegments(pre + Decimal(x) + r, pre + Decimal(y) + s, Decimal(x) + r, Decimal(y) + s);
  }

  lemma Skipped(pre: string, x: nat, r: string)
    requires pre == "" || pre == "."
    requires r != [] ==> !IsDigit(r[0])
    ensures SkipSeparators(pre + Decimal(x) + r) == Decimal(x) + r
    ensures DigitRun(Decimal(x) + r) == |Decimal(x)| && IsDigit((Decimal(x) + r)[0])
    ensures Value((Decimal(x) + r)[..|Decimal(x)|]) == x && (Decimal(x) + r)[|Decimal(x)|..] == r
  {
    var a, plain := pre + Decimal(x) + r, Decimal(x) + r;
    assert plain[0] == Decimal(x)[0];
    if pre == "." { assert a[1..] == plain; } else { assert a == plain; }
    assert plain[..|Decimal(x)|] == Decimal(x) && plain[|Decimal(x)|..] == r;
    DigitRunIs(plain, |Decimal(x)|);
    ValueOfDecimal(x);
  }

  lemma CompareCore(v: SemVer, w: SemVer)
    ensures CompareSegments(Core(v), Core(w)) == Precedence(v.(rc := None), w.(rc := None))
  {
    hide Precedence, Decimal, CompareSegments;
    PrecedenceOfProfile(v.(rc := None), w.(rc := None));
    var v2, w2 := "." + Decimal(v.patch) + [], "." + Decimal(w.patch) + [];
    var v1, w1 := "." + Decimal(v.minor) + v2, "." + Decimal(w.minor) + w2;
    assert Core(v) == "" + Decimal(v.major) + v1 && Core(w) == "" + Decimal(w.major) + w1;
    NumberDecides("", v.major, v1, w.major, w1);
    NumberDecides(".", v.minor, v2, w.minor, w2);
    NumberDecides(".", v.patch, [], w.patch, []);
    SameSegments([]);
  }

  /** `0.N.rc.N`: the zero puts candidates before release 1, and N orders them. */
  function CandidateRelease(n: nat): string
  {
    "0." + Decimal(n) + ".rc." + Decimal(n)
  }

  lemma {:induction false} SameSegments(s: string)
    ensures CompareSegments(s, s) == 0
    decreases |s|
  {
    var a := SkipSeparators(s);
    if a != [] {
      if a[0] == '~' || a[0] == '^' {
        SameSegments(a[1..]);
      } else if IsDigit(a[0]) {
        SameSegments(a[DigitRun(a)..]);
      } else {
        SameLetters(a[..LetterRun(a)]);
        SameSegments(a[LetterRun(a)..]);
      }
    }
  }

  lemma {:induction false} SameLetters(a: string)
    ensures CompareLetters(a, a) == 0
  {
    if a != [] { SameLetters(a[1..]); }
  }

  lemma CompareReleases(v: SemVer, w: SemVer)
    ensures CompareSegments(RpmVersionRelease(v).release, RpmVersionRelease(w).release) ==
            Precedence(SemVer(0, 0, 0, v.rc), SemVer(0, 0, 0, w.rc))
  {
    hide Precedence;
    PrecedenceOfProfile(SemVer(0, 0, 0, v.rc), SemVer(0, 0, 0, w.rc));
    if v.rc == w.rc {
      SameSegments(RpmVersionRelease(v).release);
    } else if v.rc.Some? && w.rc.Some? {
      CompareCandidates(v.rc.value, w.rc.value);
    } else if v.rc.Some? {
      CandidateFirst(v.rc.value);
    } else {
      CandidateFirst(w.rc.value);
    }
  }

  lemma CompareCandidates(p: nat, q: nat)
    requires p != q
    ensures CompareSegments(CandidateRelease(p), CandidateRelease(q)) == Sign(p, q)
  {
    var r, s := ".rc." + Decimal(p), ".rc." + Decimal(q);
    assert Decimal(0) == "0";
    assert CandidateRelease(p) == "" + Decimal(0) + ("." + Decimal(p) + r);
    assert CandidateRelease(q) == "" + Decimal(0) + ("." + Decimal(q) + s);
    NumberDecides("", 0, "." + Decimal(p) + r, 0, "." + Decimal(q) + s);
    NumberDecides(".", p, r, q, s);
  }

  lemma CandidateFirst(p: nat)
    ensures CompareSegments(CandidateRelease(p), "1") == -1 && CompareSegments("1", CandidateRelease(p)) == 1
  {
    var r := "." + Decimal(p) + ".rc." + Decimal(p);
    assert Decimal(0) == "0" && Decimal(1) == "1";
    assert CandidateRelease(p) == "" + Decimal(0) + r && "1" == "" + Decimal(1) + [];
    NumberDecides("", 0, r, 1, []);
    NumberDecides("", 1, [], 0, r);
  }

  /** RPM packages sort as their versions do. */
  lemma OrderEmbeds(v: SemVer, w: SemVer)
    ensures Compare(RpmVersionRelease(v), RpmVersionRelease(w)) == Precedence(v, w)
  {
    hide CompareSegments, Precedence;
    PrecedenceOfProfile(v, w);
    PrecedenceOfProfile(v.(rc := None), w.(rc := None));
    PrecedenceOfProfile(SemVer(0, 0, 0, v.rc), SemVer(0, 0, 0, w.rc));
    CompareCore(v, w);
    CompareReleases(v, w);
  }
}
