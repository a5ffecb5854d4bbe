/** The text of a checksum file: rendering (`build_sha256sums`) and the two parsers that must agree on it. */
module ChecksumText {
  import opened Options

  // ---------------------------------------------------------------- names and digests

  predicate IsAlphanumeric(c: char)
  {
    'A' <= c <= 'Z' || 'a' <= c <= 'z' || '0' <= c <= '9'
  }

  /** A safe name: a letter or digit, then up to 199 letters, digits, dots, underscores, plus signs and hyphens. */
  predicate AssetName(s: string)
  {
    && 1 <= |s| <= 200 && IsAlphanumeric(s[0])
    && forall i | 0 <= i < |s| :: IsAlphanumeric(s[i]) || s[i] == '.' || s[i] == '_' || s[i] == '+' || s[i] == '-'
  }

  predicate IsHex(c: char)
  {
    '0' <= c <= '9' || 'a' <= c <= 'f'
  }

  /** A lower-case SHA-256 digest. */
  predicate Digest(s: string)
  {
    |s| == 64 && forall i | 0 <= i < |s| :: IsHex(s[i])
  }

  predicate Ascii(s: string)
  {
    forall i | 0 <= i < |s| :: s[i] as int < 128
  }

  // ---------------------------------------------------------------- lines

  /** The ASCII characters at which `str.splitlines` breaks. */
  predicate IsBreak(c: char)
  {
    '\U{0a}' <= c <= '\U{0d}' || '\U{1c}' <= c <= '\U{1e}'
  }

  function BreakIndex(s: string): (n: nat)
    ensures n <= |s| && (n < |s| ==> IsBreak(s[n]))
    ensures forall i | 0 <= i < n :: !IsBreak(s[i])
  {
    if s == [] || IsBreak(s[0]) then 0 else 1 + BreakIndex(s[1..])
  }

  /** `splitlines`: a carriage return and line feed together break once. */
  function Lines(s: string): seq<string>
    decreases |s|
  {
    if s == [] then []
    else
      var n := BreakIndex(s);
      if n == |s| then [s]
      else [s[..n]] + Lines(s[if s[n] == '\r' && n + 1 < |s| && s[n + 1] == '\n' then n + 2 else n + 1..])
  }

  predicate NoBreak(s: string)
  {
    forall i | 0 <= i < |s| :: !IsBreak(s[i])
  }

  function Joined(lines: seq<string>): string
  {
    if lines == [] then "" else lines[0] + "\n" + Joined(lines[1..])
  }

  lemma {:induction false} BreakIndexIs(s: string, n: nat)
    requires n < |s| && IsBreak(s[n]) && forall i | 0 <= i < n :: !IsBreak(s[i])
    ensures BreakIndex(s) == n
    decreases n
  {
    if n > 0 { BreakIndexIs(s[1..], n - 1); }
  }

  lemma FirstLine(first: string, rest: string)
    requires NoBreak(first)
    ensures Lines(first + "\n" + rest) == [first] + Lines(rest)
  {
    var s := first + "\n" + rest;
    assert s[|first|] == '\n' && forall i | 0 <= i < |first| :: s[i] == first[i];
    BreakIndexIs(s, |first|);
    assert s[..|first|] == first && s[|first| + 1..] == rest;
  }

  /** Splitting what was joined gives the lines back. */
  lemma {:induction false} LinesOfJoined(lines: seq<string>)
    requires forall l | l in lines :: NoBreak(l)
    ensures Lines(Joined(lines)) == lines
  {
    hide Lines, NoBreak;
    if lines == [] {
      assert Lines("") == [] by { NoLines(); }
    } else {
      assert lines[0] in lines && forall l | l in lines[1..] :: l in lines;
      LinesOfJoined(lines[1..]);
      FirstLine(lines[0], Joined(lines[1..]));
    }
  }

  lemma NoLines()
    ensures Lines("") == []
  {}

  // ---------------------------------------------------------------- one record

  datatype Record = Record(name: string, digest: string)

  /** The index of the first two spaces in a row, or the length. */
  function DoubleSpace(s: string): (n: nat)
    ensures n <= |s| && (n < |s| ==> n + 1 < |s| && s[n] == ' ' && s[n + 1] == ' ')
  {
    if s == [] then 0
    else if |s| >= 2 && s[0] == ' ' && s[1] == ' ' then 0
    else 1 + DoubleSpace(s[1..])
  }

  /** The signing side: split at the first two spaces and check both halves. */
  function PartitionRecord(line: string): Option<Record>
  {
    var n := DoubleSpace(line);
    if n < |line| && Digest(line[..n]) && AssetName(line[n + 2..]) then Some(Record(line[n + 2..], line[..n])) else None
  }

  /** The verifier's side: one pattern over the whole line. */
  function MatchRecord(line: string): Option<Record>
  {
    if |line| >= 66 && Digest(line[..64]) && line[64] == ' ' && line[65] == ' ' && AssetName(line[66..])
    then Some(Record(line[66..], line[..64]))
    else None
  }

  lemma {:induction false} DoubleSpaceIs(s: string, n: nat)
    requires n + 1 < |s| && s[n] == ' ' && s[n + 1] == ' ' && forall i | 0 <= i < n :: s[i] != ' '
    ensures DoubleSpace(s) == n
    decreases n
  {
    if n > 0 { DoubleSpaceIs(s[1..], n - 1); }
  }

  /** Both sides read every line alike. */
  lemma RecordsAgree(line: string)
    ensures PartitionRecord(line) == MatchRecord(line)
  {
    if MatchRecord(line).Some? {
      assert forall i | 0 <= i < 64 :: line[i] == line[..64][i] && IsHex(line[..64][i]);
      DoubleSpaceIs(line, 64);
    }
  }

  // ---------------------------------------------------------------- the whole file

  type Checksums = map<string, string>

  /** The records of the first lines, none of them repeated. */
  function Records(lines: seq<string>): Option<Checksums>
  {
    if lines == [] then Some(map[])
    else
      var before, line := Records(lines[..|lines| - 1]), PartitionRecord(lines[|lines| - 1]);
      if before.Some? && line.Some? && line.value.name !in before.value
      then Some(before.value[line.value.name := line.value.digest])
      else None
  }

  function Parsed(text: string): Option<Checksums>
  {
    if Ascii(text) && Lines(text) != [] then Records(Lines(text)) else None
  }

  lemma {:induction false} PrefixFails(lines: seq<string>, n: nat)
    requires n <= |lines| && Records(lines[..n]).None?
    ensures Records(lines).None?
    decreases |lines|
  {
    if n < |lines| {
      assert lines[..|lines| - 1][..n] == lines[..n];
      PrefixFails(lines[..|lines| - 1], n);
    } else {
      assert lines[..n] == lines;
    }
  }

  lemma {:induction false} RecordsNonempty(lines: seq<string>)
    requires Records(lines).Some?
    ensures Records(lines).value == map[] <==> lines == []
    ensures forall name | name in Records(lines).value :: AssetName(name) && Digest(Records(lines).value[name])
  {
    if lines != [] { RecordsNonempty(lines[..|lines| - 1]); }
  }

  /** `_parse_checksums` of the signing tool; both parsers loop alike and differ in how they read a line. */
  method ParseForSigning(text: string) returns (r: Option<Checksums>)
    ensures r == Parsed(text)
  {
    hide PartitionRecord;
    if !Ascii(text) { return None; }
    var lines := Lines(text);
    var records: Checksums := map[];
    for i := 0 to |lines|
      invariant Records(lines[..i]) == Some(records)
    {
      assert lines[..i + 1][..i] == lines[..i];
      var record := PartitionRecord(lines[i]);
      if record.None? || record.value.name in records {
        PrefixFails(lines, i + 1);
        return None;
      }
      records := records[record.value.name := record.value.digest];
    }
    assert lines[..|lines|] == lines;
    RecordsNonempty(lines);
    if records == map[] { return None; }
    return Some(records);
  }

  /** `_parse_checksums` of the candidate verifier. */
  method ParseForVerifier(text: string) returns (r: Option<Checksums>)
    ensures r == Parsed(text)
  {
    hide PartitionRecord, MatchRecord;
    if !Ascii(text) { return None; }
    var lines := Lines(text);
    var checksums: Checksums := map[];
    for i := 0 to |lines|
      invariant Records(lines[..i]) == Some(checksums)
    {
      assert lines[..i + 1][..i] == lines[..i];
      RecordsAgree(lines[i]);
      var record := MatchRecord(lines[i]);
      if record.None? || record.value.name in checksums {
        PrefixFails(lines, i + 1);
        return None;
      }
      checksums := checksums[record.value.name := record.value.digest];
    }
    assert lines[..|lines|] == lines;
    RecordsNonempty(lines);
    if checksums == map[] { return None; }
    return Some(checksums);
  }

  // ---------------------------------------------------------------- rendering

  /** Code point order, as Python sorts strings. */
  predicate Less(a: string, b: string)
  {
    b != [] && (a == [] || a[0] < b[0] || (a[0] == b[0] && Less(a[1..], b[1..])))
  }

  lemma {:induction false} LessIsTotal(a: string, b: string)
    ensures Less(a, b) || Less(b, a) || a == b
    ensures !(Less(a, b) && Less(b, a)) && !Less(a, a)
  {
    if a != [] && b != [] && a[0] == b[0] {
      LessIsTotal(a[1..], b[1..]);
      assert a == [a[0]] + a[1..] && b == [b[0]] + b[1..];
    }
    if a != [] { LessIsTotal(a[1..], a[1..]); }
  }

  lemma {:induction false} LessIsTransitive(a: string, b: string, c: string)
    requires Less(a, b) && Less(b, c)
    ensures Less(a, c)
  {
    if a != [] && a[0] == b[0] && b[0] == c[0] { LessIsTransitive(a[1..], b[1..], c[1..]); }
  }

  ghost predicate Ascending(names: seq<string>)
  {
    forall i, j | 0 <= i < j < |names| :: Less(names[i], names[j])
  }

  function Elements(names: seq<string>): set<string>
  {
    set name | name in names
  }

  /** A set of names has one ascending listing. */
  lemma {:induction false} AscendingIsUnique(a: seq<string>, b: seq<string>)
    requires Ascending(a) && Ascending(b) && Elements(a) == Elements(b)
    ensures a == b
  {
    if a == [] {
      assert forall i | 0 <= i < |b| :: b[i] in Elements(b);
    } else {
      assert a[0] in Elements(a);
      assert b != [];
      assert b[0] in Elements(b);
      FirstIsLeast(a);
      FirstIsLeast(b);
      LessIsTotal(a[0], b[0]);
      assert a[0] == b[0];
      RestElements(a);
      RestElements(b);
      AscendingIsUnique(a[1..], b[1..]);
      assert a == [a[0]] + a[1..] && b == [b[0]] + b[1..];
    }
  }

  lemma FirstIsLeast(a: seq<string>)
    requires Ascending(a) && a != []
    ensures forall name | name in Elements(a) :: name == a[0] || Less(a[0], name)
  {}

  lemma RestElements(a: seq<string>)
    requires Ascending(a) && a != []
    ensures Ascending(a[1..]) && Elements(a[1..]) == Elements(a) - {a[0]}
  {
    LessIsTotal(a[0], a[0]);
    assert forall i | 1 <= i < |a| :: a[i] != a[0] by { forall i | 1 <= i < |a| ensures a[i] != a[0] { assert Less(a[0], a[i]); } }
    assert a == [a[0]] + a[1..];
  }

  /** Distinct names in ascending order. */
  method Sorted(names: set<string>) returns (sorted: seq<string>)
    ensures Ascending(sorted) && Elements(sorted) == names
  {
    sorted := [];
    var todo := names;
    while todo != {}
      invariant todo <= names
      invariant Ascending(sorted) && Elements(sorted) == names - todo
      decreases todo
    {
      var name :| name in todo;
      todo := todo - {name};
      sorted := Insert(sorted, name);
    }
  }

  method Insert(sorted: seq<string>, name: string) returns (r: seq<string>)
    requires Ascending(sorted) && name !in Elements(sorted)
    ensures Ascending(r) && Elements(r) == Elements(sorted) + {name}
  {
    var k := |sorted|;
    while k > 0 && Less(name, sorted[k - 1])
      invariant 0 <= k <= |sorted|
      invariant forall i | k <= i < |sorted| :: Less(name, sorted[i])
    {
      k := k - 1;
    }
    forall i | 0 <= i < k ensures Less(sorted[i], name) {
      assert sorted[i] in Elements(sorted);
      LessIsTotal(sorted[k - 1], name);
      assert sorted[k - 1] in Elements(sorted);
      if i < k - 1 { LessIsTransitive(sorted[i], sorted[k - 1], name); }
    }
    r := sorted[..k] + [name] + sorted[k..];
    InsertedElements(sorted, k, name);
  }

  lemma InsertedElements(sorted: seq<string>, k: nat, name: string)
    requires k <= |sorted|
    ensures Elements(sorted[..k] + [name] + sorted[k..]) == Elements(sorted) + {name}
  {
    assert sorted == sorted[..k] + sorted[k..];
  }

  function RecordLine(name: string, digest: string): string
  {
    digest + "  " + name
  }

  function RecordLines(names: seq<string>, records: Checksums): (lines: seq<string>)
    requires forall name | name in names :: name in records
    ensures |lines| == |names|
    ensures forall i | 0 <= i < |names| :: lines[i] == RecordLine(names[i], records[names[i]])
  {
    seq(|names|, i requires 0 <= i < |names| => RecordLine(names[i], records[names[i]]))
  }

  /** The canonical text of a set of records. */
  ghost predicate Renders(text: string, records: Checksums)
  {
    exists names: seq<string> :: Ascending(names) && Elements(names) == records.Keys && text == Joined(RecordLines(names, records))
  }

  predicate WellFormed(records: Checksums)
  {
    forall name | name in records :: AssetName(name) && Digest(records[name])
  }

  lemma LineParses(name: string, digest: string)
    requires AssetName(name) && Digest(digest)
    ensures PartitionRecord(RecordLine(name, digest)) == Some(Record(name, digest))
    ensures NoBreak(RecordLine(name, digest)) && Ascii(RecordLine(name, digest))
  {
    var line := RecordLine(name, digest);
    assert line[..64] == digest && line[66..] == name;
    RecordsAgree(line);
  }

  lemma FrontOfAscending(names: seq<string>)
    requires Ascending(names) && names != []
    ensures var front, last := names[..|names| - 1], names[|names| - 1];
            Ascending(front) && last !in front && Elements(names) == Elements(front) + {last}
  {
    var front, last := names[..|names| - 1], names[|names| - 1];
    forall i | 0 <= i < |front| ensures front[i] != last {
      assert Less(names[i], names[|names| - 1]);
      LessIsTotal(last, last);
    }
    assert names == front + [last];
  }

  /** One record more. */
  lemma RecordsStep(lines: seq<string>, name: string, digest: string)
    requires Records(lines).Some? && name !in Records(lines).value && AssetName(name) && Digest(digest)
    ensures Records(lines + [RecordLine(name, digest)]) == Some(Records(lines).value[name := digest])
  {
    LineParses(name, digest);
    hide AssetName, Digest, RecordLine, PartitionRecord;
    assert (lines + [RecordLine(name, digest)])[..|lines|] == lines;
  }

  function Chosen(names: seq<string>, records: Checksums): Checksums
    requires forall name | name in names :: name in records
  {
    map name | name in names :: records[name]
  }

  lemma OneMoreLine(front: seq<string>, last: string, records: Checksums)
    requires last in records && forall name | name in front :: name in records
    ensures RecordLines(front + [last], records) == RecordLines(front, records) + [RecordLine(last, records[last])]
    ensures Chosen(front + [last], records) == Chosen(front, records)[last := records[last]]
  {}

  lemma {:induction false} RecordsOfLines(names: seq<string>, records: Checksums)
    requires WellFormed(records) && Ascending(names) && forall name | name in names :: name in records
    ensures Records(RecordLines(names, records)) == Some(Chosen(names, records))
  {
    hide AssetName, Digest, RecordLine, PartitionRecord, Ascending, RecordLines;
    if names == [] {
      NoRecords(records);
    } else {
      var front, last := names[..|names| - 1], names[|names| - 1];
      FrontOfAscending(names);
      assert names == front + [last];
      assert last in names && forall name | name in front :: name in names;
      RecordsOfLines(front, records);
      OneMoreLine(front, last, records);
      hide Records;
      RecordsStep(RecordLines(front, records), last, records[last]);
    }
  }

  lemma NoRecords(records: Checksums)
    ensures Records(RecordLines([], records)) == Some(Chosen([], records))
  {}

  lemma {:induction false} JoinedIsAscii(lines: seq<string>)
    requires forall l | l in lines :: Ascii(l)
    ensures Ascii(Joined(lines))
  {
    if lines != [] {
      assert lines[0] in lines && forall l | l in lines[1..] :: l in lines;
      JoinedIsAscii(lines[1..]);
    }
  }

  /** Rendering and parsing are inverse: the text stands for exactly its records. */
  lemma RenderedParses(text: string, records: Checksums)
    requires Renders(text, records) && WellFormed(records) && records != map[]
    ensures Parsed(text) == Some(records)
  {
    var names: seq<string> :| Ascending(names) && Elements(names) == records.Keys && text == Joined(RecordLines(names, records));
    assert forall name | name in names :: name in Elements(names);
    var lines := RecordLines(names, records);
    LinesAreClean(names, records);
    hide AssetName, Digest, RecordLine, PartitionRecord, RecordLines, Ascending, NoBreak, Lines, Joined, Records;
    LinesOfJoined(lines);
    JoinedIsAscii(lines);
    RecordsOfLines(names, records);
    assert Chosen(names, records) == records;
    RecordsNonempty(lines);
  }

  lemma LinesAreClean(names: seq<string>, records: Checksums)
    requires WellFormed(records) && forall name | name in names :: name in records
    ensures forall l | l in RecordLines(names, records) :: NoBreak(l) && Ascii(l)
  {
    hide AssetName, Digest, RecordLine, PartitionRecord, NoBreak, Ascii;
    var lines := RecordLines(names, records);
    forall l | l in lines ensures NoBreak(l) && Ascii(l) {
      var i :| 0 <= i < |lines| && lines[i] == l;
      assert names[i] in names;
      LineParses(names[i], records[names[i]]);
    }
  }

  /** One set of records has one text. */
  lemma RenderedIsCanonical(text: string, text': string, records: Checksums)
    requires Renders(text, records) && Renders(text', records)
    ensures text == text'
  {
    var names: seq<string> :| Ascending(names) && Elements(names) == records.Keys && text == Joined(RecordLines(names, records));
    var names': seq<string> :| Ascending(names') && Elements(names') == records.Keys && text' == Joined(RecordLines(names', records));
    AscendingIsUnique(names, names');
  }

  /** The joining of `build_sha256sums`. */
  method Render(records: Checksums) returns (text: string)
    ensures Renders(text, records)
  {
    var names := Sorted(records.Keys);
    assert forall name | name in names :: name in Elements(names);
    text := Joined(RecordLines(names, records));
  }
}
