/** CPU lists: the printer `compress_cpu_list` (capture_environment.py) and the parser `parse_cpu_set` (capture_container.py). */
module CpuList {
  import opened Options
  import opened Decimals

  // ---------------------------------------------------------------- ranges

  datatype Range = Range(lo: nat, hi: nat)

  predicate InRange(r: Range, x: nat)
  {
    r.lo <= x <= r.hi
  }

  function Members(r: Range): set<nat>
  {
    set x: nat | x <= r.hi && InRange(r, x)
  }

  function Union(ranges: seq<Range>): set<nat>
  {
    if ranges == [] then {} else Union(ranges[..|ranges| - 1]) + Members(ranges[|ranges| - 1])
  }

  /** Ascending ranges with a gap between neighbours: each is as long as it can be. */
  ghost predicate Maximal(ranges: seq<Range>)
  {
    && (forall k | 0 <= k < |ranges| :: ranges[k].lo <= ranges[k].hi)
    && (forall j, k | 0 <= j < k < |ranges| :: ranges[j].hi + 1 < ranges[k].lo)
  }

  lemma {:induction false} InUnion(ranges: seq<Range>, x: nat)
    ensures x in Union(ranges) <==> exists k :: 0 <= k < |ranges| && ranges[k].lo <= x <= ranges[k].hi
  {
    if ranges != [] {
      var front := ranges[..|ranges| - 1];
      InUnion(front, x);
      if x in Union(front) {
        var k :| 0 <= k < |front| && front[k].lo <= x <= front[k].hi;
        assert ranges[k] == front[k];
      }
      if k :| 0 <= k < |ranges| && ranges[k].lo <= x <= ranges[k].hi {
        if k < |front| { assert front[k] == ranges[k]; }
      }
    }
  }

  /** The first range of a set is fixed by the set: its least member and the end of that run. */
  lemma FirstRange(a: seq<Range>, b: seq<Range>)
    requires Maximal(a) && Maximal(b) && a != [] && b != [] && Union(a) == Union(b)
    ensures a[0] == b[0]
  {
    LeastIsFirst(a, b);
    LeastIsFirst(b, a);
    EndsTogether(a, b);
    EndsTogether(b, a);
  }

  lemma LeastIsFirst(a: seq<Range>, b: seq<Range>)
    requires Maximal(a) && Maximal(b) && a != [] && b != [] && Union(a) == Union(b)
    ensures b[0].lo <= a[0].lo
  {
    InUnion(a, a[0].lo);
    InUnion(b, a[0].lo);
    assert a[0].lo <= a[0].lo <= a[0].hi;
    var k :| 0 <= k < |b| && b[k].lo <= a[0].lo <= b[k].hi;
  }

  lemma EndsTogether(a: seq<Range>, b: seq<Range>)
    requires Maximal(a) && Maximal(b) && a != [] && b != [] && Union(a) == Union(b) && a[0].lo == b[0].lo
    ensures a[0].hi <= b[0].hi
  {
    if b[0].hi < a[0].hi {
      var x := b[0].hi + 1;
      InUnion(a, x);
      InUnion(b, x);
    }
  }

  lemma RestOfUnion(a: seq<Range>, x: nat)
    requires Maximal(a) && a != []
    ensures Maximal(a[1..]) && (x in Union(a[1..]) <==> x in Union(a) && x > a[0].hi)
  {
    var rest := a[1..];
    InUnion(a, x);
    InUnion(rest, x);
    if x in Union(rest) {
      var k :| 0 <= k < |rest| && rest[k].lo <= x <= rest[k].hi;
      assert a[k + 1] == rest[k];
    }
    if x in Union(a) && x > a[0].hi {
      var k :| 0 <= k < |a| && a[k].lo <= x <= a[k].hi;
      assert k > 0 && rest[k - 1] == a[k];
    }
  }

  lemma NothingIn(a: seq<Range>)
    requires Maximal(a) && a != []
    ensures Union(a) != {}
  {
    InUnion(a, a[0].lo);
    assert a[0].lo <= a[0].lo <= a[0].hi;
  }

  /** A set has one list of maximal ranges, so its text is canonical. */
  lemma {:induction false} RangesAreUnique(a: seq<Range>, b: seq<Range>)
    requires Maximal(a) && Maximal(b) && Union(a) == Union(b)
    ensures a == b
  {
    if a == [] || b == [] {
      if a != [] { NothingIn(a); }
      if b != [] { NothingIn(b); }
    } else {
      FirstRange(a, b);
      forall x ensures x in Union(a[1..]) <==> x in Union(b[1..]) {
        if x in Union(a[1..]) || x in Union(b[1..]) {
          RestOfUnion(a, x);
          RestOfUnion(b, x);
        }
      }
      RestOfUnion(a, 0);
      RestOfUnion(b, 0);
      RangesAreUnique(a[1..], b[1..]);
      assert a == [a[0]] + a[1..] && b == [b[0]] + b[1..];
    }
  }

  // ---------------------------------------------------------------- printing

  function RangeText(r: Range): string
  {
    if r.lo == r.hi then Decimal(r.lo) else Decimal(r.lo) + "-" + Decimal(r.hi)
  }

  function Texts(ranges: seq<Range>): (texts: seq<string>)
    ensures |texts| == |ranges| && forall k | 0 <= k < |ranges| :: texts[k] == RangeText(ranges[k])
  {
    seq(|ranges|, k requires 0 <= k < |ranges| => RangeText(ranges[k]))
  }

  lemma TextsMore(ranges: seq<Range>, r: Range)
    ensures Texts(ranges + [r]) == Texts(ranges) + [RangeText(r)]
  {}

  /** The fields with commas between them. */
  function CommaJoined(texts: seq<string>): string
  {
    if texts == [] then "" else if |texts| == 1 then texts[0] else texts[0] + "," + CommaJoined(texts[1..])
  }

  ghost predicate Ascending(values: seq<nat>)
  {
    forall i, j | 0 <= i < j < |values| :: values[i] < values[j]
  }

  function AsSet(values: seq<nat>): set<nat>
  {
    set x | x in values
  }

  /** The numbers of a set in ascending order. */
  method Sorted(numbers: set<nat>) returns (values: seq<nat>)
    ensures Ascending(values) && AsSet(values) == numbers
  {
    values := [];
    var todo := numbers;
    while todo != {}
      invariant todo <= numbers && Ascending(values) && AsSet(values) == numbers - todo
      decreases todo
    {
      var x :| x in todo;
      todo := todo - {x};
      values := Insert(values, x);
    }
  }

  method Insert(values: seq<nat>, x: nat) returns (r: seq<nat>)
    requires Ascending(values) && x !in AsSet(values)
    ensures Ascending(r) && AsSet(r) == AsSet(values) + {x}
  {
    var k := |values|;
    while k > 0 && x < values[k - 1]
      invariant 0 <= k <= |values| && forall i | k <= i < |values| :: x < values[i]
    {
      k := k - 1;
    }
    r := values[..k] + [x] + values[k..];
    Inserted(values, k, x);
  }

  lemma SetOfTwo(a: seq<nat>, b: seq<nat>)
    ensures AsSet(a + b) == AsSet(a) + AsSet(b)
  {}

  lemma InsertedAscends(values: seq<nat>, k: nat, x: nat, r: seq<nat>)
    requires Ascending(values) && k <= |values| && |r| == |values| + 1
    requires forall i | 0 <= i < k :: values[i] < x
    requires forall i | k <= i < |values| :: x < values[i]
    requires (forall i | 0 <= i < k :: r[i] == values[i]) && r[k] == x && forall i | k <= i < |values| :: r[i + 1] == values[i]
    ensures Ascending(r)
  {
    forall i, j | 0 <= i < j < |r| ensures r[i] < r[j] {
      if i != k && j != k {
        var p, q := if i < k then i else i - 1, if j < k then j else j - 1;
        assert values[p] < values[q];
        assert r[i] == values[p] && r[j] == values[q];
      } else if i == k {
        assert x < values[j - 1] && r[j] == values[j - 1];
        assert r[i] == x;
      } else {
        assert values[i] < x && r[i] == values[i] && r[j] == x;
      }
    }
  }

  lemma Inserted(values: seq<nat>, k: nat, x: nat)
    requires Ascending(values) && x !in AsSet(values) && k <= |values|
    requires forall i | k <= i < |values| :: x < values[i]
    requires k > 0 ==> x >= values[k - 1]
    ensures Ascending(values[..k] + [x] + values[k..]) && AsSet(values[..k] + [x] + values[k..]) == AsSet(values) + {x}
  {
    forall i | 0 <= i < k ensures values[i] < x { assert values[i] in AsSet(values); }
    hide Ascending;
    var front, back := values[..k], values[k..];
    InsertedAscends(values, k, x, front + [x] + back);
    assert values == front + back;
    assert AsSet([x]) == {x};
    hide AsSet;
    SetOfTwo(front, back);
    SetOfTwo(front, [x]);
    SetOfTwo(front + [x], back);
  }

  lemma {:induction false} MoreRange(ranges: seq<Range>, lo: nat, hi: nat)
    requires lo <= hi
    ensures Union(ranges + [Range(lo, hi)]) == Union(ranges) + Members(Range(lo, hi))
  {
    assert (ranges + [Range(lo, hi)])[..|ranges|] == ranges;
  }

  /** What the loop has seen is the finished ranges and the run from `start` to `previous`. */
  ghost predicate Seen(values: seq<nat>, i: nat, ranges: seq<Range>, start: nat, previous: nat)
  {
    && 0 < i <= |values| && previous == values[i - 1] && start <= previous
    && Maximal(ranges + [Range(start, previous)]) && Union(ranges + [Range(start, previous)]) == AsSet(values[..i])
  }

  lemma {:induction false} LongerRun(ranges: seq<Range>, lo: nat, hi: nat)
    requires lo <= hi && Maximal(ranges + [Range(lo, hi)])
    ensures Maximal(ranges + [Range(lo, hi + 1)])
    ensures Union(ranges + [Range(lo, hi + 1)]) == Union(ranges + [Range(lo, hi)]) + {hi + 1}
  {
    MoreRange(ranges, lo, hi);
    MoreRange(ranges, lo, hi + 1);
    assert Members(Range(lo, hi + 1)) == Members(Range(lo, hi)) + {hi + 1};
    var all, longer := ranges + [Range(lo, hi)], ranges + [Range(lo, hi + 1)];
    assert forall k | 0 <= k < |ranges| :: longer[k] == all[k];
    assert all[|ranges|] == Range(lo, hi) && longer[|ranges|] == Range(lo, hi + 1);
  }

  lemma {:induction false} NewRun(ranges: seq<Range>, v: nat)
    requires Maximal(ranges) && forall k | 0 <= k < |ranges| :: ranges[k].hi + 1 < v
    ensures Maximal(ranges + [Range(v, v)]) && Union(ranges + [Range(v, v)]) == Union(ranges) + {v}
  {
    MoreRange(ranges, v, v);
    assert Members(Range(v, v)) == {v};
  }

  lemma OneMoreValue(values: seq<nat>, i: nat)
    requires i < |values|
    ensures AsSet(values[..i + 1]) == AsSet(values[..i]) + {values[i]}
  {
    assert values[..i + 1] == values[..i] + [values[i]];
  }

  lemma SeenMore(values: seq<nat>, i: nat, ranges: seq<Range>, start: nat, previous: nat)
    requires Ascending(values) && Seen(values, i, ranges, start, previous) && i < |values|
    ensures values[i] == previous + 1 ==> Seen(values, i + 1, ranges, start, values[i])
    ensures values[i] != previous + 1 ==> Seen(values, i + 1, ranges + [Range(start, previous)], values[i], values[i])
  {
    OneMoreValue(values, i);
    if values[i] == previous + 1 {
      hide Maximal, Union, AsSet;
      LongerRun(ranges, start, previous);
    } else {
      var all := ranges + [Range(start, previous)];
      assert all[|ranges|] == Range(start, previous);
      hide Union, AsSet;
      NewRun(all, values[i]);
    }
  }

  lemma FirstSeen(values: seq<nat>)
    requires values != []
    ensures Seen(values, 1, [], values[0], values[0])
  {
    MoreRange([], values[0], values[0]);
    assert values[..1] == [values[0]];
    assert [] + [Range(values[0], values[0])] == [Range(values[0], values[0])];
  }

  /** The text lists the maximal ranges of the set. */
  ghost predicate ListsRanges(text: string, numbers: set<nat>)
  {
    exists ranges :: Maximal(ranges) && Union(ranges) == numbers && text == CommaJoined(Texts(ranges))
  }

  lemma RangesListed(text: string, ranges: seq<Range>)
    requires Maximal(ranges) && text == CommaJoined(Texts(ranges))
    ensures ListsRanges(text, Union(ranges))
  {}

  /** A set has one such text. */
  lemma TextIsCanonical(text: string, text': string, numbers: set<nat>)
    requires ListsRanges(text, numbers) && ListsRanges(text', numbers)
    ensures text == text'
  {
    hide Maximal, Union, CommaJoined, Texts;
    var a :| Maximal(a) && Union(a) == numbers && text == CommaJoined(Texts(a));
    var b :| Maximal(b) && Union(b) == numbers && text' == CommaJoined(Texts(b));
    RangesAreUnique(a, b);
  }

  /** The text names the set of numbers, whatever their order and repetition, by its maximal ranges. */
  method CompressCpuList(cpus: seq<nat>) returns (text: string)
    ensures ListsRanges(text, AsSet(cpus))
  {
    hide Seen, Maximal, Union, CommaJoined, RangeText, Texts, ListsRanges;
    var values := Sorted(AsSet(cpus));
    if values == [] {
      EmptyList();
      RangesListed("", []);
      assert AsSet(cpus) == {} == Union([]);
      return "";
    }
    var texts: seq<string> := [];
    assert Texts([]) == [];
    var start, previous := values[0], values[0];
    ghost var ranges: seq<Range> := [];
    FirstSeen(values);
    for i := 1 to |values|
      invariant Seen(values, i, ranges, start, previous) && texts == Texts(ranges)
    {
      SeenMore(values, i, ranges, start, previous);
      if values[i] == previous + 1 {
        previous := values[i];
        continue;
      }
      TextsMore(ranges, Range(start, previous));
      texts := texts + [RangeText(Range(start, previous))];
      ranges := ranges + [Range(start, previous)];
      start, previous := values[i], values[i];
    }
    TextsMore(ranges, Range(start, previous));
    texts := texts + [RangeText(Range(start, previous))];
    AllSeen(values, ranges, start, previous);
    ranges := ranges + [Range(start, previous)];
    text := CommaJoined(texts);
    RangesListed(text, ranges);
  }

  lemma EmptyList()
    ensures Maximal([]) && Union([]) == {} && CommaJoined(Texts([])) == ""
  {}

  lemma AllSeen(values: seq<nat>, ranges: seq<Range>, start: nat, previous: nat)
    requires Seen(values, |values|, ranges, start, previous)
    ensures Maximal(ranges + [Range(start, previous)]) && Union(ranges + [Range(start, previous)]) == AsSet(values)
  {
    assert values[..|values|] == values;
  }

  // ---------------------------------------------------------------- parsing

  predicate IsSpace(c: char)
  {
    c == ' ' || '\U{09}' <= c <= '\U{0d}' || '\U{1c}' <= c <= '\U{1f}'
  }

  function LeftStripped(s: string): (r: string)
    ensures |r| <= |s|
  {
    if s != [] && IsSpace(s[0]) then LeftStripped(s[1..]) else s
  }

  function RightStripped(s: string): (r: string)
    ensures |r| <= |s|
  {
    if s != [] && IsSpace(s[|s| - 1]) then RightStripped(s[..|s| - 1]) else s
  }

  function Stripped(s: string): string
  {
    RightStripped(LeftStripped(s))
  }

  /** The fields between the separators, as Python splits a text. */
  function Split(s: string, separator: char): (parts: seq<string>)
    ensures parts != []
  {
    if s == [] then [[]]
    else
      var rest := Split(s[1..], separator);
      if s[0] == separator then [[]] + rest else [[s[0]] + rest[0]] + rest[1..]
  }

  function FirstDash(s: string): (n: nat)
    ensures n <= |s| && (n < |s| ==> s[n] == '-') && forall i | 0 <= i < n :: s[i] != '-'
  {
    if s == [] || s[0] == '-' then 0 else 1 + FirstDash(s[1..])
  }

  /** Digits, with single underscores between them. */
  predicate DigitGroups(s: string)
  {
    && s != [] && s[0] != '_' && s[|s| - 1] != '_'
    && (forall i | 0 <= i < |s| :: IsDigit(s[i]) || s[i] == '_')
    && (forall i | 0 <= i < |s| - 1 :: s[i] == '_' ==> s[i + 1] != '_')
  }

  function WithoutUnderscores(s: string): (r: string)
    requires forall i | 0 <= i < |s| :: IsDigit(s[i]) || s[i] == '_'
    ensures AllDigits(r)
  {
    if s == [] then [] else if s[0] == '_' then WithoutUnderscores(s[1..]) else [s[0]] + WithoutUnderscores(s[1..])
  }

  function Magnitude(digits: string): nat
    requires DigitGroups(digits)
  {
    Value(WithoutUnderscores(digits))
  }

  /** How Python reads an integer from ASCII text. */
  function ParseInt(text: string): Option<int>
  {
    var s := Stripped(text);
    var signed := s != [] && (s[0] == '-' || s[0] == '+');
    var digits := if signed then s[1..] else s;
    if !DigitGroups(digits) then None
    else
      var magnitude: int := Magnitude(digits);
      Some(if signed && s[0] == '-' then 0 - magnitude else magnitude)
  }

  /** One field: a number or two numbers around a dash. */
  function ParseField(text: string): Option<Range>
  {
    var s := Stripped(text);
    var n := FirstDash(s);
    var lo := ParseInt(s[..n]);
    var hi := if n < |s| then ParseInt(s[n + 1..]) else lo;
    if lo.Some? && hi.Some? && 0 <= lo.value <= hi.value then Some(Range(lo.value, hi.value)) else None
  }

  function ParseFields(fields: seq<string>): Option<seq<Range>>
  {
    if fields == [] then Some([])
    else
      var front, last := ParseFields(fields[..|fields| - 1]), ParseField(fields[|fields| - 1]);
      if front.Some? && last.Some? then Some(front.value + [last.value]) else None
  }

  lemma {:induction false} OneBadField(fields: seq<string>, n: nat)
    requires n <= |fields| && ParseFields(fields[..n]).None?
    ensures ParseFields(fields).None?
    decreases |fields|
  {
    if n < |fields| {
      assert fields[..|fields| - 1][..n] == fields[..n];
      OneBadField(fields[..|fields| - 1], n);
    } else {
      assert fields[..n] == fields;
    }
  }

  /** The set is the union of the fields' ranges; any bad field rejects the whole list. */
  method ParseCpuSet(value: Option<string>) returns (cpus: Option<set<nat>>)
    ensures cpus == if value.None? || Stripped(value.value) == "" || ParseFields(Split(value.value, ',')).None? then None
                    else Some(Union(ParseFields(Split(value.value, ',')).value))
  {
    if value.None? || Stripped(value.value) == "" { return None; }
    hide Split, ParseField, Stripped;
    var fields := Split(value.value, ',');
    var found: set<nat> := {};
    assert fields[..0] == [];
    for i := 0 to |fields|
      invariant ParseFields(fields[..i]).Some? && found == Union(ParseFields(fields[..i]).value)
    {
      assert fields[..i + 1][..i] == fields[..i];
      var r := ParseField(fields[i]);
      if r.None? {
        OneBadField(fields, i + 1);
        return None;
      }
      MoreRange(ParseFields(fields[..i]).value, r.value.lo, r.value.hi);
      found := found + Members(r.value);
    }
    assert fields[..|fields|] == fields;
    return Some(found);
  }

  // ---------------------------------------------------------------- the round trip

  lemma NothingToStrip(s: string)
    requires s != [] && !IsSpace(s[0]) && !IsSpace(s[|s| - 1])
    ensures Stripped(s) == s
  {}

  lemma {:induction false} NoUnderscores(s: string)
    requires AllDigits(s)
    ensures WithoutUnderscores(s) == s
  {
    if s != [] { NoUnderscores(s[1..]); }
  }

  lemma DecimalIsPlain(n: nat)
    ensures var s := Decimal(n); DigitGroups(s) && Stripped(s) == s && s[0] != '-' && s[0] != '+' && FirstDash(s) == |s|
  {
    hide Decimal;
    NothingToStrip(Decimal(n));
    FirstDashIs(Decimal(n), |Decimal(n)|);
  }

  lemma ParseDecimal(n: nat)
    ensures ParseInt(Decimal(n)) == Some(n)
  {
    hide Decimal, Stripped, Value, WithoutUnderscores, DigitGroups, FirstDash;
    DecimalIsPlain(n);
    NoUnderscores(Decimal(n));
    ValueOfDecimal(n);
  }

  lemma {:induction false} FirstDashIs(s: string, n: nat)
    requires n <= |s| && (n < |s| ==> s[n] == '-') && forall i | 0 <= i < n :: s[i] != '-'
    ensures FirstDash(s) == n
    decreases n
  {
    if n > 0 { FirstDashIs(s[1..], n - 1); }
  }

  lemma FieldOfRange(r: Range)
    requires r.lo <= r.hi
    ensures ParseField(RangeText(r)) == Some(r)
  {
    var s, lo := RangeText(r), Decimal(r.lo);
    RangeTextShape(r);
    hide Decimal, ParseInt, Stripped, IsSpace, NoComma;
    ParseDecimal(r.lo);
    ParseDecimal(r.hi);
    NothingToStrip(s);
    if r.lo == r.hi {
      DecimalIsPlain(r.lo);
      assert s[..|s|] == s;
    } else {
      assert s[..|lo|] == lo && s[|lo| + 1..] == Decimal(r.hi);
      FirstDashIs(s, |lo|);
    }
  }

  predicate NoComma(s: string)
  {
    forall i | 0 <= i < |s| :: s[i] != ','
  }

  lemma {:induction false} SplitOne(s: string)
    requires NoComma(s)
    ensures Split(s, ',') == [s]
  {
    if s != [] {
      SplitOne(s[1..]);
      assert s == [s[0]] + s[1..];
    }
  }

  lemma {:induction false} SplitFirst(s: string, rest: string)
    requires NoComma(s)
    ensures Split(s + "," + rest, ',') == [s] + Split(rest, ',')
  {
    var all := s + "," + rest;
    if s == [] {
      assert all[1..] == rest;
    } else {
      SplitFirst(s[1..], rest);
      assert all[1..] == s[1..] + "," + rest;
      assert s == [s[0]] + s[1..];
    }
  }

  lemma {:induction false} SplitOfJoined(texts: seq<string>)
    requires texts != [] && forall t | t in texts :: NoComma(t)
    ensures Split(CommaJoined(texts), ',') == texts
  {
    hide Split, NoComma;
    assert texts[0] in texts;
    if |texts| == 1 {
      SplitOne(texts[0]);
    } else {
      assert forall t | t in texts[1..] :: t in texts;
      SplitFirst(texts[0], CommaJoined(texts[1..]));
      SplitOfJoined(texts[1..]);
    }
  }

  lemma FieldsMore(fields: seq<string>, last: string)
    ensures ParseFields(fields + [last]) ==
            if ParseFields(fields).Some? && ParseField(last).Some? then Some(ParseFields(fields).value + [ParseField(last).value]) else None
  {
    assert (fields + [last])[..|fields|] == fields;
  }

  lemma {:induction false} FieldsOfRanges(ranges: seq<Range>)
    requires forall k | 0 <= k < |ranges| :: ranges[k].lo <= ranges[k].hi
    ensures ParseFields(Texts(ranges)) == Some(ranges)
  {
    hide ParseField, RangeText;
    if ranges != [] {
      var front, last := ranges[..|ranges| - 1], ranges[|ranges| - 1];
      FieldsOfRanges(front);
      assert ranges == front + [last];
      TextsMore(front, last);
      FieldOfRange(last);
      hide ParseFields, Texts;
      FieldsMore(Texts(front), RangeText(last));
    }
  }

  lemma RangeTextShape(r: Range)
    ensures NoComma(RangeText(r)) && RangeText(r) != [] && !IsSpace(RangeText(r)[0]) && !IsSpace(RangeText(r)[|RangeText(r)| - 1])
  {}

  /** The last character of the joined text is the last range's. */
  lemma {:induction false} JoinedShape(ranges: seq<Range>)
    requires ranges != []
    ensures var s := CommaJoined(Texts(ranges)); s != [] && !IsSpace(s[0]) && !IsSpace(s[|s| - 1])
  {
    hide IsSpace, RangeText;
    RangeTextShape(ranges[0]);
    if |ranges| > 1 {
      JoinedShape(ranges[1..]);
      assert Texts(ranges)[1..] == Texts(ranges[1..]);
    }
  }

  /** Parsing what was printed gives the set back. */
  method RoundTrip(cpus: seq<nat>) returns (parsed: Option<set<nat>>)
    requires cpus != []
    ensures parsed == Some(AsSet(cpus))
  {
    hide Split, ParseFields, Stripped, IsSpace;
    var text := CompressCpuList(cpus);
    ghost var ranges :| Maximal(ranges) && Union(ranges) == AsSet(cpus) && text == CommaJoined(Texts(ranges));
    assert ranges != [] by {
      assert cpus[0] in AsSet(cpus);
      EmptyList();
    }
    JoinedShape(ranges);
    NothingToStrip(text);
    forall t | t in Texts(ranges) ensures NoComma(t) {
      var k :| 0 <= k < |ranges| && Texts(ranges)[k] == t;
      RangeTextShape(ranges[k]);
    }
    SplitOfJoined(Texts(ranges));
    FieldsOfRanges(ranges);
    parsed := ParseCpuSet(Some(text));
  }
}
