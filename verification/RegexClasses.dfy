/** Code-point ranges of the regular-expression engine (`src/core/regex.cpp`). */
module RegexClasses {

  const MAX_CODE_POINT: nat := 0x10FFFF

  datatype Range = Range(first: nat, last: nat)

  /** The ranges the parser builds: in order and inside Unicode. */
  predicate Proper(r: Range) { r.first <= r.last <= MAX_CODE_POINT }

  predicate AllProper(ranges: seq<Range>) { forall i | 0 <= i < |ranges| :: Proper(ranges[i]) }

  predicate Covers(r: Range, c: int) { r.first <= c <= r.last }

  /** Membership in the union, which is what a character class means. */
  predicate In(ranges: seq<Range>, c: int)
  {
    exists i :: 0 <= i < |ranges| && Covers(ranges[i], c)
  }

  predicate SortedByFirst(ranges: seq<Range>)
  {
    forall i, j | 0 <= i < j < |ranges| :: ranges[i].first <= ranges[j].first
  }

  /** Ascending, disjoint and not even adjacent: the unique shortest list for its set. */
  predicate Canonical(ranges: seq<Range>)
  {
    && AllProper(ranges)
    && forall i, j | 0 <= i < j < |ranges| :: ranges[i].last + 1 < ranges[j].first
  }

  function Insert(r: Range, sorted: seq<Range>): seq<Range>
  {
    if sorted == [] || r.first <= sorted[0].first then [r] + sorted
    else [sorted[0]] + Insert(r, sorted[1..])
  }

  /** `std::sort` by `first`. */
  function Sort(ranges: seq<Range>): seq<Range>
  {
    if ranges == [] then [] else Insert(ranges[0], Sort(ranges[1..]))
  }

  lemma {:induction false} InsertSorts(r: Range, sorted: seq<Range>)
    requires SortedByFirst(sorted)
    ensures SortedByFirst(Insert(r, sorted))
    ensures forall x :: x in Insert(r, sorted) <==> x == r || x in sorted
  {
    if sorted != [] && r.first > sorted[0].first {
      var rest := Insert(r, sorted[1..]);
      InsertSorts(r, sorted[1..]);
      forall i | 0 <= i < |rest| ensures sorted[0].first <= rest[i].first {
        assert rest[i] in rest;
      }
    }
  }

  lemma {:induction false} SortSorts(ranges: seq<Range>)
    ensures SortedByFirst(Sort(ranges))
    ensures forall x :: x in Sort(ranges) <==> x in ranges
  {
    if ranges != [] {
      SortSorts(ranges[1..]);
      InsertSorts(ranges[0], Sort(ranges[1..]));
    }
  }

  lemma SameElements(a: seq<Range>, b: seq<Range>)
    requires forall x :: x in a <==> x in b
    ensures forall c :: In(a, c) <==> In(b, c)
    ensures AllProper(a) <==> AllProper(b)
  {
    forall c ensures In(a, c) <==> In(b, c) {
      if In(a, c) { var i :| 0 <= i < |a| && Covers(a[i], c); assert a[i] in b; }
      if In(b, c) { var i :| 0 <= i < |b| && Covers(b[i], c); assert b[i] in a; }
    }
    if AllProper(a) { forall i | 0 <= i < |b| ensures Proper(b[i]) { assert b[i] in a; } }
    if AllProper(b) { forall i | 0 <= i < |a| ensures Proper(a[i]) { assert a[i] in b; } }
  }

  /** Extending the last range or starting a new one both add exactly the next range's points. */
  lemma MergeStep(merged: seq<Range>, next: Range, c: int)
    requires merged != [] && Proper(next)
    requires merged[|merged| - 1].first <= next.first <= merged[|merged| - 1].last + 1
    ensures var last := merged[|merged| - 1];
            var top := if last.last < next.last then next.last else last.last;
            In(merged[|merged| - 1 := last.(last := top)], c) <==> In(merged, c) || Covers(next, c)
  {
    var n := |merged| - 1;
    var last := merged[n];
    var top := if last.last < next.last then next.last else last.last;
    var result := merged[n := last.(last := top)];
    if In(result, c) {
      var i :| 0 <= i < |result| && Covers(result[i], c);
      if i < n { assert Covers(merged[i], c); } else if c <= last.last { assert Covers(merged[n], c); }
    }
    if In(merged, c) {
      var i :| 0 <= i < |merged| && Covers(merged[i], c);
      assert Covers(result[i], c);
    }
    if Covers(next, c) { assert Covers(result[n], c); }
  }

  lemma AppendStep(ranges: seq<Range>, next: Range, c: int)
    ensures In(ranges + [next], c) <==> In(ranges, c) || Covers(next, c)
  {
    var result := ranges + [next];
    if In(result, c) {
      var i :| 0 <= i < |result| && Covers(result[i], c);
      if i < |ranges| { assert Covers(ranges[i], c); }
    }
    if In(ranges, c) {
      var i :| 0 <= i < |ranges| && Covers(ranges[i], c);
      assert Covers(result[i], c);
    }
    if Covers(next, c) { assert Covers(result[|ranges|], c); }
  }

  /** The next range either grows the last merged one or starts a new one. */
  function Merge(merged: seq<Range>, range: Range): seq<Range>
  {
    if merged != [] && range.first <= merged[|merged| - 1].last + 1 then
      var last := merged[|merged| - 1];
      merged[|merged| - 1 := last.(last := if last.last < range.last then range.last else last.last)]
    else merged + [range]
  }

  lemma MergeKeeps(merged: seq<Range>, range: Range)
    requires Canonical(merged) && Proper(range)
    requires merged != [] ==> merged[|merged| - 1].first <= range.first
    ensures Canonical(Merge(merged, range))
    ensures forall c :: In(Merge(merged, range), c) <==> In(merged, c) || Covers(range, c)
    ensures Merge(merged, range)[|Merge(merged, range)| - 1].first <= range.first
  {
    forall c ensures In(Merge(merged, range), c) <==> In(merged, c) || Covers(range, c) {
      if merged != [] && range.first <= merged[|merged| - 1].last + 1 {
        MergeStep(merged, range, c);
      } else {
        AppendStep(merged, range, c);
      }
    }
  }

  lemma NothingIn()
    ensures forall c :: !In([], c)
  {}

  lemma PrefixStep(ranges: seq<Range>, i: nat)
    requires i < |ranges|
    ensures forall c :: In(ranges[..i + 1], c) <==> In(ranges[..i], c) || Covers(ranges[i], c)
  {
    assert ranges[..i + 1] == ranges[..i] + [ranges[i]];
    forall c ensures In(ranges[..i + 1], c) <==> In(ranges[..i], c) || Covers(ranges[i], c) {
      AppendStep(ranges[..i], ranges[i], c);
    }
  }

  /** `normalize`: the same set of code points as a canonical list. */
  method Normalize(ranges: seq<Range>) returns (merged: seq<Range>)
    requires AllProper(ranges)
    ensures Canonical(merged)
    ensures forall c :: In(merged, c) <==> In(ranges, c)
  {
    hide In, Covers;
    var sorted := Sort(ranges);
    SortSorts(ranges);
    SameElements(sorted, ranges);
    merged := [];
    NothingIn();
    for i := 0 to |sorted|
      invariant Canonical(merged)
      invariant merged != [] ==> i > 0 && merged[|merged| - 1].first <= sorted[i - 1].first
      invariant forall c :: In(merged, c) <==> In(sorted[..i], c)
    {
      var range := sorted[i];
      MergeKeeps(merged, range);
      PrefixStep(sorted, i);
      if merged != [] && range.first <= merged[|merged| - 1].last + 1 {
        var last := merged[|merged| - 1];
        merged := merged[|merged| - 1 := last.(last := if last.last < range.last then range.last else last.last)];
      } else {
        merged := merged + [range];
      }
    }
    assert sorted[..|sorted|] == sorted;
  }

  function GapStart(merged: seq<Range>, i: nat): nat
    requires i <= |merged|
  {
    if i == 0 then 0 else merged[i - 1].last + 1
  }

  /** Between two neighbours of a canonical list lie no members. */
  lemma Gap(merged: seq<Range>, i: nat, c: int)
    requires Canonical(merged) && i <= |merged| && GapStart(merged, i) <= c
    requires i < |merged| ==> c <= merged[i].last
    ensures In(merged, c) <==> i < |merged| && merged[i].first <= c
  {
    if i < |merged| && merged[i].first <= c { assert Covers(merged[i], c); }
    if In(merged, c) {
      var k :| 0 <= k < |merged| && Covers(merged[k], c);
      if k < i - 1 { assert merged[k].last + 1 < merged[i - 1].first; }
      if i < |merged| && i < k { assert merged[i].last + 1 < merged[k].first; }
    }
  }

  lemma AppendCanonical(ranges: seq<Range>, next: Range)
    requires Canonical(ranges) && Proper(next)
    requires ranges != [] ==> ranges[|ranges| - 1].last + 1 < next.first
    ensures Canonical(ranges + [next])
  {}

  /** `complement`: every other code point, again canonical. */
  method Complement(ranges: seq<Range>) returns (result: seq<Range>)
    requires AllProper(ranges)
    ensures Canonical(result)
    ensures forall c :: 0 <= c <= MAX_CODE_POINT ==> (In(result, c) <==> !In(ranges, c))
  {
    var merged := Normalize(ranges);
    result := [];
    var next := 0;
    for i := 0 to |merged|
      invariant next == GapStart(merged, i)
      invariant Canonical(result)
      invariant result != [] ==> i > 0 && result[|result| - 1].last < merged[i - 1].first
      invariant forall c :: In(result, c) ==> 0 <= c < next
      invariant forall c :: 0 <= c < next ==> (In(result, c) <==> !In(merged, c))
    {
      var range := merged[i];
      forall c | next <= c <= range.last ensures In(merged, c) <==> range.first <= c { Gap(merged, i, c); }
      if range.first > next {
        var gap := Range(next, range.first - 1);
        forall c ensures In(result + [gap], c) <==> In(result, c) || Covers(gap, c) { AppendStep(result, gap, c); }
        AppendCanonical(result, gap);
        result := result + [gap];
      }
      next := range.last + 1;
    }
    forall c | next <= c ensures !In(merged, c) { Gap(merged, |merged|, c); }
    if next <= MAX_CODE_POINT {
      var gap := Range(next, MAX_CODE_POINT);
      forall c ensures In(result + [gap], c) <==> In(result, c) || Covers(gap, c) { AppendStep(result, gap, c); }
      AppendCanonical(result, gap);
      result := result + [gap];
    }
  }

  /** `contains`: the binary search on a canonical list decides membership. */
  method Contains(ranges: seq<Range>, c: nat) returns (found: bool)
    requires Canonical(ranges)
    ensures found <==> In(ranges, c)
  {
    // Binary search for the first range that starts above c.
    var low, high := 0, |ranges|;
    while low < high
      invariant 0 <= low <= high <= |ranges|
      invariant forall i :: 0 <= i < low ==> ranges[i].first <= c
      invariant forall i :: high <= i < |ranges| ==> c < ranges[i].first
    {
      var middle := (low + high) / 2;
      if c < ranges[middle].first {
        high := middle;
      } else {
        low := middle + 1;
      }
    }
    found := low != 0 && c <= ranges[low - 1].last;
    OnlyCandidate(ranges, low, c);
  }

  lemma OnlyCandidate(ranges: seq<Range>, n: nat, c: nat)
    requires Canonical(ranges) && n <= |ranges|
    requires forall i :: 0 <= i < n ==> ranges[i].first <= c
    requires forall i :: n <= i < |ranges| ==> c < ranges[i].first
    ensures In(ranges, c) <==> n != 0 && c <= ranges[n - 1].last
  {
    if n != 0 && c <= ranges[n - 1].last { assert Covers(ranges[n - 1], c); }
    forall k | 0 <= k < |ranges| && Covers(ranges[k], c) ensures k == n - 1 {}
  }

  lemma {:induction false} CanonicalBounds(ranges: seq<Range>, i: nat)
    requires Canonical(ranges) && i < |ranges|
    ensures ranges[i].first != 0 ==> !In(ranges, ranges[i].first - 1)
    ensures !In(ranges, ranges[i].last + 1)
  {
    forall k | 0 <= k < |ranges|
      ensures (ranges[i].first != 0 ==> !Covers(ranges[k], ranges[i].first - 1)) && !Covers(ranges[k], ranges[i].last + 1)
    {
      if k < i { assert ranges[k].last + 1 < ranges[i].first; }
      if i < k { assert ranges[i].last + 1 < ranges[k].first; }
    }
  }

  /** A canonical list is determined by the set it stands for. */
  lemma {:induction false} CanonicalUnique(a: seq<Range>, b: seq<Range>)
    requires Canonical(a) && Canonical(b)
    requires forall c :: In(a, c) <==> In(b, c)
    ensures a == b
  {
    if a != [] && b != [] {
      FirstRangeEqual(a, b);
      DropFirst(a);
      DropFirst(b);
      CanonicalUnique(a[1..], b[1..]);
      assert a == [a[0]] + a[1..] && b == [b[0]] + b[1..];
    } else {
      if b == [] { EmptyOrNot(a, b); } else { EmptyOrNot(b, a); }
    }
  }

  lemma FirstIsMember(a: seq<Range>)
    requires Canonical(a) && a != []
    ensures In(a, a[0].first)
  {
    assert Covers(a[0], a[0].first);
  }

  lemma EmptyOrNot(a: seq<Range>, b: seq<Range>)
    requires Canonical(a) && b == []
    requires forall c :: In(a, c) ==> In(b, c)
    ensures a == []
  {
    if a != [] { FirstIsMember(a); }
  }

  lemma DropFirst(a: seq<Range>)
    requires Canonical(a) && a != []
    ensures Canonical(a[1..])
    ensures forall c :: In(a[1..], c) <==> In(a, c) && c > a[0].last
  {
    forall c ensures In(a[1..], c) <==> In(a, c) && c > a[0].last {
      if In(a[1..], c) {
        var i :| 0 <= i < |a[1..]| && Covers(a[1..][i], c);
        assert Covers(a[i + 1], c);
        assert a[0].last + 1 < a[i + 1].first;
      }
      if In(a, c) && c > a[0].last {
        var i :| 0 <= i < |a| && Covers(a[i], c);
        assert Covers(a[1..][i - 1], c);
      }
    }
  }

  lemma FirstRangeEqual(a: seq<Range>, b: seq<Range>)
    requires Canonical(a) && Canonical(b) && a != [] && b != []
    requires forall c :: In(a, c) <==> In(b, c)
    ensures a[0] == b[0]
  {
    FirstRangeStarts(a, b);
    FirstRangeStarts(b, a);
    if a[0].last < b[0].last {
      CanonicalBounds(a, 0);
    } else if b[0].last < a[0].last {
      CanonicalBounds(b, 0);
    }
  }

  lemma FirstRangeStarts(a: seq<Range>, b: seq<Range>)
    requires Canonical(a) && Canonical(b) && a != [] && b != []
    requires forall c :: In(a, c) <==> In(b, c)
    ensures b[0].first <= a[0].first
  {
    assert Covers(a[0], a[0].first);
    assert In(b, a[0].first);
    var i :| 0 <= i < |b| && Covers(b[i], a[0].first);
    if i > 0 { assert b[0].last + 1 < b[i].first; }
  }
}
