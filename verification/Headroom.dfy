/** Order statistics of a benchmark: nearest-rank percentile, the headroom verdict and the median run. */
module Headroom {
  import opened Options

  /** A measured value and the number of the sample or run it belongs to. */
  datatype Measured = Measured(number: nat, value: real)

  // ---------------------------------------------------------------- sorting and counting

  ghost predicate Ordered(s: seq<Measured>)
  {
    forall i, j | 0 <= i < j < |s| :: s[i].value <= s[j].value
  }

  datatype Side = Below | AtMost | AtLeast

  predicate On(side: Side, value: real, bound: real)
  {
    match side
    case Below => value < bound
    case AtMost => value <= bound
    case AtLeast => value >= bound
  }

  /** How many values lie on a side of the bound. */
  function Count(s: seq<Measured>, side: Side, bound: real): (n: nat)
    ensures n <= |s|
  {
    if s == [] then 0 else Count(s[..|s| - 1], side, bound) + if On(side, s[|s| - 1].value, bound) then 1 else 0
  }

  lemma {:induction false} CountTogether(a: seq<Measured>, b: seq<Measured>, side: Side, bound: real)
    ensures Count(a + b, side, bound) == Count(a, side, bound) + Count(b, side, bound)
    decreases |b|
  {
    hide On;
    if b == [] {
      assert a + b == a;
    } else {
      CountTogether(a, b[..|b| - 1], side, bound);
      assert (a + b)[..|a + b| - 1] == a + b[..|b| - 1];
    }
  }

  lemma Removed(front: seq<Measured>, last: Measured, b: seq<Measured>) returns (before: seq<Measured>,
          after: seq<Measured>)
    requires multiset(front + [last]) == multiset(b)
    ensures b == before + [last] + after && multiset(front) == multiset(before + after)
  {
    assert last in multiset(b);
    var k :| 0 <= k < |b| && b[k] == last;
    before, after := b[..k], b[k + 1..];
    assert b == before + [last] + after;
    assert multiset(front) == multiset(front + [last]) - multiset{last};
    assert multiset(before + after) == multiset(before + [last] + after) - multiset{last};
  }

  /** A count does not depend on the order. */
  lemma {:induction false} CountReordered(a: seq<Measured>, b: seq<Measured>, side: Side, bound: real)
    requires multiset(a) == multiset(b)
    ensures Count(a, side, bound) == Count(b, side, bound)
    decreases |a|
  {
    hide Count, On;
    if a == [] {
      assert |multiset(a)| == |multiset(b)|;
    } else {
      var front, last := a[..|a| - 1], a[|a| - 1];
      assert a == front + [last];
      var before, after := Removed(front, last, b);
      CountReordered(front, before + after, side, bound);
      CountTogether(before, after, side, bound);
      CountTogether(before + [last], after, side, bound);
      CountTogether(before, [last], side, bound);
      CountTogether(front, [last], side, bound);
    }
  }

  lemma InsertedInOrder(s: seq<Measured>, k: nat, x: Measured, r: seq<Measured>)
    requires Ordered(s) && k <= |s| && r == s[..k] + [x] + s[k..]
    requires k > 0 ==> s[k - 1].value <= x.value
    requires forall i | k <= i < |s| :: x.value < s[i].value
    ensures Ordered(r)
  {
    assert forall i | 0 <= i < k :: r[i] == s[i] && s[i].value <= x.value;
    assert r[k] == x && forall i | k <= i < |s| :: r[i + 1] == s[i];
    forall i, j | 0 <= i < j < |r| ensures r[i].value <= r[j].value {
      if i > k { assert r[i] == s[i - 1] && r[j] == s[j - 1]; }
      if i <= k < j { assert r[j] == s[j - 1]; }
    }
  }

  method Insert(s: seq<Measured>, x: Measured) returns (r: seq<Measured>)
    requires Ordered(s)
    ensures Ordered(r) && multiset(r) == multiset(s) + multiset{x}
  {
    hide Ordered;
    var k := |s|;
    while k > 0 && x.value < s[k - 1].value
      invariant 0 <= k <= |s| && forall i | k <= i < |s| :: x.value < s[i].value
    {
      k := k - 1;
    }
    r := s[..k] + [x] + s[k..];
    assert s == s[..k] + s[k..];
    InsertedInOrder(s, k, x, r);
  }

  /** In ascending order of value. */
  method Sorted(values: seq<Measured>) returns (s: seq<Measured>)
    ensures Ordered(s) && multiset(s) == multiset(values) && |s| == |values|
  {
    s := [];
    for i := 0 to |values|
      invariant Ordered(s) && multiset(s) == multiset(values[..i])
    {
      s := Insert(s, values[i]);
      assert values[..i + 1] == values[..i] + [values[i]];
    }
    assert values[..|values|] == values;
    assert |s| == |multiset(s)| == |multiset(values)|;
  }

  lemma {:induction false} CountAll(s: seq<Measured>, side: Side, bound: real)
    requires forall i | 0 <= i < |s| :: On(side, s[i].value, bound)
    ensures Count(s, side, bound) == |s|
  {
    if s != [] { CountAll(s[..|s| - 1], side, bound); }
  }

  lemma {:induction false} CountNone(s: seq<Measured>, side: Side, bound: real)
    requires forall i | 0 <= i < |s| :: !On(side, s[i].value, bound)
    ensures Count(s, side, bound) == 0
  {
    if s != [] { CountNone(s[..|s| - 1], side, bound); }
  }

  /** In an ordered list the element at a rank is below a bound exactly when at least that many are. */
  lemma RankBelow(s: seq<Measured>, rank: nat, bound: real)
    requires Ordered(s) && 1 <= rank <= |s|
    ensures s[rank - 1].value < bound <==> Count(s, Below, bound) >= rank
  {
    hide Count;
    if s[rank - 1].value < bound {
      CountAll(s[..rank], Below, bound);
      assert s == s[..rank] + s[rank..];
      CountTogether(s[..rank], s[rank..], Below, bound);
    } else {
      CountNone(s[rank - 1..], Below, bound);
      assert s == s[..rank - 1] + s[rank - 1..];
      CountTogether(s[..rank - 1], s[rank - 1..], Below, bound);
    }
  }

  // ---------------------------------------------------------------- the percentile and the verdict

  /** The nearest rank: the least positive number that is at least 95 percent of `n`. */
  function Rank95(n: nat): (rank: nat)
    requires n > 0
    ensures 1 <= rank <= n && 20 * (rank - 1) < 19 * n <= 20 * rank
  {
    (19 * n + 19) / 20
  }

  /** The 95th percentile by nearest rank: what it is below, that many samples are below. */
  method Percentile95(values: seq<Measured>) returns (p: Option<real>)
    ensures p.None? <==> values == []
    ensures p.Some? ==> exists m | m in values :: m.value == p.value
    ensures p.Some? ==> forall bound: real :: p.value < bound <==> Count(values, Below, bound) >= Rank95(|values|)
  {
    if values == [] { return None; }
    hide Ordered, Count;
    var s := Sorted(values);
    var rank := Rank95(|values|);
    p := Some(s[rank - 1].value);
    assert s[rank - 1] in multiset(s);
    assert s[rank - 1] in values;
    forall bound: real ensures s[rank - 1].value < bound <==> Count(values, Below, bound) >= rank {
      RankBelow(s, rank, bound);
      CountReordered(s, values, Below, bound);
    }
  }

  /** Enough samples stay below the allowed share of the capacity. */
  predicate Roomy(values: seq<Measured>, capacity: real, threshold: real)
    requires values != []
  {
    Count(values, Below, threshold * capacity) >= Rank95(|values|)
  }

  lemma RatioBelow(p: real, capacity: real, threshold: real)
    requires capacity > 0.0
    ensures p / capacity < threshold <==> p < threshold * capacity
  {
    var ratio := p / capacity;
    assert p == ratio * capacity;
    if ratio < threshold { Scaled(ratio, threshold, capacity); } else { ScaledWeakly(threshold, ratio, capacity); }
  }

  lemma Scaled(a: real, b: real, c: real)
    requires a < b && c > 0.0
    ensures a * c < b * c
  {}

  lemma ScaledWeakly(a: real, b: real, c: real)
    requires a <= b && c > 0.0
    ensures a * c <= b * c
  {}

  datatype Verdict = Verdict(headroomExceeded: Option<bool>, valid: bool)

  /** The headroom part of `evaluate`: what the ratios of percentiles decide, the counts of samples decide. */
  method Evaluate(cpu: seq<Measured>, memory: seq<Measured>, cpuLimit: real, memoryLimit: nat, threshold: real,
                  collectionValid: bool, enforceHeadroom: bool)
    returns (v: Verdict)
    requires cpuLimit > 0.0 && memoryLimit > 0
    ensures v.headroomExceeded.None? <==> cpu == [] || memory == []
    ensures v.headroomExceeded.Some? ==>
      (v.headroomExceeded.value <==> !Roomy(cpu, cpuLimit * 100.0, threshold) || !Roomy(memory, memoryLimit as real, threshold))
    ensures v.valid <==> collectionValid && (enforceHeadroom ==> v.headroomExceeded != Some(true))
  {
    var cpu95 := Percentile95(cpu);
    var memory95 := Percentile95(memory);
    var exceeded: Option<bool> := None;
    if cpu95.Some? && memory95.Some? {
      var capacity := cpuLimit * 100.0;
      var cpuRatio, memoryRatio := cpu95.value / capacity, memory95.value / memoryLimit as real;
      RatioBelow(cpu95.value, capacity, threshold);
      RatioBelow(memory95.value, memoryLimit as real, threshold);
      exceeded := Some(cpuRatio >= threshold || memoryRatio >= threshold);
    }
    v := Verdict(exceeded, collectionValid && (if enforceHeadroom then exceeded != Some(true) else true));
  }

  // ---------------------------------------------------------------- the median run

  /** The middle run in ascending order: for an odd number of runs (n + 1) / 2 of them, itself included, lie on each side. */
  method SelectMedian(runs: seq<Measured>) returns (selected: Measured)
    requires runs != []
    ensures selected in runs
    ensures Count(runs, AtMost, selected.value) >= |runs| / 2 + 1
    ensures Count(runs, AtLeast, selected.value) >= |runs| - |runs| / 2
    ensures |runs| % 2 == 1 ==> Count(runs, AtMost, selected.value) >= (|runs| + 1) / 2 && Count(runs, AtLeast, selected.value) >= (|runs| + 1) / 2
  {
    hide Ordered, Count;
    var ranked := Sorted(runs);
    var middle := |runs| / 2;
    selected := ranked[middle];
    assert selected in multiset(ranked);
    MiddleCounts(ranked, middle);
    CountReordered(ranked, runs, AtMost, selected.value);
    CountReordered(ranked, runs, AtLeast, selected.value);
  }

  lemma MiddleCounts(s: seq<Measured>, k: nat)
    requires Ordered(s) && k < |s|
    ensures Count(s, AtMost, s[k].value) >= k + 1 && Count(s, AtLeast, s[k].value) >= |s| - k
  {
    hide Count;
    CountAll(s[..k + 1], AtMost, s[k].value);
    assert s == s[..k + 1] + s[k + 1..];
    CountTogether(s[..k + 1], s[k + 1..], AtMost, s[k].value);
    CountAll(s[k..], AtLeast, s[k].value);
    assert s == s[..k] + s[k..];
    CountTogether(s[..k], s[k..], AtLeast, s[k].value);
  }
}
