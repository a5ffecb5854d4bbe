/** The counterbalanced benchmark schedule (`benchmark/benchmark_order.py`); the shuffle is any permutation. */
module Schedule {
  import opened Options

  type Order = seq<nat>

  predicate Distinct<T(==)>(s: seq<T>)
  {
    forall i, j | 0 <= i < j < |s| :: s[i] != s[j]
  }

  /** The position of the first `x`. */
  function Index<T(==)>(order: seq<T>, x: T): (k: nat)
    requires x in order
    ensures k < |order| && order[k] == x
  {
    if order[0] == x then 0 else 1 + Index(order[1..], x)
  }

  lemma {:induction false} IndexIs<T>(order: seq<T>, k: nat)
    requires Distinct(order) && k < |order|
    ensures Index(order, order[k]) == k
  {}

  function Forward(n: nat): (order: Order)
    ensures |order| == n && forall k | 0 <= k < n :: order[k] == k
  {
    seq(n, k requires 0 <= k < n => k)
  }

  function Backward(n: nat): (order: Order)
    ensures |order| == n && forall k | 0 <= k < n :: order[k] == n - 1 - k
  {
    seq(n, k requires 0 <= k < n => n - 1 - k)
  }

  function Rotated<T>(order: seq<T>, shift: nat): seq<T>
    requires shift <= |order|
  {
    order[shift..] + order[..shift]
  }

  /** Every index stands at three different positions. */
  predicate ThreePositions(n: nat, a: Order, b: Order, c: Order)
    requires forall i | 0 <= i < n :: i in a && i in b && i in c
  {
    forall i | 0 <= i < n :: Index(a, i) != Index(b, i) && Index(a, i) != Index(c, i) && Index(b, i) != Index(c, i)
  }

  lemma RotatedAt<T>(order: seq<T>, shift: nat, k: nat)
    requires shift <= |order| && k < |order|
    ensures Rotated(order, shift)[k] == order[if k + shift < |order| then k + shift else k + shift - |order|]
    ensures |Rotated(order, shift)| == |order|
  {}

  lemma InForward(n: nat, shift: nat)
    requires shift <= n
    ensures forall i | 0 <= i < n :: i in Forward(n) && i in Backward(n) && i in Rotated(Forward(n), shift)
  {
    forall i: nat | i < n ensures i in Forward(n) && i in Backward(n) && i in Rotated(Forward(n), shift) {
      assert Forward(n)[i] == i && Backward(n)[n - 1 - i] == i;
      RotatedAt(Forward(n), shift, if i >= shift then i - shift else i + n - shift);
    }
  }

  datatype Rounds = Rounds(first: Order, second: Order, third: Order)

  predicate Works(n: nat, shift: nat)
    requires shift <= n
  {
    InForward(n, shift);
    ThreePositions(n, Forward(n), Backward(n), Rotated(Forward(n), shift))
  }

  /** The loop over the shifts: the smallest that works. */
  function FirstShift(n: nat, shift: nat): (r: Option<nat>)
    requires 1 <= shift <= n || n == 0
    ensures r.Some? ==> shift <= r.value < n && Works(n, r.value)
    decreases n - shift
  {
    if n == 0 || shift == n then None
    else if Works(n, shift) then Some(shift)
    else FirstShift(n, shift + 1)
  }

  function ThreeRoundIndices(n: nat): Option<Rounds>
  {
    var shift := FirstShift(n, 1);
    if shift.Some? then Some(Rounds(Forward(n), Backward(n), Rotated(Forward(n), shift.value))) else None
  }

  // ---------------------------------------------------------------- when three rounds counterbalance

  /** Where index `i` stands in the three rounds. */
  lemma Positions(n: nat, shift: nat, i: nat)
    requires 1 <= shift < n && i < n
    ensures i in Forward(n) && i in Backward(n) && i in Rotated(Forward(n), shift)
    ensures Index(Forward(n), i) == i && Index(Backward(n), i) == n - 1 - i
    ensures Index(Rotated(Forward(n), shift), i) == if i >= shift then i - shift else i + n - shift
  {
    InForward(n, shift);
    IndexIs(Forward(n), i);
    IndexIs(Backward(n), n - 1 - i);
    var rotated := Rotated(Forward(n), shift);
    forall j: nat, k: nat | j < k < n ensures rotated[j] != rotated[k] {
      RotatedAt(Forward(n), shift, j);
      RotatedAt(Forward(n), shift, k);
    }
    var k := if i >= shift then i - shift else i + n - shift;
    RotatedAt(Forward(n), shift, k);
    IndexIs(rotated, k);
  }

  lemma OddFails(n: nat, shift: nat)
    requires 1 <= shift < n && n % 2 == 1
    ensures !Works(n, shift)
  {
    Positions(n, shift, n / 2);
    InForward(n, shift);
    assert Index(Forward(n), n / 2) == Index(Backward(n), n / 2);
  }

  lemma OddShiftFails(n: nat, shift: nat)
    requires 1 <= shift < n && shift % 2 == 1
    ensures !Works(n, shift)
  {
    Positions(n, shift, shift / 2);
    InForward(n, shift);
    assert Index(Backward(n), shift / 2) == Index(Rotated(Forward(n), shift), shift / 2);
  }

  lemma TwoWorks(n: nat)
    requires 4 <= n && n % 2 == 0
    ensures Works(n, 2)
  {
    InForward(n, 2);
    hide Index, Rotated;
    forall i: nat | i < n
      ensures Index(Forward(n), i) != Index(Backward(n), i) && Index(Forward(n), i) != Index(Rotated(Forward(n), 2), i)
           && Index(Backward(n), i) != Index(Rotated(Forward(n), 2), i)
    {
      Positions(n, 2, i);
      Parity(n, i);
    }
  }

  lemma Parity(n: nat, i: nat)
    requires n % 2 == 0
    ensures i != n - 1 - i && n - 1 - i != i - 2 && n - 1 - i != i + n - 2
  {}

  lemma {:induction false} OddHasNoShift(n: nat, shift: nat)
    requires n % 2 == 1 && 1 <= shift <= n
    ensures FirstShift(n, shift) == None
    decreases n - shift
  {
    hide Works;
    if shift < n {
      OddFails(n, shift);
      OddHasNoShift(n, shift + 1);
    }
  }

  /** Three rounds counterbalance exactly an even number of at least four servers, by a rotation of two. */
  lemma ThreeRoundsIffEven(n: nat)
    ensures ThreeRoundIndices(n).Some? <==> n >= 4 && n % 2 == 0
    ensures ThreeRoundIndices(n).Some? ==> ThreeRoundIndices(n).value == Rounds(Forward(n), Backward(n), Rotated(Forward(n), 2))
  {
    hide Works;
    if n % 2 == 1 {
      OddHasNoShift(n, 1);
    } else if n > 0 {
      OddShiftFails(n, 1);
      if n >= 4 {
        TwoWorks(n);
        assert FirstShift(n, 2) == Some(2);
      } else {
        assert FirstShift(n, 2) == None;
      }
    }
  }

  // ---------------------------------------------------------------- the schedule

  function Picked<T>(base: seq<T>, order: Order): (r: seq<T>)
    requires forall k | 0 <= k < |order| :: order[k] < |base|
    ensures |r| == |order| && forall k | 0 <= k < |r| :: r[k] == base[order[k]]
  {
    seq(|order|, k requires 0 <= k < |order| => base[order[k]])
  }

  const FIVE := Rounds([0, 1, 2, 3, 4], [1, 2, 3, 4, 0], [4, 3, 0, 2, 1])

  /** The rounds used for `n` servers when there are three. */
  function RoundsFor(n: nat): Option<Rounds>
  {
    if n == 5 then Some(FIVE) else ThreeRoundIndices(n)
  }

  predicate IsPermutation(order: Order, n: nat)
  {
    |order| == n && Distinct(order) && forall k | 0 <= k < n :: order[k] < n
  }

  lemma FiveArePermutations()
    ensures IsPermutation(FIVE.first, 5) && IsPermutation(FIVE.second, 5) && IsPermutation(FIVE.third, 5)
  {}

  lemma RotationIsPermutation(n: nat, shift: nat)
    requires shift <= n
    ensures IsPermutation(Rotated(Forward(n), shift), n)
  {
    var rotated := Rotated(Forward(n), shift);
    forall k: nat | k < n ensures rotated[k] == if k + shift < n then k + shift else k + shift - n { RotatedAt(Forward(n), shift, k); }
  }

  lemma RoundsArePermutations(n: nat)
    requires RoundsFor(n).Some?
    ensures var r := RoundsFor(n).value; IsPermutation(r.first, n) && IsPermutation(r.second, n) && IsPermutation(r.third, n)
  {
    if n == 5 {
      FiveArePermutations();
    } else {
      hide FIVE, Rotated;
      ThreeRoundsIffEven(n);
      RotationIsPermutation(n, 2);
    }
  }

  /** `counterbalanced_orders` after the shuffle. */
  function Orders<T>(base: seq<T>, runs: nat): (orders: seq<seq<T>>)
    requires base != []
    ensures |orders| == runs
  {
    var n := |base|;
    if runs == 3 && RoundsFor(n).Some? then
      RoundsArePermutations(n);
      var r := RoundsFor(n).value;
      [Picked(base, r.first), Picked(base, r.second), Picked(base, r.third)]
    else seq(runs, offset requires 0 <= offset < runs => Rotated(base, offset % n))
  }

  predicate Before<T(==)>(order: seq<T>, a: T, b: T)
  {
    a in order && b in order && Index(order, a) < Index(order, b)
  }

  /** Server `base[i]` stands where index `i` stands. */
  lemma PickedIndex<T>(base: seq<T>, order: Order, k: nat)
    requires Distinct(base) && IsPermutation(order, |base|) && k < |order|
    ensures base[order[k]] in Picked(base, order) && Index(Picked(base, order), base[order[k]]) == k
  {
    var picked := Picked(base, order);
    assert Distinct(picked);
    assert picked[k] == base[order[k]];
    IndexIs(picked, k);
  }

  /** Where each server stands in the three rounds, read from the other side. */
  predicate Stands(r: Rounds, i: nat, p: nat, q: nat, s: nat)
  {
    && p < |r.first| && r.first[p] == i && q < |r.second| && r.second[q] == i && s < |r.third| && r.third[s] == i
    && p != q && p != s && q != s
  }

  lemma RoundsStand(n: nat, i: nat) returns (p: nat, q: nat, s: nat)
    requires RoundsFor(n).Some? && i < n
    ensures Stands(RoundsFor(n).value, i, p, q, s)
  {
    if n == 5 {
      p, q, s := i, if i == 0 then 4 else i - 1, if i == 0 then 2 else if i == 1 then 4 else if i == 2 then 3 else if i == 3 then 1 else 0;
    } else {
      ThreeRoundsIffEven(n);
      p, q, s := i, n - 1 - i, if i >= 2 then i - 2 else i + n - 2;
      RotatedAt(Forward(n), 2, s);
      Parity(n, i);
    }
  }

  /** With three rounds every server gets three different positions. */
  lemma ThreeDistinctPositions<T>(base: seq<T>, x: T)
    requires Distinct(base) && RoundsFor(|base|).Some? && x in base
    ensures var o := Orders(base, 3);
            && x in o[0] && x in o[1] && x in o[2]
            && Index(o[0], x) != Index(o[1], x) && Index(o[0], x) != Index(o[2], x) && Index(o[1], x) != Index(o[2], x)
  {
    var n := |base|;
    RoundsArePermutations(n);
    var r := RoundsFor(n).value;
    var i := Index(base, x);
    var p, q, s := RoundsStand(n, i);
    hide RoundsFor, FIVE;
    PickedIndex(base, r.first, p);
    PickedIndex(base, r.second, q);
    PickedIndex(base, r.third, s);
  }

  /** In one of the two rounds `i` stands before `j`, and in the other after it. */
  predicate Leads(order: Order, i: nat, j: nat)
  {
    exists p, q :: 0 <= p < q < |order| && order[p] == i && order[q] == j
  }

  lemma LeadsAt(order: Order, p: nat, q: nat)
    requires p < q < |order|
    ensures Leads(order, order[p], order[q])
  {}

  lemma FiveLeads(i: nat, j: nat)
    requires i < j < 5
    ensures Leads(FIVE.second, j, i) || Leads(FIVE.third, j, i)
  {
    if i == 0 {
      LeadsAt(FIVE.second, j - 1, 4);
    } else {
      var p: nat := if j == 4 then 0 else if j == 3 then 1 else 3;
      var q: nat := if i == 3 then 1 else if i == 2 then 3 else 4;
      LeadsAt(FIVE.third, p, q);
    }
  }

  /** Every pair appears in both orders. */
  lemma IndexPairs(n: nat, i: nat, j: nat)
    requires RoundsFor(n).Some? && i < j < n
    ensures Leads(RoundsFor(n).value.first, i, j)
    ensures Leads(RoundsFor(n).value.second, j, i) || Leads(RoundsFor(n).value.third, j, i)
  {
    hide Leads;
    if n == 5 {
      LeadsAt(FIVE.first, i, j);
      FiveLeads(i, j);
    } else {
      ThreeRoundsIffEven(n);
      LeadsAt(Forward(n), i, j);
      LeadsAt(Backward(n), n - 1 - j, n - 1 - i);
    }
  }

  lemma LeadsPicked<T>(base: seq<T>, order: Order, i: nat, j: nat)
    requires Distinct(base) && IsPermutation(order, |base|) && i < |base| && j < |base| && Leads(order, i, j)
    ensures Before(Picked(base, order), base[i], base[j])
  {
    var p, q :| 0 <= p < q < |order| && order[p] == i && order[q] == j;
    PickedIndex(base, order, p);
    PickedIndex(base, order, q);
  }

  /** With three rounds every server both leads and follows every other. */
  lemma EveryPairBothWays<T>(base: seq<T>, i: nat, j: nat)
    requires Distinct(base) && RoundsFor(|base|).Some? && i < |base| && j < |base| && i != j
    ensures exists round | 0 <= round < 3 :: Before(Orders(base, 3)[round], base[i], base[j])
  {
    var n := |base|;
    var orders := Orders(base, 3);
    RoundsArePermutations(n);
    var r := RoundsFor(n).value;
    assert orders[0] == Picked(base, r.first) && orders[1] == Picked(base, r.second) && orders[2] == Picked(base, r.third);
    hide Orders, RoundsFor, Leads, Before;
    if i < j {
      IndexPairs(n, i, j);
      LeadsPicked(base, r.first, i, j);
    } else {
      IndexPairs(n, j, i);
      if Leads(r.second, i, j) { LeadsPicked(base, r.second, i, j); } else { LeadsPicked(base, r.third, i, j); }
    }
  }

  // ---------------------------------------------------------------- the fallback rotations

  /** How many of the first `runs` offsets are congruent to `c`. */
  function Congruent(runs: nat, n: nat, c: nat): nat
    requires c < n
  {
    if runs == 0 then 0 else Congruent(runs - 1, n, c) + if (runs - 1) % n == c then 1 else 0
  }

  lemma NextQuotient(r: nat, n: nat)
    requires n > 0
    ensures (r + 1) % n == (if r % n == n - 1 then 0 else r % n + 1)
    ensures (r + 1) / n == (if r % n == n - 1 then r / n + 1 else r / n)
  {
    var q, m := r / n, r % n;
    assert r == n * q + m;
    if m == n - 1 {
      assert r + 1 == n * (q + 1) + 0;
      Unique(r + 1, n, q + 1, 0);
    } else {
      assert r + 1 == n * q + (m + 1);
      Unique(r + 1, n, q, m + 1);
    }
  }

  lemma Multiple(n: nat, d: int)
    requires n > 0
    ensures d >= 1 ==> n * d >= n
    ensures d <= -1 ==> n * d <= 0 - n
  {}

  lemma Unique(x: nat, n: nat, q: nat, m: nat)
    requires n > 0 && m < n && x == n * q + m
    ensures x / n == q && x % n == m
  {
    var d := x / n - q;
    assert x == n * (x / n) + x % n;
    assert n * d == m - x % n by { assert n * (x / n) == n * q + n * d; }
    Multiple(n, d);
  }

  lemma {:induction false} CongruentCount(runs: nat, n: nat, c: nat)
    requires c < n
    ensures Congruent(runs, n, c) == runs / n + if c < runs % n then 1 else 0
    decreases runs
  {
    if runs == 0 {
      Unique(0, n, 0, 0);
    } else {
      CongruentCount(runs - 1, n, c);
      NextQuotient(runs - 1, n);
    }
  }

  /** How often `x` stands at position `p`. */
  function Occupied<T(==)>(orders: seq<seq<T>>, p: nat, x: T): nat
  {
    if orders == [] then 0
    else Occupied(orders[..|orders| - 1], p, x) +
         if p < |orders[|orders| - 1]| && orders[|orders| - 1][p] == x then 1 else 0
  }

  function Rotations<T>(base: seq<T>, runs: nat): (orders: seq<seq<T>>)
    requires base != []
    ensures |orders| == runs
  {
    seq(runs, offset requires 0 <= offset < runs => Rotated(base, offset % |base|))
  }

  lemma RotationHolds<T>(base: seq<T>, offset: nat, p: nat, i: nat)
    requires Distinct(base) && p < |base| && i < |base|
    ensures Rotated(base, offset % |base|)[p] == base[i] <==> offset % |base| == (if i >= p then i - p else i + |base| - p)
  {
    RotatedAt(base, offset % |base|, p);
  }

  lemma {:induction false} RotationCounts<T>(base: seq<T>, runs: nat, p: nat, i: nat)
    requires Distinct(base) && p < |base| && i < |base|
    ensures Occupied(Rotations(base, runs), p, base[i]) == Congruent(runs, |base|, if i >= p then i - p else i + |base| - p)
    decreases runs
  {
    if runs > 0 {
      var orders := Rotations(base, runs);
      RotationCounts(base, runs - 1, p, i);
      assert orders[..runs - 1] == Rotations(base, runs - 1);
      RotationHolds(base, runs - 1, p, i);
      RotatedAt(base, (runs - 1) % |base|, p);
    }
  }

  /** Without three rounds the rotations give every server every position equally often, give or take one. */
  lemma FallbackIsFair<T>(base: seq<T>, runs: nat, p: nat, i: nat)
    requires Distinct(base) && p < |base| && i < |base| && !(runs == 3 && RoundsFor(|base|).Some?)
    ensures var times := Occupied(Orders(base, runs), p, base[i]);
            runs / |base| <= times <= (runs + |base| - 1) / |base|
  {
    var n := |base|;
    assert Orders(base, runs) == Rotations(base, runs);
    hide Orders, Rotations, RoundsFor, Occupied, Congruent;
    RotationCounts(base, runs, p, i);
    CongruentCount(runs, n, if i >= p then i - p else i + n - p);
    RoundedUp(runs, n);
  }

  lemma RoundedUp(runs: nat, n: nat)
    requires n > 0
    ensures (runs + n - 1) / n == runs / n + if runs % n == 0 then 0 else 1
  {
    var q, m := runs / n, runs % n;
    assert runs == n * q + m;
    if m == 0 {
      Unique(runs + n - 1, n, q, n - 1);
    } else {
      assert runs + n - 1 == n * (q + 1) + (m - 1);
      Unique(runs + n - 1, n, q + 1, m - 1);
    }
  }
}
