/** "Earning A Profit": choose a run of consecutive planets `i..j`; visiting
    them earns `A` each, costs their fuel, and costs the square of the
    spread of their difficulties.  Every value is an unsigned 64-bit number,
    so each product and difference is taken modulo 2^64 exactly as the
    program computes it, and the best "profit" is the largest of those
    wrapped values (or 0).  A losing segment therefore wraps to a huge value
    and wins; `SolveFixed` is the signed answer the program evidently
    intends. */
module EarningProfit {
  import opened Sums

  const U64: int := 0x1_0000_0000_0000_0000

  predicate IsU64(x: int) { 0 <= x < U64 }

  /** An unsigned 64-bit result. */
  function Wrap(x: int): (r: int)
    ensures IsU64(r)
  {
    x % U64
  }

  /** Subtracting wrapped values wraps the plain difference. */
  lemma WrapSub(x: int, y: int)
    ensures Wrap(Wrap(x) - Wrap(y)) == Wrap(x - y)
  {
    var qx, qy := x / U64, y / U64;
    assert x - y == (Wrap(x) - Wrap(y)) + U64 * (qx - qy);
    ShiftByMultiple(Wrap(x) - Wrap(y), qx - qy);
  }

  lemma ShiftByMultiple(z: int, k: int)
    ensures (z + U64 * k) % U64 == z % U64
  {
  }

  function Min(x: int, y: int): int { if x <= y then x else y }
  function Max(x: int, y: int): int { if x >= y then x else y }

  function MinOf(s: seq<int>): (r: int)
    requires |s| > 0
    ensures forall k :: 0 <= k < |s| ==> r <= s[k]
    ensures r in s
  {
    if |s| == 1 then s[0] else Min(MinOf(s[..|s| - 1]), s[|s| - 1])
  }

  function MaxOf(s: seq<int>): (r: int)
    requires |s| > 0
    ensures forall k :: 0 <= k < |s| ==> s[k] <= r
    ensures r in s
  {
    if |s| == 1 then s[0] else Max(MaxOf(s[..|s| - 1]), s[|s| - 1])
  }

  /** The profit of segment `i..j` (1-based, as the program indexes its
      arrays) as the program computes it in 64 bits. */
  function Profit(A: int, diff: seq<int>, prefix: seq<int>, i: int, j: int): int
    requires 1 <= i <= j < |diff| && |prefix| == |diff|
  {
    SegmentValue(A, j - i + 1, prefix[j], prefix[i - 1], MinOf(diff[i..j + 1]), MaxOf(diff[i..j + 1]))
  }

  /** Extending a run by one element updates its minimum and maximum. */
  lemma {:induction false} MinMaxSnoc(s: seq<int>, i: nat, j: nat)
    requires i < j < |s|
    ensures MinOf(s[i..j + 1]) == Min(MinOf(s[i..j]), s[j])
    ensures MaxOf(s[i..j + 1]) == Max(MaxOf(s[i..j]), s[j])
  {
    assert s[i..j + 1][..j - i] == s[i..j];
  }

  /** `getMaxProfit`: every segment `1 <= i <= j <= N`; `maxProfit` (passed
      in) becomes the largest of itself and every profit. */
  method GetMaxProfit(N: nat, A: int, diff: seq<int>, prefix: seq<int>, maxProfit0: int) returns (maxProfit: int)
    requires |diff| == N + 1 && |prefix| == N + 1
    ensures maxProfit >= maxProfit0
    ensures forall i, j :: 1 <= i <= j <= N ==> Profit(A, diff, prefix, i, j) <= maxProfit
    ensures maxProfit == maxProfit0 || exists i, j :: 1 <= i <= j <= N && maxProfit == Profit(A, diff, prefix, i, j)
  {
    maxProfit := maxProfit0;
    for i := 1 to N + 1
      invariant maxProfit >= maxProfit0
      invariant forall i', j :: 1 <= i' < i && i' <= j <= N ==> Profit(A, diff, prefix, i', j) <= maxProfit
      invariant maxProfit == maxProfit0 || exists i', j :: 1 <= i' <= j <= N && maxProfit == Profit(A, diff, prefix, i', j)
    {
      maxProfit := ScanFrom(N, A, diff, prefix, i, maxProfit);
    }
  }

  /** The inner loop of `getMaxProfit`: the segments starting at `i`, with
      the running minimum and maximum difficulty. */
  method ScanFrom(N: nat, A: int, diff: seq<int>, prefix: seq<int>, i: nat, maxProfit0: int) returns (maxProfit: int)
    requires |diff| == N + 1 && |prefix| == N + 1 && 1 <= i <= N
    ensures maxProfit >= maxProfit0
    ensures forall j :: i <= j <= N ==> Profit(A, diff, prefix, i, j) <= maxProfit
    ensures maxProfit == maxProfit0 || exists j :: i <= j <= N && maxProfit == Profit(A, diff, prefix, i, j)
  {
    maxProfit := maxProfit0;
    var minD, maxD := diff[i], diff[i];
    for j := i to N + 1
      invariant j == i ==> minD == diff[i] && maxD == diff[i]
      invariant j > i ==> minD == MinOf(diff[i..j]) && maxD == MaxOf(diff[i..j])
      invariant maxProfit >= maxProfit0
      invariant Dominates(A, diff, prefix, i, j, maxProfit)
      invariant maxProfit == maxProfit0 || Attained(A, diff, prefix, i, j, maxProfit)
    {
      ghost var before := maxProfit;
      minD, maxD, maxProfit := Consider(A, diff, prefix, i, j, minD, maxD, maxProfit);
      Extend(A, diff, prefix, i, j, before, maxProfit0);
    }
  }

  /** Every segment `i..j'` with `j' < j` earns at most `m`. */
  ghost predicate Dominates(A: int, diff: seq<int>, prefix: seq<int>, i: int, j: int, m: int)
    requires 1 <= i && j <= |diff| && |prefix| == |diff|
  {
    forall j' :: i <= j' < j ==> Profit(A, diff, prefix, i, j') <= m
  }

  /** Some segment `i..j'` with `j' < j` earns exactly `m`. */
  ghost predicate Attained(A: int, diff: seq<int>, prefix: seq<int>, i: int, j: int, m: int)
    requires 1 <= i && j <= |diff| && |prefix| == |diff|
  {
    exists j' :: i <= j' < j && Profit(A, diff, prefix, i, j') == m
  }

  lemma Extend(A: int, diff: seq<int>, prefix: seq<int>, i: int, j: int, m: int, m0: int)
    requires 1 <= i <= j < |diff| && |prefix| == |diff|
    requires Dominates(A, diff, prefix, i, j, m)
    requires m == m0 || Attained(A, diff, prefix, i, j, m)
    ensures Dominates(A, diff, prefix, i, j + 1, Max(m, Profit(A, diff, prefix, i, j)))
    ensures Max(m, Profit(A, diff, prefix, i, j)) == m0 || Attained(A, diff, prefix, i, j + 1, Max(m, Profit(A, diff, prefix, i, j)))
  {
    var p := Profit(A, diff, prefix, i, j);
    forall j' | i <= j' < j + 1
      ensures Profit(A, diff, prefix, i, j') <= Max(m, p)
    {
      if j' < j {
        assert Profit(A, diff, prefix, i, j') <= m;
      }
    }
    if m < p {
      assert Profit(A, diff, prefix, i, j) == p;
    } else if m != m0 {
      var w :| i <= w < j && Profit(A, diff, prefix, i, w) == m;
      assert i <= w < j + 1 && Profit(A, diff, prefix, i, w) == Max(m, p);
    }
  }

  /** One step of the inner loop: segment `i..j` takes in `diff[j]`, and its
      profit competes with the best so far. */
  method Consider(A: int, diff: seq<int>, prefix: seq<int>, i: nat, j: nat, minD: int, maxD: int, maxProfit: int)
    returns (minD': int, maxD': int, maxProfit': int)
    requires 1 <= i <= j < |diff| && |prefix| == |diff|
    requires j == i ==> minD == diff[i] && maxD == diff[i]
    requires j > i ==> minD == MinOf(diff[i..j]) && maxD == MaxOf(diff[i..j])
    ensures minD' == MinOf(diff[i..j + 1]) && maxD' == MaxOf(diff[i..j + 1])
    ensures maxProfit' == Max(maxProfit, Profit(A, diff, prefix, i, j))
  {
    if j > i {
      MinMaxSnoc(diff, i, j);
    } else {
      assert diff[i..j + 1] == [diff[i]];
    }
    minD' := Min(minD, diff[j]);
    maxD' := Max(maxD, diff[j]);
    var profit := SegmentValue(A, j - i + 1, prefix[j], prefix[i - 1], minD', maxD');
    maxProfit' := Max(maxProfit, profit);
  }

  /** The 64-bit arithmetic of one segment: `length * A`, less the fuel
      `fuelHi - fuelLo`, less the squared spread. */
  function SegmentValue(A: int, length: int, fuelHi: int, fuelLo: int, minD: int, maxD: int): int {
    var gap := maxD - minD;
    Wrap(Wrap(Wrap(length * A) - Wrap(fuelHi - fuelLo)) - Wrap(gap * gap))
  }

  /** One planet's input line. */
  datatype Planet = Planet(fuel: int, difficulty: int)

  /** The plain (signed) profit of planets `i..j`, numbered from 1 as the
      program numbers them. */
  function PlainProfit(A: int, planets: seq<Planet>, i: int, j: int): int
    requires 1 <= i <= j <= |planets|
  {
    var fuel := seq(j - i + 1, k requires 0 <= k < j - i + 1 => planets[i - 1 + k].fuel);
    var ds := seq(j - i + 1, k requires 0 <= k < j - i + 1 => planets[i - 1 + k].difficulty);
    var gap := MaxOf(ds) - MinOf(ds);
    (j - i + 1) * A - Sum(fuel) - gap * gap
  }

  /** The plain profit of planets `i..j`, taken modulo 2^64 as the program's
      unsigned arithmetic does. */
  function SegmentProfit(A: int, planets: seq<Planet>, i: int, j: int): (r: int)
    requires 1 <= i <= j <= |planets|
    ensures IsU64(r) && (r - PlainProfit(A, planets, i, j)) % U64 == 0
    ensures 0 <= PlainProfit(A, planets, i, j) < U64 ==> r == PlainProfit(A, planets, i, j)
  {
    Wrap(PlainProfit(A, planets, i, j))
  }

  /** The fuel of the first `i` planets, summed. */
  function FuelPrefix(planets: seq<Planet>, i: nat): int
    requires i <= |planets|
  {
    if i == 0 then 0 else FuelPrefix(planets, i - 1) + planets[i - 1].fuel
  }

  /** One test case: the arrays with a dummy cell 0, the wrapped prefix sums
      of the fuel, then `getMaxProfit` from 0. */
  method Solve(A: int, planets: seq<Planet>) returns (maxProfit: int)
    ensures maxProfit >= 0
    ensures forall i, j :: 1 <= i <= j <= |planets| ==> SegmentProfit(A, planets, i, j) <= maxProfit
    ensures maxProfit == 0 || exists i, j :: 1 <= i <= j <= |planets| && maxProfit == SegmentProfit(A, planets, i, j)
  {
    var N := |planets|;
    var diff := [0] + seq(N, k requires 0 <= k < N => planets[k].difficulty);
    var prefix := [0];
    for i := 1 to N + 1
      invariant |prefix| == i
      invariant forall k :: 0 <= k < i ==> prefix[k] == Wrap(FuelPrefix(planets, k))
    {
      WrapAdd(FuelPrefix(planets, i - 1), planets[i - 1].fuel);
      prefix := prefix + [Wrap(prefix[i - 1] + planets[i - 1].fuel)];
    }
    maxProfit := GetMaxProfit(N, A, diff, prefix, 0);
    assert forall k :: 0 <= k < N ==> diff[k + 1] == planets[k].difficulty;
    Transfer(A, planets, diff, prefix, maxProfit);
  }

  /** What `getMaxProfit` finds about the arrays holds of the planets. */
  lemma Transfer(A: int, planets: seq<Planet>, diff: seq<int>, prefix: seq<int>, m: int)
    requires |diff| == |planets| + 1 && forall k :: 0 <= k < |planets| ==> diff[k + 1] == planets[k].difficulty
    requires |prefix| == |planets| + 1 && forall k :: 0 <= k <= |planets| ==> prefix[k] == Wrap(FuelPrefix(planets, k))
    requires forall i, j :: 1 <= i <= j <= |planets| ==> Profit(A, diff, prefix, i, j) <= m
    requires m == 0 || exists i, j :: 1 <= i <= j <= |planets| && m == Profit(A, diff, prefix, i, j)
    ensures forall i, j :: 1 <= i <= j <= |planets| ==> SegmentProfit(A, planets, i, j) <= m
    ensures m == 0 || exists i, j :: 1 <= i <= j <= |planets| && m == SegmentProfit(A, planets, i, j)
  {
    forall i, j | 1 <= i <= j <= |planets|
      ensures SegmentProfit(A, planets, i, j) <= m
    {
      SameProfit(A, planets, diff, prefix, i, j);
    }
    if m != 0 {
      var i, j :| 1 <= i <= j <= |planets| && m == Profit(A, diff, prefix, i, j);
      SameProfit(A, planets, diff, prefix, i, j);
    }
  }

  lemma WrapAdd(x: int, y: int)
    ensures Wrap(Wrap(x) + y) == Wrap(x + y)
  {
    ShiftByMultiple(Wrap(x) + y, x / U64);
  }

  /** The program's 64-bit profit of a segment is the plain profit modulo
      2^64. */
  lemma {:induction false} SameProfit(A: int, planets: seq<Planet>, diff: seq<int>, prefix: seq<int>, i: int, j: int)
    requires 1 <= i <= j <= |planets|
    requires |diff| == |planets| + 1 && forall k :: 0 <= k < |planets| ==> diff[k + 1] == planets[k].difficulty
    requires |prefix| == |planets| + 1 && forall k :: 0 <= k <= |planets| ==> prefix[k] == Wrap(FuelPrefix(planets, k))
    ensures SegmentProfit(A, planets, i, j) == Profit(A, diff, prefix, i, j)
  {
    var ds := seq(j - i + 1, k requires 0 <= k < j - i + 1 => planets[i - 1 + k].difficulty);
    assert ds == diff[i..j + 1];
    FuelSegment(planets, i - 1, j);
    SegmentValueIs(A, j - i + 1, FuelPrefix(planets, j), FuelPrefix(planets, i - 1), MinOf(ds), MaxOf(ds));
  }

  /** The program's chain of 64-bit operations equals the plain profit
      modulo 2^64. */
  lemma SegmentValueIs(A: int, length: int, fuelHi: int, fuelLo: int, minD: int, maxD: int)
    ensures SegmentValue(A, length, Wrap(fuelHi), Wrap(fuelLo), minD, maxD)
      == Wrap(length * A - (fuelHi - fuelLo) - (maxD - minD) * (maxD - minD))
  {
    var len, gapSq := length * A, (maxD - minD) * (maxD - minD);
    WrapSub(fuelHi, fuelLo);
    WrapSub(len, fuelHi - fuelLo);
    WrapSub(len - (fuelHi - fuelLo), gapSq);
  }

  /** Fuel over planets `l..r-1` is a difference of prefix sums. */
  lemma {:induction false} FuelSegment(planets: seq<Planet>, l: nat, r: nat)
    requires l <= r <= |planets|
    ensures Sum(seq(r - l, k requires 0 <= k < r - l => planets[l + k].fuel)) == FuelPrefix(planets, r) - FuelPrefix(planets, l)
    decreases r - l
  {
    if l < r {
      var s := seq(r - l, k requires 0 <= k < r - l => planets[l + k].fuel);
      var s' := seq(r - 1 - l, k requires 0 <= k < r - 1 - l => planets[l + k].fuel);
      assert s[..|s| - 1] == s';
      FuelSegment(planets, l, r - 1);
    }
  }

  // ---------------------------------------------------------------------------
  // a losing segment

  /** A single planet with A = 1, fuel 2 and difficulty 0 loses one coin. */
  const LosingPlanet: seq<Planet> := [Planet(2, 0)]

  /** As written, the losing planet's profit -1 wraps to 2^64 - 1, so the
      only value `Solve` may print for it is 2^64 - 1 rather than 0. */
  lemma LosingSegmentWins(m: int)
    requires m >= 0
    requires forall i, j :: 1 <= i <= j <= |LosingPlanet| ==> SegmentProfit(1, LosingPlanet, i, j) <= m
    requires m == 0 || exists i, j :: 1 <= i <= j <= |LosingPlanet| && m == SegmentProfit(1, LosingPlanet, i, j)
    ensures m == U64 - 1
  {
    LosingPlanetProfit();
    assert SegmentProfit(1, LosingPlanet, 1, 1) <= m;
  }

  lemma LosingPlanetProfit()
    ensures PlainProfit(1, LosingPlanet, 1, 1) == -1
    ensures SegmentProfit(1, LosingPlanet, 1, 1) == U64 - 1
  {
    var p := LosingPlanet;
    assert seq(1, k requires 0 <= k < 1 => p[k].fuel) == [2];
    assert seq(1, k requires 0 <= k < 1 => p[k].difficulty) == [0];
    assert Sum([2]) == 2 by {
      assert [2][..0] == [];
    }
  }

  /** The evidently intended answer: the best signed profit over all
      segments, or 0 when every segment loses (visiting nothing). */
  method SolveFixed(A: int, planets: seq<Planet>) returns (best: int)
    ensures best >= 0
    ensures forall i, j :: 1 <= i <= j <= |planets| ==> PlainProfit(A, planets, i, j) <= best
    ensures best == 0 || exists i, j :: 1 <= i <= j <= |planets| && best == PlainProfit(A, planets, i, j)
  {
    best := 0;
    for i := 1 to |planets| + 1
      invariant best >= 0
      invariant forall i', j :: 1 <= i' < i && i' <= j <= |planets| ==> PlainProfit(A, planets, i', j) <= best
      invariant best == 0 || exists i', j :: 1 <= i' <= j <= |planets| && best == PlainProfit(A, planets, i', j)
    {
      best := BestFrom(A, planets, i, best);
    }
  }

  /** The segments starting at `i`, in signed arithmetic. */
  method BestFrom(A: int, planets: seq<Planet>, i: int, best0: int) returns (best: int)
    requires 1 <= i <= |planets|
    ensures best >= best0
    ensures forall j :: i <= j <= |planets| ==> PlainProfit(A, planets, i, j) <= best
    ensures best == best0 || exists j :: i <= j <= |planets| && best == PlainProfit(A, planets, i, j)
  {
    best := best0;
    for j := i to |planets| + 1
      invariant best >= best0
      invariant PlainBelow(A, planets, i, j, best)
      invariant best == best0 || PlainAttained(A, planets, i, j, best)
    {
      ghost var before := best;
      best := Max(best, PlainProfit(A, planets, i, j));
      ExtendPlain(A, planets, i, j, before, best0);
    }
  }

  ghost predicate PlainBelow(A: int, planets: seq<Planet>, i: int, j: int, m: int)
    requires 1 <= i && j <= |planets| + 1
  {
    forall j' :: i <= j' < j ==> PlainProfit(A, planets, i, j') <= m
  }

  ghost predicate PlainAttained(A: int, planets: seq<Planet>, i: int, j: int, m: int)
    requires 1 <= i && j <= |planets| + 1
  {
    exists j' :: i <= j' < j && PlainProfit(A, planets, i, j') == m
  }

  lemma ExtendPlain(A: int, planets: seq<Planet>, i: int, j: int, m: int, m0: int)
    requires 1 <= i <= j <= |planets|
    requires PlainBelow(A, planets, i, j, m)
    requires m == m0 || PlainAttained(A, planets, i, j, m)
    ensures PlainBelow(A, planets, i, j + 1, Max(m, PlainProfit(A, planets, i, j)))
    ensures Max(m, PlainProfit(A, planets, i, j)) == m0 || PlainAttained(A, planets, i, j + 1, Max(m, PlainProfit(A, planets, i, j)))
  {
    var p := PlainProfit(A, planets, i, j);
    forall j' | i <= j' < j + 1
      ensures PlainProfit(A, planets, i, j') <= Max(m, p)
    {
      if j' < j {
        assert PlainProfit(A, planets, i, j') <= m;
      }
    }
    if m < p {
      assert PlainProfit(A, planets, i, j) == p;
    } else if m != m0 {
      var w :| i <= w < j && PlainProfit(A, planets, i, w) == m;
      assert i <= w < j + 1 && PlainProfit(A, planets, i, w) == Max(m, p);
    }
  }

  /** With the fix the losing planet gives 0. */
  lemma LosingSegmentFixed(m: int)
    requires m >= 0
    requires forall i, j :: 1 <= i <= j <= |LosingPlanet| ==> PlainProfit(1, LosingPlanet, i, j) <= m
    requires m == 0 || exists i, j :: 1 <= i <= j <= |LosingPlanet| && m == PlainProfit(1, LosingPlanet, i, j)
    ensures m == 0
  {
    LosingPlanetProfit();
  }

  /** When no segment loses money and none reaches 2^64, the program's
      wrapped profits are the plain ones, so any answer the program may print
      is the answer the fix prints. */
  lemma FixAgreesWithoutLoss(A: int, planets: seq<Planet>, m: int)
    requires forall i, j :: 1 <= i <= j <= |planets| ==> 0 <= PlainProfit(A, planets, i, j) < U64
    requires m >= 0
    requires forall i, j :: 1 <= i <= j <= |planets| ==> SegmentProfit(A, planets, i, j) <= m
    requires m == 0 || exists i, j :: 1 <= i <= j <= |planets| && m == SegmentProfit(A, planets, i, j)
    ensures forall i, j :: 1 <= i <= j <= |planets| ==> PlainProfit(A, planets, i, j) <= m
    ensures m == 0 || exists i, j :: 1 <= i <= j <= |planets| && m == PlainProfit(A, planets, i, j)
  {
    forall i, j | 1 <= i <= j <= |planets|
      ensures SegmentProfit(A, planets, i, j) == PlainProfit(A, planets, i, j)
    {
    }
  }
}
