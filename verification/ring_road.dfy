/** "One-Way Roads" on a ring of `n` cities: a road `a -> b` already runs
    one way round the ring when `b` follows `a` (`(a % n) + 1 == b`) and the
    other way when `a` follows `b`.  Orienting every road one way costs the
    roads running the other way; the answer is the cheaper of the two. */
module RingRoad {

  datatype Road = Road(a: int, b: int, cost: int)

  /** C++'s `%` on `int`: the remainder takes the sign of the dividend. */
  function CppRem(x: int, m: int): (r: int)
    requires m != 0
    ensures x >= 0 ==> 0 <= r < if m > 0 then m else -m
    ensures x < 0 ==> -(if m > 0 then m else -m) < r <= 0
  {
    var am := if m > 0 then m else -m;
    if x >= 0 then x % am else -((-x) % am)
  }

  /** Which way a road already runs, tested in the program's order. */
  datatype Way = Forward | Backward | Neither

  function WayOf(r: Road, n: int): Way
    requires n != 0
  {
    if CppRem(r.a, n) + 1 == r.b then Forward
    else if CppRem(r.b, n) + 1 == r.a then Backward
    else Neither
  }

  /** The total cost of the roads that run the way `w`. */
  function CostOf(roads: seq<Road>, n: int, w: Way): int
    requires n != 0
  {
    if |roads| == 0 then 0
    else CostOf(roads[..|roads| - 1], n, w) + (var r := roads[|roads| - 1]; if WayOf(r, n) == w then r.cost else 0)
  }

  /** The program: `cost_ccw` collects the forward roads (they must be turned
      round for the other orientation), `cost_cw` the backward ones; a road
      that joins no neighbours adds to neither. */
  method RingRoad(roads: seq<Road>) returns (costCw: int, costCcw: int, answer: int)
    ensures |roads| > 0 ==> costCcw == CostOf(roads, |roads|, Forward) && costCw == CostOf(roads, |roads|, Backward)
    ensures |roads| == 0 ==> costCw == 0 && costCcw == 0
    ensures answer == if costCw <= costCcw then costCw else costCcw
  {
    var n := |roads|;
    costCw, costCcw := 0, 0;
    for t := 0 to n
      invariant n > 0 ==> costCcw == CostOf(roads[..t], n, Forward) && costCw == CostOf(roads[..t], n, Backward)
      invariant n == 0 ==> costCw == 0 && costCcw == 0
    {
      var r := roads[t];
      assert roads[..t + 1][..t] == roads[..t];
      if CppRem(r.a, n) + 1 == r.b {
        costCcw := costCcw + r.cost;
      } else if CppRem(r.b, n) + 1 == r.a {
        costCw := costCw + r.cost;
      }
    }
    assert roads[..n] == roads;
    answer := if costCw <= costCcw then costCw else costCcw;
  }

  /** The three ways split the roads: the forward, backward and remaining
      costs add up to the total cost, so no road is charged twice. */
  lemma {:induction false} WaysPartition(roads: seq<Road>, n: int)
    requires n != 0
    ensures CostOf(roads, n, Forward) + CostOf(roads, n, Backward) + CostOf(roads, n, Neither) == TotalCost(roads)
  {
    if |roads| > 0 {
      WaysPartition(roads[..|roads| - 1], n);
    }
  }

  function TotalCost(roads: seq<Road>): int {
    if |roads| == 0 then 0 else TotalCost(roads[..|roads| - 1]) + roads[|roads| - 1].cost
  }

  function Reverse(r: Road): Road {
    Road(r.b, r.a, r.cost)
  }

  /** On a ring of three or more cities numbered 1..n, a road cannot join
      its ends both ways, so turning a road round swaps its way. */
  lemma ReverseSwapsWay(r: Road, n: int)
    requires n >= 3 && 1 <= r.a <= n && 1 <= r.b <= n
    ensures WayOf(r, n) == Forward <==> WayOf(Reverse(r), n) == Backward
    ensures WayOf(r, n) == Backward <==> WayOf(Reverse(r), n) == Forward
  {
    RemOnRing(r.a, n);
    RemOnRing(r.b, n);
  }

  lemma RemOnRing(x: int, n: int)
    requires 1 <= x <= n
    ensures CppRem(x, n) == if x == n then 0 else x
  {
    if x == n {
      assert x % n == 0;
    } else {
      assert x % n == x;
    }
  }

  /** Turning every road round swaps the two orientation costs, and so
      leaves the answer unchanged. */
  lemma {:induction false} ReverseAllSwapsCosts(roads: seq<Road>, n: int, reversed: seq<Road>)
    requires n >= 3
    requires forall t :: 0 <= t < |roads| ==> 1 <= roads[t].a <= n && 1 <= roads[t].b <= n
    requires |reversed| == |roads| && forall t :: 0 <= t < |roads| ==> reversed[t] == Reverse(roads[t])
    ensures CostOf(reversed, n, Forward) == CostOf(roads, n, Backward)
    ensures CostOf(reversed, n, Backward) == CostOf(roads, n, Forward)
  {
    if |roads| > 0 {
      var k := |roads| - 1;
      ReverseAllSwapsCosts(roads[..k], n, reversed[..k]);
      ReverseSwapsWay(roads[k], n);
    }
  }
}
