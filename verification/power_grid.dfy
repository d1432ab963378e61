/** "Shichikuji and Power Grid": node 0 is the power source, cities are
    nodes `1..n`.  Building a station in city `i` is an edge `0 - i` costing
    `c[i]`; wiring cities `i` and `j` costs their Manhattan distance times
    `k[i] + k[j]`.  Kruskal's algorithm over the sorted edges, with the
    disjoint-set forest of module Dsu, accepts exactly the edges that join
    two different sets. */
module PowerGrid {
  import opened Dsu
  import opened Ordering

  datatype City = City(x: int, y: int, c: int, k: int)

  /** `(cost, (v1, v2))`, compared as the program's pair is. */
  datatype Edge = Edge(cost: int, v1: int, v2: int)

  predicate EdgeLe(e: Edge, f: Edge) {
    e.cost < f.cost || (e.cost == f.cost && (e.v1 < f.v1 || (e.v1 == f.v1 && e.v2 <= f.v2)))
  }

  lemma EdgeLeIsTotalPreorder()
    ensures TotalPreorder(EdgeLe)
  {
  }

  function Abs(x: int): int { if x < 0 then -x else x }

  /** The wiring cost of cities `i < j` (numbered from 1). */
  function WireCost(cities: seq<City>, i: int, j: int): int
    requires 1 <= i <= |cities| && 1 <= j <= |cities|
  {
    var a, b := cities[i - 1], cities[j - 1];
    (Abs(a.x - b.x) + Abs(a.y - b.y)) * (a.k + b.k)
  }

  /** The station edges `(c[i], 0, i)` for cities `1..m`. */
  function StationEdges(cities: seq<City>, m: nat): (es: seq<Edge>)
    requires m <= |cities|
    ensures forall e :: e in es <==> 1 <= e.v2 <= m && e.v1 == 0 && e.cost == cities[e.v2 - 1].c
  {
    if m == 0 then [] else StationEdges(cities, m - 1) + [Edge(cities[m - 1].c, 0, m)]
  }

  /** The wiring edges `(cost, i, j)` for `i` fixed and `j` in `i+1..m`. */
  function WiresFrom(cities: seq<City>, i: nat, m: nat): (es: seq<Edge>)
    requires 1 <= i <= m <= |cities|
    ensures forall e :: e in es <==> e.v1 == i && i < e.v2 <= m && e.cost == WireCost(cities, i, e.v2)
  {
    if m == i then [] else WiresFrom(cities, i, m - 1) + [Edge(WireCost(cities, i, m), i, m)]
  }

  /** The wiring edges of every pair `i < j` with `i <= m`. */
  function WireEdges(cities: seq<City>, m: nat): (es: seq<Edge>)
    requires m <= |cities|
    ensures forall e :: e in es <==> 1 <= e.v1 <= m && e.v1 < e.v2 <= |cities| && e.cost == WireCost(cities, e.v1, e.v2)
  {
    if m == 0 then [] else WireEdges(cities, m - 1) + WiresFrom(cities, m, |cities|)
  }

  /** The program's edge list before sorting: one station edge per city,
      then one wire per pair of cities. */
  function Edges(cities: seq<City>): (es: seq<Edge>)
    ensures forall e :: e in es <==>
      || (e.v1 == 0 && 1 <= e.v2 <= |cities| && e.cost == cities[e.v2 - 1].c)
      || (1 <= e.v1 < e.v2 <= |cities| && e.cost == WireCost(cities, e.v1, e.v2))
  {
    StationEdges(cities, |cities|) + WireEdges(cities, |cities|)
  }

  const INT32: int := 0x1_0000_0000

  /** `int wt = edge.first`: the 64-bit cost narrowed to a 32-bit `int`
      (two's complement). */
  function Narrow(x: int): (r: int)
    ensures -INT32 / 2 <= r < INT32 / 2
    ensures (r - x) % INT32 == 0
  {
    (x + INT32 / 2) % INT32 - INT32 / 2
  }

  function TotalWeight(es: seq<Edge>): int {
    if |es| == 0 then 0 else TotalWeight(es[..|es| - 1]) + Narrow(es[|es| - 1].cost)
  }

  /** A station for each accepted edge that touches node 0. */
  function StationsOf(es: seq<Edge>): seq<int> {
    if |es| == 0 then []
    else
      var e := es[|es| - 1];
      StationsOf(es[..|es| - 1]) + if e.v1 == 0 || e.v2 == 0 then [if e.v1 >= e.v2 then e.v1 else e.v2] else []
  }

  /** A connection for each other accepted edge. */
  function ConnectionsOf(es: seq<Edge>): seq<(int, int)> {
    if |es| == 0 then []
    else
      var e := es[|es| - 1];
      ConnectionsOf(es[..|es| - 1]) + if e.v1 == 0 || e.v2 == 0 then [] else [(e.v1, e.v2)]
  }

  lemma {:induction false} SplitAccepted(es: seq<Edge>)
    ensures |StationsOf(es)| + |ConnectionsOf(es)| == |es|
  {
    if |es| > 0 {
      SplitAccepted(es[..|es| - 1]);
    }
  }

  predicate EndpointsIn(edges: seq<Edge>, n: int) {
    forall i :: 0 <= i < |edges| ==> 0 <= edges[i].v1 <= n && 0 <= edges[i].v2 <= n
  }

  /** The endpoints of each of the first `t` edges lie in one set. */
  ghost predicate Joined(parent: seq<int>, rank: seq<nat>, edges: seq<Edge>, t: int)
    requires Ranked(parent, rank) && EndpointsIn(edges, |parent| - 1) && 0 <= t <= |edges|
  {
    forall i :: 0 <= i < t ==> Root(parent, rank, edges[i].v1) == Root(parent, rank, edges[i].v2)
  }

  /** Some edge before position `p` is the station edge of city `v`. */
  ghost predicate StationBefore(edges: seq<Edge>, v: int, p: int) {
    exists i :: 0 <= i < p && i < |edges| && edges[i].v1 == 0 && edges[i].v2 == v
  }

  /** The edge at `p` is not closed off by two earlier station edges: the
      loop can only accept an edge whose endpoints are not both already
      linked to node 0. */
  ghost predicate Cut(edges: seq<Edge>, p: int)
    requires 0 <= p < |edges|
  {
    !(StationBefore(edges, edges[p].v1, p) && StationBefore(edges, edges[p].v2, p))
  }

  /** One turn of the Kruskal loop: `find` both endpoints; if their sets
      differ, `Union` them and report the edge accepted. */
  method Step(n: nat, edges: seq<Edge>, t: nat, f: Forest, ghost rank: seq<nat>)
    returns (f': Forest, ghost rank': seq<nat>, accepted: bool)
    requires t < |edges| && EndpointsIn(edges, n)
    requires Valid(f, rank) && |f.parent| == n + 1
    requires Joined(f.parent, rank, edges, t)
    ensures Valid(f', rank') && |f'.parent| == n + 1
    ensures Joined(f'.parent, rank', edges, t + 1)
    ensures accepted <==> Root(f.parent, rank, edges[t].v1) != Root(f.parent, rank, edges[t].v2)
    ensures |Roots(f'.parent)| == |Roots(f.parent)| - if accepted then 1 else 0
    ensures accepted ==> Cut(edges, t)
  {
    var e := edges[t];
    var (same, g) := Guard(f, rank, e.v1, e.v2);
    JoinedAfterCompress(f.parent, g.parent, rank, edges, t);
    if same {
      f', rank', accepted := g, rank, false;
    } else {
      accepted := true;
      CutWhenApart(f.parent, rank, edges, t);
      f' := Union(g, rank, e.v1, e.v2);
      rank' := UnionRank(g, rank, e.v1, e.v2);
      UnionMerges(g, rank, e.v1, e.v2);
      UnionDropsRoot(g, rank, e.v1, e.v2);
      JoinedAfterUnion(g, rank, edges, t);
    }
  }

  /** Endpoints in different sets were not both joined to node 0 by the
      edges already processed. */
  lemma CutWhenApart(parent: seq<int>, rank: seq<nat>, edges: seq<Edge>, t: int)
    requires Ranked(parent, rank) && EndpointsIn(edges, |parent| - 1) && 0 <= t < |edges|
    requires Joined(parent, rank, edges, t)
    requires Root(parent, rank, edges[t].v1) != Root(parent, rank, edges[t].v2)
    ensures Cut(edges, t)
  {
  }

  /** Edge `e` sits at some position below `t` where it was cut. */
  ghost predicate CutAt(edges: seq<Edge>, e: Edge, t: int) {
    exists p :: 0 <= p < t && p < |edges| && edges[p] == e && Cut(edges, p)
  }

  /** Every accepted edge was cut where it sits, below `t`. */
  ghost predicate CutsBefore(edges: seq<Edge>, accepted: seq<Edge>, t: int) {
    forall a :: 0 <= a < |accepted| ==> CutAt(edges, accepted[a], t)
  }

  lemma CutsGrow(edges: seq<Edge>, accepted: seq<Edge>, t: int, took: bool)
    requires 0 <= t < |edges| && CutsBefore(edges, accepted, t)
    requires took ==> Cut(edges, t)
    ensures CutsBefore(edges, if took then accepted + [edges[t]] else accepted, t + 1)
  {
    var acc := if took then accepted + [edges[t]] else accepted;
    forall a | 0 <= a < |acc|
      ensures CutAt(edges, acc[a], t + 1)
    {
      if a < |accepted| {
        assert acc[a] == accepted[a] && CutAt(edges, accepted[a], t);
        var p :| 0 <= p < t && p < |edges| && edges[p] == accepted[a] && Cut(edges, p);
        assert 0 <= p < t + 1;
      } else {
        assert acc[a] == edges[t];
        assert 0 <= t < t + 1 && t < |edges| && edges[t] == acc[a] && Cut(edges, t);
      }
    }
  }

  /** `find(v1) == find(v2)`: both calls compress, nothing else changes. */
  function Guard(f: Forest, ghost rank: seq<nat>, a: int, b: int): (res: (bool, Forest))
    requires Valid(f, rank) && 0 <= a < |f.parent| && 0 <= b < |f.parent|
    ensures res.0 <==> Root(f.parent, rank, a) == Root(f.parent, rank, b)
    ensures Valid(res.1, rank) && |res.1.parent| == |f.parent| && res.1.size == f.size
    ensures forall u :: 0 <= u < |f.parent| ==> Root(res.1.parent, rank, u) == Root(f.parent, rank, u)
    ensures Roots(res.1.parent) == Roots(f.parent)
  {
    var (r1, p1) := Find(f.parent, rank, a);
    FindKeepsRoots(f.parent, rank, a);
    var (r2, p2) := Find(p1, rank, b);
    FindKeepsRoots(p1, rank, b);
    (r1 == r2, Forest(p2, f.size))
  }

  /** Compression keeps joined endpoints joined. */
  lemma JoinedAfterCompress(parent: seq<int>, parent': seq<int>, rank: seq<nat>, edges: seq<Edge>, t: int)
    requires Ranked(parent, rank) && Ranked(parent', rank) && |parent'| == |parent|
    requires EndpointsIn(edges, |parent| - 1) && 0 <= t < |edges|
    requires forall u :: 0 <= u < |parent| ==> Root(parent', rank, u) == Root(parent, rank, u)
    requires Joined(parent, rank, edges, t)
    ensures Joined(parent', rank, edges, t)
    ensures Root(parent, rank, edges[t].v1) == Root(parent, rank, edges[t].v2) ==> Joined(parent', rank, edges, t + 1)
  {
  }

  /** Merging the sets of edge `t`'s endpoints joins them and keeps joined
      endpoints joined. */
  lemma JoinedAfterUnion(g: Forest, rank: seq<nat>, edges: seq<Edge>, t: int)
    requires Valid(g, rank) && EndpointsIn(edges, |g.parent| - 1) && 0 <= t < |edges|
    requires Joined(g.parent, rank, edges, t)
    requires Root(g.parent, rank, edges[t].v1) != Root(g.parent, rank, edges[t].v2)
    requires Valid(Union(g, rank, edges[t].v1, edges[t].v2), UnionRank(g, rank, edges[t].v1, edges[t].v2))
    requires forall u :: 0 <= u < |g.parent| ==>
      Root(Union(g, rank, edges[t].v1, edges[t].v2).parent, UnionRank(g, rank, edges[t].v1, edges[t].v2), u)
        == if Root(g.parent, rank, u) in {Root(g.parent, rank, edges[t].v1), Root(g.parent, rank, edges[t].v2)}
           then Winner(g, rank, edges[t].v1, edges[t].v2)
           else Root(g.parent, rank, u)
    ensures Joined(Union(g, rank, edges[t].v1, edges[t].v2).parent, UnionRank(g, rank, edges[t].v1, edges[t].v2), edges, t + 1)
  {
    var a, b := edges[t].v1, edges[t].v2;
    var q, rank' := Union(g, rank, a, b).parent, UnionRank(g, rank, a, b);
    forall i | 0 <= i < t + 1
      ensures Root(q, rank', edges[i].v1) == Root(q, rank', edges[i].v2)
    {
    }
  }

  /** The Kruskal loop over `edges` (already sorted) on nodes `0..n`.
      The accepted edges form a spanning forest of the edges' graph: every
      edge ends inside one set, and each accepted edge removed one set. */
  method Kruskal(n: nat, edges: seq<Edge>)
    returns (yen: int, stations: seq<int>, connections: seq<(int, int)>, f: Forest, ghost rank: seq<nat>, ghost accepted: seq<Edge>)
    requires EndpointsIn(edges, n)
    ensures Valid(f, rank) && |f.parent| == n + 1
    ensures Joined(f.parent, rank, edges, |edges|)
    ensures |accepted| + |Roots(f.parent)| == n + 1
    ensures forall e :: e in accepted ==> e in edges
    ensures yen == TotalWeight(accepted)
    ensures stations == StationsOf(accepted) && connections == ConnectionsOf(accepted)
    ensures CutsBefore(edges, accepted, |edges|)
  {
    f := Singletons(n);
    rank := Flat(n + 1);
    yen, stations, connections, accepted := 0, [], [], [];
    for t := 0 to |edges|
      invariant Valid(f, rank) && |f.parent| == n + 1
      invariant Joined(f.parent, rank, edges, t)
      invariant |accepted| + |Roots(f.parent)| == n + 1
      invariant yen == TotalWeight(accepted)
      invariant stations == StationsOf(accepted) && connections == ConnectionsOf(accepted)
      invariant CutsBefore(edges, accepted, t)
    {
      var e := edges[t];
      var took;
      f, rank, took := Step(n, edges, t, f, rank);
      CutsGrow(edges, accepted, t, took);
      if took {
        if e.v1 == 0 || e.v2 == 0 {
          stations := stations + [if e.v1 >= e.v2 then e.v1 else e.v2];
        } else {
          connections := connections + [(e.v1, e.v2)];
        }
        yen := yen + Narrow(e.cost);
        AcceptOne(accepted, e);
        accepted := accepted + [e];
      }
    }
    CutEdgesListed(edges, accepted, |edges|);
  }

  /** Accepting one more edge adds its narrowed cost and its station or
      connection. */
  lemma AcceptOne(accepted: seq<Edge>, e: Edge)
    ensures TotalWeight(accepted + [e]) == TotalWeight(accepted) + Narrow(e.cost)
    ensures StationsOf(accepted + [e]) == StationsOf(accepted) + if e.v1 == 0 || e.v2 == 0 then [if e.v1 >= e.v2 then e.v1 else e.v2] else []
    ensures ConnectionsOf(accepted + [e]) == ConnectionsOf(accepted) + if e.v1 == 0 || e.v2 == 0 then [] else [(e.v1, e.v2)]
  {
    assert (accepted + [e])[..|accepted|] == accepted;
  }

  /** An edge cut at some position is one of the edges. */
  lemma CutEdgesListed(edges: seq<Edge>, accepted: seq<Edge>, t: int)
    requires CutsBefore(edges, accepted, t)
    ensures forall e :: e in accepted ==> e in edges
  {
    forall e | e in accepted
      ensures e in edges
    {
      var a :| 0 <= a < |accepted| && accepted[a] == e;
      assert CutAt(edges, accepted[a], t);
    }
  }

  /** The whole program on `n` cities: build the edges, sort them, run
      Kruskal.  Since every city has a station edge to node 0, the result
      connects everything: exactly `n` edges are accepted, each a station in
      a city or a wire between two cities. */
  method Solve(cities: seq<City>)
    returns (yen: int, stations: seq<int>, connections: seq<(int, int)>, ghost accepted: seq<Edge>)
    ensures |accepted| == |cities| && |stations| + |connections| == |cities|
    ensures forall e :: e in accepted ==> e in Edges(cities)
    ensures yen == TotalWeight(accepted)
    ensures stations == StationsOf(accepted) && connections == ConnectionsOf(accepted)
    ensures forall s :: s in stations ==> 1 <= s <= |cities|
    ensures forall w :: w in connections ==> 1 <= w.0 < w.1 <= |cities|
    ensures forall e :: e in accepted ==> NoDearerThanStation(cities, e)
    ensures InputBounds(cities) ==> yen == CostSum(accepted)
  {
    var n := |cities|;
    var all := Edges(cities);
    EdgeLeIsTotalPreorder();
    var edges := SortBy(all, EdgeLe);
    assert forall e :: e in edges <==> e in all by {
      forall e ensures e in edges <==> e in all {
        assert e in edges <==> e in multiset(edges);
        assert e in all <==> e in multiset(all);
      }
    }
    assert EndpointsIn(edges, n) by {
      forall i | 0 <= i < |edges| ensures 0 <= edges[i].v1 <= n && 0 <= edges[i].v2 <= n {
        assert edges[i] in all;
      }
    }
    var f: Forest;
    ghost var rank: seq<nat>;
    yen, stations, connections, f, rank, accepted := Kruskal(n, edges);
    AllJoined(cities, edges, f.parent, rank);
    SplitAccepted(accepted);
    AcceptedShapes(cities, accepted);
    AcceptedCheap(cities, edges, accepted);
    if InputBounds(cities) {
      CostsInRange(cities, accepted);
      NarrowHarmless(accepted);
    }
  }

  /** The problem's limits: station prices fit in a 32-bit `int` and no
      wiring factor is negative. */
  predicate InputBounds(cities: seq<City>) {
    forall i :: 0 <= i < |cities| ==> 0 <= cities[i].c < INT32 / 2 && 0 <= cities[i].k
  }

  /** A wire between two cities costs no more than the dearer of their two
      stations (station edges satisfy this trivially). */
  predicate NoDearerThanStation(cities: seq<City>, e: Edge) {
    1 <= e.v1 <= |cities| && 1 <= e.v2 <= |cities| ==> e.cost <= cities[e.v1 - 1].c || e.cost <= cities[e.v2 - 1].c
  }

  /** In sorted order, the station edge of a city whose price is below an
      edge's cost comes before that edge. */
  lemma StationEarlier(cities: seq<City>, edges: seq<Edge>, p: int, v: int)
    requires SortedBy(edges, EdgeLe) && forall e :: e in edges <==> e in Edges(cities)
    requires 0 <= p < |edges| && 1 <= v <= |cities| && edges[p].v1 != 0 && cities[v - 1].c < edges[p].cost
    ensures StationBefore(edges, v, p)
  {
    var s := Edge(cities[v - 1].c, 0, v);
    assert s in Edges(cities);
    var q :| 0 <= q < |edges| && edges[q] == s;
    assert p < q ==> EdgeLe(edges[p], edges[q]);
    assert 0 <= q < p && q < |edges| && edges[q].v1 == 0 && edges[q].v2 == v;
  }

  /** Kruskal's cut at work: a wire the loop accepts was reached before the
      station edges of at least one of its cities, so it is no dearer than
      that station. */
  lemma WireCheap(cities: seq<City>, edges: seq<Edge>, p: int)
    requires SortedBy(edges, EdgeLe) && forall e :: e in edges <==> e in Edges(cities)
    requires 0 <= p < |edges| && Cut(edges, p)
    ensures NoDearerThanStation(cities, edges[p])
  {
    var e := edges[p];
    if 1 <= e.v1 <= |cities| && 1 <= e.v2 <= |cities| && cities[e.v1 - 1].c < e.cost && cities[e.v2 - 1].c < e.cost {
      assert e in Edges(cities);
      StationEarlier(cities, edges, p, e.v1);
      StationEarlier(cities, edges, p, e.v2);
      assert false;
    }
  }

  lemma AcceptedCheap(cities: seq<City>, edges: seq<Edge>, accepted: seq<Edge>)
    requires SortedBy(edges, EdgeLe) && forall e :: e in edges <==> e in Edges(cities)
    requires CutsBefore(edges, accepted, |edges|)
    ensures forall e :: e in accepted ==> NoDearerThanStation(cities, e)
  {
    forall e | e in accepted
      ensures NoDearerThanStation(cities, e)
    {
      var a :| 0 <= a < |accepted| && accepted[a] == e;
      assert CutAt(edges, accepted[a], |edges|);
      var p :| 0 <= p < |edges| && edges[p] == e && Cut(edges, p);
      WireCheap(cities, edges, p);
    }
  }

  /** Within the problem's limits every accepted cost fits in a 32-bit
      `int`: a station costs its price, a wire at least 0 and at most a
      station's price. */
  lemma CostsInRange(cities: seq<City>, accepted: seq<Edge>)
    requires InputBounds(cities)
    requires forall e :: e in accepted ==> e in Edges(cities) && NoDearerThanStation(cities, e)
    ensures forall i :: 0 <= i < |accepted| ==> -INT32 / 2 <= accepted[i].cost < INT32 / 2
  {
    forall i | 0 <= i < |accepted|
      ensures -INT32 / 2 <= accepted[i].cost < INT32 / 2
    {
      var e := accepted[i];
      assert e in accepted;
      if e.v1 != 0 {
        var a, b := cities[e.v1 - 1], cities[e.v2 - 1];
        MulNonneg(Abs(a.x - b.x) + Abs(a.y - b.y), a.k + b.k);
      }
    }
  }

  lemma MulNonneg(x: int, y: int)
    requires 0 <= x && 0 <= y
    ensures 0 <= x * y
  {
  }

  /** With a station edge for every city among `edges`, a forest that joins
      every edge's endpoints is a single set. */
  lemma AllJoined(cities: seq<City>, edges: seq<Edge>, parent: seq<int>, rank: seq<nat>)
    requires Ranked(parent, rank) && |parent| == |cities| + 1 && EndpointsIn(edges, |cities|)
    requires forall e :: e in edges <==> e in Edges(cities)
    requires Joined(parent, rank, edges, |edges|)
    ensures |Roots(parent)| == 1
  {
    var n := |cities|;
    var r0 := Root(parent, rank, 0);
    forall v | 1 <= v <= n
      ensures Root(parent, rank, v) == r0
    {
      var e := Edge(cities[v - 1].c, 0, v);
      assert e in edges;
      var i :| 0 <= i < |edges| && edges[i] == e;
    }
    forall r ensures r in Roots(parent) <==> r == r0 {
      if r in Roots(parent) {
        assert Root(parent, rank, r) == r;
      }
    }
    assert Roots(parent) == {r0};
  }

  /** Every accepted edge is a station edge or a wire, so stations are
      cities and connections are pairs of cities. */
  lemma {:induction false} AcceptedShapes(cities: seq<City>, es: seq<Edge>)
    requires forall e :: e in es ==> e in Edges(cities)
    ensures forall s :: s in StationsOf(es) ==> 1 <= s <= |cities|
    ensures forall w :: w in ConnectionsOf(es) ==> 1 <= w.0 < w.1 <= |cities|
  {
    if |es| > 0 {
      var e := es[|es| - 1];
      assert e in Edges(cities);
      AcceptedShapes(cities, es[..|es| - 1]);
    }
  }

  /** When every accepted cost fits in 32 bits the narrowing is harmless:
      the total is the plain sum of the costs. */
  lemma {:induction false} NarrowHarmless(es: seq<Edge>)
    requires forall i :: 0 <= i < |es| ==> -INT32 / 2 <= es[i].cost < INT32 / 2
    ensures TotalWeight(es) == CostSum(es)
  {
    if |es| > 0 {
      var e := es[|es| - 1];
      assert Narrow(e.cost) == e.cost by {
        NarrowInRange(e.cost);
      }
      NarrowHarmless(es[..|es| - 1]);
    }
  }

  lemma NarrowInRange(x: int)
    requires -INT32 / 2 <= x < INT32 / 2
    ensures Narrow(x) == x
  {
  }

  function CostSum(es: seq<Edge>): int {
    if |es| == 0 then 0 else CostSum(es[..|es| - 1]) + es[|es| - 1].cost
  }
}
