/** The disjoint-set forest of "Shichikuji and Power Grid": `parent` links
    every node towards the root of its set, `size` holds the number of nodes
    of each root's set.  `find` compresses the path it walks; `Union` hangs
    the smaller set's root under the larger's.

    A ghost `rank` witnesses that following `parent` ends at a root: every
    non-root's parent has a smaller rank.  The program keeps no rank. */
module Dsu {

  datatype Forest = Forest(parent: seq<int>, size: seq<int>)

  ghost predicate Ranked(parent: seq<int>, rank: seq<nat>) {
    && |rank| == |parent|
    && forall v :: 0 <= v < |parent| ==> 0 <= parent[v] < |parent| && (parent[v] != v ==> rank[parent[v]] < rank[v])
  }

  ghost predicate Valid(f: Forest, rank: seq<nat>) {
    |f.size| == |f.parent| && Ranked(f.parent, rank)
  }

  /** The root reached by following `parent` from `v`, without changing
      anything: the reference for what `find` returns. */
  ghost function Root(parent: seq<int>, rank: seq<nat>, v: int): (r: int)
    requires Ranked(parent, rank) && 0 <= v < |parent|
    ensures 0 <= r < |parent| && parent[r] == r
    ensures r == v || rank[r] < rank[v]
    decreases rank[v]
  {
    if parent[v] == v then v else Root(parent, rank, parent[v])
  }

  /** The roots, one per set. */
  ghost function Roots(parent: seq<int>): set<int> {
    set r | 0 <= r < |parent| && parent[r] == r
  }

  /** The nodes of the set whose root is `r`. */
  ghost function Members(parent: seq<int>, rank: seq<nat>, r: int): set<int>
    requires Ranked(parent, rank)
  {
    set u | 0 <= u < |parent| && Root(parent, rank, u) == r
  }

  /** Every root's `size` is the number of nodes of its set. */
  ghost predicate SizesCount(f: Forest, rank: seq<nat>)
    requires Valid(f, rank)
  {
    forall r :: 0 <= r < |f.parent| && f.parent[r] == r ==> f.size[r] == |Members(f.parent, rank, r)|
  }

  /** No rank at all: every node a root. */
  function Flat(n: nat): (rank: seq<nat>)
    ensures |rank| == n && forall v :: 0 <= v < n ==> rank[v] == 0
  {
    seq(n, _ => 0)
  }

  /** `make(v)` for every node `0..n`: each node alone in its own set. */
  function Singletons(n: nat): (f: Forest)
    ensures |f.parent| == n + 1
    ensures Valid(f, Flat(n + 1))
    ensures forall v :: 0 <= v <= n ==> f.parent[v] == v && f.size[v] == 1
    ensures SizesCount(f, Flat(n + 1))
    ensures |Roots(f.parent)| == n + 1
  {
    var f := Forest(seq(n + 1, v => v), seq(n + 1, _ => 1));
    var rank := Flat(n + 1);
    forall r | 0 <= r < |f.parent| && f.parent[r] == r
      ensures f.size[r] == |Members(f.parent, rank, r)|
    {
      assert Members(f.parent, rank, r) == {r};
    }
    assert Roots(f.parent) == Upto(n + 1);
    f
  }

  /** The nodes `0..n-1`. */
  function Upto(n: nat): (s: set<int>)
    ensures |s| == n
    ensures forall v :: v in s <==> 0 <= v < n
  {
    if n == 0 then {} else Upto(n - 1) + {n - 1}
  }

  /** `find(v)`: the root of `v`, and the parents after path compression
      (each node on the path now points at the root). */
  function Find(parent: seq<int>, ghost rank: seq<nat>, v: int): (res: (int, seq<int>))
    requires Ranked(parent, rank) && 0 <= v < |parent|
    ensures res.0 == Root(parent, rank, v)
    ensures |res.1| == |parent| && res.1[v] == res.0
    ensures forall u :: 0 <= u < |parent| ==> Compressed(parent, rank, res.1, u)
    decreases rank[v]
  {
    if parent[v] == v then (v, parent)
    else
      var (r, p) := Find(parent, rank, parent[v]);
      CompressOne(parent, rank, p, v, p[v := r]);
      (r, p[v := r])
  }

  /** Node `u` keeps its parent or, if it is no root, now points at its
      root. */
  ghost predicate Compressed(parent: seq<int>, rank: seq<nat>, q: seq<int>, u: int)
    requires Ranked(parent, rank) && 0 <= u < |parent| && |q| == |parent|
  {
    q[u] == parent[u] || (parent[u] != u && q[u] == Root(parent, rank, u))
  }

  /** Pointing one more non-root at its root is still compression. */
  lemma CompressOne(parent: seq<int>, rank: seq<nat>, p: seq<int>, v: int, q: seq<int>)
    requires Ranked(parent, rank) && 0 <= v < |parent| && parent[v] != v && |p| == |parent|
    requires forall u :: 0 <= u < |parent| ==> Compressed(parent, rank, p, u)
    requires q == p[v := Root(parent, rank, v)]
    ensures forall u :: 0 <= u < |parent| ==> Compressed(parent, rank, q, u)
  {
    forall u | 0 <= u < |parent|
      ensures Compressed(parent, rank, q, u)
    {
      if u != v {
        assert Compressed(parent, rank, p, u);
      }
    }
  }

  /** Path compression keeps the forest well-founded, every node's root,
      and the set of roots. */
  lemma CompressionKeepsRoots(parent: seq<int>, rank: seq<nat>, q: seq<int>)
    requires Ranked(parent, rank) && |q| == |parent|
    requires forall u :: 0 <= u < |parent| ==> Compressed(parent, rank, q, u)
    ensures Ranked(q, rank)
    ensures forall u :: 0 <= u < |q| ==> Root(q, rank, u) == Root(parent, rank, u)
    ensures Roots(q) == Roots(parent)
  {
    forall u | 0 <= u < |q|
      ensures 0 <= q[u] < |q| && (q[u] != u ==> rank[q[u]] < rank[u])
    {
      assert Compressed(parent, rank, q, u);
    }
    forall u | 0 <= u < |q|
      ensures Root(q, rank, u) == Root(parent, rank, u)
    {
      SameRoot(parent, rank, q, u);
    }
    forall r ensures r in Roots(q) <==> r in Roots(parent) {
      if 0 <= r < |q| {
        assert Compressed(parent, rank, q, r);
      }
    }
  }

  lemma {:induction false} SameRoot(parent: seq<int>, rank: seq<nat>, q: seq<int>, u: int)
    requires Ranked(parent, rank) && Ranked(q, rank) && |q| == |parent| && 0 <= u < |q|
    requires forall u :: 0 <= u < |parent| ==> Compressed(parent, rank, q, u)
    ensures Root(q, rank, u) == Root(parent, rank, u)
    decreases rank[u]
  {
    assert Compressed(parent, rank, q, u);
    if q[u] != u {
      SameRoot(parent, rank, q, q[u]);
      if q[u] != parent[u] {
        RootIsFixed(parent, rank, u);
      }
    }
  }

  lemma RootIsFixed(parent: seq<int>, rank: seq<nat>, u: int)
    requires Ranked(parent, rank) && 0 <= u < |parent|
    ensures Root(parent, rank, Root(parent, rank, u)) == Root(parent, rank, u)
  {
  }

  /** `find`, seen through the reference: it leaves a well-founded forest
      with the same roots and the same sets. */
  lemma FindKeepsRoots(parent: seq<int>, rank: seq<nat>, v: int)
    requires Ranked(parent, rank) && 0 <= v < |parent|
    ensures Ranked(Find(parent, rank, v).1, rank)
    ensures forall u :: 0 <= u < |parent| ==> Root(Find(parent, rank, v).1, rank, u) == Root(parent, rank, u)
    ensures Roots(Find(parent, rank, v).1) == Roots(parent)
  {
    CompressionKeepsRoots(parent, rank, Find(parent, rank, v).1);
  }

  /** The two roots `Union` links and which one stays a root: the larger
      set's, or `a`'s on a tie. */
  ghost function Winner(f: Forest, rank: seq<nat>, a: int, b: int): (x: int)
    requires Valid(f, rank) && 0 <= a < |f.parent| && 0 <= b < |f.parent|
  {
    var ra, rb := Root(f.parent, rank, a), Root(f.parent, rank, b);
    if f.size[ra] < f.size[rb] then rb else ra
  }

  ghost function Loser(f: Forest, rank: seq<nat>, a: int, b: int): (y: int)
    requires Valid(f, rank) && 0 <= a < |f.parent| && 0 <= b < |f.parent|
  {
    var ra, rb := Root(f.parent, rank, a), Root(f.parent, rank, b);
    if f.size[ra] < f.size[rb] then ra else rb
  }

  /** `Union(a, b)`: find both roots (compressing both paths); if they
      differ, hang the root of the smaller set under the other and add the
      sizes. */
  function Union(f: Forest, ghost rank: seq<nat>, a: int, b: int): (g: Forest)
    requires Valid(f, rank) && 0 <= a < |f.parent| && 0 <= b < |f.parent|
    ensures |g.parent| == |f.parent| && |g.size| == |f.size|
  {
    var (ra, p1) := Find(f.parent, rank, a);
    FindKeepsRoots(f.parent, rank, a);
    var (rb, p2) := Find(p1, rank, b);
    Link(f.size, p2, ra, rb)
  }

  /** The linking step of `Union`, given both roots. */
  function Link(size: seq<int>, p: seq<int>, ra: int, rb: int): (g: Forest)
    requires |size| == |p| && 0 <= ra < |p| && 0 <= rb < |p|
    ensures |g.parent| == |p| && |g.size| == |size|
  {
    if ra == rb then Forest(p, size)
    else
      var x := if size[ra] < size[rb] then rb else ra;
      var y := if size[ra] < size[rb] then ra else rb;
      Forest(p[y := x], size[x := size[x] + size[y]])
  }

  /** The parents `Union` leaves after its two `find`s, before linking. */
  function Compress2(f: Forest, ghost rank: seq<nat>, a: int, b: int): (p: seq<int>)
    requires Valid(f, rank) && 0 <= a < |f.parent| && 0 <= b < |f.parent|
    ensures Ranked(p, rank) && |p| == |f.parent|
    ensures forall u :: 0 <= u < |p| ==> Root(p, rank, u) == Root(f.parent, rank, u)
    ensures Roots(p) == Roots(f.parent)
  {
    var p1 := Find(f.parent, rank, a).1;
    FindKeepsRoots(f.parent, rank, a);
    FindKeepsRoots(p1, rank, b);
    Find(p1, rank, b).1
  }

  lemma UnionIsLink(f: Forest, rank: seq<nat>, a: int, b: int)
    requires Valid(f, rank) && 0 <= a < |f.parent| && 0 <= b < |f.parent|
    ensures Union(f, rank, a, b) == Link(f.size, Compress2(f, rank, a, b), Root(f.parent, rank, a), Root(f.parent, rank, b))
  {
    FindKeepsRoots(f.parent, rank, a);
    var p1 := Find(f.parent, rank, a).1;
    assert Find(p1, rank, b).0 == Root(f.parent, rank, b);
  }

  /** A rank for the forest after `Union`: the linked set moves above the
      winner's rank. */
  ghost function UnionRank(f: Forest, rank: seq<nat>, a: int, b: int): (rank': seq<nat>)
    requires Valid(f, rank) && 0 <= a < |f.parent| && 0 <= b < |f.parent|
    ensures |rank'| == |rank|
  {
    var x, y := Winner(f, rank, a, b), Loser(f, rank, a, b);
    if x == y then rank else LinkRank(f.parent, rank, x, y)
  }

  /** `Union` of one set with itself: nothing changes but path compression,
      so every root, every size and the set of roots stay. */
  lemma UnionSameSet(f: Forest, rank: seq<nat>, a: int, b: int)
    requires Valid(f, rank) && 0 <= a < |f.parent| && 0 <= b < |f.parent|
    requires Root(f.parent, rank, a) == Root(f.parent, rank, b)
    ensures Valid(Union(f, rank, a, b), rank)
    ensures Union(f, rank, a, b).size == f.size
    ensures forall u :: 0 <= u < |f.parent| ==> Root(Union(f, rank, a, b).parent, rank, u) == Root(f.parent, rank, u)
    ensures Roots(Union(f, rank, a, b).parent) == Roots(f.parent)
  {
    UnionIsLink(f, rank, a, b);
  }

  /** `Union` of two different sets: both sets now have the winner as their
      root and every other node keeps its root. */
  lemma UnionMerges(f: Forest, rank: seq<nat>, a: int, b: int)
    requires Valid(f, rank) && 0 <= a < |f.parent| && 0 <= b < |f.parent|
    requires Root(f.parent, rank, a) != Root(f.parent, rank, b)
    ensures Valid(Union(f, rank, a, b), UnionRank(f, rank, a, b))
    ensures forall u :: 0 <= u < |f.parent| ==>
      Root(Union(f, rank, a, b).parent, UnionRank(f, rank, a, b), u)
        == if Root(f.parent, rank, u) in {Root(f.parent, rank, a), Root(f.parent, rank, b)} then Winner(f, rank, a, b)
           else Root(f.parent, rank, u)
  {
    var x, y := Winner(f, rank, a, b), Loser(f, rank, a, b);
    var p2 := Compress2(f, rank, a, b);
    var q := p2[y := x];
    var rank' := UnionRank(f, rank, a, b);
    UnionIsLink(f, rank, a, b);
    assert Union(f, rank, a, b).parent == q;
    LinkRanked(f.parent, rank, p2, x, y);
    forall u | 0 <= u < |q|
      ensures Root(q, rank', u) == if Root(f.parent, rank, u) == y then x else Root(f.parent, rank, u)
    {
      LinkRoot(f.parent, rank, p2, x, y, rank', u);
    }
  }

  /** `Union` of two different sets: the winner's size becomes the sum of
      the two sizes; no other size changes. */
  lemma UnionAddsSizes(f: Forest, rank: seq<nat>, a: int, b: int)
    requires Valid(f, rank) && 0 <= a < |f.parent| && 0 <= b < |f.parent|
    requires Root(f.parent, rank, a) != Root(f.parent, rank, b)
    ensures Union(f, rank, a, b).size[Winner(f, rank, a, b)] == f.size[Root(f.parent, rank, a)] + f.size[Root(f.parent, rank, b)]
    ensures forall r :: 0 <= r < |f.size| && r != Winner(f, rank, a, b) ==> Union(f, rank, a, b).size[r] == f.size[r]
  {
    UnionIsLink(f, rank, a, b);
  }

  /** `Union` of two different sets: the loser is no longer a root, so
      there is one set fewer. */
  lemma UnionDropsRoot(f: Forest, rank: seq<nat>, a: int, b: int)
    requires Valid(f, rank) && 0 <= a < |f.parent| && 0 <= b < |f.parent|
    requires Root(f.parent, rank, a) != Root(f.parent, rank, b)
    ensures Roots(Union(f, rank, a, b).parent) == Roots(f.parent) - {Loser(f, rank, a, b)}
    ensures |Roots(Union(f, rank, a, b).parent)| == |Roots(f.parent)| - 1
  {
    var x, y := Winner(f, rank, a, b), Loser(f, rank, a, b);
    var p2 := Compress2(f, rank, a, b);
    var q := p2[y := x];
    UnionIsLink(f, rank, a, b);
    assert Union(f, rank, a, b).parent == q;
    forall r ensures r in Roots(q) <==> r in Roots(p2) && r != y {
      if 0 <= r < |q| && r != y {
        assert q[r] == p2[r];
      }
    }
    assert Roots(q) == Roots(p2) - {y};
  }

  /** `Union` keeps every root's size equal to the number of nodes of its
      set: the sizes it adds are those of two disjoint sets. */
  lemma UnionKeepsSizes(f: Forest, rank: seq<nat>, a: int, b: int)
    requires Valid(f, rank) && 0 <= a < |f.parent| && 0 <= b < |f.parent|
    requires SizesCount(f, rank)
    ensures Valid(Union(f, rank, a, b), UnionRank(f, rank, a, b))
    ensures SizesCount(Union(f, rank, a, b), UnionRank(f, rank, a, b))
  {
    if Root(f.parent, rank, a) == Root(f.parent, rank, b) {
      SameSetKeepsSizes(f, rank, a, b);
    } else {
      MergeKeepsSizes(f, rank, a, b);
    }
  }

  lemma SameSetKeepsSizes(f: Forest, rank: seq<nat>, a: int, b: int)
    requires Valid(f, rank) && 0 <= a < |f.parent| && 0 <= b < |f.parent|
    requires SizesCount(f, rank)
    requires Root(f.parent, rank, a) == Root(f.parent, rank, b)
    ensures Valid(Union(f, rank, a, b), UnionRank(f, rank, a, b))
    ensures SizesCount(Union(f, rank, a, b), UnionRank(f, rank, a, b))
  {
    var g := Union(f, rank, a, b);
    UnionSameSet(f, rank, a, b);
    assert UnionRank(f, rank, a, b) == rank;
    forall r | 0 <= r < |g.parent| && g.parent[r] == r
      ensures g.size[r] == |Members(g.parent, rank, r)|
    {
      assert r in Roots(g.parent);
      assert f.parent[r] == r;
      assert Members(g.parent, rank, r) == Members(f.parent, rank, r);
    }
  }

  lemma MergeKeepsSizes(f: Forest, rank: seq<nat>, a: int, b: int)
    requires Valid(f, rank) && 0 <= a < |f.parent| && 0 <= b < |f.parent|
    requires SizesCount(f, rank)
    requires Root(f.parent, rank, a) != Root(f.parent, rank, b)
    ensures Valid(Union(f, rank, a, b), UnionRank(f, rank, a, b))
    ensures SizesCount(Union(f, rank, a, b), UnionRank(f, rank, a, b))
  {
    var g, rank' := Union(f, rank, a, b), UnionRank(f, rank, a, b);
    var x, y := Winner(f, rank, a, b), Loser(f, rank, a, b);
    UnionMerges(f, rank, a, b);
    UnionAddsSizes(f, rank, a, b);
    UnionDropsRoot(f, rank, a, b);
    forall r | 0 <= r < |g.parent| && g.parent[r] == r
      ensures g.size[r] == |Members(g.parent, rank', r)|
    {
      assert r in Roots(g.parent);
      MergedMembers(f, rank, a, b, r);
    }
  }

  /** The sets after `Union` of two different sets: the winner's set is the
      disjoint union of the two, every other set is as it was. */
  lemma MergedMembers(f: Forest, rank: seq<nat>, a: int, b: int, r: int)
    requires Valid(f, rank) && 0 <= a < |f.parent| && 0 <= b < |f.parent|
    requires Root(f.parent, rank, a) != Root(f.parent, rank, b)
    requires Valid(Union(f, rank, a, b), UnionRank(f, rank, a, b))
    requires forall u :: 0 <= u < |f.parent| ==>
      Root(Union(f, rank, a, b).parent, UnionRank(f, rank, a, b), u)
        == if Root(f.parent, rank, u) in {Root(f.parent, rank, a), Root(f.parent, rank, b)} then Winner(f, rank, a, b)
           else Root(f.parent, rank, u)
    requires r in Roots(f.parent) && r != Loser(f, rank, a, b)
    ensures r == Winner(f, rank, a, b) ==>
      |Members(Union(f, rank, a, b).parent, UnionRank(f, rank, a, b), r)|
        == |Members(f.parent, rank, Root(f.parent, rank, a))| + |Members(f.parent, rank, Root(f.parent, rank, b))|
    ensures r != Winner(f, rank, a, b) ==>
      Members(Union(f, rank, a, b).parent, UnionRank(f, rank, a, b), r) == Members(f.parent, rank, r)
  {
    var ra, rb := Root(f.parent, rank, a), Root(f.parent, rank, b);
    var after := Members(Union(f, rank, a, b).parent, UnionRank(f, rank, a, b), r);
    if r == Winner(f, rank, a, b) {
      assert after == Members(f.parent, rank, ra) + Members(f.parent, rank, rb);
      assert Members(f.parent, rank, ra) * Members(f.parent, rank, rb) == {};
    } else {
      assert after == Members(f.parent, rank, r);
    }
  }

  /** Linking root `y` under root `x` is ranked by `UnionRank`. */
  lemma LinkRanked(parent: seq<int>, rank: seq<nat>, p2: seq<int>, x: int, y: int)
    requires Ranked(parent, rank) && Ranked(p2, rank) && |p2| == |parent|
    requires forall u :: 0 <= u < |p2| ==> Root(p2, rank, u) == Root(parent, rank, u)
    requires 0 <= x < |parent| && 0 <= y < |parent| && x != y && parent[x] == x && parent[y] == y
    ensures Ranked(p2[y := x], LinkRank(parent, rank, x, y))
  {
    var q, rank' := p2[y := x], LinkRank(parent, rank, x, y);
    forall u | 0 <= u < |q| && q[u] != u
      ensures rank'[q[u]] < rank'[u]
    {
      if u != y {
        assert Root(p2, rank, u) == Root(p2, rank, p2[u]);
      }
    }
  }

  ghost function LinkRank(parent: seq<int>, rank: seq<nat>, x: int, y: int): (rank': seq<nat>)
    requires Ranked(parent, rank) && 0 <= x < |parent|
    ensures |rank'| == |rank|
  {
    seq(|rank|, u requires 0 <= u < |rank| => if Root(parent, rank, u) == y then rank[u] + rank[x] + 1 else rank[u])
  }

  /** After linking, a node's root is its old root, or `x` for the nodes of
      `y`'s set. */
  lemma {:induction false} LinkRoot(parent: seq<int>, rank: seq<nat>, p2: seq<int>, x: int, y: int, rank': seq<nat>, u: int)
    requires Ranked(parent, rank) && Ranked(p2, rank) && |p2| == |parent|
    requires forall u :: 0 <= u < |p2| ==> Root(p2, rank, u) == Root(parent, rank, u)
    requires 0 <= x < |parent| && 0 <= y < |parent| && x != y && parent[x] == x && parent[y] == y
    requires rank' == LinkRank(parent, rank, x, y) && Ranked(p2[y := x], rank')
    requires 0 <= u < |parent|
    ensures Root(p2[y := x], rank', u) == if Root(parent, rank, u) == y then x else Root(parent, rank, u)
    decreases rank'[u]
  {
    var q := p2[y := x];
    assert Root(p2, rank, x) == x && Root(p2, rank, y) == y;
    if u == y {
      assert Root(q, rank', x) == x;
    } else if q[u] != u {
      assert Root(p2, rank, u) == Root(p2, rank, p2[u]);
      LinkRoot(parent, rank, p2, x, y, rank', q[u]);
    }
  }
}
