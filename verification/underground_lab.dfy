/** "Underground Lab" (Codeforces): `n` vertices, `m` corridors, `k` clones.
    The program lists the corridors on adjacency lists (a loop once), walks
    the graph depth-first from vertex 1 recording each vertex when it is
    first reached, and cuts that walk into `k` consecutive pieces whose
    sizes differ by at most one; a clone left without a piece is sent to
    vertex 1 alone. */
module UndergroundLab {
  import opened Counting
  import opened GraphDfs
  import Dsu

  /** Reading corridor (a, b): `b` goes on `a`'s list and, unless the
      corridor is a loop, `a` goes on `b`'s list. */
  function AddCorridor(g: Graph, a: int, b: int): (g': Graph)
    ensures a in g' && b in g'
  {
    var g1 := g[a := Neighbours(g, a) + [b]];
    if a != b then g1[b := Neighbours(g1, b) + [a]] else g1
  }

  /** The adjacency lists after reading all corridors in order. */
  function Build(corridors: seq<(int, int)>): (g: Graph)
  {
    if |corridors| == 0 then map[]
    else
      var c := corridors[|corridors| - 1];
      AddCorridor(Build(corridors[..|corridors| - 1]), c.0, c.1)
  }

  /** Corridor `c` joins `v` and `w`, in either direction. */
  predicate Joins(c: (int, int), v: int, w: int) {
    (c.0 == v && c.1 == w) || (c.0 == w && c.1 == v)
  }

  /** How often `w` is listed next to `v` after reading one corridor. */
  lemma AddCorridorCounts(g: Graph, a: int, b: int, v: int, w: int)
    ensures multiset(Neighbours(AddCorridor(g, a, b), v))[w]
      == multiset(Neighbours(g, v))[w] + (if Joins((a, b), v, w) then 1 else 0)
  {
    var g1 := g[a := Neighbours(g, a) + [b]];
    assert multiset(Neighbours(g1, v))[w]
      == multiset(Neighbours(g, v))[w] + (if v == a && w == b then 1 else 0);
  }

  /** `w` is listed next to `v` once for every corridor between them: a
      loop is listed once, any other corridor once on each side. */
  lemma {:induction false} BuildCounts(corridors: seq<(int, int)>, v: int, w: int)
    ensures multiset(Neighbours(Build(corridors), v))[w] == Count(corridors, c => Joins(c, v, w))
  {
    if |corridors| > 0 {
      var init, c := corridors[..|corridors| - 1], corridors[|corridors| - 1];
      BuildCounts(init, v, w);
      AddCorridorCounts(Build(init), c.0, c.1, v, w);
      LastSplit(corridors);
      CountSnoc(init, c, c => Joins(c, v, w));
    }
  }

  /** The lists are symmetric, and a loop at `v` puts `v` on its own list
      once per loop corridor. */
  lemma ListedBothWays(corridors: seq<(int, int)>, v: int, w: int)
    ensures multiset(Neighbours(Build(corridors), v))[w] == multiset(Neighbours(Build(corridors), w))[v]
    ensures multiset(Neighbours(Build(corridors), v))[v] == Count(corridors, c => c == (v, v))
  {
    BuildCounts(corridors, v, w);
    BuildCounts(corridors, w, v);
    CountCongruent(corridors, c => Joins(c, v, w), c => Joins(c, w, v));
    BuildCounts(corridors, v, v);
    CountCongruent(corridors, c => Joins(c, v, v), c => c == (v, v));
  }

  /** Every corridor ends in `1..n`. */
  predicate InRange(corridors: seq<(int, int)>, n: int) {
    forall i :: 0 <= i < |corridors| ==> 1 <= corridors[i].0 <= n && 1 <= corridors[i].1 <= n
  }

  /** Every vertex with a list, and every listed vertex, is in `1..n`. */
  ghost predicate ListsWithin(g: Graph, n: int) {
    forall u :: u in g ==> 1 <= u <= n && forall i :: 0 <= i < |g[u]| ==> 1 <= g[u][i] <= n
  }

  lemma {:induction false} BuildWithin(corridors: seq<(int, int)>, n: int)
    requires InRange(corridors, n)
    ensures ListsWithin(Build(corridors), n)
  {
    if |corridors| > 0 {
      var c := corridors[|corridors| - 1];
      BuildWithin(corridors[..|corridors| - 1], n);
      AddCorridorWithin(Build(corridors[..|corridors| - 1]), c.0, c.1, n);
    }
  }

  lemma AddCorridorWithin(g: Graph, a: int, b: int, n: int)
    requires ListsWithin(g, n) && 1 <= a <= n && 1 <= b <= n
    ensures ListsWithin(AddCorridor(g, a, b), n)
  {
  }

  /** Lists within `1..n` mention only vertices in `1..n`. */
  lemma VerticesWithin(g: Graph, n: int)
    requires ListsWithin(g, n)
    ensures forall u :: u in Vertices(g) ==> 1 <= u <= n
  {
    forall u | u in Vertices(g)
      ensures 1 <= u <= n
    {
      if u !in g {
        var x, i :| x in g && 0 <= i < |g[x]| && g[x][i] == u;
      }
    }
  }

  /** One output line: a piece of the walk, or the filler "1 1" (a route
      made of vertex 1 alone). */
  datatype Line = Chunk(cells: seq<int>) | Filler

  /** The route a line sends its clone along. */
  function Route(l: Line): seq<int> {
    if l.Chunk? then l.cells else [1]
  }

  /** The pieces of the walk, read back one line after another. */
  function Covered(lines: seq<Line>): seq<int> {
    if |lines| == 0 then []
    else Covered(lines[..|lines| - 1]) + (if lines[|lines| - 1].Chunk? then lines[|lines| - 1].cells else [])
  }

  lemma CoveredSnoc(lines: seq<Line>, l: Line)
    ensures Covered(lines + [l]) == Covered(lines) + (if l.Chunk? then l.cells else [])
  {
    assert (lines + [l])[..|lines|] == lines;
  }

  /** Every line of `lines` before `i` is a piece exactly when the walk
      still had vertices for it, and every piece has `base` or, among the
      first `rem` lines, `base + 1` vertices. */
  ghost predicate Balanced(lines: seq<Line>, i: int, size: int, base: int, rem: int)
    requires 0 <= i <= |lines|
  {
    forall j :: 0 <= j < i ==>
      (lines[j].Chunk? <==> j < size) &&
      (lines[j].Chunk? ==> |lines[j].cells| == base + (if j < rem then 1 else 0))
  }

  /** Cutting the walk into `k` lines: line `i` gets the next
      `size / k + (i < size % k ? 1 : 0)` vertices, capped by what is left,
      or the filler when that is none. */
  method Split(path: seq<int>, k: int) returns (lines: seq<Line>)
    requires k >= 1
    ensures |lines| == k && Covered(lines) == path
    ensures forall i :: 0 <= i < k ==> (lines[i].Chunk? <==> i < |path|)
    ensures forall i :: 0 <= i < k && lines[i].Chunk? ==> 0 < |lines[i].cells| <= (|path| + k - 1) / k
    ensures forall i, j :: 0 <= i < k && 0 <= j < k && lines[i].Chunk? && lines[j].Chunk? ==>
      |lines[i].cells| <= |lines[j].cells| + 1
    ensures forall i :: 0 <= i < k && lines[i].Chunk? ==>
      |lines[i].cells| == |path| / k + (if i < |path| % k then 1 else 0)
  {
    var size := |path|;
    var base := size / k;
    var rem := size % k;
    DivFacts(size, k);
    var idx := 0;
    lines := [];
    for i := 0 to k
      invariant |lines| == i
      invariant 0 <= idx <= size && idx == Offset(i, base, rem)
      invariant Covered(lines) == path[..idx]
      invariant Balanced(lines, i, size, base, rem)
    {
      NoClamp(size, k, base, rem, i);
      ChunkWhenLeft(size, k, base, rem, i);
      lines, idx := NextLine(path, base, rem, lines, idx);
    }
    NoClamp(size, k, base, rem, k - 1);
    assert path[..idx] == path;
    CeilIs(size, k);
    BalancedBounds(lines, size, base, rem);
  }

  /** One round of the loop: plan line `|lines|`, cut it, append it. */
  method NextLine(path: seq<int>, base: int, rem: int, lines: seq<Line>, idx: int)
    returns (lines': seq<Line>, idx': int)
    requires 0 <= base && Offset(|lines| + 1, base, rem) <= |path|
    requires base + (if |lines| < rem then 1 else 0) > 0 <==> |lines| < |path|
    requires 0 <= idx <= |path| && idx == Offset(|lines|, base, rem) && Covered(lines) == path[..idx]
    requires Balanced(lines, |lines|, |path|, base, rem)
    ensures |lines'| == |lines| + 1 && idx' == Offset(|lines'|, base, rem) && idx <= idx' <= |path|
    ensures Covered(lines') == path[..idx'] && Balanced(lines', |lines'|, |path|, base, rem)
  {
    var i := |lines|;
    var planned := base;
    if i < rem {
      planned := planned + 1;
    }
    var line;
    line, idx' := Cut(path, idx, planned);
    CoveredSnoc(lines, line);
    assert path[..idx] + (if line.Chunk? then line.cells else []) == path[..idx'];
    BalancedSnoc(lines, line, |path|, base, rem);
    lines' := lines + [line];
  }

  /** The line that starts at offset `idx` with `planned` vertices, the
      size capped by what is left of the walk (a cap the plan never
      reaches, see `NoClamp`), or the filler when that is none. */
  method Cut(path: seq<int>, idx: int, planned: int) returns (line: Line, next: int)
    requires 0 <= idx && 0 <= planned && idx + planned <= |path|
    ensures next == idx + planned
    ensures line.Chunk? <==> planned > 0
    ensures line.Chunk? ==> line.cells == path[idx..next]
  {
    var cur := planned;
    if |path| - idx < cur {
      cur := |path| - idx;
    }
    if cur > 0 {
      line := Chunk(path[idx..idx + cur]);
    } else {
      line := Filler;
    }
    next := idx + cur;
  }

  lemma BalancedSnoc(lines: seq<Line>, line: Line, size: int, base: int, rem: int)
    requires Balanced(lines, |lines|, size, base, rem)
    requires line.Chunk? <==> |lines| < size
    requires line.Chunk? ==> |line.cells| == base + (if |lines| < rem then 1 else 0)
    ensures Balanced(lines + [line], |lines| + 1, size, base, rem)
  {
    var lines' := lines + [line];
    forall j | 0 <= j < |lines'|
      ensures (lines'[j].Chunk? <==> j < size) &&
        (lines'[j].Chunk? ==> |lines'[j].cells| == base + (if j < rem then 1 else 0))
    {
      if j < |lines| {
        assert lines'[j] == lines[j];
      }
    }
  }

  /** Where line `i` starts: the first `i` planned sizes added up. */
  function Offset(i: nat, base: int, rem: int): int {
    if i == 0 then 0 else Offset(i - 1, base, rem) + base + (if i - 1 < rem then 1 else 0)
  }

  lemma {:induction false} OffsetIs(i: nat, base: int, rem: int)
    requires 0 <= rem
    ensures Offset(i, base, rem) == i * base + (if i < rem then i else rem)
  {
    if i > 0 {
      OffsetIs(i - 1, base, rem);
      assert i * base == (i - 1) * base + base;
    }
  }

  /** Euclidean division of the walk's length by `k`. */
  lemma DivFacts(size: int, k: int)
    requires 0 <= size && 1 <= k
    ensures size == k * (size / k) + size % k && 0 <= size % k < k && 0 <= size / k
  {
  }

  /** The capped size is never smaller than the planned one: the first
      `i + 1` planned sizes add up to at most the walk's length, and to
      exactly its length after the last line. */
  lemma NoClamp(size: int, k: int, base: int, rem: int, i: nat)
    requires size == k * base + rem && 0 <= rem < k && 0 <= base && i < k
    ensures Offset(i + 1, base, rem) <= size
    ensures i == k - 1 ==> Offset(i + 1, base, rem) == size
  {
    OffsetIs(i + 1, base, rem);
    MulNonNegative(k - (i + 1), base);
    assert k * base == (i + 1) * base + (k - (i + 1)) * base;
  }

  lemma MulNonNegative(a: int, b: int)
    requires 0 <= a && 0 <= b
    ensures 0 <= a * b
  {
  }

  /** Line `i` gets a piece exactly when `i` is below the walk's length. */
  lemma ChunkWhenLeft(size: int, k: int, base: int, rem: int, i: int)
    requires size == k * base + rem && 0 <= rem < k && 0 <= base && 0 <= i < k
    ensures base + (if i < rem then 1 else 0) > 0 <==> i < size
  {
    MulBounds(k, base);
  }

  /** With every piece of size `base` or `base + 1`, the latter only when
      `k` does not divide the walk, the pieces are as even as can be. */
  lemma BalancedBounds(lines: seq<Line>, size: int, base: int, rem: int)
    requires Balanced(lines, |lines|, size, base, rem) && 0 <= rem
    ensures forall i :: 0 <= i < |lines| ==> (lines[i].Chunk? <==> i < size)
    ensures forall i :: 0 <= i < |lines| && lines[i].Chunk? ==>
      |lines[i].cells| <= base + (if rem > 0 then 1 else 0)
    ensures forall i, j :: 0 <= i < |lines| && 0 <= j < |lines| && lines[i].Chunk? && lines[j].Chunk? ==>
      |lines[i].cells| <= |lines[j].cells| + 1
  {
  }

  /** `size / k`, plus one when `k` does not divide `size`, is the ceiling
      of `size / k`. */
  lemma CeilIs(size: int, k: int)
    requires 0 <= size && 1 <= k
    ensures (size + k - 1) / k == size / k + (if size % k > 0 then 1 else 0)
  {
    var base, rem := size / k, size % k;
    assert size + k - 1 == k * (base + (if rem > 0 then 1 else 0)) + (if rem > 0 then rem - 1 else k - 1);
    DivIs(size + k - 1, k, base + (if rem > 0 then 1 else 0), if rem > 0 then rem - 1 else k - 1);
  }

  lemma DivIs(x: int, k: int, q: int, r: int)
    requires 1 <= k && 0 <= r < k && x == k * q + r
    ensures x / k == q
  {
    var d := q - x / k;
    assert k * d == x % k - r by {
      assert x == k * (x / k) + x % k;
      assert k * q == k * (x / k) + k * d;
    }
    MulBounds(k, d);
  }

  /** A multiple of `k` by a non-zero factor is at least `k` away from 0. */
  lemma MulBounds(k: int, d: int)
    requires 1 <= k
    ensures d >= 1 ==> k * d >= k
    ensures d <= -1 ==> k * d <= -k
  {
    if d >= 1 {
      MulNonNegative(k, d - 1);
      assert k * d == k * (d - 1) + k;
    } else if d <= -1 {
      MulNonNegative(k, -d - 1);
      assert k * d == -(k * (-d - 1)) - k;
    }
  }

  /** Division by `k` keeps order. */
  lemma DivMonotone(a: int, b: int, k: int)
    requires 0 <= a <= b && 1 <= k
    ensures a / k <= b / k
  {
    var qa, qb := a / k, b / k;
    assert k * qa <= a && b < k * qb + k;
    assert k * (qa - qb) == k * qa - k * qb;
    MulBounds(k, qa - qb);
  }

  /** A walk of at most `2n` entries, cut into `k` lines, keeps every
      route within the limit `ceil(2n / k)` the problem sets. */
  lemma WithinLimit(size: int, n: int, k: int)
    requires 0 <= size <= 2 * n && 1 <= n && 1 <= k
    ensures 1 <= (2 * n + k - 1) / k && (size + k - 1) / k <= (2 * n + k - 1) / k
  {
    DivMonotone(size + k - 1, 2 * n + k - 1, k);
    DivMonotone(k, 2 * n + k - 1, k);
  }

  /** A duplicate-free sequence drawn from a set is no longer than the
      set is large. */
  lemma {:induction false} DistinctWithin(s: seq<int>, within: set<int>)
    requires NoDup(s) && forall i :: 0 <= i < |s| ==> s[i] in within
    ensures |s| <= |within|
  {
    if |s| > 0 {
      var x := s[|s| - 1];
      var init := s[..|s| - 1];
      assert forall i :: 0 <= i < |init| ==> init[i] == s[i] && s[i] != x;
      DistinctWithin(init, within - {x});
    }
  }

  /** What the search from vertex 1 leaves, read in terms of the walk:
      its vertices are in `1..n`, and every neighbour of one is on it (the
      start's parent -1 being no vertex). */
  lemma WalkFacts(g: Graph, n: int, visited: set<int>, path: seq<int>)
    requires ListsWithin(g, n) && forall u :: u in Vertices(g) ==> 1 <= u <= n
    requires 1 <= n && InStep(visited, path) && visited <= Vertices(g) + {1}
    requires |path| > 0 && ClosedFrom(g, path, 0, visited, -1)
    ensures forall i :: 0 <= i < |path| ==> 1 <= path[i] <= n
    ensures forall i, w :: 0 <= i < |path| && w in Neighbours(g, path[i]) ==> w in path
  {
    forall i | 0 <= i < |path|
      ensures 1 <= path[i] <= n
    {
      assert path[i] in path;
      assert path[i] in visited;
      if path[i] != 1 {
        assert path[i] in Vertices(g);
      }
    }
    forall i, w | 0 <= i < |path| && w in Neighbours(g, path[i])
      ensures w in path
    {
      assert path[i] in g && w in g[path[i]];
    }
  }

  /** `dfs(1, -1)` on the lists read from the corridors: the walk starts
      at vertex 1, visits each vertex once, reaches every vertex it visits
      along a corridor from an earlier one, and leaves no neighbour of a
      visited vertex unvisited (so it covers vertex 1's whole connected
      part); it therefore has at most `n` vertices. */
  method Walk(n: int, corridors: seq<(int, int)>) returns (path: seq<int>)
    requires 1 <= n && InRange(corridors, n)
    ensures 0 < |path| <= n && path[0] == 1 && NoDup(path)
    ensures forall i :: 0 <= i < |path| ==> 1 <= path[i] <= n
    ensures TreeFrom(Build(corridors), path, 0)
    ensures forall i, w :: 0 <= i < |path| && w in Neighbours(Build(corridors), path[i]) ==> w in path
  {
    var g := Build(corridors);
    BuildWithin(corridors, n);
    VerticesWithin(g, n);
    var visited;
    visited, path := Dfs(g, 1, -1, {}, []);
    WalkFacts(g, n, visited, path);
    var within := Dsu.Upto(n + 1) - {0};
    assert |within| == n;
    DistinctWithin(path, within);
  }

  /** The whole program: the walk, then the `k` lines that hand it out in
      order, every route non-empty and within `ceil(2n / k)`. */
  method Solve(n: int, corridors: seq<(int, int)>, k: int) returns (path: seq<int>, lines: seq<Line>)
    requires 1 <= n && 1 <= k && InRange(corridors, n)
    ensures |path| > 0 && path[0] == 1 && NoDup(path)
    ensures |lines| == k && Covered(lines) == path
    ensures forall i :: 0 <= i < k ==> 1 <= |Route(lines[i])| <= (2 * n + k - 1) / k
  {
    path := Walk(n, corridors);
    lines := Split(path, k);
    WithinLimit(|path|, n, k);
  }
}
