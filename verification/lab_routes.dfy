/** The clones' routes of "Underground Lab" with the return step restored,
    and the input on which the search as written goes wrong: the tour of
    `LabTour` cut into `k` lines leaves every route a walk along
    corridors, while the preorder path of the written `dfs` on corridors
    1-2 and 1-3 is no walk. */
module LabRoutes {
  import opened GraphDfs
  import opened UndergroundLab
  import opened LabWalks
  import opened LabTour
  import Dsu

  /** The corrected search from vertex 1 on the lists read from the
      corridors: a walk from vertex 1 with fewer than `2n` entries, all
      vertices, that reaches every neighbour of every vertex on it. */
  method Tour(n: int, corridors: seq<(int, int)>) returns (path: seq<int>)
    requires 1 <= n && InRange(corridors, n)
    ensures 0 < |path| < 2 * n && path[0] == 1
    ensures forall i :: 0 <= i < |path| ==> 1 <= path[i] <= n
    ensures WalkFrom(Build(corridors), path, 0)
    ensures forall i, w :: 0 <= i < |path| && w in Neighbours(Build(corridors), path[i]) ==> w in path
  {
    var g := Build(corridors);
    BuildWithin(corridors, n);
    VerticesWithin(g, n);
    BuildSymmetric(corridors);
    var visited;
    visited, path := TourDfs(g, 1, -1, {}, []);
    assert visited - {} == visited && path[0..] == path;
    TourFacts(g, n, visited, path);
  }

  /** What the corrected search from vertex 1 leaves, read in terms of the
      path: at most `n` marks, every entry a vertex in `1..n`, and every
      neighbour of an entry on the path (the start's parent -1 being no
      vertex). */
  lemma TourFacts(g: Graph, n: int, visited: set<int>, path: seq<int>)
    requires 1 <= n && forall u :: u in Vertices(g) ==> 1 <= u <= n
    requires visited <= Vertices(g) + {1}
    requires forall u :: u in visited <==> u in path
    requires MarksClosed(g, visited, visited, -1)
    ensures |visited| <= n
    ensures forall i :: 0 <= i < |path| ==> 1 <= path[i] <= n
    ensures forall i, w :: 0 <= i < |path| && w in Neighbours(g, path[i]) ==> w in path
  {
    var within := Dsu.Upto(n + 1) - {0};
    assert visited <= within;
    SubsetSize(visited, within);
    forall i | 0 <= i < |path|
      ensures 1 <= path[i] <= n
    {
      assert path[i] in path;
    }
    forall i, w | 0 <= i < |path| && w in Neighbours(g, path[i])
      ensures w in path
    {
      assert path[i] in path;
      NeighbourIsVertex(g, path[i], w);
    }
  }

  /** A walk cut into consecutive pieces leaves every piece a walk, and the
      filler route is vertex 1 alone. */
  lemma {:induction false} PiecesAreWalks(g: Graph, lines: seq<Line>)
    requires WalkFrom(g, Covered(lines), 0)
    ensures forall i :: 0 <= i < |lines| ==> WalkFrom(g, Route(lines[i]), 0)
  {
    if |lines| > 0 {
      var init, l := lines[..|lines| - 1], lines[|lines| - 1];
      assert lines == init + [l];
      CoveredSnoc(init, l);
      var a, b := Covered(init), if l.Chunk? then l.cells else [];
      WalkParts(g, a, b);
      PiecesAreWalks(g, init);
      forall i | 0 <= i < |lines|
        ensures WalkFrom(g, Route(lines[i]), 0)
      {
        if i < |init| {
          assert lines[i] == init[i];
        }
      }
    }
  }

  /** Both parts of a walk are walks. */
  lemma WalkParts(g: Graph, a: seq<int>, b: seq<int>)
    requires WalkFrom(g, a + b, 0)
    ensures WalkFrom(g, a, 0) && WalkFrom(g, b, 0)
  {
    var s := a + b;
    forall i, j | 0 <= i && j == i + 1 && j < |a|
      ensures a[j] in Neighbours(g, a[i])
    {
      assert s[i] == a[i] && s[j] == a[j];
    }
    forall i, j | 0 <= i && j == i + 1 && j < |b|
      ensures b[j] in Neighbours(g, b[i])
    {
      assert s[|a| + i] == b[i] && s[|a| + j] == b[j];
    }
  }

  /** The program with the return step restored: `k` lines that hand out
      the tour in order, every clone's route a non-empty walk along
      corridors within `ceil(2n / k)`, and the routes together reach every
      neighbour of every vertex they visit. */
  method SolveFixed(n: int, corridors: seq<(int, int)>, k: int) returns (path: seq<int>, lines: seq<Line>)
    requires 1 <= n && 1 <= k && InRange(corridors, n)
    ensures |path| > 0 && path[0] == 1
    ensures |lines| == k && Covered(lines) == path
    ensures forall i :: 0 <= i < k ==> 1 <= |Route(lines[i])| <= (2 * n + k - 1) / k
    ensures forall i :: 0 <= i < k ==> WalkFrom(Build(corridors), Route(lines[i]), 0)
    ensures forall i, w :: 0 <= i < |path| && w in Neighbours(Build(corridors), path[i]) ==> w in path
  {
    path := Tour(n, corridors);
    lines := Split(path, k);
    WithinLimit(|path|, n, k);
    PiecesAreWalks(Build(corridors), lines);
  }

  /** The program as written need not print walks: with corridors 1-2 and
      1-3, every path its `dfs(1, -1)` can leave (by the contract of
      `Walk`) visits 2 and 3 one right after the other, and no corridor
      joins them; with one clone that path is the clone's whole route. */
  lemma PreorderNotWalk(path: seq<int>, lines: seq<Line>)
    requires 0 < |path| <= 3 && path[0] == 1
    requires forall i, w :: 0 <= i < |path| && w in Neighbours(Build([(1, 2), (1, 3)]), path[i]) ==> w in path
    requires |lines| == 1 && Covered(lines) == path
    ensures !WalkFrom(Build([(1, 2), (1, 3)]), path, 0)
    ensures !WalkFrom(Build([(1, 2), (1, 3)]), Route(lines[0]), 0)
  {
    var g := Build([(1, 2), (1, 3)]);
    StarLists();
    assert 2 in Neighbours(g, path[0]) && 3 in Neighbours(g, path[0]);
    ThreeEntries(path);
    assert path[2] !in Neighbours(g, path[1]);
    OneLine(lines);
  }

  /** The lists read from corridors 1-2 and 1-3. */
  lemma StarLists()
    ensures Neighbours(Build([(1, 2), (1, 3)]), 1) == [2, 3]
    ensures Neighbours(Build([(1, 2), (1, 3)]), 2) == [1]
    ensures Neighbours(Build([(1, 2), (1, 3)]), 3) == [1]
  {
    assert [(1, 2), (1, 3)][..1] == [(1, 2)];
    assert [(1, 2)][..0] == [];
    var g0 := Build([(1, 2)]);
    assert g0 == AddCorridor(map[], 1, 2);
    assert Neighbours(g0, 1) == [2] && Neighbours(g0, 2) == [1] && 3 !in g0;
  }

  /** A path of at most three entries that starts at 1 and holds 2 and 3
      has 2 and 3 as its last two entries. */
  lemma ThreeEntries(path: seq<int>)
    requires 0 < |path| <= 3 && path[0] == 1 && 2 in path && 3 in path
    ensures |path| == 3 && ((path[1] == 2 && path[2] == 3) || (path[1] == 3 && path[2] == 2))
  {
    var i2 :| 0 <= i2 < |path| && path[i2] == 2;
    var i3 :| 0 <= i3 < |path| && path[i3] == 3;
  }

  /** A single line covering a non-empty path is a piece holding all of
      it. */
  lemma OneLine(lines: seq<Line>)
    requires |lines| == 1 && |Covered(lines)| > 0
    ensures Route(lines[0]) == Covered(lines)
  {
    assert lines[..0] == [];
  }
}
