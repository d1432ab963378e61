/** The search "Underground Lab" evidently intends.  Its comments ask for
    an Euler route of the search tree, so that every clone's piece is a walk
    along corridors; the `dfs` as written records a vertex only when it is
    first reached and never returns to it, so its path need not be a walk.
    Here the search appends `v` again after every nested call: the path is
    then a walk that visits every vertex it reaches and has fewer than `2n`
    entries, and cut into `k` pieces each clone's route is a walk within the
    limit `ceil(2n / k)`. */
module LabTour {
  import opened GraphDfs
  import opened LabWalks

  /** `dfs(v, p)` with the return step: mark `v`, append it, and after each
      nested call into an unmarked neighbour append `v` again.  The new part
      of the path is a walk from `v` back to `v` through exactly the newly
      marked vertices, two entries per new vertex but one, and every
      neighbour of a new mark is marked, except possibly `p`. */
  method TourDfs(g: Graph, v: int, p: int, visited: set<int>, path: seq<int>) returns (visited': set<int>, path': seq<int>)
    requires Symmetric(g) && v !in visited
    ensures visited + {v} <= visited' && visited' - visited <= Vertices(g) + {v}
    ensures |path'| > |path| && path'[..|path|] == path && path'[|path|] == v && path'[|path'| - 1] == v
    ensures WalkFrom(g, path', |path|)
    ensures |path'| - |path| == 2 * |visited' - visited| - 1
    ensures forall u :: u in visited' - visited <==> u in path'[|path|..]
    ensures MarksClosed(g, visited' - visited, visited', p)
    decreases |Vertices(g) + {v} - visited|, 2
  {
    visited', path' := TourLoop(g, v, p, visited, path);
    TourEnd(g, v, p, visited, path, visited', path');
  }

  /** Marking `v`, appending it, and the loop over its neighbours, up to
      the state after the last neighbour. */
  method TourLoop(g: Graph, v: int, p: int, visited: set<int>, path: seq<int>)
    returns (cur': set<int>, curPath': seq<int>)
    requires Symmetric(g) && v !in visited
    ensures TourProgress(g, v, p, visited, path, cur', curPath', |Neighbours(g, v)|)
    decreases |Vertices(g) + {v} - visited|, 1
  {
    TourStart(g, v, p, visited, path);
    cur', curPath' := visited + {v}, path + [v];
    for k := 0 to |Neighbours(g, v)|
      invariant TourProgress(g, v, p, visited, path, cur', curPath', k)
    {
      cur', curPath' := TourStep(g, v, p, k, visited, path, cur', curPath');
    }
  }

  /** The search at `v` after trying its first `k` neighbours: the new
      marks are vertices, the new part of the path is a walk from `v` back
      to `v` through exactly the new marks, two entries per new mark but
      one; the new marks other than `v` are closed up to `v`, and the first
      `k` neighbours are marked or are `p`. */
  ghost predicate TourProgress(g: Graph, v: int, p: int, visited: set<int>, path: seq<int>, cur: set<int>, curPath: seq<int>, k: int) {
    v !in visited && visited + {v} <= cur && cur - visited <= Vertices(g) + {v} &&
    |curPath| > |path| && curPath[..|path|] == path && curPath[|path|] == v && curPath[|curPath| - 1] == v &&
    WalkFrom(g, curPath, |path|) && |curPath| - |path| == 2 * |cur - visited| - 1 &&
    (forall u :: u in cur - visited <==> u in curPath[|path|..]) &&
    MarksClosed(g, cur - visited - {v}, cur, v) &&
    0 <= k <= |Neighbours(g, v)| && Handled(Neighbours(g, v)[..k], cur, p)
  }

  lemma TourStart(g: Graph, v: int, p: int, visited: set<int>, path: seq<int>)
    requires v !in visited
    ensures TourProgress(g, v, p, visited, path, visited + {v}, path + [v], 0)
  {
    assert visited + {v} - visited == {v};
    assert (path + [v])[|path|..] == [v];
    assert (path + [v])[..|path|] == path;
  }

  /** One round of the loop in `dfs(v, p)`: neighbour `k`, and a nested
      search followed by the return step when it is unmarked and not `p`. */
  method TourStep(g: Graph, v: int, p: int, k: int, ghost visited: set<int>, ghost path: seq<int>, cur: set<int>, curPath: seq<int>)
    returns (cur': set<int>, curPath': seq<int>)
    requires Symmetric(g) && 0 <= k < |Neighbours(g, v)|
    requires TourProgress(g, v, p, visited, path, cur, curPath, k)
    ensures TourProgress(g, v, p, visited, path, cur', curPath', k + 1)
    decreases |Vertices(g) + {v} - visited|, 0
  {
    cur', curPath' := cur, curPath;
    var child := Neighbours(g, v)[k];
    if child != p && child !in cur {
      NeighbourIsVertex(g, v, child);
      Shrinks(g, v, child, visited, cur);
      cur', curPath' := TourDfs(g, child, v, cur, curPath);
      TourChild(g, v, p, k, visited, path, cur, curPath, cur', curPath');
      curPath' := curPath' + [v];
    } else {
      HandledNext(Neighbours(g, v), k, cur, cur, p);
    }
  }

  /** A nested tour from neighbour `k` and the return step to `v` keep the
      loop's invariant. */
  lemma TourChild(g: Graph, v: int, p: int, k: int, visited: set<int>, path: seq<int>,
                  cur: set<int>, curPath: seq<int>, cur': set<int>, curPath': seq<int>)
    requires Symmetric(g) && 0 <= k < |Neighbours(g, v)|
    requires TourProgress(g, v, p, visited, path, cur, curPath, k)
    requires Neighbours(g, v)[k] in Vertices(g) && Neighbours(g, v)[k] !in cur
    requires cur + {Neighbours(g, v)[k]} <= cur' && cur' - cur <= Vertices(g) + {Neighbours(g, v)[k]}
    requires |curPath'| > |curPath| && curPath'[..|curPath|] == curPath
    requires curPath'[|curPath|] == Neighbours(g, v)[k] && curPath'[|curPath'| - 1] == Neighbours(g, v)[k]
    requires WalkFrom(g, curPath', |curPath|)
    requires |curPath'| - |curPath| == 2 * |cur' - cur| - 1
    requires forall u :: u in cur' - cur <==> u in curPath'[|curPath|..]
    requires MarksClosed(g, cur' - cur, cur', v)
    ensures TourProgress(g, v, p, visited, path, cur', curPath' + [v], k + 1)
  {
    var child := Neighbours(g, v)[k];
    assert child in Neighbours(g, v);
    Rejoin(g, path, curPath, curPath', v, child);
    Entries(path, curPath, curPath', v, visited, cur, cur');
    SplitCount(visited, cur, cur');
    ClosedUnion(g, visited, cur, cur', v);
    MarksGrow(Vertices(g), visited, cur, cur', v, child);
    HandledNext(Neighbours(g, v), k, cur, cur', p);
  }

  /** After every neighbour the new marks are closed up to `p`. */
  lemma TourEnd(g: Graph, v: int, p: int, visited: set<int>, path: seq<int>, cur: set<int>, curPath: seq<int>)
    requires TourProgress(g, v, p, visited, path, cur, curPath, |Neighbours(g, v)|)
    ensures visited + {v} <= cur && cur - visited <= Vertices(g) + {v}
    ensures |curPath| > |path| && curPath[..|path|] == path && curPath[|path|] == v && curPath[|curPath| - 1] == v
    ensures WalkFrom(g, curPath, |path|)
    ensures |curPath| - |path| == 2 * |cur - visited| - 1
    ensures forall u :: u in cur - visited <==> u in curPath[|path|..]
    ensures MarksClosed(g, cur - visited, cur, p)
  {
    var nbrs := Neighbours(g, v);
    assert nbrs[..|nbrs|] == nbrs;
    forall u, w | u in cur - visited && w in Neighbours(g, u)
      ensures w in cur || w == p
    {
      if u == v {
        var j :| 0 <= j < |nbrs| && nbrs[j] == w;
      }
    }
  }
}
