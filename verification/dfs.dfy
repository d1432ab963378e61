/** The recursive depth-first search shared by "Underground Lab" and "Mail
    Stamps": mark `v`, append it to the path, then visit every neighbour
    except the one it came from (`p`) that is not marked yet.  The marks
    and the path are globals of the programs; here they are threaded through
    as a set and a sequence, which the programs keep in step (a vertex is
    marked exactly when it has been appended). */
module GraphDfs {

  /** Adjacency lists keyed by vertex; a vertex without a list has no
      neighbours (reading a missing entry of the program's map or vector
      gives an empty list). */
  type Graph = map<int, seq<int>>

  function Neighbours(g: Graph, v: int): seq<int> {
    if v in g then g[v] else []
  }

  /** Every vertex that has a list or appears in one. */
  ghost function Vertices(g: Graph): set<int> {
    g.Keys + set u, w | u in g && w in g[u] :: w
  }

  predicate NoDup(s: seq<int>) {
    forall i, j :: 0 <= i < j < |s| ==> s[i] != s[j]
  }

  ghost predicate InStep(visited: set<int>, path: seq<int>) {
    NoDup(path) && forall u :: u in visited <==> u in path
  }

  /** Every vertex of `path` from index `lo + 1` on is a neighbour of an
      earlier vertex from index `lo` on: the search tree's edges. */
  ghost predicate TreeFrom(g: Graph, path: seq<int>, lo: int)
    requires 0 <= lo <= |path|
  {
    forall i :: lo < i < |path| ==> exists j :: lo <= j < i && path[i] in Neighbours(g, path[j])
  }

  /** Every neighbour of a vertex of `path` from index `lo` on is marked,
      or is `p`. */
  ghost predicate ClosedFrom(g: Graph, path: seq<int>, lo: int, visited: set<int>, p: int)
    requires 0 <= lo <= |path|
  {
    forall i, w :: lo <= i < |path| && w in Neighbours(g, path[i]) ==> w in visited || w == p
  }

  /** `dfs(v, p)` on an unmarked `v`: returns the new marks and path.  The
      path grows by `v` and then by the vertices the search reached, each
      once, each a neighbour of an earlier one; afterwards every neighbour
      of a newly visited vertex is marked, except possibly `p`. */
  method Dfs(g: Graph, v: int, p: int, visited: set<int>, path: seq<int>) returns (visited': set<int>, path': seq<int>)
    requires InStep(visited, path) && v !in visited
    ensures InStep(visited', path') && v in visited'
    ensures |path'| > |path| && path'[..|path|] == path && path'[|path|] == v
    ensures visited <= visited' && visited' - visited <= Vertices(g) + {v}
    ensures TreeFrom(g, path', |path|)
    ensures ClosedFrom(g, path', |path|, visited', p)
    decreases |Vertices(g) + {v} - visited|
  {
    visited' := visited + {v};
    path' := path + [v];
    assert NoDup(path') by {
      forall i | 0 <= i < |path|
        ensures path'[i] != v
      {
        assert path[i] in path;
      }
    }
    var nbrs := Neighbours(g, v);
    for k := 0 to |nbrs|
      invariant InStep(visited', path')
      invariant |path'| > |path| && path'[..|path|] == path && path'[|path|] == v
      invariant visited + {v} <= visited' && visited' - visited <= Vertices(g) + {v}
      invariant TreeFrom(g, path', |path|)
      invariant ClosedFrom(g, path', |path| + 1, visited', v)
      invariant Handled(nbrs[..k], visited', p)
    {
      var child := nbrs[k];
      ghost var marked0 := visited';
      if child != p && child !in visited' {
        NeighbourIsVertex(g, v, child);
        Shrinks(g, v, child, visited, visited');
        ghost var before, marked := path', visited';
        visited', path' := Dfs(g, child, v, visited', path');
        Extended(g, path, before, path', v);
        StaysClosed(g, before, path', |path| + 1, marked, visited', v);
        PrefixOfPrefix(path, before, path');
        MarksGrow(Vertices(g), visited, marked, visited', v, child);
      }
      HandledNext(nbrs, k, marked0, visited', p);
    }
    assert ClosedFrom(g, path', |path|, visited', p) by {
      forall i, w | |path| <= i < |path'| && w in Neighbours(g, path'[i])
        ensures w in visited' || w == p
      {
        if i == |path| {
          assert nbrs[..|nbrs|] == nbrs;
          var j :| 0 <= j < |nbrs| && nbrs[j] == w;
        }
      }
    }
  }

  /** Marks only grow, so the part closed before a nested call stays
      closed, and together with the nested part it covers the whole new
      suffix. */
  lemma StaysClosed(g: Graph, before: seq<int>, after: seq<int>, lo: int, marked: set<int>, marked': set<int>, v: int)
    requires 0 <= lo <= |before| <= |after| && after[..|before|] == before && marked <= marked'
    requires ClosedFrom(g, before, lo, marked, v) && ClosedFrom(g, after, |before|, marked', v)
    ensures ClosedFrom(g, after, lo, marked', v)
  {
    forall i, w | lo <= i < |after| && w in Neighbours(g, after[i])
      ensures w in marked' || w == v
    {
      if i < |before| {
        assert after[i] == before[i];
      }
    }
  }

  lemma PrefixOfPrefix(a: seq<int>, b: seq<int>, c: seq<int>)
    requires |a| <= |b| <= |c| && b[..|a|] == a && c[..|b|] == b
    ensures c[..|a|] == a
  {
    assert forall i :: 0 <= i < |a| ==> c[i] == b[i];
  }

  lemma MarksGrow(vs: set<int>, visited: set<int>, marked: set<int>, marked': set<int>, v: int, child: int)
    requires child in vs && marked <= marked'
    requires visited + {v} <= marked && marked - visited <= vs + {v}
    requires marked' - marked <= vs + {child}
    ensures visited + {v} <= marked' && marked' - visited <= vs + {v}
  {
    forall x | x in marked' - visited
      ensures x in vs + {v}
    {
      if x !in marked {
        assert x in marked' - marked;
      }
    }
  }

  /** Every listed neighbour is marked, or is the vertex the search came
      from. */
  ghost predicate Handled(nbrs: seq<int>, marks: set<int>, p: int) {
    forall j :: 0 <= j < |nbrs| ==> nbrs[j] in marks || nbrs[j] == p
  }

  lemma HandledNext(nbrs: seq<int>, k: int, marks: set<int>, marks': set<int>, p: int)
    requires 0 <= k < |nbrs| && Handled(nbrs[..k], marks, p) && marks <= marks'
    requires nbrs[k] in marks' || nbrs[k] == p
    ensures Handled(nbrs[..k + 1], marks', p)
  {
    var next := nbrs[..k + 1];
    forall j | 0 <= j < |next|
      ensures next[j] in marks' || next[j] == p
    {
      if j < k {
        assert nbrs[..k][j] == nbrs[j];
      }
    }
  }

  lemma NeighbourIsVertex(g: Graph, v: int, w: int)
    requires w in Neighbours(g, v)
    ensures w in Vertices(g)
  {
  }

  /** The recursion's measure drops: `child` is a vertex and `v` is now
      marked. */
  lemma Shrinks(g: Graph, v: int, child: int, visited: set<int>, visited': set<int>)
    requires child in Vertices(g) && visited + {v} <= visited' && v !in visited
    ensures |Vertices(g) + {child} - visited'| < |Vertices(g) + {v} - visited|
  {
    var small, big := Vertices(g) + {child} - visited', Vertices(g) + {v} - visited;
    assert small <= big - {v};
    assert v in big;
    SubsetSize(small, big - {v});
  }

  lemma SubsetSize(a: set<int>, b: set<int>)
    requires a <= b
    ensures |a| <= |b|
  {
    assert b == a + (b - a);
  }

  /** After a nested call from `v` the path's new part is still a tree:
      the earlier vertices keep their edges, the nested call's first vertex
      hangs off `v`, and the rest hang off the nested part. */
  lemma Extended(g: Graph, path: seq<int>, before: seq<int>, after: seq<int>, v: int)
    requires |path| < |before| < |after| && after[..|before|] == before && before[|path|] == v
    requires TreeFrom(g, before, |path|) && TreeFrom(g, after, |before|)
    requires after[|before|] in Neighbours(g, v)
    ensures TreeFrom(g, after, |path|)
  {
    forall i | |path| < i < |after|
      ensures exists j :: |path| <= j < i && after[i] in Neighbours(g, after[j])
    {
      if i < |before| {
        assert after[i] == before[i];
        var j :| |path| <= j < i && before[i] in Neighbours(g, before[j]);
        assert after[j] == before[j];
      } else if i == |before| {
        assert after[|path|] == v;
      } else {
        var j :| |before| <= j < i && after[i] in Neighbours(g, after[j]);
      }
    }
  }
}
