/** Walks along the lab's corridors, and the facts about them that the
    corrected search of "Underground Lab" needs: a walk joins consecutive
    entries by a listed corridor, the lists read from the corridors are
    symmetric, and walks, entries and closed marks combine as the search
    nests. */
module LabWalks {
  import opened GraphDfs
  import opened UndergroundLab

  /** Consecutive entries of `s` from index `lo` on are joined by a listed
      corridor. */
  ghost predicate WalkFrom(g: Graph, s: seq<int>, lo: int) {
    forall i, j :: 0 <= i && lo <= i && j == i + 1 && j < |s| ==> s[j] in Neighbours(g, s[i])
  }

  /** Every listed corridor is listed from both ends. */
  ghost predicate Symmetric(g: Graph) {
    forall u, w :: w in Neighbours(g, u) ==> u in Neighbours(g, w)
  }

  /** Every neighbour of a vertex in `from` is marked, or is `p`. */
  ghost predicate MarksClosed(g: Graph, from: set<int>, marks: set<int>, p: int) {
    forall u, w :: u in from && w in Neighbours(g, u) ==> w in marks || w == p
  }

  /** The program's lists are symmetric: corridor (a, b) puts each end on
      the other's list. */
  lemma BuildSymmetric(corridors: seq<(int, int)>)
    ensures Symmetric(Build(corridors))
  {
    var g := Build(corridors);
    forall u, w | w in Neighbours(g, u)
      ensures u in Neighbours(g, w)
    {
      ListedBothWays(corridors, u, w);
      assert multiset(Neighbours(g, u))[w] > 0;
      assert multiset(Neighbours(g, w))[u] > 0;
    }
  }

  /** Appending `v` after a nested tour from a neighbour `child` of `v`
      keeps the walk: `v` leads into the nested tour, which comes back to
      `child`, and `child` leads back to `v`. */
  lemma Rejoin(g: Graph, path: seq<int>, before: seq<int>, after: seq<int>, v: int, child: int)
    requires Symmetric(g) && child in Neighbours(g, v)
    requires |path| < |before| < |after| && after[..|before|] == before
    requires before[|before| - 1] == v && after[|before|] == child && after[|after| - 1] == child
    requires WalkFrom(g, before, |path|) && WalkFrom(g, after, |before|)
    ensures WalkFrom(g, after + [v], |path|)
  {
    var s := after + [v];
    forall i, j | 0 <= i && |path| <= i && j == i + 1 && j < |s|
      ensures s[j] in Neighbours(g, s[i])
    {
      if j < |before| {
        assert s[i] == before[i] && s[j] == before[j];
      } else if j == |before| {
        assert s[i] == before[|before| - 1];
      } else if j < |after| {
        assert s[i] == after[i] && s[j] == after[j];
      } else {
        assert s[i] == child && s[j] == v;
      }
    }
  }

  /** The entries appended by the nested tour and the return step are
      exactly the marks added so far. */
  lemma Entries(path: seq<int>, before: seq<int>, after: seq<int>, v: int,
                visited: set<int>, marked: set<int>, marked': set<int>)
    requires |path| < |before| <= |after| && before[..|path|] == path && after[..|before|] == before
    requires v !in visited && visited + {v} <= marked <= marked'
    requires forall u :: u in marked - visited <==> u in before[|path|..]
    requires forall u :: u in marked' - marked <==> u in after[|before|..]
    ensures (after + [v])[..|path|] == path
    ensures forall u :: u in marked' - visited <==> u in (after + [v])[|path|..]
  {
    var s := after + [v];
    assert s[..|path|] == path by {
      assert forall i :: 0 <= i < |path| ==> s[i] == before[i];
    }
    assert s[|path|..] == before[|path|..] + after[|before|..] + [v] by {
      assert after == before + after[|before|..];
    }
    forall u
      ensures u in marked' - visited <==> u in s[|path|..]
    {
    }
  }

  /** Marks that only grow split into the part before and the part after. */
  lemma SplitCount(visited: set<int>, marked: set<int>, marked': set<int>)
    requires visited <= marked <= marked'
    ensures |marked' - visited| == |marked - visited| + |marked' - marked|
  {
    assert marked' - visited == (marked - visited) + (marked' - marked);
    assert (marked - visited) * (marked' - marked) == {};
  }

  /** The marks closed before a nested call stay closed, and with the
      nested call's own they cover every new mark but `v`. */
  lemma ClosedUnion(g: Graph, visited: set<int>, marked: set<int>, marked': set<int>, v: int)
    requires visited + {v} <= marked <= marked'
    requires MarksClosed(g, marked - visited - {v}, marked, v)
    requires MarksClosed(g, marked' - marked, marked', v)
    ensures MarksClosed(g, marked' - visited - {v}, marked', v)
  {
    forall u, w | u in marked' - visited - {v} && w in Neighbours(g, u)
      ensures w in marked' || w == v
    {
      if u in marked {
        assert u in marked - visited - {v};
      } else {
        assert u in marked' - marked;
      }
    }
  }
}
