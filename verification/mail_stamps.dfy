/** "Mail Stamps" (Codeforces 29C): each stamp names the two cities a
    letter passed between, and the stamps together form one route.  The
    program lists each stamp on both cities' adjacency lists, counts how
    many stamp ends each city has, starts from a city with a single stamp
    end (the first one its hash map yields, or -1 when there is none) and
    prints the cities in depth-first order from there. */
module MailStamps {
  import opened Counting
  import opened GraphDfs

  /** Reading stamp (a, b): `b` goes on `a`'s list and `a` on `b`'s, even
      when they are the same city. */
  function AddStamp(g: Graph, a: int, b: int): (g': Graph)
    ensures a in g' && b in g'
  {
    var g1 := g[a := Neighbours(g, a) + [b]];
    g1[b := Neighbours(g1, b) + [a]]
  }

  /** The adjacency lists after reading all stamps in order. */
  function Build(stamps: seq<(int, int)>): (g: Graph)
  {
    if |stamps| == 0 then map[]
    else
      var s := stamps[|stamps| - 1];
      AddStamp(Build(stamps[..|stamps| - 1]), s.0, s.1)
  }

  /** A missing entry of the program's counting map reads as 0. */
  function Get(m: map<int, int>, v: int): int {
    if v in m then m[v] else 0
  }

  /** `cnt` after reading all stamps: one more for each end. */
  function Tally(stamps: seq<(int, int)>): (cnt: map<int, int>)
  {
    if |stamps| == 0 then map[]
    else
      var s := stamps[|stamps| - 1];
      var m := Tally(stamps[..|stamps| - 1]);
      var m1 := m[s.0 := Get(m, s.0) + 1];
      m1[s.1 := Get(m1, s.1) + 1]
  }

  /** How often `w` is listed next to `v` after reading one stamp. */
  lemma AddStampCounts(g: Graph, a: int, b: int, v: int, w: int)
    ensures multiset(Neighbours(AddStamp(g, a, b), v))[w]
      == multiset(Neighbours(g, v))[w] + (if v == a && w == b then 1 else 0) + (if v == b && w == a then 1 else 0)
  {
    var g1 := g[a := Neighbours(g, a) + [b]];
    assert multiset(Neighbours(g1, v))[w]
      == multiset(Neighbours(g, v))[w] + (if v == a && w == b then 1 else 0);
  }

  /** `w` is listed next to `v` once for every stamp from `v` to `w` and
      once for every stamp from `w` to `v`: a stamp from a city to itself
      puts it on its own list twice. */
  lemma {:induction false} BuildCounts(stamps: seq<(int, int)>, v: int, w: int)
    ensures multiset(Neighbours(Build(stamps), v))[w]
      == Count(stamps, (e: (int, int)) => e.0 == v && e.1 == w) + Count(stamps, (e: (int, int)) => e.0 == w && e.1 == v)
  {
    if |stamps| > 0 {
      var init, last := stamps[..|stamps| - 1], stamps[|stamps| - 1];
      BuildCounts(init, v, w);
      AddStampCounts(Build(init), last.0, last.1, v, w);
      LastSplit(stamps);
      CountSnoc(init, last, (e: (int, int)) => e.0 == v && e.1 == w);
      CountSnoc(init, last, (e: (int, int)) => e.0 == w && e.1 == v);
    }
  }

  /** `cnt[v]` is the number of stamp ends at `v` (a stamp from a city to
      itself gives it two), which is the length of `v`'s list; the cities
      counted are exactly the cities with a list. */
  lemma {:induction false} TallyIsDegree(stamps: seq<(int, int)>, v: int)
    ensures Get(Tally(stamps), v) == Count(stamps, (e: (int, int)) => e.0 == v) + Count(stamps, (e: (int, int)) => e.1 == v)
    ensures Get(Tally(stamps), v) == |Neighbours(Build(stamps), v)|
    ensures v in Tally(stamps) <==> v in Build(stamps)
  {
    if |stamps| > 0 {
      var init, last := stamps[..|stamps| - 1], stamps[|stamps| - 1];
      TallyIsDegree(init, v);
      LastSplit(stamps);
      CountSnoc(init, last, (e: (int, int)) => e.0 == v);
      CountSnoc(init, last, (e: (int, int)) => e.1 == v);
    }
  }

  /** Scanning the counting map for a city with count 1, in the order
      the hash map yields its keys (`order`, an order the program does not
      choose); the first one found is the start, and with none the start
      stays -1. */
  method PickStart(cnt: map<int, int>, order: seq<int>) returns (start: int)
    requires forall v :: v in cnt ==> v in order
    requires forall i :: 0 <= i < |order| ==> order[i] in cnt
    ensures (exists v :: v in cnt && cnt[v] == 1) ==> start in cnt && cnt[start] == 1
    ensures (forall v :: v in cnt ==> cnt[v] != 1) ==> start == -1
  {
    start := -1;
    for i := 0 to |order|
      invariant forall j :: 0 <= j < i ==> order[j] in cnt && cnt[order[j]] != 1
    {
      if cnt[order[i]] == 1 {
        start := order[i];
        return;
      }
    }
    forall v | v in cnt
      ensures cnt[v] != 1
    {
      var j :| 0 <= j < |order| && order[j] == v;
    }
  }

  /** The whole program: the start is a city with one stamp end when
      there is one, and the printed cities begin there, each once, each
      reached along a stamp from an earlier one, with every city that
      shares a stamp with a printed city printed too (-1, the start's
      parent, aside). */
  method Solve(stamps: seq<(int, int)>, order: seq<int>) returns (start: int, path: seq<int>)
    requires forall v :: v in Tally(stamps) ==> v in order
    requires forall i :: 0 <= i < |order| ==> order[i] in Tally(stamps)
    ensures (exists v :: v in Build(stamps) && |Neighbours(Build(stamps), v)| == 1) ==>
      |Neighbours(Build(stamps), start)| == 1
    ensures (forall v :: v in Build(stamps) ==> |Neighbours(Build(stamps), v)| != 1) ==> start == -1
    ensures |path| > 0 && path[0] == start && NoDup(path)
    ensures TreeFrom(Build(stamps), path, 0)
    ensures forall i, w :: 0 <= i < |path| && w in Neighbours(Build(stamps), path[i]) ==> w in path || w == -1
  {
    var g := Build(stamps);
    var cnt := Tally(stamps);
    start := PickStart(cnt, order);
    DegreeChoice(stamps, start);
    var visited;
    visited, path := Dfs(g, start, -1, {}, []);
    assert path[..0] == [];
    forall i, w | 0 <= i < |path| && w in Neighbours(g, path[i])
      ensures w in path || w == -1
    {
      assert w in visited || w == -1;
    }
  }

  /** Reading the start's contract in terms of list lengths. */
  lemma DegreeChoice(stamps: seq<(int, int)>, start: int)
    requires (exists v :: v in Tally(stamps) && Tally(stamps)[v] == 1) ==>
      start in Tally(stamps) && Tally(stamps)[start] == 1
    requires (forall v :: v in Tally(stamps) ==> Tally(stamps)[v] != 1) ==> start == -1
    ensures (exists v :: v in Build(stamps) && |Neighbours(Build(stamps), v)| == 1) ==>
      |Neighbours(Build(stamps), start)| == 1
    ensures (forall v :: v in Build(stamps) ==> |Neighbours(Build(stamps), v)| != 1) ==> start == -1
  {
    var g, cnt := Build(stamps), Tally(stamps);
    if v :| v in g && |Neighbours(g, v)| == 1 {
      TallyIsDegree(stamps, v);
      TallyIsDegree(stamps, start);
    } else {
      forall v | v in cnt
        ensures cnt[v] != 1
      {
        TallyIsDegree(stamps, v);
      }
    }
  }
}
