/** "ABC Path" (SPOJ ABCPATH): in an `h` by `w` grid of letters, the
    longest path that starts at an 'A' and steps to a king-move neighbour
    holding the next letter each time.  The program starts a depth-first
    search at every unvisited 'A' with count 1, passes `count + 1` to a
    neighbour holding the next letter, and keeps the largest count it sees.
    Cells are addressed 1-based, as in the program; marks live in one grid
    shared by all searches of a test. */
module AbcPath {

  type Pos = (int, int)

  /** The letters of one test case; `rows[i - 1][j - 1]` is cell (i, j). */
  datatype Board = Board(h: int, w: int, rows: seq<seq<char>>)

  predicate ValidBoard(b: Board) {
    0 <= b.w && |b.rows| == b.h && forall r :: 0 <= r < |b.rows| ==> |b.rows[r]| == b.w
  }

  predicate InGrid(b: Board, c: Pos) {
    1 <= c.0 <= b.h && 1 <= c.1 <= b.w
  }

  /** The letter at `c`; cells outside the letters read as '0', the
      program's padding. */
  function At(b: Board, c: Pos): char {
    if 1 <= c.0 <= |b.rows| && 1 <= c.1 <= |b.rows[c.0 - 1]| then b.rows[c.0 - 1][c.1 - 1] else '0'
  }

  /** The eight moves, in the program's order. */
  const Moves: seq<(int, int)> := [(-1, 1), (0, 1), (1, 1), (-1, 0), (1, 0), (-1, -1), (0, -1), (1, -1)]

  function Step(c: Pos, k: int): Pos
    requires 0 <= k < |Moves|
  {
    (c.0 + Moves[k].0, c.1 + Moves[k].1)
  }

  /** Move `7 - k` undoes move `k`. */
  lemma Opposite(c: Pos, k: int)
    requires 0 <= k < |Moves|
    ensures Step(Step(c, k), 7 - k) == c
  {
  }

  /** `d` is a grid cell holding the letter after `c`'s. */
  predicate Follows(b: Board, c: Pos, d: Pos) {
    InGrid(b, d) && At(b, d) as int == At(b, c) as int + 1
  }

  /** An ABC path ends at `c`: `c` is an 'A' in the grid, or a grid cell
      next to the end of an ABC path whose letter comes just before
      `c`'s. */
  ghost predicate Reachable(b: Board, c: Pos)
    decreases At(b, c) as int
  {
    InGrid(b, c) &&
    (At(b, c) == 'A' || exists k :: 0 <= k < |Moves| && Follows(b, Step(c, k), c) && Reachable(b, Step(c, k)))
  }

  /** The length of an ABC path ending at `c`: its letter's place in the
      alphabet. */
  function Rank(b: Board, c: Pos): int {
    At(b, c) as int - 'A' as int + 1
  }

  /** Only letters from 'A' on end an ABC path. */
  lemma {:induction false} ReachableRank(b: Board, c: Pos)
    requires Reachable(b, c)
    ensures Rank(b, c) >= 1
    decreases At(b, c) as int
  {
    if At(b, c) != 'A' {
      var k :| 0 <= k < |Moves| && Follows(b, Step(c, k), c) && Reachable(b, Step(c, k));
      ReachableRank(b, Step(c, k));
    }
  }

  /** Every ABC path starts at an 'A' of the grid. */
  lemma {:induction false} ReachableFromA(b: Board, c: Pos)
    requires Reachable(b, c)
    ensures exists a :: InGrid(b, a) && At(b, a) == 'A'
    decreases At(b, c) as int
  {
    if At(b, c) != 'A' {
      var k :| 0 <= k < |Moves| && Follows(b, Step(c, k), c) && Reachable(b, Step(c, k));
      ReachableFromA(b, Step(c, k));
    }
  }

  /** Stepping from the end of an ABC path to a neighbour with the next
      letter extends it. */
  lemma ReachNext(b: Board, c: Pos, k: int)
    requires 0 <= k < |Moves| && Reachable(b, c) && Follows(b, c, Step(c, k))
    ensures Reachable(b, Step(c, k))
  {
    var d := Step(c, k);
    Opposite(c, k);
    assert Follows(b, Step(d, 7 - k), d) && Reachable(b, Step(d, 7 - k));
  }

  /** Every marked grid cell ends an ABC path. */
  ghost predicate Sound(b: Board, vis: set<Pos>) {
    forall c :: c in vis && InGrid(b, c) ==> Reachable(b, c)
  }

  /** No marked grid cell is longer than `maxCt`. */
  ghost predicate Bounded(b: Board, vis: set<Pos>, maxCt: int) {
    forall c :: c in vis && InGrid(b, c) ==> Rank(b, c) <= maxCt
  }

  /** `maxCt` is 0 or the rank of a marked grid cell. */
  ghost predicate Attained(b: Board, vis: set<Pos>, maxCt: int) {
    maxCt == 0 || exists c :: c in vis && InGrid(b, c) && Rank(b, c) == maxCt
  }

  /** Every next-letter neighbour of a marked grid cell in `from` is
      marked. */
  ghost predicate Closed(b: Board, from: set<Pos>, vis: set<Pos>) {
    forall c, k :: c in from && InGrid(b, c) && 0 <= k < |Moves| && Follows(b, c, Step(c, k)) ==> Step(c, k) in vis
  }

  /** Every cell marked since `vis` other than `start` sits next to
      another one holding the letter before its own: the search only
      moves to a neighbour with the next letter. */
  ghost predicate Hanging(b: Board, vis: set<Pos>, vis': set<Pos>, start: Pos) {
    forall d :: d in vis' - vis && d != start ==> HasParent(b, vis, vis', d)
  }

  /** A neighbour of `d` marked since `vis` holds the letter before
      `d`'s. */
  ghost predicate HasParent(b: Board, vis: set<Pos>, vis': set<Pos>, d: Pos) {
    exists k :: 0 <= k < |Moves| && Step(d, k) in vis' - vis && Follows(b, Step(d, k), d)
  }

  /** The marks are sound and `maxCt` is their largest rank. */
  ghost predicate Good(b: Board, vis: set<Pos>, maxCt: int) {
    Sound(b, vis) && Bounded(b, vis, maxCt) && Attained(b, vis, maxCt)
  }

  /** What a search from `start` leaves: marks and maximum only grow, the
      new marks are grid cells, the result is good, the new marks are
      closed and hang off one another. */
  ghost predicate Grown(b: Board, vis: set<Pos>, maxCt: int, vis': set<Pos>, maxCt': int, start: Pos) {
    vis <= vis' && maxCt <= maxCt' && (forall c :: c in vis' - vis ==> InGrid(b, c)) &&
    Good(b, vis', maxCt') && Closed(b, vis' - vis, vis') && Hanging(b, vis, vis', start)
  }

  /** `reset(h, w)`: the marks of the grid's cells are cleared; marks
      outside it, left by a larger earlier test, stay. */
  function Reset(stale: set<Pos>, b: Board): (vis: set<Pos>)
    ensures forall c :: c in vis ==> c in stale && !InGrid(b, c)
    ensures forall c :: c in stale && !InGrid(b, c) ==> c in vis
  {
    set c | c in stale && !InGrid(b, c)
  }

  /** `dfs(i, j, h, w, count)`.  Outside the grid, on a '0' or on a
      marked cell it does nothing.  Otherwise it marks the cell, raises
      `maxCt` to `count`, and recurses into each neighbour with the next
      letter that is still unmarked.  Called with the cell's own rank on
      the end of an ABC path, it keeps the marks sound and `maxCt` their
      maximum, and leaves every new mark's next-letter neighbours
      marked. */
  method Dfs(b: Board, i: int, j: int, count: int, vis: set<Pos>, maxCt: int) returns (vis': set<Pos>, maxCt': int)
    requires ValidBoard(b)
    requires InGrid(b, (i, j)) ==> Reachable(b, (i, j)) && count == Rank(b, (i, j))
    requires Good(b, vis, maxCt)
    ensures !InGrid(b, (i, j)) || At(b, (i, j)) == '0' || (i, j) in vis ==> vis' == vis && maxCt' == maxCt
    ensures InGrid(b, (i, j)) && At(b, (i, j)) != '0' ==> (i, j) in vis'
    ensures Grown(b, vis, maxCt, vis', maxCt', (i, j))
    decreases 0x11_0000 - At(b, (i, j)) as int, 1
  {
    vis', maxCt' := vis, maxCt;
    if i <= 0 || j <= 0 {
      return;
    }
    if i > b.h || j > b.w {
      return;
    }
    if At(b, (i, j)) == '0' || (i, j) in vis {
      return;
    }
    if count > maxCt' {
      maxCt' := count;
    }
    vis' := vis' + {(i, j)};
    ghost var here := (i, j);
    for k := 0 to |Moves|
      invariant Progress(b, vis, maxCt, vis', maxCt', here, k)
    {
      vis', maxCt' := Try(b, i, j, k, count, vis, maxCt, vis', maxCt');
    }
    Finish(b, vis, vis', here);
  }

  /** The search at `here` after trying its first `k` moves: marks and
      maximum only grew, stay sound and exact, the marks since `vis` other
      than `here` are closed and hang off one another, and the first `k`
      next-letter neighbours of `here` are marked. */
  ghost predicate Progress(b: Board, vis: set<Pos>, maxCt: int, vis': set<Pos>, maxCt': int, here: Pos, k: int)
    requires 0 <= k <= |Moves|
  {
    here !in vis && vis + {here} <= vis' && maxCt <= maxCt' && (forall c :: c in vis' - vis ==> InGrid(b, c)) &&
    Good(b, vis', maxCt') && Closed(b, vis' - vis - {here}, vis') &&
    (forall l :: 0 <= l < k && Follows(b, here, Step(here, l)) ==> Step(here, l) in vis') &&
    Hanging(b, vis, vis', here)
  }

  /** One round of the loop in `dfs(i, j, ...)`: move `k`, and a nested
      search when it lands in the grid on an unmarked next letter. */
  method Try(b: Board, i: int, j: int, k: int, count: int, ghost vis: set<Pos>, ghost maxCt: int, cur: set<Pos>, curMax: int)
    returns (cur': set<Pos>, curMax': int)
    requires ValidBoard(b) && 0 <= k < |Moves|
    requires InGrid(b, (i, j)) && Reachable(b, (i, j)) && count == Rank(b, (i, j))
    requires Progress(b, vis, maxCt, cur, curMax, (i, j), k)
    ensures Progress(b, vis, maxCt, cur', curMax', (i, j), k + 1)
    decreases 0x11_0000 - At(b, (i, j)) as int, 0
  {
    cur', curMax' := cur, curMax;
    ghost var here := (i, j);
    var next := At(b, (i, j)) as int + 1;
    var ni, nj := i + Moves[k].0, j + Moves[k].1;
    assert (ni, nj) == Step(here, k);
    if ni >= 1 && ni <= b.h && nj >= 1 && nj <= b.w && At(b, (ni, nj)) as int == next && (ni, nj) !in cur {
      ReachNext(b, here, k);
      ReachableRank(b, here);
      cur', curMax' := Dfs(b, ni, nj, count + 1, cur, curMax);
      ProgressChild(b, vis, maxCt, cur, curMax, cur', curMax', here, k);
    } else {
      ProgressSkip(b, vis, maxCt, cur, curMax, here, k);
    }
  }

  /** A move that leaves the grid, lands on another letter, or lands on a
      marked cell changes nothing. */
  lemma ProgressSkip(b: Board, vis: set<Pos>, maxCt: int, cur: set<Pos>, curMax: int, here: Pos, k: int)
    requires 0 <= k < |Moves| && Progress(b, vis, maxCt, cur, curMax, here, k)
    requires !Follows(b, here, Step(here, k)) || Step(here, k) in cur
    ensures Progress(b, vis, maxCt, cur, curMax, here, k + 1)
  {
  }

  /** A move into an unmarked next letter runs a nested search, whose
      marks join the search's own. */
  lemma ProgressChild(b: Board, vis: set<Pos>, maxCt: int, cur: set<Pos>, curMax: int,
                      cur': set<Pos>, curMax': int, here: Pos, k: int)
    requires 0 <= k < |Moves| && Progress(b, vis, maxCt, cur, curMax, here, k)
    requires Follows(b, here, Step(here, k)) && Step(here, k) !in cur && Step(here, k) in cur'
    requires Grown(b, cur, curMax, cur', curMax', Step(here, k))
    ensures Progress(b, vis, maxCt, cur', curMax', here, k + 1)
  {
    ChildClosed(b, vis, cur, cur', here);
    ChildHanging(b, vis, cur, cur', here, k);
    forall c | c in cur' - vis
      ensures InGrid(b, c)
    {
      if c in cur {
        assert c in cur - vis;
      }
    }
  }

  /** After all eight moves the search's new marks are closed. */
  lemma Finish(b: Board, vis: set<Pos>, vis': set<Pos>, here: Pos)
    requires here in vis' && Closed(b, vis' - vis - {here}, vis')
    requires forall l :: 0 <= l < |Moves| && Follows(b, here, Step(here, l)) ==> Step(here, l) in vis'
    ensures Closed(b, vis' - vis, vis')
  {
  }

  /** After a nested search the new marks stay closed: the earlier ones
      because marks only grow, the nested ones by its own contract. */
  lemma ChildClosed(b: Board, vis: set<Pos>, before: set<Pos>, after: set<Pos>, here: Pos)
    requires vis + {here} <= before <= after
    requires Closed(b, before - vis - {here}, before) && Closed(b, after - before, after)
    ensures Closed(b, after - vis - {here}, after)
  {
    forall c, k | c in after - vis - {here} && InGrid(b, c) && 0 <= k < |Moves| && Follows(b, c, Step(c, k))
      ensures Step(c, k) in after
    {
      if c in before {
        assert c in before - vis - {here};
      } else {
        assert c in after - before;
      }
    }
  }

  /** After a nested search from `Step(here, k)` every new mark still
      hangs off another: the nested start off `here`, the rest as the
      nested search placed them. */
  lemma ChildHanging(b: Board, vis: set<Pos>, before: set<Pos>, after: set<Pos>, here: Pos, k: int)
    requires 0 <= k < |Moves| && here !in vis && vis + {here} <= before <= after
    requires Follows(b, here, Step(here, k)) && Step(here, k) !in before
    requires Hanging(b, vis, before, here) && Hanging(b, before, after, Step(here, k))
    ensures Hanging(b, vis, after, here)
  {
    forall d | d in after - vis && d != here
      ensures HasParent(b, vis, after, d)
    {
      if d in before {
        assert HasParent(b, vis, before, d);
        var l :| 0 <= l < |Moves| && Step(d, l) in before - vis && Follows(b, Step(d, l), d);
        assert Step(d, l) in after - vis;
      } else if d == Step(here, k) {
        Opposite(here, k);
        assert Step(d, 7 - k) in after - vis && Follows(b, Step(d, 7 - k), d);
      } else {
        assert HasParent(b, before, after, d);
        var l :| 0 <= l < |Moves| && Step(d, l) in after - before && Follows(b, Step(d, l), d);
        assert Step(d, l) in after - vis;
      }
    }
  }

  /** With every 'A' marked and the marks closed, every ABC path's end
      is marked. */
  lemma {:induction false} AllReached(b: Board, vis: set<Pos>, c: Pos)
    requires Closed(b, vis, vis) && forall a :: InGrid(b, a) && At(b, a) == 'A' ==> a in vis
    requires Reachable(b, c)
    ensures c in vis
    decreases At(b, c) as int
  {
    if At(b, c) != 'A' {
      var k :| 0 <= k < |Moves| && Follows(b, Step(c, k), c) && Reachable(b, Step(c, k));
      var p := Step(c, k);
      AllReached(b, vis, p);
      Opposite(c, k);
      assert Step(p, 7 - k) == c;
    }
  }

  /** Every 'A' at a position up to (i, j) in reading order. */
  ghost predicate AsMarked(b: Board, vis: set<Pos>, i: int, j: int) {
    forall a :: InGrid(b, a) && At(b, a) == 'A' && (a.0 < i || (a.0 == i && a.1 < j)) ==> a in vis
  }

  /** One test case: after `reset`, a search from every unmarked 'A' in
      reading order.  The answer is the length of the longest ABC path:
      no ABC path is longer, and one is exactly that long unless there is
      none; it is 0 exactly when the grid has no 'A'. */
  method Solve(b: Board, stale: set<Pos>) returns (answer: int)
    requires ValidBoard(b)
    ensures forall c :: Reachable(b, c) ==> Rank(b, c) <= answer
    ensures answer == 0 || exists c :: Reachable(b, c) && Rank(b, c) == answer
    ensures answer == 0 <==> forall a :: InGrid(b, a) ==> At(b, a) != 'A'
  {
    var vis := Reset(stale, b);
    var maxCt := 0;
    for i := 1 to b.h + 1
      invariant Good(b, vis, maxCt) && Closed(b, vis, vis) && AsMarked(b, vis, i, 1)
    {
      for j := 1 to b.w + 1
        invariant Good(b, vis, maxCt) && Closed(b, vis, vis) && AsMarked(b, vis, i, j)
      {
        vis, maxCt := StartAt(b, i, j, vis, maxCt);
      }
      NextRow(b, vis, i);
    }
    answer := maxCt;
    Conclude(b, vis, answer);
  }

  /** One step of the scan: a search from cell (i, j) when it is an
      unmarked 'A'. */
  method StartAt(b: Board, i: int, j: int, vis: set<Pos>, maxCt: int) returns (vis': set<Pos>, maxCt': int)
    requires ValidBoard(b) && InGrid(b, (i, j))
    requires Good(b, vis, maxCt) && Closed(b, vis, vis) && AsMarked(b, vis, i, j)
    ensures Good(b, vis', maxCt') && Closed(b, vis', vis') && AsMarked(b, vis', i, j + 1)
  {
    vis', maxCt' := vis, maxCt;
    if At(b, (i, j)) == 'A' && (i, j) !in vis {
      vis', maxCt' := Dfs(b, i, j, 1, vis, maxCt);
      StillClosed(b, vis, vis');
    }
  }

  /** A finished row hands over to the next one. */
  lemma NextRow(b: Board, vis: set<Pos>, i: int)
    requires AsMarked(b, vis, i, b.w + 1)
    ensures AsMarked(b, vis, i + 1, 1)
  {
  }

  /** A search keeps the marks closed. */
  lemma StillClosed(b: Board, before: set<Pos>, after: set<Pos>)
    requires before <= after && Closed(b, before, before) && Closed(b, after - before, after)
    ensures Closed(b, after, after)
  {
    forall c, k | c in after && InGrid(b, c) && 0 <= k < |Moves| && Follows(b, c, Step(c, k))
      ensures Step(c, k) in after
    {
      if c !in before {
        assert c in after - before;
      }
    }
  }

  /** Reading the loop's invariants as the answer's contract. */
  lemma Conclude(b: Board, vis: set<Pos>, answer: int)
    requires Good(b, vis, answer) && Closed(b, vis, vis) && AsMarked(b, vis, b.h + 1, 1)
    ensures forall c :: Reachable(b, c) ==> Rank(b, c) <= answer
    ensures answer == 0 || exists c :: Reachable(b, c) && Rank(b, c) == answer
    ensures answer == 0 <==> forall a :: InGrid(b, a) ==> At(b, a) != 'A'
  {
    forall c | Reachable(b, c)
      ensures Rank(b, c) <= answer
    {
      AllReached(b, vis, c);
    }
    if answer != 0 {
      var c :| c in vis && InGrid(b, c) && Rank(b, c) == answer;
      ReachableFromA(b, c);
    } else {
      forall a | InGrid(b, a)
        ensures At(b, a) != 'A'
      {
        if At(b, a) == 'A' {
          AllReached(b, vis, a);
        }
      }
    }
  }
}
