/** "Array Manipulation": apply range additions to a zero array and report
    the largest value among positions 1..n.  Each query adds `k` at its first
    index and subtracts it just past its last index (when that still lies in
    the array of 10^7 + 10 cells); one prefix pass then gives every value. */
module ArrayManipulation {

  /** The size of the program's global array. */
  const N: int := 10_000_010

  /** Add `k` to every position from `a` to `b`. */
  datatype Query = Query(a: int, b: int, k: int)

  /** The cells a query writes exist: the first index, and the one past the
      last when the program writes it. */
  predicate InBounds(q: Query) {
    0 <= q.a < N && (q.b + 1 < N ==> 0 <= q.b + 1)
  }

  /** What one query adds to cell `j` of the difference array. */
  function Mark(q: Query, j: int): int {
    (if q.a == j then q.k else 0) - (if q.b + 1 < N && q.b + 1 == j then q.k else 0)
  }

  /** Cell `j` of the difference array after the queries `qs`. */
  function Diff(qs: seq<Query>, j: int): int {
    if |qs| == 0 then 0 else Diff(qs[..|qs| - 1], j) + Mark(qs[|qs| - 1], j)
  }

  /** What one query contributes to position `i` once prefix sums are
      taken: `k` from `a` on, minus `k` from `b + 1` on. */
  function Effect(q: Query, i: int): int {
    (if q.a <= i then q.k else 0) - (if q.b + 1 <= i then q.k else 0)
  }

  /** Position `i` after every query, as the prefix pass computes it. */
  function Value(qs: seq<Query>, i: int): int {
    if |qs| == 0 then 0 else Value(qs[..|qs| - 1], i) + Effect(qs[|qs| - 1], i)
  }

  /** The plain meaning: the sum of `k` over the queries whose range holds
      `i`. */
  function Covered(qs: seq<Query>, i: int): int {
    if |qs| == 0 then 0
    else Covered(qs[..|qs| - 1], i) + (var q := qs[|qs| - 1]; if q.a <= i <= q.b then q.k else 0)
  }

  /** The first cell of the prefix pass is the first cell of the difference
      array. */
  lemma {:induction false} ValueAtZero(qs: seq<Query>)
    requires forall t :: 0 <= t < |qs| ==> InBounds(qs[t])
    ensures Value(qs, 0) == Diff(qs, 0)
  {
    if |qs| > 0 {
      ValueAtZero(qs[..|qs| - 1]);
    }
  }

  /** One step of the prefix pass adds the difference array's cell. */
  lemma {:induction false} ValueStep(qs: seq<Query>, i: int)
    requires 1 <= i < N
    ensures Value(qs, i) == Value(qs, i - 1) + Diff(qs, i)
  {
    if |qs| > 0 {
      ValueStep(qs[..|qs| - 1], i);
    }
  }

  /** For well-formed ranges (`a <= b`) the prefix pass yields the plain
      meaning at every position of the array. */
  lemma {:induction false} ValueIsCoverage(qs: seq<Query>, i: int)
    requires forall t :: 0 <= t < |qs| ==> qs[t].a <= qs[t].b
    ensures Value(qs, i) == Covered(qs, i)
  {
    if |qs| > 0 {
      ValueIsCoverage(qs[..|qs| - 1], i);
    }
  }

  /** With every range starting at 1 or later, position 0 stays 0. */
  lemma {:induction false} ZeroCellUntouched(qs: seq<Query>)
    requires forall t :: 0 <= t < |qs| ==> 1 <= qs[t].a <= qs[t].b
    ensures Value(qs, 0) == 0
  {
    if |qs| > 0 {
      ZeroCellUntouched(qs[..|qs| - 1]);
    }
  }

  /** The program: queries into the difference array, one prefix pass over
      positions 1..n, then the largest of those values. */
  method ArrayManipulation(n: int, qs: seq<Query>) returns (r: int)
    requires 1 <= n < N
    requires forall t :: 0 <= t < |qs| ==> InBounds(qs[t])
    ensures exists i :: 1 <= i <= n && r == Value(qs, i)
    ensures forall i :: 1 <= i <= n ==> Value(qs, i) <= r
  {
    var ar: seq<int> := seq(N, _ => 0);
    for t := 0 to |qs|
      invariant |ar| == N
      invariant forall j :: 0 <= j < N ==> ar[j] == Diff(qs[..t], j)
    {
      var q := qs[t];
      assert qs[..t + 1][..t] == qs[..t];
      ar := ar[q.a := ar[q.a] + q.k];
      if q.b + 1 < N {
        ar := ar[q.b + 1 := ar[q.b + 1] - q.k];
      }
    }
    assert qs[..|qs|] == qs;
    ValueAtZero(qs);
    for i := 1 to n + 1
      invariant |ar| == N
      invariant forall j :: 0 <= j < i ==> ar[j] == Value(qs, j)
      invariant forall j :: i <= j < N ==> ar[j] == Diff(qs, j)
    {
      ValueStep(qs, i);
      ar := ar[i := ar[i] + ar[i - 1]];
    }
    r := ar[1];
    for i := 2 to n + 1
      invariant exists m :: 1 <= m < i && r == Value(qs, m)
      invariant forall m :: 1 <= m < i ==> Value(qs, m) <= r
    {
      if ar[i] > r {
        r := ar[i];
      }
    }
  }
}
