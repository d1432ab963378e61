/** Facts about multisets (letter counts) shared by the counting solutions. */
module Bags {

  /** A sub-multiset as large as the whole is the whole. */
  lemma SubsetOfSameSize<T>(a: multiset<T>, b: multiset<T>)
    requires a <= b
    ensures |a| <= |b|
    ensures |a| == |b| ==> a == b
  {
    var d := b - a;
    assert b == a + d by {
      forall y ensures b[y] == (a + d)[y] {
      }
    }
    if |a| == |b| {
      assert |d| == 0;
    }
  }

  /** `n` copies of `x`. */
  function Copies<T(!new)>(x: T, n: nat): (r: multiset<T>)
    ensures |r| == n
    ensures forall y :: r[y] == if y == x then n else 0
  {
    if n == 0 then multiset{} else Copies(x, n - 1) + multiset{x}
  }

  /** Removing every copy of `x` (C++'s `erase(x)` on a count map) shrinks
      the multiset by the count of `x`. */
  lemma DropAll<T(!new)>(m: multiset<T>, x: T)
    ensures |m[x := 0]| + m[x] == |m|
  {
    assert m == m[x := 0] + Copies(x, m[x]) by {
      forall y ensures m[y] == (m[x := 0] + Copies(x, m[x]))[y] {
      }
    }
  }

  /** Erasing a key from both sides erases it from their difference. */
  lemma DropAllDifference<T>(a: multiset<T>, b: multiset<T>, x: T)
    ensures a[x := 0] - b[x := 0] == (a - b)[x := 0]
  {
    var l := a[x := 0] - b[x := 0];
    var r := (a - b)[x := 0];
    forall y ensures l[y] == r[y] {
    }
  }
}
