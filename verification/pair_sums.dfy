/** "Pair Sums": is there a pair of distinct positions whose values add up to
    `k`?  One pass: look the current value's complement up among the values
    seen so far, then add the current value.  The values and `k` are 32-bit
    signed integers, and the complement `k - l` is computed in 32 bits. */
module PairSums {

  /** A 32-bit two's-complement result of an integer computation. */
  function Wrap32(x: int): (r: int)
    ensures -0x8000_0000 <= r < 0x8000_0000
    ensures (r - x) % 0x1_0000_0000 == 0
  {
    (x + 0x8000_0000) % 0x1_0000_0000 - 0x8000_0000
  }

  predicate IsInt32(x: int) { -0x8000_0000 <= x < 0x8000_0000 }

  /** Some later value's 32-bit complement occurs earlier. */
  predicate HasPair(a: seq<int>, k: int) {
    exists i, j :: 0 <= i < j < |a| && a[i] == Wrap32(k - a[j])
  }

  /** The scan's answer and, when it answers yes, the position it stopped at:
      the first `j` with a partner before it. */
  method PairSums(a: seq<int>, k: int) returns (yes: bool, stop: nat)
    ensures yes <==> HasPair(a, k)
    ensures yes ==> stop < |a| && (exists i :: 0 <= i < stop && a[i] == Wrap32(k - a[stop]))
    ensures yes ==> !HasPair(a[..stop], k)
  {
    var s: set<int> := {};
    for j := 0 to |a|
      invariant s == set i | 0 <= i < j :: a[i]
      invariant !HasPair(a[..j], k)
    {
      var complement := Wrap32(k - a[j]);
      if complement in s {
        return true, j;
      }
      s := s + {a[j]};
      NoPairExtends(a, k, j);
    }
    assert a[..|a|] == a;
    return false, 0;
  }

  /** Adding a value with no partner among the earlier ones keeps the prefix
      free of pairs. */
  lemma {:induction false} NoPairExtends(a: seq<int>, k: int, j: nat)
    requires j < |a| && !HasPair(a[..j], k)
    requires forall i :: 0 <= i < j ==> a[i] != Wrap32(k - a[j])
    ensures !HasPair(a[..j + 1], k)
  {
    var b := a[..j + 1];
    forall i, m | 0 <= i < m < |b|
      ensures b[i] != Wrap32(k - b[m])
    {
      if m < j {
        assert a[..j][i] == b[i] && a[..j][m] == b[m];
      }
    }
  }

  /** With 32-bit values and no overflow in `k - a[j]`, the 32-bit answer is
      the plain one: two values at distinct positions that add up to `k`. */
  lemma {:induction false} PairWithoutOverflow(a: seq<int>, k: int)
    requires forall i :: 0 <= i < |a| ==> IsInt32(a[i]) && IsInt32(k - a[i])
    ensures HasPair(a, k) <==> exists i, j :: 0 <= i < j < |a| && a[i] + a[j] == k
  {
    if HasPair(a, k) {
      var i, j :| 0 <= i < j < |a| && a[i] == Wrap32(k - a[j]);
      WrapInRange(k - a[j]);
      assert a[i] + a[j] == k;
    }
    if exists i, j :: 0 <= i < j < |a| && a[i] + a[j] == k {
      var i, j :| 0 <= i < j < |a| && a[i] + a[j] == k;
      WrapInRange(k - a[j]);
      assert a[i] == Wrap32(k - a[j]);
    }
  }

  lemma WrapInRange(x: int)
    requires IsInt32(x)
    ensures Wrap32(x) == x
  {
  }
}
