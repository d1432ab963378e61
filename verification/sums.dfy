/** Sums over sequences of integers, taken from the right end, with the
    facts the prefix-sum and sliding-window solutions rely on. */
module Sums {

  function Sum(s: seq<int>): int
  {
    if |s| == 0 then 0 else Sum(s[..|s| - 1]) + s[|s| - 1]
  }

  lemma {:induction false} SumAppend(a: seq<int>, b: seq<int>)
    ensures Sum(a + b) == Sum(a) + Sum(b)
    decreases |b|
  {
    if |b| == 0 {
      assert a + b == a;
    } else {
      var b' := b[..|b| - 1];
      assert (a + b)[..|a + b| - 1] == a + b';
      SumAppend(a, b');
    }
  }

  /** Extending a slice by one element on the right adds that element. */
  lemma {:induction false} SumSnoc(s: seq<int>, lo: nat, hi: nat)
    requires lo <= hi < |s|
    ensures Sum(s[lo..hi + 1]) == Sum(s[lo..hi]) + s[hi]
  {
    assert s[lo..hi + 1][..hi - lo] == s[lo..hi];
  }

  /** Moving a window one step right adds the element entering it and
      subtracts the one leaving it. */
  lemma {:induction false} SumSlide(s: seq<int>, lo: nat, hi: nat)
    requires lo < hi < |s|
    ensures Sum(s[lo + 1..hi + 1]) == Sum(s[lo..hi]) + s[hi] - s[lo]
  {
    SumSnoc(s, lo, hi);
    assert s[lo..hi + 1] == [s[lo]] + s[lo + 1..hi + 1];
    SumAppend([s[lo]], s[lo + 1..hi + 1]);
    assert [s[lo]][..0] == [];
  }

  /** A prefix sum minus an earlier one is the sum between them. */
  lemma {:induction false} SumDifference(s: seq<int>, lo: nat, hi: nat)
    requires lo <= hi <= |s|
    ensures Sum(s[..hi]) - Sum(s[..lo]) == Sum(s[lo..hi])
  {
    assert s[..hi] == s[..lo] + s[lo..hi];
    SumAppend(s[..lo], s[lo..hi]);
  }
}
