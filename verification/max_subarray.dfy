/** "Maximum Sum Subarray of size K": the largest sum of `k` consecutive
    elements, by a sliding window.  The size check compares `k` with the
    array's length as unsigned 64-bit numbers, so a negative `k` is as
    "too large" as one above the length. */
module MaxSubarray {
  import opened Sums

  /** The sum of the `k` elements starting at `i`. */
  function WindowSum(arr: seq<int>, i: nat, k: nat): int
    requires i + k <= |arr|
  {
    Sum(arr[i..i + k])
  }

  /** `m` is the largest sum of a length-`k` window of `arr`, and some window
      attains it. */
  predicate IsMaxWindowSum(arr: seq<int>, k: nat, m: int)
    requires k <= |arr|
  {
    (forall i :: 0 <= i <= |arr| - k ==> WindowSum(arr, i, k) <= m)
    && (exists i :: 0 <= i <= |arr| - k && WindowSum(arr, i, k) == m)
  }

  /** `maximumSumSubarray(arr, k)`. */
  method MaximumSumSubarray(arr: seq<int>, k: int) returns (r: int)
    ensures (k < 0 || k > |arr|) ==> r == -1
    ensures 0 <= k <= |arr| ==> IsMaxWindowSum(arr, k, r)
  {
    if k < 0 || k > |arr| {
      return -1;
    }
    var windowSum := 0;
    for i := 0 to k
      invariant windowSum == Sum(arr[0..i])
    {
      SumSnoc(arr, 0, i);
      windowSum := windowSum + arr[i];
    }
    assert arr[0..k] == arr[0..0 + k];
    var maxSum := windowSum;
    ghost var best := 0;
    for i := k to |arr|
      invariant windowSum == WindowSum(arr, i - k, k)
      invariant 0 <= best <= i - k && maxSum == WindowSum(arr, best, k)
      invariant forall j :: 0 <= j <= i - k ==> WindowSum(arr, j, k) <= maxSum
    {
      WindowStep(arr, i, k);
      windowSum := windowSum + arr[i] - arr[i - k];
      if windowSum > maxSum {
        maxSum := windowSum;
        best := i + 1 - k;
      }
    }
    return maxSum;
  }

  /** The window's sum as it slides one step right. */
  lemma {:induction false} WindowStep(arr: seq<int>, i: nat, k: nat)
    requires k <= i < |arr|
    ensures WindowSum(arr, i + 1 - k, k) == WindowSum(arr, i - k, k) + arr[i] - arr[i - k]
  {
    if k == 0 {
      assert arr[i - k..i] == arr[i + 1 - k..i + 1];
    } else {
      SumSlide(arr, i - k, i);
    }
  }
}
