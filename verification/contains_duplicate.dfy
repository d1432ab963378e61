/** LeetCode 217, "Contains Duplicate": one pass over the numbers with a set
    of the values already seen. */
module ContainsDuplicate {

  /** Some value occurs twice. */
  predicate HasDuplicate(nums: seq<int>) {
    exists i, j :: 0 <= i < j < |nums| && nums[i] == nums[j]
  }

  /** No value occurs twice among the first `k` numbers. */
  predicate DistinctPrefix(nums: seq<int>, k: int)
    requires 0 <= k <= |nums|
  {
    forall i, j :: 0 <= i < j < k ==> nums[i] != nums[j]
  }

  /** `containsDuplicate(nums)`: the scan answers true at the first number
      already in the set, false when it reaches the end. */
  method ContainsDuplicate(nums: seq<int>) returns (r: bool)
    ensures r <==> HasDuplicate(nums)
  {
    var seen: set<int> := {};
    for k := 0 to |nums|
      invariant seen == set i | 0 <= i < k :: nums[i]
      invariant DistinctPrefix(nums, k)
    {
      if nums[k] in seen {
        var i :| 0 <= i < k && nums[i] == nums[k];
        return true;
      }
      seen := seen + {nums[k]};
    }
    assert DistinctPrefix(nums, |nums|);
    return false;
  }
}
