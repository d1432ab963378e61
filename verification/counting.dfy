/** Counting and filtering over sequences: the model's rendering of Python's
    `sum(1 for r in rs if ...)` and `[r for r in rs if ...]`, with the facts the
    scripts' summaries rely on (counts do not depend on order, a sub-predicate
    counts less). */
module Counting {
  import opened Wrappers

  /** The number of elements of `xs` that satisfy `p`. */
  function Count<T>(xs: seq<T>, p: T -> bool): (n: nat)
    ensures n <= |xs|
    ensures n == |xs| <==> forall i :: 0 <= i < |xs| ==> p(xs[i])
    ensures n == 0 <==> forall i :: 0 <= i < |xs| ==> !p(xs[i])
  {
    if |xs| == 0 then 0
    else
      var rest := Count(xs[1..], p);
      assert forall i :: 1 <= i < |xs| ==> xs[i] == xs[1..][i - 1];
      (if p(xs[0]) then 1 else 0) + rest
  }

  /** The elements of `xs` that satisfy `p`, in their original order. */
  function Filter<T(!new, ==)>(xs: seq<T>, p: T -> bool): (r: seq<T>)
    ensures |r| == Count(xs, p)
    ensures forall i :: 0 <= i < |r| ==> p(r[i])
    ensures forall x :: x in r <==> x in xs && p(x)
  {
    if |xs| == 0 then []
    else
      var rest := Filter(xs[1..], p);
      assert forall x :: x in xs <==> x == xs[0] || x in xs[1..];
      if p(xs[0]) then [xs[0]] + rest else rest
  }

  lemma {:induction false} CountAppend<T>(xs: seq<T>, ys: seq<T>, p: T -> bool)
    ensures Count(xs + ys, p) == Count(xs, p) + Count(ys, p)
    decreases |xs|
  {
    if |xs| == 0 {
      assert xs + ys == ys;
    } else {
      assert (xs + ys)[1..] == xs[1..] + ys;
      CountAppend(xs[1..], ys, p);
    }
  }

  lemma {:induction false} FilterAppend<T(!new)>(xs: seq<T>, ys: seq<T>, p: T -> bool)
    ensures Filter(xs + ys, p) == Filter(xs, p) + Filter(ys, p)
    decreases |xs|
  {
    if |xs| == 0 {
      assert xs + ys == ys;
    } else {
      assert (xs + ys)[1..] == xs[1..] + ys;
      FilterAppend(xs[1..], ys, p);
    }
  }

  /** Filtering keeps nothing when nothing qualifies. */
  lemma {:induction false} FilterNone<T(!new)>(xs: seq<T>, p: T -> bool)
    requires forall i :: 0 <= i < |xs| ==> !p(xs[i])
    ensures Filter(xs, p) == []
    decreases |xs|
  {
    if |xs| > 0 {
      FilterNone(xs[1..], p);
    }
  }

  /** Filtering keeps everything when everything qualifies. */
  lemma {:induction false} FilterAll<T(!new)>(xs: seq<T>, p: T -> bool)
    requires forall i :: 0 <= i < |xs| ==> p(xs[i])
    ensures Filter(xs, p) == xs
    decreases |xs|
  {
    if |xs| > 0 {
      FilterAll(xs[1..], p);
      assert xs == [xs[0]] + xs[1..];
    }
  }

  /** Counting one element at a time from the back. */
  lemma CountSnoc<T>(xs: seq<T>, x: T, p: T -> bool)
    ensures Count(xs + [x], p) == Count(xs, p) + (if p(x) then 1 else 0)
  {
    CountAppend(xs, [x], p);
  }

  /** A non-empty sequence is its front followed by its last element. */
  lemma LastSplit<T>(xs: seq<T>)
    requires |xs| > 0
    ensures xs == xs[..|xs| - 1] + [xs[|xs| - 1]]
  {
  }

  /** Removing the element at position `k` removes its contribution. */
  lemma {:induction false} CountRemove<T>(xs: seq<T>, k: nat, p: T -> bool)
    requires k < |xs|
    ensures Count(xs, p) == Count(xs[..k] + xs[k + 1..], p) + (if p(xs[k]) then 1 else 0)
    decreases k
  {
    if k == 0 {
      assert xs[..0] + xs[1..] == xs[1..];
    } else {
      var ys := xs[..k] + xs[k + 1..];
      CountRemove(xs[1..], k - 1, p);
      assert ys[0] == xs[0];
      assert ys[1..] == xs[1..][..k - 1] + xs[1..][k..];
    }
  }

  /** A count depends only on the multiset of elements, not on their order. */
  lemma {:induction false} CountPermutation<T>(xs: seq<T>, ys: seq<T>, p: T -> bool)
    requires multiset(xs) == multiset(ys)
    ensures Count(xs, p) == Count(ys, p)
    decreases |xs|
  {
    if |xs| == 0 {
      assert |ys| == |multiset(ys)| == 0;
    } else {
      var x := xs[0];
      assert x in multiset(ys);
      var k :| 0 <= k < |ys| && ys[k] == x;
      RemoveBoth(xs, ys, k);
      CountPermutation(xs[1..], ys[..k] + ys[k + 1..], p);
      CountRemove(ys, k, p);
    }
  }

  /** A predicate that holds wherever another does counts at least as much. */
  lemma {:induction false} CountMonotone<T>(xs: seq<T>, p: T -> bool, q: T -> bool)
    requires forall i :: 0 <= i < |xs| ==> p(xs[i]) ==> q(xs[i])
    ensures Count(xs, p) <= Count(xs, q)
    decreases |xs|
  {
    if |xs| > 0 {
      CountMonotone(xs[1..], p, q);
    }
  }

  /** Two predicates that agree on every element count the same. */
  lemma {:induction false} CountCongruent<T>(xs: seq<T>, p: T -> bool, q: T -> bool)
    requires forall i :: 0 <= i < |xs| ==> p(xs[i]) == q(xs[i])
    ensures Count(xs, p) == Count(xs, q)
    decreases |xs|
  {
    if |xs| > 0 {
      CountCongruent(xs[1..], p, q);
    }
  }

  /** Counting `p` and counting its complement add up to the length. */
  lemma {:induction false} CountComplement<T>(xs: seq<T>, p: T -> bool)
    ensures Count(xs, p) + Count(xs, x => !p(x)) == |xs|
    decreases |xs|
  {
    if |xs| > 0 {
      CountComplement(xs[1..], p);
    }
  }

  /** `f` applied to every element, in order. */
  function Map<T, U>(xs: seq<T>, f: T -> U): (r: seq<U>)
    ensures |r| == |xs|
    ensures forall i :: 0 <= i < |xs| ==> r[i] == f(xs[i])
  {
    if |xs| == 0 then [] else [f(xs[0])] + Map(xs[1..], f)
  }

  lemma {:induction false} MapAppend<T, U>(xs: seq<T>, ys: seq<T>, f: T -> U)
    ensures Map(xs + ys, f) == Map(xs, f) + Map(ys, f)
  {
    assert forall i :: 0 <= i < |xs + ys| ==> Map(xs + ys, f)[i] == (Map(xs, f) + Map(ys, f))[i];
  }

  /** Removing the element at position `k` removes one copy of it. */
  lemma RemoveMultiset<T>(ys: seq<T>, k: nat)
    requires k < |ys|
    ensures multiset(ys[..k] + ys[k + 1..]) == multiset(ys) - multiset{ys[k]}
  {
    assert ys == ys[..k] + [ys[k]] + ys[k + 1..];
  }

  lemma MapRemove<T, U>(ys: seq<T>, k: nat, f: T -> U)
    requires k < |ys|
    ensures multiset(Map(ys, f)) == multiset(Map(ys[..k] + ys[k + 1..], f)) + multiset{f(ys[k])}
  {
    var a, b := ys[..k], ys[k + 1..];
    assert ys == a + ([ys[k]] + b);
    MapAppend(a, [ys[k]] + b, f);
    MapAppend([ys[k]], b, f);
    MapAppend(a, b, f);
  }

  /** Mapping a reordering of a sequence gives a reordering of the image. */
  lemma {:induction false} MapPermutation<T, U>(xs: seq<T>, ys: seq<T>, f: T -> U)
    requires multiset(xs) == multiset(ys)
    ensures multiset(Map(xs, f)) == multiset(Map(ys, f))
    decreases |xs|
  {
    if |xs| == 0 {
      assert |ys| == |multiset(ys)| == 0;
    } else {
      var x := xs[0];
      assert x in multiset(ys);
      var k :| 0 <= k < |ys| && ys[k] == x;
      RemoveBoth(xs, ys, k);
      MapPermutation(xs[1..], ys[..k] + ys[k + 1..], f);
      MapPermutationStep(xs, ys, k, f);
    }
  }

  /** Taking the first element off one side and an equal element off the
      other leaves two reorderings of each other. */
  lemma RemoveBoth<T>(xs: seq<T>, ys: seq<T>, k: nat)
    requires multiset(xs) == multiset(ys)
    requires 0 < |xs| && k < |ys| && ys[k] == xs[0]
    ensures multiset(xs[1..]) == multiset(ys[..k] + ys[k + 1..])
  {
    assert xs[..0] + xs[1..] == xs[1..];
    RemoveMultiset(ys, k);
    RemoveMultiset(xs, 0);
  }

  /** Taking the same element off both sides keeps the images reorderings of
      each other. */
  lemma MapPermutationStep<T, U>(xs: seq<T>, ys: seq<T>, k: nat, f: T -> U)
    requires 0 < |xs| && k < |ys| && ys[k] == xs[0]
    requires multiset(Map(xs[1..], f)) == multiset(Map(ys[..k] + ys[k + 1..], f))
    ensures multiset(Map(xs, f)) == multiset(Map(ys, f))
  {
    MapRemove(ys, k, f);
    assert Map(xs, f) == [f(xs[0])] + Map(xs[1..], f);
  }

  // ---------------------------------------------------------------------------
  // grouping by a key

  /** The number of elements whose key is `k`. */
  function GroupCount<T, K(==)>(xs: seq<T>, key: T -> K, k: K): nat {
    Count(xs, (x: T) => key(x) == k)
  }

  /** The group sizes of the keys `ks`, added up. */
  function SumGroups<T, K(==)>(xs: seq<T>, key: T -> K, ks: seq<K>): int {
    if |ks| == 0 then 0 else GroupCount(xs, key, ks[0]) + SumGroups(xs, key, ks[1..])
  }

  /** How often `v` occurs in `ks`. */
  function Occurrences<K(==)>(ks: seq<K>, v: K): (n: nat)
    ensures v !in ks ==> n == 0
  {
    if |ks| == 0 then 0 else (if ks[0] == v then 1 else 0) + Occurrences(ks[1..], v)
  }

  lemma {:induction false} OccurrencesDistinct<K>(ks: seq<K>, v: K)
    requires forall i, j :: 0 <= i < j < |ks| ==> ks[i] != ks[j]
    ensures Occurrences(ks, v) == if v in ks then 1 else 0
    decreases |ks|
  {
    if |ks| > 0 {
      OccurrencesDistinct(ks[1..], v);
      assert v in ks <==> v == ks[0] || v in ks[1..];
    }
  }

  /** Taking the first element out of every group. */
  lemma {:induction false} SumGroupsStep<T, K>(xs: seq<T>, key: T -> K, ks: seq<K>)
    requires |xs| > 0
    ensures SumGroups(xs, key, ks) == SumGroups(xs[1..], key, ks) + Occurrences(ks, key(xs[0]))
    decreases |ks|
  {
    if |ks| > 0 {
      SumGroupsStep(xs, key, ks[1..]);
    }
  }

  /** Grouping by a key and adding up the group sizes over all distinct keys
      gives back the number of elements. */
  lemma {:induction false} GroupCountsSum<T, K>(xs: seq<T>, key: T -> K, ks: seq<K>)
    requires forall i, j :: 0 <= i < j < |ks| ==> ks[i] != ks[j]
    requires forall i :: 0 <= i < |xs| ==> key(xs[i]) in ks
    ensures SumGroups(xs, key, ks) == |xs|
    decreases |xs|
  {
    if |xs| == 0 {
      SumGroupsEmpty(xs, key, ks);
    } else {
      GroupCountsSum(xs[1..], key, ks);
      SumGroupsStep(xs, key, ks);
      OccurrencesDistinct(ks, key(xs[0]));
    }
  }

  /** Over distinct keys that need not cover every element, the group sizes
      add up to at most the number of elements. */
  lemma {:induction false} GroupCountsAtMost<T, K>(xs: seq<T>, key: T -> K, ks: seq<K>)
    requires forall i, j :: 0 <= i < j < |ks| ==> ks[i] != ks[j]
    ensures SumGroups(xs, key, ks) <= |xs|
    decreases |xs|
  {
    if |xs| == 0 {
      SumGroupsEmpty(xs, key, ks);
    } else {
      GroupCountsAtMost(xs[1..], key, ks);
      SumGroupsStep(xs, key, ks);
      OccurrencesDistinct(ks, key(xs[0]));
    }
  }

  lemma {:induction false} SumGroupsEmpty<T, K>(xs: seq<T>, key: T -> K, ks: seq<K>)
    requires |xs| == 0
    ensures SumGroups(xs, key, ks) == 0
    decreases |ks|
  {
    if |ks| > 0 {
      SumGroupsEmpty(xs, key, ks[1..]);
    }
  }

  /** The values a map holds under the keys `ks`, added up. */
  function SumValues<K>(m: map<K, nat>, ks: seq<K>): int
    requires forall i :: 0 <= i < |ks| ==> ks[i] in m
  {
    if |ks| == 0 then 0 else m[ks[0]] + SumValues(m, ks[1..])
  }

  /** A map that holds each key's group size adds up like the groups do. */
  lemma {:induction false} SumValuesOfGroups<T, K>(m: map<K, nat>, xs: seq<T>, key: T -> K, ks: seq<K>)
    requires forall i :: 0 <= i < |ks| ==> ks[i] in m && m[ks[i]] == GroupCount(xs, key, ks[i])
    ensures SumValues(m, ks) == SumGroups(xs, key, ks)
    decreases |ks|
  {
    if |ks| > 0 {
      SumValuesOfGroups(m, xs, key, ks[1..]);
    }
  }

  // ---------------------------------------------------------------------------
  // searching

  /** The position of the first `x` in `xs`, if any (Python's `list.index`). */
  function IndexOf<T(==)>(xs: seq<T>, x: T): (r: Option<nat>)
    ensures r.None? <==> x !in xs
    ensures r.Some? ==> r.value < |xs| && xs[r.value] == x && x !in xs[..r.value]
  {
    if |xs| == 0 then None
    else if xs[0] == x then Some(0)
    else
      var r := IndexOf(xs[1..], x);
      if r.Some? then
        assert xs[..r.value + 1] == [xs[0]] + xs[1..][..r.value];
        Some(r.value + 1)
      else r
  }

  /** The first occurrence of `x` comes right after a prefix that lacks it. */
  lemma {:induction false} IndexAfter<T>(before: seq<T>, x: T, rest: seq<T>)
    requires x !in before
    ensures IndexOf(before + [x] + rest, x) == Some(|before|)
    decreases |before|
  {
    var xs := before + [x] + rest;
    if |before| > 0 {
      assert xs[1..] == before[1..] + [x] + rest;
      assert x != before[0];
      IndexAfter(before[1..], x, rest);
    }
  }
}
