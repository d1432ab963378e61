/** "Make Strings Anagram" (Bob and String): the fewest single-letter
    additions and deletions that make `S` and `T` anagrams, i.e. the sum over
    letters of the difference between their counts.  The program counts both
    strings into maps, walks the letters of `S` (in the map's own order)
    adding each count difference and erasing that letter from `T`'s map, then
    adds every count left in `T`'s map. */
module BobString {
  import opened Bags

  /** The letters `S` has beyond `T`, plus the letters `T` has beyond `S`. */
  function Distance(S: string, T: string): nat {
    |multiset(S) - multiset(T)| + |multiset(T) - multiset(S)|
  }

  function Abs(x: int): int { if x < 0 then -x else x }

  /** The documented formula: the count differences of the letters of
      `alphabet`, added up. */
  function AbsDiffSum(S: string, T: string, alphabet: seq<char>): int {
    if |alphabet| == 0 then 0
    else
      var c := alphabet[|alphabet| - 1];
      AbsDiffSum(S, T, alphabet[..|alphabet| - 1]) + Abs(multiset(S)[c] as int - multiset(T)[c])
  }

  /** The counts of `m` for the letters of `alphabet`, added up. */
  function SumCounts(m: multiset<char>, alphabet: seq<char>): nat {
    if |alphabet| == 0 then 0
    else SumCounts(m, alphabet[..|alphabet| - 1]) + m[alphabet[|alphabet| - 1]]
  }

  /** One test case.  Iterating over a hash map visits its keys in an order
      the program does not choose; the model picks any remaining key. */
  method Operations(S: string, T: string) returns (op: nat)
    ensures op == Distance(S, T)
  {
    var hashS := multiset(S);
    var hashT := multiset(T);
    var keys := set c | c in S;
    ghost var rest := hashS;
    op := 0;
    while keys != {}
      invariant forall c :: c in rest <==> c in keys
      invariant forall c :: c in keys ==> rest[c] == hashS[c]
      invariant op + |rest - hashT| + |hashT - rest| == Distance(S, T)
      decreases keys
    {
      var ch :| ch in keys;
      var countS := hashS[ch];
      var countT := hashT[ch];
      if countS > countT {
        op := op + (countS - countT);
      } else if countT > countS {
        op := op + (countT - countS);
      }
      DropAll(rest - hashT, ch);
      DropAll(hashT - rest, ch);
      DropAllDifference(rest, hashT, ch);
      DropAllDifference(hashT, rest, ch);
      hashT := hashT[ch := 0];
      rest := rest[ch := 0];
      keys := keys - {ch};
    }
    assert rest == multiset{};
    while hashT != multiset{}
      invariant op + |hashT| == Distance(S, T)
      decreases |hashT|
    {
      var ch :| ch in hashT;
      DropAll(hashT, ch);
      op := op + hashT[ch];
      hashT := hashT[ch := 0];
    }
  }

  /** The distance does not depend on which string comes first, is at most
      the two lengths together, and is zero exactly for anagrams. */
  lemma DistanceProperties(S: string, T: string)
    ensures Distance(S, T) == Distance(T, S)
    ensures Distance(S, T) <= |S| + |T|
    ensures Distance(S, T) == 0 <==> multiset(S) == multiset(T)
  {
    var a, b := multiset(S), multiset(T);
    SubsetOfSameSize(a - b, a);
    SubsetOfSameSize(b - a, b);
    if Distance(S, T) == 0 {
      assert a - b == multiset{} && b - a == multiset{};
      forall c ensures a[c] == b[c] {
        assert (a - b)[c] == 0 && (b - a)[c] == 0;
      }
    }
  }

  /** Over any alphabet listing each letter of the two strings exactly
      once, the documented formula gives the distance. */
  lemma {:induction false} DistanceIsAbsDiffSum(S: string, T: string, alphabet: seq<char>)
    requires forall i, j :: 0 <= i < j < |alphabet| ==> alphabet[i] != alphabet[j]
    requires forall c :: c in S || c in T ==> c in alphabet
    ensures Distance(S, T) == AbsDiffSum(S, T, alphabet)
  {
    var a, b := multiset(S), multiset(T);
    CardBySupport(a - b, alphabet);
    CardBySupport(b - a, alphabet);
    SumCountsSplit(S, T, alphabet);
  }

  /** Each letter's difference is split between the two one-sided
      differences. */
  lemma {:induction false} SumCountsSplit(S: string, T: string, alphabet: seq<char>)
    ensures SumCounts(multiset(S) - multiset(T), alphabet) + SumCounts(multiset(T) - multiset(S), alphabet)
      == AbsDiffSum(S, T, alphabet)
  {
    if |alphabet| > 0 {
      SumCountsSplit(S, T, alphabet[..|alphabet| - 1]);
    }
  }

  /** A multiset's size is the sum of its counts over any duplicate-free
      alphabet holding all its letters. */
  lemma {:induction false} CardBySupport(m: multiset<char>, alphabet: seq<char>)
    requires forall i, j :: 0 <= i < j < |alphabet| ==> alphabet[i] != alphabet[j]
    requires forall c :: c in m ==> c in alphabet
    ensures |m| == SumCounts(m, alphabet)
  {
    if |alphabet| == 0 {
      assert m == multiset{} by {
        forall c ensures m[c] == 0 {
          assert c !in alphabet;
        }
      }
    } else {
      var k := |alphabet| - 1;
      var x := alphabet[k];
      var init := alphabet[..k];
      var m' := m[x := 0];
      DropAll(m, x);
      forall c | c in m' ensures c in init {
        assert c in alphabet && c != x;
        var i :| 0 <= i < |alphabet| && alphabet[i] == c;
        assert i < k;
        assert init[i] == c;
      }
      CardBySupport(m', init);
      SumCountsAgree(m, m', init);
    }
  }

  /** Sums over an alphabet see only the alphabet's letters. */
  lemma {:induction false} SumCountsAgree(m: multiset<char>, m': multiset<char>, alphabet: seq<char>)
    requires forall i :: 0 <= i < |alphabet| ==> m[alphabet[i]] == m'[alphabet[i]]
    ensures SumCounts(m, alphabet) == SumCounts(m', alphabet)
  {
    if |alphabet| > 0 {
      SumCountsAgree(m, m', alphabet[..|alphabet| - 1]);
    }
  }
}
