/** "A Needle in the Haystack": does some window of the text, as long as the
    pattern, hold exactly the pattern's letters?  The scan keeps a sliding
    window, the window's letter counts (for letters of the pattern only) and
    the number of pattern letters the window already covers. */
module Needle {
  import opened Bags

  /** Some stretch of `s`, `|p|` long, is a rearrangement of `p`; the scan can
      only report one when the text is non-empty. */
  ghost predicate HasPermutationWindow(p: string, s: string) {
    |s| > 0 && exists i :: WindowMatches(p, s, i)
  }

  /** The window of `s` starting at `i` is a rearrangement of `p`. */
  ghost predicate WindowMatches(p: string, s: string, i: int) {
    0 <= i <= |s| - |p| && multiset(s[i..i + |p|]) == multiset(p)
  }

  /** Adding a letter to the window adds one covered letter exactly when the
      window held fewer of it than the pattern. */
  lemma CoverAdd(w: multiset<char>, pat: multiset<char>, x: char)
    ensures (w + multiset{x}) * pat == if w[x] < pat[x] then w * pat + multiset{x} else w * pat
  {
    var lhs := (w + multiset{x}) * pat;
    var rhs := if w[x] < pat[x] then w * pat + multiset{x} else w * pat;
    forall y ensures lhs[y] == rhs[y] {
    }
  }

  /** Dropping a letter from the window loses one covered letter exactly when
      the window held no more of it than the pattern. */
  lemma CoverRemove(w: multiset<char>, pat: multiset<char>, x: char)
    requires x in w
    ensures w * pat == if w[x] <= pat[x] then (w - multiset{x}) * pat + multiset{x} else (w - multiset{x}) * pat
  {
    var lhs := w * pat;
    var rhs := if w[x] <= pat[x] then (w - multiset{x}) * pat + multiset{x} else (w - multiset{x}) * pat;
    forall y ensures lhs[y] == rhs[y] {
    }
  }

  /** Every letter of the pattern is covered by a window no longer than the
      pattern only when the window is a rearrangement of the pattern. */
  lemma FullCover(w: multiset<char>, pat: multiset<char>)
    requires |w| <= |pat|
    ensures |w * pat| == |pat| <==> w == pat
  {
    if |w * pat| == |pat| {
      assert w * pat <= pat;
      SubsetOfSameSize(w * pat, pat);
      assert pat <= w;
      SubsetOfSameSize(pat, w);
    }
    if w == pat {
      assert w * pat == pat;
    }
  }

  /** The letters of `s[lo..hi]`, gathered from the right end. */
  ghost function Win(s: string, lo: nat, hi: nat): (r: multiset<char>)
    requires lo <= hi <= |s|
    ensures |r| == hi - lo
    decreases hi - lo
  {
    if lo == hi then multiset{} else Win(s, lo, hi - 1) + multiset{s[hi - 1]}
  }

  lemma {:induction false} WinIsSlice(s: string, lo: nat, hi: nat)
    requires lo <= hi <= |s|
    ensures Win(s, lo, hi) == multiset(s[lo..hi])
    decreases hi - lo
  {
    if lo < hi {
      WinIsSlice(s, lo, hi - 1);
      assert s[lo..hi] == s[lo..hi - 1] + [s[hi - 1]];
      assert multiset(s[lo..hi]) == multiset(s[lo..hi - 1]) + multiset{s[hi - 1]};
    }
  }

  /** Shrinking the window at its left end. */
  lemma {:induction false} WinPopFront(s: string, lo: nat, hi: nat)
    requires lo < hi <= |s|
    ensures s[lo] in Win(s, lo, hi)
    ensures Win(s, lo + 1, hi) == Win(s, lo, hi) - multiset{s[lo]}
  {
    WinIsSlice(s, lo, hi);
    WinIsSlice(s, lo + 1, hi);
    assert s[lo..hi] == [s[lo]] + s[lo + 1..hi];
  }

  /** No window ending at or before `n` is a rearrangement of `p`. */
  ghost predicate NoMatchUpTo(p: string, s: string, n: int) {
    forall i :: 0 <= i && 1 <= i + |p| <= n ==> !WindowMatches(p, s, i)
  }

  /** The window's counts as the scan keeps them: letters outside the
      pattern are never counted. */
  ghost function Counted(s: string, lo: nat, hi: nat, pat: multiset<char>): multiset<char>
    requires lo <= hi <= |s|
    decreases hi - lo
  {
    if lo == hi then multiset{}
    else Counted(s, lo, hi - 1, pat) + (if s[hi - 1] in pat then multiset{s[hi - 1]} else multiset{})
  }

  /** For a letter of the pattern the kept count is the window's count. */
  lemma {:induction false} CountedAgrees(s: string, lo: nat, hi: nat, pat: multiset<char>, c: char)
    requires lo <= hi <= |s|
    ensures Counted(s, lo, hi, pat)[c] == if c in pat then Win(s, lo, hi)[c] else 0
    decreases hi - lo
  {
    if lo < hi {
      CountedAgrees(s, lo, hi - 1, pat, c);
    }
  }

  /** Dropping the leftmost letter drops its count when it was counted. */
  lemma {:induction false} CountedPopFront(s: string, lo: nat, hi: nat, pat: multiset<char>)
    requires lo < hi <= |s|
    ensures Counted(s, lo + 1, hi, pat)
      == Counted(s, lo, hi, pat) - (if s[lo] in pat then multiset{s[lo]} else multiset{})
  {
    var x := if s[lo] in pat then multiset{s[lo]} else multiset{};
    var a := Counted(s, lo + 1, hi, pat);
    var b := Counted(s, lo, hi, pat);
    forall c ensures a[c] == (b - x)[c] {
      CountedAgrees(s, lo + 1, hi, pat, c);
      CountedAgrees(s, lo, hi, pat, c);
      WinPopFront(s, lo, hi);
    }
    assert a == b - x;
  }

  /** The step for the letter entering the window at `right`: it is counted
      when it belongs to the pattern, and covers one more pattern letter when
      the window held fewer of it than the pattern. */
  method Push(s: string, pat: multiset<char>, winFreq: multiset<char>, matched: int, left: nat, right: nat)
    returns (winFreq': multiset<char>, matched': int)
    requires left <= right < |s|
    requires winFreq == Counted(s, left, right, pat) && matched == |Win(s, left, right) * pat|
    ensures winFreq' == Counted(s, left, right + 1, pat)
    ensures matched' == |Win(s, left, right + 1) * pat|
  {
    var ch := s[right];
    ghost var w := Win(s, left, right);
    assert Win(s, left, right + 1) == w + multiset{ch};
    CoverAdd(w, pat, ch);
    CountedAgrees(s, left, right, pat, ch);
    winFreq', matched' := winFreq, matched;
    if pat[ch] != 0 {
      winFreq' := winFreq' + multiset{ch};
      if winFreq'[ch] <= pat[ch] {
        matched' := matched' + 1;
      }
    }
  }

  /** The step for the letter leaving the window at `left`: its count drops
      when it was counted, and it uncovers a pattern letter when the window
      held no more of it than the pattern. */
  method Pop(s: string, pat: multiset<char>, winFreq: multiset<char>, matched: int, left: nat, hi: nat)
    returns (winFreq': multiset<char>, matched': int)
    requires left < hi <= |s|
    requires winFreq == Counted(s, left, hi, pat) && matched == |Win(s, left, hi) * pat|
    ensures winFreq' == Counted(s, left + 1, hi, pat)
    ensures matched' == |Win(s, left + 1, hi) * pat|
  {
    var leftChar := s[left];
    ghost var w := Win(s, left, hi);
    WinPopFront(s, left, hi);
    CountedPopFront(s, left, hi, pat);
    CountedAgrees(s, left, hi, pat, leftChar);
    CoverRemove(w, pat, leftChar);
    winFreq', matched' := winFreq, matched;
    if pat[leftChar] != 0 {
      if winFreq'[leftChar] <= pat[leftChar] {
        matched' := matched' - 1;
      }
      winFreq' := winFreq' - multiset{leftChar};
    }
  }

  /** One turn of the scan: the letter at `right` enters, the leftmost
      letter leaves once the window is longer than `k`, and the window is a
      rearrangement of the pattern exactly when every pattern letter is
      covered. */
  method Step(s: string, pat: multiset<char>, k: nat, winFreq: multiset<char>, matched: int, left: nat, right: nat)
    returns (winFreq': multiset<char>, matched': int, left': nat, hit: bool)
    requires left <= right < |s| && right - left <= k && |pat| == k
    requires winFreq == Counted(s, left, right, pat) && matched == |Win(s, left, right) * pat|
    ensures left' == if right + 1 - left > k then left + 1 else left
    ensures winFreq' == Counted(s, left', right + 1, pat) && matched' == |Win(s, left', right + 1) * pat|
    ensures hit <==> Win(s, left', right + 1) == pat
  {
    winFreq', matched' := Push(s, pat, winFreq, matched, left, right);
    left' := left;
    if right - left + 1 > k {
      winFreq', matched' := Pop(s, pat, winFreq', matched', left, right + 1);
      left' := left + 1;
    }
    FullCover(Win(s, left', right + 1), pat);
    hit := matched' == k;
  }

  /** `checkPermutation(p, s)`: true exactly when some window of `s` is a
      rearrangement of `p` (with an empty pattern, when `s` is non-empty). */
  method CheckPermutation(p: string, s: string) returns (found: bool)
    ensures found <==> HasPermutationWindow(p, s)
  {
    if |p| > |s| {
      return false;
    }
    var patFreq := multiset(p);
    var winFreq: multiset<char> := multiset{};
    var left := 0;
    var matched := 0;
    for right := 0 to |s|
      invariant left <= right && right - left <= |p|
      invariant (right <= |p| ==> left == 0) && (right >= |p| ==> right - left == |p|)
      invariant winFreq == Counted(s, left, right, patFreq)
      invariant matched == |Win(s, left, right) * patFreq|
      invariant NoMatchUpTo(p, s, right)
    {
      var hit;
      winFreq, matched, left, hit := Step(s, patFreq, |p|, winFreq, matched, left, right);
      if hit {
        FoundWindow(p, s, left, right);
        return true;
      }
      ExtendChecked(p, s, left, right, Win(s, left, right + 1));
    }
    NoWindowSeen(p, s);
    return false;
  }

  /** A window the scan finds covering the whole pattern is a match. */
  lemma FoundWindow(p: string, s: string, left: nat, right: nat)
    requires left + |p| == right + 1 <= |s|
    requires Win(s, left, right + 1) == multiset(p)
    ensures HasPermutationWindow(p, s)
  {
    WinIsSlice(s, left, right + 1);
    assert WindowMatches(p, s, left);
  }

  /** A window that is not a rearrangement of the pattern extends the set of
      windows known not to match by the one ending at `right`. */
  lemma ExtendChecked(p: string, s: string, left: nat, right: nat, w: multiset<char>)
    requires left <= right + 1 <= |s|
    requires right + 1 >= |p| ==> left + |p| == right + 1
    requires w == Win(s, left, right + 1) && w != multiset(p)
    requires NoMatchUpTo(p, s, right)
    ensures NoMatchUpTo(p, s, right + 1)
  {
    WinIsSlice(s, left, right + 1);
    forall i | 0 <= i && 1 <= i + |p| <= right + 1
      ensures !WindowMatches(p, s, i)
    {
      if i + |p| == right + 1 {
        assert i == left;
      }
    }
  }

  /** Having checked every window that ends inside the text, none is left. */
  lemma NoWindowSeen(p: string, s: string)
    requires NoMatchUpTo(p, s, |s|)
    ensures !HasPermutationWindow(p, s)
  {
    if HasPermutationWindow(p, s) {
      var i :| WindowMatches(p, s, i);
      if i + |p| == 0 {
        assert s[1..1 + |p|] == s[0..0];
        assert WindowMatches(p, s, 1);
      }
    }
  }

  /** The answer line for one test case. */
  method Answer(p: string, s: string) returns (line: string)
    ensures line == (if HasPermutationWindow(p, s) then "YES" else "NO")
  {
    var found := CheckPermutation(p, s);
    line := if found then "YES" else "NO";
  }

  /** The program's output: one answer line per test case, in input order. */
  method Answers(cases: seq<(string, string)>) returns (lines: seq<string>)
    ensures |lines| == |cases|
    ensures forall k :: 0 <= k < |cases| ==>
      lines[k] == (if HasPermutationWindow(cases[k].0, cases[k].1) then "YES" else "NO")
  {
    lines := [];
    for k := 0 to |cases|
      invariant |lines| == k
      invariant forall j :: 0 <= j < k ==>
        lines[j] == (if HasPermutationWindow(cases[j].0, cases[j].1) then "YES" else "NO")
    {
      var line := Answer(cases[k].0, cases[k].1);
      lines := lines + [line];
    }
  }

  /** An empty pattern is found in any non-empty text and in no empty one:
      the scan reports a match after its first letter. */
  lemma {:induction false} EmptyPatternFound(p: string, s: string)
    requires |p| == 0
    ensures HasPermutationWindow(p, s) <==> |s| > 0
  {
    if |s| > 0 {
      assert s[0..0 + |p|] == p;
      assert WindowMatches(p, s, 0);
    }
  }

  /** The text itself, rearranged, is always found. */
  lemma {:induction false} RearrangedTextFound(p: string, s: string)
    requires |s| > 0 && multiset(p) == multiset(s)
    ensures HasPermutationWindow(p, s)
  {
    assert |p| == |multiset(p)| == |s|;
    assert s[0..0 + |p|] == s;
    assert WindowMatches(p, s, 0);
  }
}
