/** The Python `str` operations the scripts rely on, restricted to ASCII:
    `strip`, `lower`, `title`, `split`, `join`, `replace`, `in` and
    `startswith`.  Characters outside ASCII are never letters, digits or
    whitespace here. */
module Strings {

  /** Python's `str.isspace` on ASCII: tab, newline, vertical tab, form feed,
      carriage return, the four separator controls 0x1C-0x1F, and space. */
  predicate IsSpace(c: char) {
    (9 <= c as int <= 13) || (28 <= c as int <= 32)
  }

  predicate IsUpper(c: char) { 'A' <= c <= 'Z' }
  predicate IsLower(c: char) { 'a' <= c <= 'z' }
  predicate IsLetter(c: char) { IsUpper(c) || IsLower(c) }
  predicate IsDigit(c: char) { '0' <= c <= '9' }
  predicate IsAlnum(c: char) { IsLetter(c) || IsDigit(c) }

  function LowerChar(c: char): (r: char)
    ensures IsLetter(r) <==> IsLetter(c)
    ensures !IsUpper(r)
    ensures !IsUpper(c) ==> r == c
  {
    if IsUpper(c) then (c as int + 32) as char else c
  }

  function UpperChar(c: char): (r: char)
    ensures IsLetter(r) <==> IsLetter(c)
    ensures !IsLower(r)
    ensures !IsLower(c) ==> r == c
  {
    if IsLower(c) then (c as int - 32) as char else c
  }

  /** Case conversions only look at the letter, not at its current case. */
  lemma CaseRoundTrip(c: char)
    ensures LowerChar(UpperChar(c)) == LowerChar(c)
    ensures UpperChar(LowerChar(c)) == UpperChar(c)
    ensures LowerChar(LowerChar(c)) == LowerChar(c)
  {
  }

  /** Python's `s.lower()`. */
  function Lower(s: string): (r: string)
    ensures |r| == |s|
    ensures forall i :: 0 <= i < |s| ==> r[i] == LowerChar(s[i])
  {
    if |s| == 0 then "" else [LowerChar(s[0])] + Lower(s[1..])
  }

  /** A text is the lower-cased form of another when they agree character
      by character. */
  lemma LowerPointwise(s: string, t: string)
    requires |s| == |t| && forall i :: 0 <= i < |s| ==> LowerChar(s[i]) == t[i]
    ensures Lower(s) == t
  {
  }

  /** Lowering a text with no upper-case letter changes nothing. */
  lemma NoUpperLower(s: string)
    requires forall i :: 0 <= i < |s| ==> !IsUpper(s[i])
    ensures Lower(s) == s
  {
    LowerPointwise(s, s);
  }

  lemma LowerAppend(a: string, b: string)
    ensures Lower(a + b) == Lower(a) + Lower(b)
  {
  }

  /** Lower-casing twice changes nothing more. */
  lemma LowerIdempotent(s: string)
    ensures Lower(Lower(s)) == Lower(s)
  {
  }

  /** One character of `title()`: letters are upper-cased at the start of a
      run of letters and lower-cased inside it; other characters are kept. */
  function TitleChar(c: char, prevCased: bool): (r: char)
    ensures IsLetter(r) <==> IsLetter(c)
    ensures LowerChar(r) == LowerChar(c)
    ensures !IsLetter(c) ==> r == c
  {
    if !IsLetter(c) then c else if prevCased then LowerChar(c) else UpperChar(c)
  }

  /** Python's `s.title()` when the character before `s` was (`prevCased`) or
      was not a cased character. */
  function TitleFrom(s: string, prevCased: bool): (r: string)
    ensures |r| == |s|
    ensures forall i :: 0 <= i < |s| ==> r[i] == TitleChar(s[i], if i == 0 then prevCased else IsLetter(s[i - 1]))
  {
    if |s| == 0 then ""
    else
      var rest := TitleFrom(s[1..], IsLetter(s[0]));
      var r := [TitleChar(s[0], prevCased)] + rest;
      assert forall i :: 1 <= i < |s| ==> r[i] == rest[i - 1];
      assert forall j :: 0 <= j < |s| - 1 ==> s[1..][j] == s[j + 1];
      r
  }

  function Title(s: string): string {
    TitleFrom(s, false)
  }

  /** Title-casing only changes case: it is the identity up to `lower`, and a
      second application is a no-op. */
  lemma {:induction false} TitleProperties(s: string)
    ensures Lower(Title(s)) == Lower(s)
    ensures Title(Title(s)) == Title(s)
  {
    var t := TitleFrom(s, false);
    var tt := TitleFrom(t, false);
    forall i | 0 <= i < |s|
      ensures IsLetter(t[i]) == IsLetter(s[i])
      ensures LowerChar(t[i]) == LowerChar(s[i])
    {
      assert t[i] == TitleChar(s[i], if i == 0 then false else IsLetter(s[i - 1]));
    }
    forall i | 0 <= i < |s|
      ensures tt[i] == t[i]
    {
      var prev := if i == 0 then false else IsLetter(s[i - 1]);
      assert t[i] == TitleChar(s[i], prev);
      assert tt[i] == TitleChar(t[i], prev);
      CaseRoundTrip(s[i]);
    }
    assert Lower(t) == Lower(s);
    assert tt == t;
  }

  /** `title()` sees letters only up to case: a text and its lower-cased form
      title-case alike. */
  lemma {:induction false} TitleOfLower(s: string)
    ensures Title(Lower(s)) == Title(s)
  {
    var t, u := Title(s), Title(Lower(s));
    forall i | 0 <= i < |s| ensures u[i] == t[i] {
      assert t[i] == TitleChar(s[i], if i == 0 then false else IsLetter(s[i - 1]));
      assert u[i] == TitleChar(Lower(s)[i], if i == 0 then false else IsLetter(Lower(s)[i - 1]));
      CaseRoundTrip(s[i]);
    }
  }

  /** Title-casing a concatenation: the second part continues from the last
      character of the first. */
  lemma {:induction false} TitleFromAppend(a: string, b: string, prevCased: bool)
    ensures TitleFrom(a + b, prevCased) == TitleFrom(a, prevCased) + TitleFrom(b, if |a| == 0 then prevCased else IsLetter(a[|a| - 1]))
  {
    var s := a + b;
    var pb := if |a| == 0 then prevCased else IsLetter(a[|a| - 1]);
    var t, ta, tb := TitleFrom(s, prevCased), TitleFrom(a, prevCased), TitleFrom(b, pb);
    var u := ta + tb;
    forall i | 0 <= i < |a| ensures t[i] == u[i] {
      assert s[i] == a[i] && u[i] == ta[i];
      if i > 0 {
        assert s[i - 1] == a[i - 1];
      }
    }
    forall i | |a| <= i < |s| ensures t[i] == u[i] {
      var j := i - |a|;
      assert s[i] == b[j] && u[i] == tb[j];
      assert tb[j] == TitleChar(b[j], if j == 0 then pb else IsLetter(b[j - 1]));
      if j > 0 {
        assert s[i - 1] == b[j - 1];
      } else if |a| > 0 {
        assert s[i - 1] == a[|a| - 1];
      }
    }
    assert t == u;
  }

  /** A space restarts title-casing, so words separated by a space are
      title-cased one by one. */
  lemma {:induction false} TitleAcrossSpace(a: string, b: string)
    ensures Title(a + " " + b) == Title(a) + " " + Title(b)
  {
    assert a + " " + b == a + (" " + b);
    TitleFromAppend(a, " " + b, false);
    TitleFromAppend(" ", b, |a| > 0 && IsLetter(a[|a| - 1]));
  }

  /** Title-casing never introduces a non-letter. */
  lemma {:induction false} TitleKeepsAbsentChar(s: string, c: char)
    requires !IsLetter(c) && c !in s
    ensures c !in Title(s)
  {
    var t := Title(s);
    forall i | 0 <= i < |t| ensures t[i] != c {
      assert t[i] == TitleChar(s[i], if i == 0 then false else IsLetter(s[i - 1]));
      if IsLetter(s[i]) {
        assert IsLetter(t[i]);
      } else {
        assert t[i] == s[i];
      }
    }
  }

  /** `lower` leaves every non-letter where it was. */
  lemma {:induction false} LowerKeepsAbsentChar(s: string, c: char)
    requires !IsLetter(c)
    ensures c in Lower(s) <==> c in s
  {
    if c in Lower(s) {
      var i :| 0 <= i < |s| && Lower(s)[i] == c;
      assert s[i] == c;
    }
    if c in s {
      var i :| 0 <= i < |s| && s[i] == c;
      assert Lower(s)[i] == c;
    }
  }

  /** Python's `s.replace(a, b)` for single characters. */
  function ReplaceChar(s: string, a: char, b: char): (r: string)
    ensures |r| == |s|
    ensures forall i :: 0 <= i < |s| ==> r[i] == (if s[i] == a then b else s[i])
  {
    if |s| == 0 then ""
    else
      var rest := ReplaceChar(s[1..], a, b);
      var r := [if s[0] == a then b else s[0]] + rest;
      assert forall i :: 1 <= i < |s| ==> r[i] == rest[i - 1] && s[1..][i - 1] == s[i];
      r
  }

  /** Replacing a separator that no part holds swaps one joiner for another. */
  lemma {:induction false} ReplaceSeparator(parts: seq<string>, a: char, b: char)
    requires forall k :: 0 <= k < |parts| ==> a !in parts[k]
    ensures ReplaceChar(Join(parts, a), a, b) == Join(parts, b)
  {
    if |parts| > 0 {
      var p := parts[0];
      ReplaceAbsent(p, a, b);
      if |parts| > 1 {
        var rest := parts[1..];
        ReplaceSeparator(rest, a, b);
        ReplaceAppend(p + [a], Join(rest, a), a, b);
        ReplaceAppend(p, [a], a, b);
      }
    }
  }

  /** Replacing distributes over concatenation. */
  lemma ReplaceAppend(u: string, v: string, a: char, b: char)
    ensures ReplaceChar(u + v, a, b) == ReplaceChar(u, a, b) + ReplaceChar(v, a, b)
  {
    var r, w := ReplaceChar(u + v, a, b), ReplaceChar(u, a, b) + ReplaceChar(v, a, b);
    forall i | 0 <= i < |u + v| ensures r[i] == w[i] {
      if i < |u| {
        assert (u + v)[i] == u[i];
      } else {
        assert (u + v)[i] == v[i - |u|];
      }
    }
  }

  /** Replacing a character that does not occur changes nothing. */
  lemma ReplaceAbsent(u: string, a: char, b: char)
    requires a !in u
    ensures ReplaceChar(u, a, b) == u
  {
    forall i | 0 <= i < |u| ensures ReplaceChar(u, a, b)[i] == u[i] {
      assert u[i] != a;
    }
  }

  /** `sub` occurs in `s` at index `i`. */
  predicate OccursAt(s: string, sub: string, i: int) {
    0 <= i <= |s| - |sub| && s[i..i + |sub|] == sub
  }

  /** Python's `sub in s` for strings. */
  predicate Contains(s: string, sub: string) {
    exists i :: 0 <= i <= |s| - |sub| && OccursAt(s, sub, i)
  }

  lemma ContainsMiddle(pre: string, sub: string, post: string)
    ensures Contains(pre + sub + post, sub)
  {
    var s := pre + sub + post;
    assert s[|pre|..|pre| + |sub|] == sub;
    assert OccursAt(s, sub, |pre|);
  }

  /** A text contains its own beginning. */
  lemma ContainsStart(s: string, sub: string, rest: string)
    requires s == sub + rest
    ensures Contains(s, sub)
  {
    assert s[0..|sub|] == sub;
    assert OccursAt(s, sub, 0);
  }

  predicate StartsWith(s: string, prefix: string) {
    |prefix| <= |s| && s[..|prefix|] == prefix
  }

  lemma StartsWithAppend(prefix: string, rest: string)
    ensures StartsWith(prefix + rest, prefix)
  {
    assert (prefix + rest)[..|prefix|] == prefix;
  }

  /** Putting text behind keeps the beginning. */
  lemma StartsWithExtend(s: string, t: string, prefix: string)
    requires StartsWith(s, prefix)
    ensures StartsWith(s + t, prefix)
  {
    assert (s + t)[..|prefix|] == s[..|prefix|];
  }

  lemma EndsWithAppend(s: string, suffix: string)
    ensures EndsWith(s + suffix, suffix)
  {
    assert (s + suffix)[|s|..] == suffix;
  }

  /** Putting text in front keeps the ending. */
  lemma EndsWithExtend(t: string, s: string, suffix: string)
    requires EndsWith(s, suffix)
    ensures EndsWith(t + s, suffix)
  {
    assert (t + s)[|t + s| - |suffix|..] == s[|s| - |suffix|..];
  }

  predicate EndsWith(s: string, suffix: string) {
    |suffix| <= |s| && s[|s| - |suffix|..] == suffix
  }

  lemma ContainsPrefix(s: string, t: string, sub: string)
    requires Contains(s, sub)
    ensures Contains(s + t, sub) && Contains(t + s, sub)
  {
    var i :| 0 <= i <= |s| - |sub| && OccursAt(s, sub, i);
    assert (s + t)[i..i + |sub|] == sub;
    assert OccursAt(s + t, sub, i);
    assert (t + s)[|t| + i..|t| + i + |sub|] == sub;
    assert OccursAt(t + s, sub, |t| + i);
  }

  // ---------------------------------------------------------------------------
  // strip

  /** Drops leading characters satisfying `drop`. */
  function TrimLeft(s: string, drop: char -> bool): (r: string)
    ensures |r| <= |s| && r == s[|s| - |r|..]
    ensures forall k :: 0 <= k < |s| - |r| ==> drop(s[k])
    ensures |r| > 0 ==> !drop(r[0])
  {
    if |s| > 0 && drop(s[0]) then
      var r := TrimLeft(s[1..], drop);
      assert s[1..][|s| - 1 - |r|..] == s[|s| - |r|..];
      assert forall k :: 1 <= k < |s| - |r| ==> s[k] == s[1..][k - 1];
      r
    else s
  }

  /** Drops trailing characters satisfying `drop`. */
  function TrimRight(s: string, drop: char -> bool): (r: string)
    ensures |r| <= |s| && r == s[..|r|]
    ensures forall k :: |r| <= k < |s| ==> drop(s[k])
    ensures |r| > 0 ==> !drop(r[|r| - 1])
  {
    if |s| > 0 && drop(s[|s| - 1]) then
      var r := TrimRight(s[..|s| - 1], drop);
      assert s[..|s| - 1][..|r|] == s[..|r|];
      assert forall k :: |r| <= k < |s| - 1 ==> s[k] == s[..|s| - 1][k];
      r
    else s
  }

  /** Python's `s.strip(chars)`: what remains starts and ends with a kept
      character (see `TrimShape` for where it sits inside `s`). */
  function Trim(s: string, drop: char -> bool): (r: string)
    ensures |r| <= |s|
    ensures |r| > 0 ==> !drop(r[0]) && !drop(r[|r| - 1])
  {
    TrimRight(TrimLeft(s, drop), drop)
  }

  /** The strip is the middle slice `s[i..j]` of `s`, and everything outside
      it is dropped. */
  lemma TrimShape(s: string, drop: char -> bool) returns (i: nat, j: nat)
    ensures i <= j <= |s| && Trim(s, drop) == s[i..j]
    ensures forall k :: 0 <= k < i ==> drop(s[k])
    ensures forall k :: j <= k < |s| ==> drop(s[k])
  {
    var l := TrimLeft(s, drop);
    var r := TrimRight(l, drop);
    i := |s| - |l|;
    j := i + |r|;
    forall k | j <= k < |s|
      ensures drop(s[k])
    {
      assert s[k] == l[k - i];
    }
  }

  /** Python's argument-less `s.strip()`. */
  function Strip(s: string): string {
    Trim(s, IsSpace)
  }

  predicate AllDropped(s: string, drop: char -> bool) {
    forall k :: 0 <= k < |s| ==> drop(s[k])
  }

  lemma {:induction false} TrimLeftSkips(a: string, t: string, drop: char -> bool)
    requires AllDropped(a, drop)
    ensures TrimLeft(a + t, drop) == TrimLeft(t, drop)
    decreases |a|
  {
    if |a| > 0 {
      assert (a + t)[0] == a[0];
      assert drop(a[0]);
      assert (a + t)[1..] == a[1..] + t;
      TrimLeftSkips(a[1..], t, drop);
    } else {
      assert a + t == t;
    }
  }

  lemma {:induction false} TrimRightSkips(t: string, b: string, drop: char -> bool)
    requires AllDropped(b, drop)
    ensures TrimRight(t + b, drop) == TrimRight(t, drop)
    decreases |b|
  {
    if |b| > 0 {
      assert (t + b)[|t + b| - 1] == b[|b| - 1];
      assert drop(b[|b| - 1]);
      assert (t + b)[..|t + b| - 1] == t + b[..|b| - 1];
      TrimRightSkips(t, b[..|b| - 1], drop);
    } else {
      assert t + b == t;
    }
  }

  /** The strip of `a + m + b` is `m` whenever `a` and `b` are entirely dropped
      and `m` is empty or starts and ends with a kept character. */
  lemma {:induction false} TrimUnique(a: string, m: string, b: string, drop: char -> bool)
    requires AllDropped(a, drop) && AllDropped(b, drop)
    requires |m| > 0 ==> !drop(m[0]) && !drop(m[|m| - 1])
    ensures Trim(a + m + b, drop) == m
  {
    assert a + m + b == a + (m + b);
    TrimLeftSkips(a, m + b, drop);
    assert TrimLeft(a + m + b, drop) == TrimLeft(m + b, drop);
    if |m| == 0 {
      assert m + b == b + "";
      TrimLeftSkips(b, "", drop);
      assert TrimLeft(m + b, drop) == "";
    } else {
      assert (m + b)[0] == m[0];
      assert TrimLeft(m + b, drop) == m + b;
      TrimRightSkips(m, b, drop);
      assert TrimRight(m, drop) == m;
    }
  }

  /** Stripping is idempotent. */
  lemma {:induction false} TrimIdempotent(s: string, drop: char -> bool)
    ensures Trim(Trim(s, drop), drop) == Trim(s, drop)
  {
    var m := Trim(s, drop);
    TrimUnique("", m, "", drop);
    assert "" + m + "" == m;
  }

  /** Appending or prepending dropped characters does not change the strip. */
  lemma {:induction false} AllDroppedConcat(x: string, y: string, drop: char -> bool)
    requires AllDropped(x, drop) && AllDropped(y, drop)
    ensures AllDropped(x + y, drop)
  {
    forall k | 0 <= k < |x + y|
      ensures drop((x + y)[k])
    {
      if k < |x| {
        assert (x + y)[k] == x[k];
      } else {
        assert (x + y)[k] == y[k - |x|];
      }
    }
  }

  lemma {:induction false} TrimLeftAppend(s: string, t: string, drop: char -> bool)
    ensures TrimLeft(s + t, drop) ==
      (if |TrimLeft(s, drop)| == 0 then TrimLeft(t, drop) else TrimLeft(s, drop) + t)
    decreases |s|
  {
    if |s| == 0 {
      assert s + t == t;
    } else {
      assert (s + t)[0] == s[0];
      assert (s + t)[1..] == s[1..] + t;
      if drop(s[0]) {
        TrimLeftAppend(s[1..], t, drop);
      }
    }
  }

  lemma {:induction false} TrimIgnoresPadding(s: string, pre: string, post: string, drop: char -> bool)
    requires AllDropped(pre, drop) && AllDropped(post, drop)
    ensures Trim(pre + s + post, drop) == Trim(s, drop)
  {
    assert pre + s + post == pre + (s + post);
    TrimLeftSkips(pre, s + post, drop);
    TrimLeftAppend(s, post, drop);
    var l := TrimLeft(s, drop);
    if |l| == 0 {
      TrimLeftSkips(post, "", drop);
      assert post + "" == post;
    } else {
      TrimRightSkips(l, post, drop);
    }
  }

  // ---------------------------------------------------------------------------
  // split / join

  /** Python's `sep.join(parts)`. */
  function Join(parts: seq<string>, sep: char): string {
    if |parts| == 0 then ""
    else if |parts| == 1 then parts[0]
    else parts[0] + [sep] + Join(parts[1..], sep)
  }

  /** Python's `s.split(sep)` for a one-character separator: never empty, no
      piece holds the separator, and joining the pieces gives `s` back. */
  function Split(s: string, sep: char): (r: seq<string>)
    ensures |r| >= 1
    ensures forall k :: 0 <= k < |r| ==> sep !in r[k]
    ensures Join(r, sep) == s
  {
    if |s| == 0 then [""]
    else
      var rest := Split(s[1..], sep);
      if s[0] == sep then
        assert [""] + rest == [""] + rest;
        [""] + rest
      else
        var r := [[s[0]] + rest[0]] + rest[1..];
        assert r[1..] == rest[1..];
        r
  }

  /** Splitting what was joined gives the parts back, when no part holds the
      separator. */
  lemma {:induction false} SplitJoin(parts: seq<string>, sep: char)
    requires |parts| >= 1
    requires forall k :: 0 <= k < |parts| ==> sep !in parts[k]
    ensures Split(Join(parts, sep), sep) == parts
    decreases |parts|, |parts[0]|
  {
    var s := Join(parts, sep);
    if |parts[0]| > 0 {
      var tail := [parts[0][1..]] + parts[1..];
      JoinFirstChar(parts, sep);
      TailKeepsNoSeparator(parts, sep);
      SplitJoin(tail, sep);
      assert Split(s, sep) == [[s[0]] + tail[0]] + tail[1..];
      RebuildParts(parts);
    } else if |parts| > 1 {
      assert s == [sep] + Join(parts[1..], sep);
      SplitJoin(parts[1..], sep);
      assert s[1..] == Join(parts[1..], sep);
      assert parts == [""] + parts[1..];
    }
  }

  /** A join whose first part is not empty starts with that part's first
      character, followed by the join with it removed. */
  lemma JoinFirstChar(parts: seq<string>, sep: char)
    requires |parts| >= 1 && |parts[0]| > 0
    ensures var s := Join(parts, sep);
      |s| > 0 && s[0] == parts[0][0] && s[1..] == Join([parts[0][1..]] + parts[1..], sep)
  {
    var p0 := parts[0];
    var tail := [p0[1..]] + parts[1..];
    if |parts| > 1 {
      assert tail[1..] == parts[1..];
      assert p0 == [p0[0]] + p0[1..];
    }
    assert Join(parts, sep) == [p0[0]] + Join(tail, sep);
  }

  lemma TailKeepsNoSeparator(parts: seq<string>, sep: char)
    requires |parts| >= 1 && |parts[0]| > 0
    requires forall k :: 0 <= k < |parts| ==> sep !in parts[k]
    ensures var tail := [parts[0][1..]] + parts[1..];
      forall k :: 0 <= k < |tail| ==> sep !in tail[k]
  {
    var p0 := parts[0];
    assert sep !in p0[1..] by {
      assert forall x :: x in p0[1..] ==> x in p0;
    }
    var tail := [p0[1..]] + parts[1..];
    forall k | 0 <= k < |tail| ensures sep !in tail[k] {
      if k > 0 {
        assert tail[k] == parts[k];
      }
    }
  }

  lemma RebuildParts(parts: seq<string>)
    requires |parts| >= 1 && |parts[0]| > 0
    ensures var tail := [parts[0][1..]] + parts[1..];
      [[parts[0][0]] + tail[0]] + tail[1..] == parts
  {
    var p0 := parts[0];
    var tail := [p0[1..]] + parts[1..];
    assert tail[1..] == parts[1..];
    assert [p0[0]] + tail[0] == p0;
  }

  /** The first part is where the joined text starts. */
  lemma JoinFirst(parts: seq<string>, sep: char)
    requires |parts| >= 1
    ensures |parts[0]| <= |Join(parts, sep)| && Join(parts, sep)[..|parts[0]|] == parts[0]
  {
  }

  lemma {:induction false} JoinAppend(a: seq<string>, b: seq<string>, sep: char)
    requires |a| >= 1 && |b| >= 1
    ensures Join(a + b, sep) == Join(a, sep) + [sep] + Join(b, sep)
    decreases |a|
  {
    assert (a + b)[0] == a[0];
    if |a| == 1 {
      assert (a + b)[1..] == b;
    } else {
      assert (a + b)[1..] == a[1..] + b;
      JoinAppend(a[1..], b, sep);
    }
  }

  /** Parts ending in an empty one join into a text ending in the separator. */
  lemma JoinEndsInSeparator(parts: seq<string>, sep: char)
    requires |parts| >= 2 && parts[|parts| - 1] == ""
    ensures |Join(parts, sep)| >= 1 && Join(parts, sep)[|Join(parts, sep)| - 1] == sep
  {
    var init := parts[..|parts| - 1];
    JoinAppend(init, [""], sep);
    assert parts == init + [""];
  }

  /** Splitting is line-local: the pieces of `x + sep + y` are the pieces of
      `x` followed by the pieces of `y`. */
  lemma SplitAppend(x: string, y: string, sep: char)
    ensures Split(x + [sep] + y, sep) == Split(x, sep) + Split(y, sep)
  {
    var a, b := Split(x, sep), Split(y, sep);
    JoinAppend(a, b, sep);
    assert Join(a + b, sep) == x + [sep] + y;
    NoSeparatorInAppend(a, b, sep);
    SplitJoin(a + b, sep);
  }

  lemma NoSeparatorInAppend(a: seq<string>, b: seq<string>, sep: char)
    requires forall k :: 0 <= k < |a| ==> sep !in a[k]
    requires forall k :: 0 <= k < |b| ==> sep !in b[k]
    ensures forall k :: 0 <= k < |a + b| ==> sep !in (a + b)[k]
  {
    forall k | 0 <= k < |a + b| ensures sep !in (a + b)[k] {
      if k >= |a| {
        assert (a + b)[k] == b[k - |a|];
      }
    }
  }
}
