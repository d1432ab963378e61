/** The companion listener's pure helpers: the platform named by a problem
    URL, the problem id taken from it, and the directory-safe form of a
    problem title.

    The URL's host part (what `urlparse` returns as `netloc`) is given as
    data alongside the URL. */
module CompanionListener {
  import opened Wrappers
  import opened Strings
  import opened Counting

  // ---------------------------------------------------------------------------
  // platform

  /** The domain fragments looked for, in order, and the platform each names. */
  const KnownPlatforms: seq<(string, string)> := [
    ("codeforces", "Codeforces"), ("leetcode", "LeetCode"), ("atcoder", "AtCoder"),
    ("hackerrank", "HackerRank"), ("codechef", "CodeChef"), ("spoj", "SPOJ")]

  /** The platform of the first table row whose fragment occurs in `domain`. */
  function FirstKnown(domain: string, table: seq<(string, string)>): (r: Option<string>)
    ensures r.None? <==> forall k :: 0 <= k < |table| ==> !Contains(domain, table[k].0)
    ensures r.Some? ==> exists k :: (0 <= k < |table| && Contains(domain, table[k].0) && r.value == table[k].1
      && forall j :: 0 <= j < k ==> !Contains(domain, table[j].0))
  {
    if |table| == 0 then None
    else if Contains(domain, table[0].0) then Some(table[0].1)
    else
      var r := FirstKnown(domain, table[1..]);
      assert forall k :: 1 <= k < |table| ==> table[k] == table[1..][k - 1];
      if r.Some? then
        var k :| 0 <= k < |table[1..]| && Contains(domain, table[1..][k].0) && r.value == table[1..][k].1
          && forall j :: 0 <= j < k ==> !Contains(domain, table[1..][j].0);
        assert Contains(domain, table[k + 1].0) && r.value == table[k + 1].1;
        assert forall j :: 0 <= j < k + 1 ==> !Contains(domain, table[j].0);
        r
      else r
  }

  /** The platform of a problem URL whose host is `netloc`: "Unknown" for an
      empty URL, the first known platform whose name occurs in the lower-cased
      host, and otherwise the host's first dot-separated label, title-cased. */
  function ExtractPlatform(url: string, netloc: string): (r: string)
    ensures url == "" ==> r == "Unknown"
    ensures url != "" && FirstKnown(Lower(netloc), KnownPlatforms).Some? ==>
      r == FirstKnown(Lower(netloc), KnownPlatforms).value
    ensures url != "" && FirstKnown(Lower(netloc), KnownPlatforms).None? ==>
      Lower(r) == Split(Lower(netloc), '.')[0] && '.' !in r
    ensures url != "" && FirstKnown(Lower(netloc), KnownPlatforms).None? ==>
      r == Title(Split(Lower(netloc), '.')[0])
  {
    if url == "" then "Unknown"
    else
      var domain := Lower(netloc);
      var known := FirstKnown(domain, KnownPlatforms);
      if known.Some? then known.value
      else
        var first := Split(domain, '.')[0];
        TitleProperties(first);
        LowerOfLowerPiece(netloc, '.');
        TitleKeepsAbsentChar(first, '.');
        Title(first)
  }

  /** A host naming Codeforces is Codeforces, whatever else it mentions: the
      table is searched in order and Codeforces comes first. */
  lemma CodeforcesTakesPrecedence(url: string, netloc: string)
    requires url != "" && Contains(Lower(netloc), "codeforces")
    ensures ExtractPlatform(url, netloc) == "Codeforces"
  {
    assert KnownPlatforms[0].0 == "codeforces";
  }

  /** A host that names no known platform gives back its first label, up to
      letter case: the fallback loses only case. */
  lemma UnknownHostKeepsLabel(url: string, first: string, rest: string)
    requires url != "" && '.' !in first
    requires forall k :: 0 <= k < |first| ==> !IsUpper(first[k])
    requires FirstKnown(Lower(first + "." + rest), KnownPlatforms).None?
    ensures Lower(ExtractPlatform(url, first + "." + rest)) == first
  {
    var domain := Lower(first + "." + rest);
    assert Lower(first) == first;
    LowerAppend(first, "." + rest);
    LowerKeepsAbsentChar(rest, '.');
    var pieces := Split(Lower(rest), '.');
    assert domain == Join([first] + pieces, '.') by {
      JoinAppend([first], pieces, '.');
    }
    SplitJoin([first] + pieces, '.');
  }

  /** A piece of a lower-cased text is already lower case. */
  lemma LowerOfLowerPiece(s: string, sep: char)
    ensures Lower(Split(Lower(s), sep)[0]) == Split(Lower(s), sep)[0]
  {
    var parts := Split(Lower(s), sep);
    JoinFirst(parts, sep);
    var p := parts[0];
    forall i | 0 <= i < |p| ensures LowerChar(p[i]) == p[i] {
      assert p[i] == Lower(s)[i];
    }
  }

  // ---------------------------------------------------------------------------
  // problem id

  /** What a Codeforces URL contributes: the segment after the first
      "problem" segment, when there is one. */
  function CodeforcesSegment(url: string): (r: Option<string>)
    ensures r.Some? ==> '/' !in r.value
    ensures r.Some? <==> (Contains(url, "codeforces.com") && IndexOf(Split(url, '/'), "problem").Some?
      && IndexOf(Split(url, '/'), "problem").value + 1 < |Split(url, '/')|)
  {
    var parts := Split(url, '/');
    if Contains(url, "codeforces.com") then
      match IndexOf(parts, "problem")
      case Some(i) => if i + 1 < |parts| then Some(parts[i + 1]) else None
      case None => None
    else None
  }

  /** The problem id of a URL: "unknown" for an empty URL; for a Codeforces URL
      with a "problem" path segment followed by another, that next segment
      (even an empty one); otherwise the last segment, or "unknown" when it is
      empty. */
  function ExtractProblemId(url: string): (r: string)
    ensures url == "" ==> r == "unknown"
    ensures '/' !in r
    ensures r == "" ==> CodeforcesSegment(url) == Some("")
    ensures url != "" && CodeforcesSegment(url).None? ==>
      r == if Split(url, '/')[|Split(url, '/')| - 1] == "" then "unknown" else Split(url, '/')[|Split(url, '/')| - 1]
  {
    if url == "" then "unknown"
    else
      match CodeforcesSegment(url)
      case Some(segment) => segment
      case None =>
        var parts := Split(url, '/');
        if parts[|parts| - 1] != "" then parts[|parts| - 1] else "unknown"
  }

  /** A URL ending in a non-empty segment gives that segment, unless it is a
      Codeforces problem URL. */
  lemma LastSegmentIsId(prefix: string, id: string)
    requires id != "" && '/' !in id
    requires CodeforcesSegment(prefix + "/" + id).None?
    ensures ExtractProblemId(prefix + "/" + id) == id
  {
    var url := prefix + "/" + id;
    assert url == prefix + ['/'] + id;
    SplitAppend(prefix, id, '/');
    SplitJoin([id], '/');
    assert Split(id, '/') == [id];
  }

  /** No part of a list of parts holds `sep` when none of the pieces does. */
  lemma PartsWithoutSep(before: seq<string>, mid: seq<string>, after: seq<string>, sep: char)
    requires forall k :: 0 <= k < |before| ==> sep !in before[k]
    requires forall k :: 0 <= k < |mid| ==> sep !in mid[k]
    requires forall k :: 0 <= k < |after| ==> sep !in after[k]
    ensures forall k :: 0 <= k < |before + mid + after| ==> sep !in (before + mid + after)[k]
  {
  }

  /** A Codeforces URL whose path has a "problem" segment gives the segment
      after the first one. */
  lemma {:induction false} CodeforcesProblemId(before: seq<string>, id: string, after: seq<string>)
    requires "problem" !in before
    requires forall k :: 0 <= k < |before| ==> '/' !in before[k]
    requires forall k :: 0 <= k < |after| ==> '/' !in after[k]
    requires '/' !in id
    requires Contains(Join(before + ["problem", id] + after, '/'), "codeforces.com")
    ensures ExtractProblemId(Join(before + ["problem", id] + after, '/')) == id
  {
    var url := Join(before + ["problem", id] + after, '/');
    SegmentAfterProblem(before, id, after);
    assert url != "" by {
      JoinAppend(before + ["problem"], [id] + after, '/');
      assert before + ["problem", id] + after == (before + ["problem"]) + ([id] + after);
    }
  }

  lemma {:induction false} SegmentAfterProblem(before: seq<string>, id: string, after: seq<string>)
    requires "problem" !in before
    requires forall k :: 0 <= k < |before| ==> '/' !in before[k]
    requires forall k :: 0 <= k < |after| ==> '/' !in after[k]
    requires '/' !in id
    requires Contains(Join(before + ["problem", id] + after, '/'), "codeforces.com")
    ensures CodeforcesSegment(Join(before + ["problem", id] + after, '/')) == Some(id)
  {
    var parts := before + ["problem", id] + after;
    PartsWithoutSep(before, ["problem", id], after, '/');
    SplitJoin(parts, '/');
    assert parts == before + ["problem"] + ([id] + after);
    IndexAfter(before, "problem", [id] + after);
    assert parts[|before| + 1] == id;
  }

  /** The id the listener uses: the contest id when the request carries a
      non-empty one, otherwise the id taken from the URL. */
  function ProblemId(contestId: Option<string>, url: string): (r: string)
    ensures contestId.Some? && contestId.value != "" ==> r == contestId.value
    ensures contestId.None? || contestId.value == "" ==> r == ExtractProblemId(url)
  {
    match contestId
    case Some(id) => if id != "" then id else ExtractProblemId(url)
    case None => ExtractProblemId(url)
  }

  // ---------------------------------------------------------------------------
  // directory-safe names

  /** The characters a sanitised name keeps: letters and digits (ASCII), '-',
      '_' and the space. */
  predicate KeptInName(c: char) {
    IsAlnum(c) || c == '-' || c == '_' || c == ' '
  }

  predicate IsDash(c: char) { c == '-' }

  /** No two dashes stand next to each other. */
  predicate NoDoubleDash(s: string) {
    forall i :: 0 <= i < |s| - 1 ==> !(s[i] == '-' && s[i + 1] == '-')
  }

  lemma ContainsDoubleDash(s: string)
    ensures Contains(s, "--") <==> !NoDoubleDash(s)
  {
    if Contains(s, "--") {
      var i :| 0 <= i <= |s| - 2 && OccursAt(s, "--", i);
      assert s[i..i + 2][0] == s[i] && s[i..i + 2][1] == s[i + 1];
    }
    if !NoDoubleDash(s) {
      var i :| 0 <= i < |s| - 1 && s[i] == '-' && s[i + 1] == '-';
      assert s[i..i + 2] == "--";
      assert OccursAt(s, "--", i);
    }
  }

  /** One call of Python's `s.replace("--", "-")`: left to right, pairs of
      dashes that do not overlap each become one dash. */
  function ReplaceDoubleDash(s: string): (r: string)
    ensures |r| <= |s|
    ensures forall c :: c in r ==> c in s
  {
    if |s| == 0 then ""
    else if |s| >= 2 && s[0] == '-' && s[1] == '-' then
      var rest := ReplaceDoubleDash(s[2..]);
      assert forall c :: c in s[2..] ==> c in s;
      "-" + rest
    else
      var rest := ReplaceDoubleDash(s[1..]);
      assert forall c :: c in s[1..] ==> c in s;
      [s[0]] + rest
  }

  /** A pass that finds a pair of dashes makes the text shorter. */
  lemma {:induction false} ReplaceShrinks(s: string, i: nat)
    requires i < |s| - 1 && s[i] == '-' && s[i + 1] == '-'
    ensures |ReplaceDoubleDash(s)| < |s|
    decreases |s|
  {
    if !(s[0] == '-' && s[1] == '-') {
      ReplaceShrinks(s[1..], i - 1);
    }
  }

  /** The `while '--' in s` loop: replace until no pair of dashes is left. */
  function CollapseDashes(s: string): (r: string)
    ensures NoDoubleDash(r)
    ensures forall c :: c in r ==> c in s
    decreases |s|
  {
    ContainsDoubleDash(s);
    if Contains(s, "--") then
      var i :| 0 <= i < |s| - 1 && s[i] == '-' && s[i + 1] == '-';
      ReplaceShrinks(s, i);
      CollapseDashes(ReplaceDoubleDash(s))
    else s
  }

  /** The reference for the loop: every run of dashes kept as one dash
      (`prevDash` says whether the text so far ended in a dash). */
  function Squeeze(s: string, prevDash: bool): string {
    if |s| == 0 then ""
    else if s[0] == '-' && prevDash then Squeeze(s[1..], true)
    else [s[0]] + Squeeze(s[1..], s[0] == '-')
  }

  /** One replacement pass does not change the squeezed text. */
  lemma {:induction false} SqueezeReplace(s: string, prevDash: bool)
    ensures Squeeze(ReplaceDoubleDash(s), prevDash) == Squeeze(s, prevDash)
    decreases |s|
  {
    if |s| >= 2 && s[0] == '-' && s[1] == '-' {
      var t := s[2..];
      SqueezeReplace(t, true);
      assert ReplaceDoubleDash(s) == "-" + ReplaceDoubleDash(t);
      assert ("-" + ReplaceDoubleDash(t))[1..] == ReplaceDoubleDash(t);
      assert s[1..][1..] == t;
    } else if |s| > 0 {
      SqueezeReplace(s[1..], s[0] == '-');
      assert ReplaceDoubleDash(s) == [s[0]] + ReplaceDoubleDash(s[1..]);
      assert ([s[0]] + ReplaceDoubleDash(s[1..]))[1..] == ReplaceDoubleDash(s[1..]);
    }
  }

  /** Squeezing a text without a pair of dashes changes nothing. */
  lemma {:induction false} SqueezeFixed(s: string, prevDash: bool)
    requires NoDoubleDash(s)
    requires prevDash && |s| > 0 ==> s[0] != '-'
    ensures Squeeze(s, prevDash) == s
    decreases |s|
  {
    if |s| > 0 {
      SqueezeFixed(s[1..], s[0] == '-');
      assert s == [s[0]] + s[1..];
    }
  }

  /** The loop computes the squeeze: each run of dashes ends up a single dash. */
  lemma {:induction false} CollapseIsSqueeze(s: string)
    ensures CollapseDashes(s) == Squeeze(s, false)
    decreases |s|
  {
    ContainsDoubleDash(s);
    if Contains(s, "--") {
      var i :| 0 <= i < |s| - 1 && s[i] == '-' && s[i + 1] == '-';
      ReplaceShrinks(s, i);
      CollapseIsSqueeze(ReplaceDoubleDash(s));
      SqueezeReplace(s, false);
    } else {
      SqueezeFixed(s, false);
    }
  }

  /** A character a sanitised name may hold. */
  predicate NameChar(c: char) {
    IsLower(c) || IsDigit(c) || c == '-' || c == '_'
  }

  /** The first step: drop every character that is not kept. */
  function KeepChars(name: string): (r: string)
    ensures forall k :: 0 <= k < |r| ==> KeptInName(r[k])
  {
    Filter(name, KeptInName)
  }

  /** The second step: spaces become dashes, then everything is lower-cased. */
  function DashesForSpaces(s: string): (r: string)
    ensures (forall k :: 0 <= k < |s| ==> KeptInName(s[k])) ==> forall k :: 0 <= k < |r| ==> NameChar(r[k])
  {
    Lower(ReplaceChar(s, ' ', '-'))
  }

  /** Python's `name` → directory name: keep letters, digits, '-', '_' and
      spaces; spaces become dashes; lower-case; collapse runs of dashes; strip
      dashes from both ends. */
  function SanitizeName(name: string): (r: string)
    ensures forall k :: 0 <= k < |r| ==> NameChar(r[k])
    ensures NoDoubleDash(r)
    ensures |r| > 0 ==> r[0] != '-' && r[|r| - 1] != '-'
  {
    var collapsed := CollapseDashes(DashesForSpaces(KeepChars(name)));
    StripDashesKeeps(DashesForSpaces(KeepChars(name)));
    Trim(collapsed, IsDash)
  }

  /** What the last two steps keep of a text of name characters. */
  lemma StripDashesKeeps(s: string)
    requires forall k :: 0 <= k < |s| ==> NameChar(s[k])
    ensures var r := Trim(CollapseDashes(s), IsDash);
      (forall k :: 0 <= k < |r| ==> NameChar(r[k])) && NoDoubleDash(r)
  {
    var collapsed := CollapseDashes(s);
    assert forall c :: c in s ==> NameChar(c);
    TrimSliceKeeps(collapsed);
    var r := Trim(collapsed, IsDash);
    assert forall k :: 0 <= k < |r| ==> r[k] in r;
  }

  /** Stripping dashes keeps a slice, so it keeps the character set and the
      absence of dash pairs. */
  lemma TrimSliceKeeps(s: string)
    ensures forall c :: c in Trim(s, IsDash) ==> c in s
    ensures NoDoubleDash(s) ==> NoDoubleDash(Trim(s, IsDash))
  {
    var i, j := TrimShape(s, IsDash);
    var t := Trim(s, IsDash);
    assert forall k :: 0 <= k < |t| ==> t[k] == s[i + k];
  }

  /** A sanitised name is left as it is by a second sanitising. */
  lemma {:induction false} SanitizeIdempotent(name: string)
    ensures SanitizeName(SanitizeName(name)) == SanitizeName(name)
  {
    var x := SanitizeName(name);
    assert forall k :: 0 <= k < |x| ==> KeptInName(x[k]);
    FilterAll(x, KeptInName);
    assert KeepChars(x) == x;
    DashesForSpacesKeeps(x);
    CollapseKeeps(x);
    TrimUnique("", x, "", IsDash);
    assert "" + x + "" == x;
  }

  /** The second step leaves a text of name characters alone. */
  lemma DashesForSpacesKeeps(x: string)
    requires forall k :: 0 <= k < |x| ==> NameChar(x[k])
    ensures DashesForSpaces(x) == x
  {
    var replaced := ReplaceChar(x, ' ', '-');
    assert replaced == x by {
      assert forall k :: 0 <= k < |x| ==> replaced[k] == x[k];
    }
    assert Lower(x) == x by {
      assert forall k :: 0 <= k < |x| ==> Lower(x)[k] == x[k];
    }
  }

  /** The loop leaves a text without dash pairs alone. */
  lemma CollapseKeeps(s: string)
    requires NoDoubleDash(s)
    ensures CollapseDashes(s) == s
  {
    ContainsDoubleDash(s);
  }

  /** The name computed by the loop is the reference squeeze, stripped. */
  lemma SanitizeMatchesSqueeze(name: string)
    ensures SanitizeName(name) == Trim(Squeeze(DashesForSpaces(KeepChars(name)), false), IsDash)
  {
    CollapseIsSqueeze(DashesForSpaces(KeepChars(name)));
  }
}
