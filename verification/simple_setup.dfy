/** The lightweight set-up script: the problem URL built from the platform's
    pattern, the display name made from a hyphenated problem name, the record
    written beside the solution files and the argument-count check.

    Directory creation, the template files' text and the creation time (a
    file-system timestamp) are not modelled; the timestamp is an input. */
module SimpleSetup {
  import opened Wrappers
  import opened Strings
  import opened Counting
  import CompanionListener
  import StatsGenerator

  /** The problem's URL: the platform's pattern filled with the problem name
      and/or id, or the platform's lower-cased name as a ".com" host. */
  function ProblemUrl(platform: string, problemId: string, problemName: string): (r: string)
    ensures StartsWith(r, "https://")
  {
    var rest :=
      if platform == "LeetCode" then "leetcode.com/problems/" + problemName + "/"
      else if platform == "Codeforces" then "codeforces.com/problem/" + problemId
      else if platform == "AtCoder" then "atcoder.jp/contests/" + problemName + "/tasks/" + problemId
      else if platform == "HackerRank" then "www.hackerrank.com/challenges/" + problemName + "/problem"
      else Lower(platform) + ".com/";
    StartsWithAppend("https://", rest);
    "https://" + rest
  }

  predicate IsKnownPlatform(platform: string) {
    platform == "LeetCode" || platform == "Codeforces" || platform == "AtCoder" || platform == "HackerRank"
  }

  /** What each pattern embeds: the name for LeetCode and HackerRank, the id
      at the end for Codeforces, both for AtCoder; an unknown platform embeds
      neither and yields its own lower-cased host. */
  lemma {:induction false} UrlEmbeds(platform: string, problemId: string, problemName: string)
    ensures var url := ProblemUrl(platform, problemId, problemName);
      (platform == "LeetCode" || platform == "HackerRank" || platform == "AtCoder" ==> Contains(url, problemName))
      && (platform == "Codeforces" || platform == "AtCoder" ==> EndsWith(url, problemId))
      && (!IsKnownPlatform(platform) ==> url == "https://" + Lower(platform) + ".com/")
  {
    var scheme := "https://";
    if platform == "LeetCode" {
      var rest := "leetcode.com/problems/" + problemName + "/";
      ContainsMiddle("leetcode.com/problems/", problemName, "/");
      ContainsPrefix(rest, scheme, problemName);
    } else if platform == "HackerRank" {
      var rest := "www.hackerrank.com/challenges/" + problemName + "/problem";
      ContainsMiddle("www.hackerrank.com/challenges/", problemName, "/problem");
      ContainsPrefix(rest, scheme, problemName);
    } else if platform == "AtCoder" {
      var front := "atcoder.jp/contests/" + problemName + "/tasks/";
      ContainsMiddle("atcoder.jp/contests/", problemName, "/tasks/");
      ContainsPrefix(front, problemId, problemName);
      ContainsPrefix(front + problemId, scheme, problemName);
      EndsWithAppend(front, problemId);
      EndsWithExtend(scheme, front + problemId, problemId);
    } else if platform == "Codeforces" {
      EndsWithAppend("codeforces.com/problem/", problemId);
      EndsWithExtend(scheme, "codeforces.com/problem/" + problemId, problemId);
    } else {
      assert scheme + (Lower(platform) + ".com/") == scheme + Lower(platform) + ".com/";
    }
  }

  /** The Codeforces URL, as a list of '/'-separated segments. */
  lemma {:induction false} CodeforcesUrlSegments(problemId: string, problemName: string)
    ensures ProblemUrl("Codeforces", problemId, problemName) == Join(["https:", "", "codeforces.com", "problem", problemId], '/')
  {
    var p := ["https:", "", "codeforces.com", "problem", problemId];
    assert p[1..][1..][1..] == ["problem", problemId];
    assert p[1..][1..][1..][1..] == [problemId];
    assert Join(p[1..][1..][1..], '/') == "problem" + "/" + problemId;
    assert Join(p[1..][1..], '/') == "codeforces.com" + "/" + ("problem" + "/" + problemId);
    assert Join(p[1..], '/') == "" + "/" + ("codeforces.com" + "/" + ("problem" + "/" + problemId));
    assert Join(p, '/') == "https:" + "/" + ("" + "/" + ("codeforces.com" + "/" + ("problem" + "/" + problemId)));
  }

  /** The browser-companion listener reads a Codeforces problem id back out of
      the URL this script builds, whatever the problem name. */
  lemma {:induction false} CodeforcesUrlRoundTrip(problemId: string, problemName: string)
    requires '/' !in problemId
    ensures CompanionListener.ExtractProblemId(ProblemUrl("Codeforces", problemId, problemName)) == problemId
  {
    var url := ProblemUrl("Codeforces", problemId, problemName);
    CodeforcesUrlSegments(problemId, problemName);
    var before := ["https:", "", "codeforces.com"];
    assert before + ["problem", problemId] + [] == ["https:", "", "codeforces.com", "problem", problemId];
    var host := "codeforces.com";
    assert url == "https://" + host + ("/problem/" + problemId);
    assert url[8..22] == host;
    assert OccursAt(url, "codeforces.com", 8);
    CompanionListener.CodeforcesProblemId(before, problemId, []);
  }

  /** ... and names the platform from the URL's host. */
  lemma {:induction false} CodeforcesUrlPlatform(problemId: string, problemName: string)
    ensures CompanionListener.ExtractPlatform(ProblemUrl("Codeforces", problemId, problemName), "codeforces.com") == "Codeforces"
  {
    var url := ProblemUrl("Codeforces", problemId, problemName);
    assert url[0] == 'h';
    CodeforcesHost("codeforces.com");
    CompanionListener.CodeforcesTakesPrecedence(url, "codeforces.com");
  }

  lemma CodeforcesHost(host: string)
    requires host == "codeforces.com"
    ensures Contains(Lower(host), "codeforces")
  {
    assert forall i :: 0 <= i < |host| ==> !IsUpper(host[i]);
    NoUpperLower(host);
    ContainsStart(host, "codeforces", ".com");
  }

  /** The name shown in the files: dashes become spaces, then title case. */
  function DisplayName(problemName: string): (r: string)
    ensures |r| == |problemName|
    ensures '-' !in r
    ensures Lower(r) == Lower(ReplaceChar(problemName, '-', ' '))
  {
    var spaced := ReplaceChar(problemName, '-', ' ');
    TitleKeepsAbsentChar(spaced, '-');
    TitleProperties(spaced);
    Title(spaced)
  }

  /** Title-casing words joined by spaces title-cases each word. */
  lemma {:induction false} TitleOfWords(words: seq<string>)
    requires |words| >= 1
    ensures Title(Join(words, ' ')) == Join(Map(words, Title), ' ')
  {
    if |words| > 1 {
      TitleOfWords(words[1..]);
      TitleAcrossSpace(words[0], Join(words[1..], ' '));
      assert Map(words, Title) == [Title(words[0])] + Map(words[1..], Title);
    }
  }

  /** A hyphenated slug becomes its words, each title-cased, separated by
      spaces: "flood-fill" is shown as "Flood Fill". */
  lemma {:induction false} DisplayNameOfSlug(words: seq<string>)
    requires |words| >= 1
    requires forall k :: 0 <= k < |words| ==> '-' !in words[k]
    ensures DisplayName(Join(words, '-')) == Join(Map(words, Title), ' ')
  {
    ReplaceSeparator(words, '-', ' ');
    TitleOfWords(words);
  }

  /** The record written as `metadata.json`; tags start empty. */
  datatype SimpleMetadata = SimpleMetadata(
    name: string, platform: string, id: string, url: string,
    difficulty: string, status: string, created: string)

  /** What the script sets up: the problem directory (relative to the working
      directory), the URL, the display name and the record. */
  datatype SimpleProblem = SimpleProblem(dir: seq<string>, url: string, displayName: string, metadata: SimpleMetadata)

  function SetupProblem(platform: string, problemName: string, problemId: string, created: string): (r: SimpleProblem)
    ensures r.dir == ["platform", platform, problemName]
    ensures r.url == ProblemUrl(platform, problemId, problemName)
    ensures r.metadata.name == r.displayName == DisplayName(problemName)
    ensures r.metadata.platform == platform && r.metadata.id == problemId && r.metadata.url == r.url
    ensures r.metadata.difficulty == "" && r.metadata.status == "not_started"
  {
    var url := ProblemUrl(platform, problemId, problemName);
    var display := DisplayName(problemName);
    SimpleProblem(["platform", platform, problemName], url, display,
      SimpleMetadata(display, platform, problemId, url, "", "not_started", created))
  }

  /** The record as the statistics generator parses it back. */
  function AsParsed(m: SimpleMetadata): (r: StatsGenerator.Metadata)
    ensures r.status == Some(m.status) && r.url == Some(m.url) && r.id == Some(m.id)
  {
    StatsGenerator.Metadata(Some(m.difficulty), Some(m.status), Some(m.url), Some(m.id), Some([]), Some(m.created))
  }

  /** A problem fresh from this script is counted by the statistics generator
      in the directory the script made, as not started, whatever files it
      holds, with the URL and id the script recorded. */
  lemma {:induction false} FreshProblemNotStarted(platform: string, problemName: string, problemId: string, created: string,
                                                  entries: seq<StatsGenerator.Entry>)
    ensures var p := SetupProblem(platform, problemName, problemId, created);
      var info := StatsGenerator.ScanProblem(platform, StatsGenerator.ProblemDir(problemName, entries, StatsGenerator.MetadataFound(AsParsed(p.metadata))));
      info.status == "not_started" && info.url == p.url && info.problemId == problemId
      && info.directory == Join(p.dir, '/')
  {
    var p := SetupProblem(platform, problemName, problemId, created);
    assert Join([problemName], '/') == problemName;
    assert Join([platform, problemName], '/') == platform + "/" + problemName;
    assert Join(p.dir, '/') == "platform/" + platform + "/" + problemName;
  }

  /** The command line: exactly three arguments after the script name run the
      set-up, anything else prints the usage and exits with status 1. */
  datatype Invocation = Usage(exitCode: int) | Run(platform: string, problemName: string, problemId: string)

  function ParseArgs(argv: seq<string>): (r: Invocation)
    ensures r.Run? <==> |argv| == 4
    ensures r.Usage? ==> r.exitCode == 1
    ensures r.Run? ==> [r.platform, r.problemName, r.problemId] == argv[1..]
  {
    if |argv| != 4 then Usage(1) else Run(argv[1], argv[2], argv[3])
  }
}
