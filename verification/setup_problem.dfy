/** Setting up a new problem: the platform alias table, where the problem
    directory goes, which template each language starts from, the empty test
    files, the record kept for the problem and the Competitive Programming
    Helper (`.prob`) file's name and batch id.

    A directory is given as a map from file name to content; the templates
    directory as such a map when it exists. */
module SetupProblem {
  import opened Wrappers
  import opened Strings
  import opened Counting
  import Json
  import AutoHeader

  // ---------------------------------------------------------------------------
  // platform names

  /** The alias table: short and long spellings of the platforms, in lower
      case, and the name each stands for. */
  function Alias(key: string): (r: Option<string>)
    ensures r.Some? ==> IsFullName(r.value)
  {
    if key == "cf" || key == "codeforces" then Some("Codeforces")
    else if key == "ac" || key == "atcoder" then Some("AtCoder")
    else if key == "lc" || key == "leetcode" then Some("LeetCode")
    else if key == "cc" || key == "codechef" then Some("CodeChef")
    else if key == "tc" || key == "topcoder" then Some("TopCoder")
    else None
  }

  /** The names the table resolves to. */
  predicate IsFullName(v: string) {
    v == "Codeforces" || v == "AtCoder" || v == "LeetCode" || v == "CodeChef" || v == "TopCoder"
  }

  /** The platform's directory name: the alias table looked up in lower case,
      the input title-cased when it is no alias. */
  function PlatformName(input: string): (r: string)
    ensures Alias(Lower(input)).Some? ==> IsFullName(r)
    ensures Alias(Lower(input)).None? ==> Lower(r) == Lower(input)
    ensures Alias(Lower(input)).Some? ==> Alias(Lower(input)) == Some(r)
    // otherwise each letter is upper case exactly when it starts a run of letters
    ensures Alias(Lower(input)).None? ==> r == Title(input) && |r| == |input|
    ensures Alias(Lower(input)).None? ==>
      forall i :: 0 <= i < |input| ==> r[i] == TitleChar(input[i], i > 0 && IsLetter(input[i - 1]))
  {
    match Alias(Lower(input))
    case Some(name) => name
    case None =>
      TitleProperties(input);
      Title(input)
  }

  /** The lookup ignores case entirely: inputs that agree in lower case name
      the same platform, aliases and unknown names alike. */
  lemma {:induction false} PlatformNameIgnoresCase(x: string, y: string)
    requires Lower(x) == Lower(y)
    ensures PlatformName(x) == PlatformName(y)
  {
    if Alias(Lower(x)).None? {
      TitleOfLower(x);
      TitleOfLower(y);
    }
  }

  /** Every full name is lower-cased back to an alias of itself. */
  lemma {:induction false} FullNameIsFixed(v: string)
    requires IsFullName(v)
    ensures Alias(Lower(v)) == Some(v)
  {
    if v == "Codeforces" {
      CodeforcesIsFixed();
    } else if v == "AtCoder" {
      AtCoderIsFixed();
    } else if v == "LeetCode" {
      LeetCodeIsFixed();
    } else if v == "CodeChef" {
      CodeChefIsFixed();
    } else if v == "TopCoder" {
      TopCoderIsFixed();
    }
  }

  lemma {:induction false} CodeforcesIsFixed()
    ensures Alias(Lower("Codeforces")) == Some("Codeforces")
  {
    LowerPointwise("Codeforces", "codeforces");
  }

  lemma {:induction false} AtCoderIsFixed()
    ensures Alias(Lower("AtCoder")) == Some("AtCoder")
  {
    LowerPointwise("AtCoder", "atcoder");
  }

  lemma {:induction false} LeetCodeIsFixed()
    ensures Alias(Lower("LeetCode")) == Some("LeetCode")
  {
    LowerPointwise("LeetCode", "leetcode");
  }

  lemma {:induction false} CodeChefIsFixed()
    ensures Alias(Lower("CodeChef")) == Some("CodeChef")
  {
    LowerPointwise("CodeChef", "codechef");
  }

  lemma {:induction false} TopCoderIsFixed()
    ensures Alias(Lower("TopCoder")) == Some("TopCoder")
  {
    LowerPointwise("TopCoder", "topcoder");
  }

  /** Resolving a resolved name changes nothing: a full name maps to itself
      and a title-cased unknown name stays as it is. */
  lemma {:induction false} PlatformNameIdempotent(input: string)
    ensures PlatformName(PlatformName(input)) == PlatformName(input)
  {
    var r := PlatformName(input);
    if Alias(Lower(input)).Some? {
      FullNameIsFixed(r);
    } else {
      TitleProperties(input);
      assert Lower(r) == Lower(input);
    }
  }

  // ---------------------------------------------------------------------------
  // templates

  datatype Lang = Cpp | Py | Java

  /** The languages in the order the templates are looked at. */
  const Langs: seq<Lang> := [Cpp, Py, Java]

  /** The template names tried for a language, most preferred first. */
  function TemplateNames(l: Lang): seq<string> {
    match l
    case Cpp => ["template.cpp", "main.cpp", "solution.cpp"]
    case Py => ["template.py", "main.py", "solution.py"]
    case Java => ["Template.java", "Main.java", "Solution.java"]
  }

  /** The file a language's template is copied to. */
  function OutputName(l: Lang): (r: string)
    ensures r in {"solution.cpp", "solution.py", "Solution.java"}
  {
    match l
    case Cpp => "solution.cpp"
    case Py => "solution.py"
    case Java => "Solution.java"
  }

  /** The first name in `names` that is present. */
  function FirstPresent(names: seq<string>, present: map<string, string>): (r: Option<string>)
    ensures r.None? <==> forall i :: 0 <= i < |names| ==> names[i] !in present
    ensures r.Some? ==> exists i :: (0 <= i < |names| && names[i] == r.value && r.value in present
      && forall j :: 0 <= j < i ==> names[j] !in present)
  {
    if |names| == 0 then None
    else if names[0] in present then Some(names[0])
    else
      var r := FirstPresent(names[1..], present);
      assert r.Some? ==> exists i :: 0 <= i < |names[1..]| && names[1..][i] == r.value;
      r
  }

  /** The files written by copying templates: nothing when the templates
      directory is missing, otherwise, for every language with some template,
      the content of its first template under the language's output name. */
  function CopyTemplates(templates: Option<map<string, string>>): (r: map<string, string>)
    ensures templates.None? ==> r == map[]
    ensures forall f :: f in r ==> f in {"solution.cpp", "solution.py", "Solution.java"}
    ensures forall l: Lang :: (OutputName(l) in r <==> templates.Some? && FirstPresent(TemplateNames(l), templates.value).Some?)
    ensures forall l: Lang :: OutputName(l) in r ==> r[OutputName(l)] == templates.value[FirstPresent(TemplateNames(l), templates.value).value]
  {
    match templates
    case None => map[]
    case Some(dir) =>
      CopiedFiles(dir);
      CopyLang(dir, Java, CopyLang(dir, Py, CopyLang(dir, Cpp, map[])))
  }

  /** The three steps of the copy write three different names, so each
      language's entry is its own step's. */
  lemma CopiedFiles(dir: map<string, string>)
    ensures var r := CopyLang(dir, Java, CopyLang(dir, Py, CopyLang(dir, Cpp, map[])));
      && (forall f :: f in r ==> f in {"solution.cpp", "solution.py", "Solution.java"})
      && (forall l: Lang :: OutputName(l) in r <==> FirstPresent(TemplateNames(l), dir).Some?)
      && (forall l: Lang :: OutputName(l) in r ==> r[OutputName(l)] == dir[FirstPresent(TemplateNames(l), dir).value])
  {
    var r1 := CopyLang(dir, Cpp, map[]);
    var r2 := CopyLang(dir, Py, r1);
    var r := CopyLang(dir, Java, r2);
    forall l: Lang
      ensures OutputName(l) in r <==> FirstPresent(TemplateNames(l), dir).Some?
      ensures OutputName(l) in r ==> r[OutputName(l)] == dir[FirstPresent(TemplateNames(l), dir).value]
    {
      assert |OutputName(Cpp)| == 12 && |OutputName(Py)| == 11 && |OutputName(Java)| == 13;
    }
  }

  /** One language's step of the copy: its first template, if any, written
      under its output name. */
  function CopyLang(dir: map<string, string>, l: Lang, written: map<string, string>): (r: map<string, string>)
    ensures FirstPresent(TemplateNames(l), dir).None? ==> r == written
    ensures FirstPresent(TemplateNames(l), dir).Some? ==> r == written[OutputName(l) := dir[FirstPresent(TemplateNames(l), dir).value]]
  {
    match FirstPresent(TemplateNames(l), dir)
    case None => written
    case Some(t) => written[OutputName(l) := dir[t]]
  }

  /** A template earlier in the preference list hides every later one: once
      "template.cpp" exists, the C++ solution is a copy of it whatever else
      the directory holds. */
  lemma {:induction false} PreferredTemplateWins(dir: map<string, string>, l: Lang, others: map<string, string>)
    requires TemplateNames(l)[0] in dir
    ensures var r := CopyTemplates(Some(others + dir));
      OutputName(l) in r && r[OutputName(l)] == dir[TemplateNames(l)[0]]
  {
    var all := others + dir;
    assert FirstPresent(TemplateNames(l), all) == Some(TemplateNames(l)[0]);
  }

  /** Without any of its three templates a language gets no solution file. */
  lemma {:induction false} MissingTemplatesSkipLanguage(dir: map<string, string>, l: Lang)
    requires forall i :: 0 <= i < 3 ==> TemplateNames(l)[i] !in dir
    ensures OutputName(l) !in CopyTemplates(Some(dir))
  {
    assert |TemplateNames(l)| == 3;
  }

  // ---------------------------------------------------------------------------
  // test files

  const TestFileNames: seq<string> := ["input.txt", "output.txt", "expected.txt", "sample_input.txt", "sample_output.txt"]

  /** Touching each of `names` in turn: a missing file is created empty, an
      existing one is left alone. */
  function TouchAll(dir: map<string, string>, names: seq<string>): (r: map<string, string>)
    decreases |names|
    ensures forall f :: f in r <==> f in dir || f in names
    ensures forall f :: f in dir ==> r[f] == dir[f]
    ensures forall f :: f in r && f !in dir ==> r[f] == ""
  {
    if |names| == 0 then dir
    else
      var dir' := if names[0] in dir then dir else dir[names[0] := ""];
      var r := TouchAll(dir', names[1..]);
      assert forall f :: f in names <==> f == names[0] || f in names[1..];
      r
  }

  /** The five test files, created only when missing. */
  function CreateTestFiles(dir: map<string, string>): (r: map<string, string>) {
    TouchAll(dir, TestFileNames)
  }

  /** Existing files are never overwritten, every test file exists afterwards
      and the new ones are empty. */
  lemma {:induction false} CreateTestFilesKeeps(dir: map<string, string>)
    ensures forall f :: f in dir ==> f in CreateTestFiles(dir) && CreateTestFiles(dir)[f] == dir[f]
    ensures forall i :: 0 <= i < |TestFileNames| ==> (TestFileNames[i] in CreateTestFiles(dir)
      && CreateTestFiles(dir)[TestFileNames[i]] == (if TestFileNames[i] in dir then dir[TestFileNames[i]] else ""))
    ensures forall f :: f in CreateTestFiles(dir) ==> f in dir || f in TestFileNames
  {
  }

  /** Creating the test files a second time changes nothing. */
  lemma {:induction false} CreateTestFilesIdempotent(dir: map<string, string>)
    ensures CreateTestFiles(CreateTestFiles(dir)) == CreateTestFiles(dir)
  {
    TouchAllIdempotent(dir, TestFileNames);
  }

  lemma {:induction false} TouchAllIdempotent(dir: map<string, string>, names: seq<string>)
    ensures TouchAll(TouchAll(dir, names), names) == TouchAll(dir, names)
  {
    var r := TouchAll(dir, names);
    var rr := TouchAll(r, names);
    assert forall f :: f in rr <==> f in r;
    assert forall f :: f in r ==> rr[f] == r[f];
  }

  // ---------------------------------------------------------------------------
  // the problem and its helper file

  /** The record saved as `problem_info.json`; the creation time is left out. */
  datatype ProblemInfo = ProblemInfo(
    platform: string, contest: string, problemCode: string, problemName: string,
    url: Option<string>, solved: bool, attempts: nat)

  /** Python's `name or code`: a missing or empty name falls back to the code. */
  function NameOrCode(name: Option<string>, code: string): (r: string)
    ensures name.Some? && name.value != "" ==> r == name.value
    ensures name.None? || name.value == "" ==> r == code
  {
    if name.Some? && name.value != "" then name.value else code
  }

  /** The helper file's name: platform, contest and code joined by
      underscores, then ".prob". */
  function CphFileName(platform: string, contest: string, code: string): (r: string)
    ensures EndsWith(r, ".prob")
  {
    var r := Join([platform, contest, code], '_') + ".prob";
    assert r[|r| - 5..] == ".prob";
    r
  }

  /** Names without underscores come back out of the file name: cutting
      ".prob" and splitting at the underscores gives the three parts. */
  lemma {:induction false} CphFileNameParts(platform: string, contest: string, code: string)
    requires '_' !in platform && '_' !in contest && '_' !in code
    ensures var n := CphFileName(platform, contest, code);
      Split(n[..|n| - 5], '_') == [platform, contest, code]
  {
    var parts := [platform, contest, code];
    var n := CphFileName(platform, contest, code);
    assert n[..|n| - 5] == Join(parts, '_');
    SplitJoin(parts, '_');
  }

  /** The helper file's batch id: lower-cased platform, contest, lower-cased
      code, joined by dashes. */
  function BatchId(platform: string, contest: string, code: string): (r: string)
  {
    Join([Lower(platform), contest, Lower(code)], '-')
  }

  /** The batch id is lower case where the platform and the code are, and,
      when no part holds a dash, splits back into them. */
  lemma {:induction false} BatchIdParts(platform: string, contest: string, code: string)
    requires '-' !in platform && '-' !in contest && '-' !in code
    ensures Split(BatchId(platform, contest, code), '-') == [Lower(platform), contest, Lower(code)]
  {
    LowerKeepsAbsentChar(platform, '-');
    LowerKeepsAbsentChar(code, '-');
    SplitJoin([Lower(platform), contest, Lower(code)], '-');
  }

  /** The helper file's fields that the scripts fill in. */
  datatype CphData = CphData(name: string, group: string, url: string, batchId: string, srcPath: seq<string>)

  function CphFor(platform: string, contest: string, code: string, name: Option<string>, url: Option<string>): (r: CphData)
    ensures r.name == NameOrCode(name, code)
    ensures r.url == url.GetOr("")
    ensures r.group == platform + " - " + contest
    ensures r.batchId == BatchId(platform, contest, code)
    ensures r.srcPath == ["platforms", platform, contest, code, "solution.cpp"]
  {
    CphData(NameOrCode(name, code), platform + " - " + contest, url.GetOr(""),
      BatchId(platform, contest, code), ["platforms", platform, contest, code, "solution.cpp"])
  }

  // ---------------------------------------------------------------------------
  // the record file and the README

  const InfoFileName: string := "problem_info.json"
  const ReadmeFileName: string := "README.md"

  /** One member line of a JSON object written with an indent of two, followed
      by a comma. */
  function FieldText(key: string, json: string): (r: string)
    ensures '\n' !in key && '\n' !in json ==> '\n' !in r
  {
    "  \"" + key + "\": " + json + ","
  }

  /** A member line read back: the string value under `key`, `None` when the
      line is not such a member or its value is no string (a `null`). */
  function ReadField(line: string, key: string): Option<string> {
    var p := "  \"" + key + "\": ";
    if |line| >= |p| + 1 && line[..|p|] == p && line[|line| - 1] == ',' then Json.Unquote(line[|p|..|line| - 1])
    else None
  }

  /** A string member reads back as its value. */
  lemma FieldReadsBack(key: string, value: string)
    ensures ReadField(FieldText(key, Json.Quote(value)), key) == Some(value)
  {
    var p := "  \"" + key + "\": ";
    var line := FieldText(key, Json.Quote(value));
    assert line == p + Json.Quote(value) + ",";
    assert line[..|p|] == p && line[|p|..|line| - 1] == Json.Quote(value);
    Json.UnquoteQuote(value);
  }

  /** A `null` member reads back as no value. */
  lemma NullFieldReadsBack(key: string)
    ensures ReadField(FieldText(key, "null"), key).None?
  {
    var p := "  \"" + key + "\": ";
    var line := FieldText(key, "null");
    assert line[|p|..|line| - 1] == "null";
  }

  function OptionalString(v: Option<string>): (r: string)
    ensures '\n' !in r
  {
    match v
    case None => "null"
    case Some(u) => Json.Quote(u)
  }

  /** Line `k` of `problem_info.json` as `json.dump(..., indent=2)` writes
      the record, the members in the order the script builds them. */
  function InfoLine(info: ProblemInfo, createdAt: string, k: nat): (r: string)
    requires k < 14
    ensures '\n' !in r
  {
    KeysAreLines();
    if k == 0 then "{"
    else if k == 1 then FieldText("platform", Json.Quote(info.platform))
    else if k == 2 then FieldText("contest", Json.Quote(info.contest))
    else if k == 3 then FieldText("problem_code", Json.Quote(info.problemCode))
    else if k == 4 then FieldText("problem_name", Json.Quote(info.problemName))
    else if k == 5 then FieldText("url", OptionalString(info.url))
    else if k == 6 then FieldText("created_at", Json.Quote(createdAt))
    else if k == 7 then FieldText("solved", if info.solved then "true" else "false")
    else if k == 8 then FieldText("attempts", Json.Decimal(info.attempts))
    else if k == 9 then FieldText("best_time", "null")
    else if k == 10 then FieldText("notes", Json.Quote(""))
    else if k == 11 then FieldText("tags", "[]")
    else if k == 12 then "  \"difficulty\": null"
    else "}"
  }

  /** The member names and fixed values are single lines. */
  lemma KeysAreLines()
    ensures '\n' !in "platform" && '\n' !in "contest" && '\n' !in "problem_code" && '\n' !in "problem_name"
    ensures '\n' !in "url" && '\n' !in "created_at" && '\n' !in "solved" && '\n' !in "attempts"
    ensures '\n' !in "best_time" && '\n' !in "notes" && '\n' !in "tags"
    ensures '\n' !in "true" && '\n' !in "false" && '\n' !in "null" && '\n' !in "[]"
    ensures '\n' !in "{" && '\n' !in "}" && '\n' !in "  \"difficulty\": null"
  {
  }

  function InfoLines(info: ProblemInfo, createdAt: string): (r: seq<string>)
    ensures |r| == 14
    ensures forall k :: 0 <= k < 14 ==> r[k] == InfoLine(info, createdAt, k)
  {
    seq(14, k requires 0 <= k < 14 => InfoLine(info, createdAt, k))
  }

  /** The text of `problem_info.json`; `createdAt` is the ISO time stamp. */
  function InfoJson(info: ProblemInfo, createdAt: string): string {
    Join(InfoLines(info, createdAt), '\n')
  }

  /** The record file splits into its lines. */
  lemma InfoJsonSplits(info: ProblemInfo, createdAt: string)
    ensures Split(InfoJson(info, createdAt), '\n') == InfoLines(info, createdAt)
  {
    SplitJoin(InfoLines(info, createdAt), '\n');
  }

  /** A string member of the record file reads back as its value. */
  lemma InfoMemberReadsBack(info: ProblemInfo, createdAt: string, k: nat, key: string, value: string)
    requires k < 14 && InfoLine(info, createdAt, k) == FieldText(key, Json.Quote(value))
    ensures |Split(InfoJson(info, createdAt), '\n')| == 14
    ensures ReadField(Split(InfoJson(info, createdAt), '\n')[k], key) == Some(value)
  {
    InfoJsonSplits(info, createdAt);
    FieldReadsBack(key, value);
  }

  /** A missing URL is written as `null` and reads back as no value. */
  lemma InfoNullUrlReadsBack(info: ProblemInfo, createdAt: string)
    requires info.url.None?
    ensures |Split(InfoJson(info, createdAt), '\n')| == 14
    ensures ReadField(Split(InfoJson(info, createdAt), '\n')[5], "url").None?
  {
    InfoJsonSplits(info, createdAt);
    NullFieldReadsBack("url");
  }

  /** The record file is one JSON object: its first line opens it and its
      last line closes it. */
  lemma InfoJsonFrame(info: ProblemInfo, createdAt: string)
    ensures |Split(InfoJson(info, createdAt), '\n')| == 14
    ensures Split(InfoJson(info, createdAt), '\n')[0] == "{"
    ensures Split(InfoJson(info, createdAt), '\n')[13] == "}"
  {
    InfoJsonSplits(info, createdAt);
  }

  /** The record file reads back: split into lines, each string member gives
      the value written, and the URL member gives the URL or, for `null`,
      nothing. */
  lemma InfoJsonReadsBack(info: ProblemInfo, createdAt: string)
    ensures |Split(InfoJson(info, createdAt), '\n')| == 14
    ensures ReadField(Split(InfoJson(info, createdAt), '\n')[1], "platform") == Some(info.platform)
    ensures ReadField(Split(InfoJson(info, createdAt), '\n')[2], "contest") == Some(info.contest)
    ensures ReadField(Split(InfoJson(info, createdAt), '\n')[3], "problem_code") == Some(info.problemCode)
    ensures ReadField(Split(InfoJson(info, createdAt), '\n')[4], "problem_name") == Some(info.problemName)
    ensures ReadField(Split(InfoJson(info, createdAt), '\n')[5], "url") == info.url
    ensures ReadField(Split(InfoJson(info, createdAt), '\n')[6], "created_at") == Some(createdAt)
  {
    InfoMemberReadsBack(info, createdAt, 1, "platform", info.platform);
    InfoMemberReadsBack(info, createdAt, 2, "contest", info.contest);
    InfoMemberReadsBack(info, createdAt, 3, "problem_code", info.problemCode);
    InfoMemberReadsBack(info, createdAt, 4, "problem_name", info.problemName);
    InfoMemberReadsBack(info, createdAt, 6, "created_at", createdAt);
    match info.url
    case None =>
      InfoNullUrlReadsBack(info, createdAt);
    case Some(u) =>
      InfoMemberReadsBack(info, createdAt, 5, "url", u);
  }

  /** The fixed part of the README after its title line. */
  const ReadmeBody: string :=
    "\n## Problem Statement\n[Add problem statement here]\n\n## Input Format\n[Describe input format]\n\n"
    + "## Output Format  \n[Describe output format]\n\n## Constraints\n[Add constraints]\n\n"
    + "## Sample Input\n```\n[Add sample input to sample_input.txt]\n```\n\n"
    + "## Sample Output\n```\n[Add sample output to sample_output.txt]\n```\n\n"
    + "## Solution Approach\n[Describe your approach]\n\n"
    + "## Notes\n- Time Complexity: \n- Space Complexity: \n- Tags: \n\n"
    + "## Files\n- `solution.cpp` - Main C++ solution\n- `solution.py` - Python solution  \n"
    + "- `Solution.java` - Java solution\n- `input.txt` - Test input\n- `expected.txt` - Expected output\n"

  /** The README written for a problem titled `title`. */
  function ReadmeText(title: string): string {
    "# " + title + "\n" + ReadmeBody
  }

  /** The README's first line is the title heading, when the title is one
      line. */
  lemma ReadmeTitleLine(title: string)
    requires '\n' !in title
    ensures Split(ReadmeText(title), '\n')[0] == "# " + title
  {
    var head := "# " + title;
    assert ReadmeText(title) == head + ['\n'] + ReadmeBody;
    SplitAppend(head, ReadmeBody, '\n');
    SplitJoin([head], '\n');
  }

  // ---------------------------------------------------------------------------
  // setting up

  /** What setting up a problem produces: the problem directory (relative to
      the repository root), its record, its files afterwards, the helper
      file's name and data, and the README's title. */
  datatype Setup = Setup(
    dir: seq<string>, info: ProblemInfo, files: map<string, string>,
    cphName: string, cph: CphData, readmeTitle: string)

  /** The problem directory's files after set-up, from what it held before,
      the templates directory, and the texts of the record file and the
      README. */
  function ProblemFiles(existing: map<string, string>, templates: Option<map<string, string>>,
                        infoText: string, readme: string): map<string, string>
  {
    CreateTestFiles(existing[InfoFileName := infoText] + CopyTemplates(templates))[ReadmeFileName := readme]
  }

  /** The five names the set-up writes besides the test files are all
      different from each other and from the test files. */
  lemma WrittenNamesDiffer()
    ensures InfoFileName != ReadmeFileName
    ensures InfoFileName !in {"solution.cpp", "solution.py", "Solution.java"}
    ensures ReadmeFileName !in {"solution.cpp", "solution.py", "Solution.java"}
    ensures InfoFileName !in TestFileNames && ReadmeFileName !in TestFileNames
    ensures forall i :: 0 <= i < |TestFileNames| ==> TestFileNames[i] !in {"solution.cpp", "solution.py", "Solution.java"}
  {
    // the first letters tell them apart
    assert InfoFileName[0] == 'p' && ReadmeFileName[0] == 'R';
    assert "solution.cpp"[0] == 's' && "solution.py"[0] == 's' && "Solution.java"[0] == 'S';
    assert forall i :: 0 <= i < |TestFileNames| ==> TestFileNames[i][0] in "ioes";
    // and the last ones tell the test files from the solutions
    assert forall i :: 0 <= i < |TestFileNames| ==> TestFileNames[i][|TestFileNames[i]| - 1] == 't';
  }

  /** The record file and the README hold the texts written last. */
  lemma ProblemFilesWritten(existing: map<string, string>, templates: Option<map<string, string>>, infoText: string, readme: string)
    ensures var files := ProblemFiles(existing, templates, infoText, readme);
      InfoFileName in files && files[InfoFileName] == infoText
      && ReadmeFileName in files && files[ReadmeFileName] == readme
  {
    WrittenNamesDiffer();
    var before := existing[InfoFileName := infoText] + CopyTemplates(templates);
    CreateTestFilesKeeps(before);
  }

  /** Copied templates keep their content. */
  lemma ProblemFilesCopied(existing: map<string, string>, templates: Option<map<string, string>>, infoText: string, readme: string)
    ensures var files := ProblemFiles(existing, templates, infoText, readme);
      forall f :: f in CopyTemplates(templates) ==> f in files && files[f] == CopyTemplates(templates)[f]
  {
    WrittenNamesDiffer();
    var copied := CopyTemplates(templates);
    var before := existing[InfoFileName := infoText] + copied;
    var mid := CreateTestFiles(before);
    CreateTestFilesKeeps(before);
    forall f | f in copied ensures f in mid && mid[f] == copied[f] && f != ReadmeFileName {
      assert f in before && before[f] == copied[f];
    }
  }

  /** Files the set-up does not write keep their content. */
  lemma ProblemFilesUntouched(existing: map<string, string>, templates: Option<map<string, string>>, infoText: string, readme: string)
    ensures var files := ProblemFiles(existing, templates, infoText, readme);
      forall f :: f in existing && f !in CopyTemplates(templates) && f != InfoFileName && f != ReadmeFileName ==>
        f in files && files[f] == existing[f]
  {
    var copied := CopyTemplates(templates);
    var before := existing[InfoFileName := infoText] + copied;
    var mid := CreateTestFiles(before);
    CreateTestFilesKeeps(before);
    forall f | f in existing && f !in copied && f != InfoFileName
      ensures f in mid && mid[f] == existing[f]
    {
      assert f in before && before[f] == existing[f];
    }
  }

  /** Every test file exists, and the new ones are empty. */
  lemma ProblemFilesTests(existing: map<string, string>, templates: Option<map<string, string>>, infoText: string, readme: string)
    ensures var files := ProblemFiles(existing, templates, infoText, readme);
      (forall i :: 0 <= i < |TestFileNames| ==> TestFileNames[i] in files)
      && (forall i :: 0 <= i < |TestFileNames| && TestFileNames[i] !in existing ==> files[TestFileNames[i]] == "")
  {
    WrittenNamesDiffer();
    var copied := CopyTemplates(templates);
    var before := existing[InfoFileName := infoText] + copied;
    CreateTestFilesKeeps(before);
    forall i | 0 <= i < |TestFileNames| && TestFileNames[i] !in existing
      ensures TestFileNames[i] !in before
    {
      var n := TestFileNames[i];
      assert n !in {"solution.cpp", "solution.py", "Solution.java"};
      assert n !in copied;
    }
  }

  /** Nothing else is created. */
  lemma ProblemFilesOnly(existing: map<string, string>, templates: Option<map<string, string>>, infoText: string, readme: string)
    ensures var files := ProblemFiles(existing, templates, infoText, readme);
      forall f :: f in files ==>
        f in existing || f in CopyTemplates(templates) || f in TestFileNames || f == InfoFileName || f == ReadmeFileName
  {
    CreateTestFilesKeeps(existing[InfoFileName := infoText] + CopyTemplates(templates));
  }

  /** Setting up a problem. `existing` is what the problem directory already
      holds, `templates` the templates directory when it exists and
      `createdAt` the time stamp recorded.  The record file is written first,
      then the templates are copied and the test files created, and the README
      is written last. */
  function SetupProblem(platformInput: string, contest: string, code: string, name: Option<string>, url: Option<string>,
                        existing: map<string, string>, templates: Option<map<string, string>>, createdAt: string): (r: Setup)
    ensures r.dir == ["platforms", PlatformName(platformInput), contest, code]
    ensures r.info == ProblemInfo(PlatformName(platformInput), contest, code, NameOrCode(name, code), url, false, 0)
    ensures r.cphName == CphFileName(PlatformName(platformInput), contest, code)
    ensures r.cph.srcPath == r.dir + ["solution.cpp"]
    ensures r.readmeTitle == r.info.problemName == r.cph.name
    ensures InfoFileName in r.files && r.files[InfoFileName] == InfoJson(r.info, createdAt)
    ensures ReadmeFileName in r.files && r.files[ReadmeFileName] == ReadmeText(r.readmeTitle)
  {
    var platform := PlatformName(platformInput);
    var info := ProblemInfo(platform, contest, code, NameOrCode(name, code), url, false, 0);
    var title := NameOrCode(name, code);
    ProblemFilesWritten(existing, templates, InfoJson(info, createdAt), ReadmeText(title));
    Setup(["platforms", platform, contest, code], info,
      ProblemFiles(existing, templates, InfoJson(info, createdAt), ReadmeText(title)),
      CphFileName(platform, contest, code), CphFor(platform, contest, code, name, url), title)
  }

  /** The files of a new problem: the record file and the README are
      written over whatever was there, a copied template overwrites a
      solution file already there, test files already there are kept (new
      ones are empty), and every other file is untouched. */
  lemma {:induction false} SetupFiles(platformInput: string, contest: string, code: string, name: Option<string>, url: Option<string>,
                                      existing: map<string, string>, templates: Option<map<string, string>>, createdAt: string)
    ensures var files := SetupProblem(platformInput, contest, code, name, url, existing, templates, createdAt).files;
      var copied := CopyTemplates(templates);
      (forall f :: f in copied ==> f in files && files[f] == copied[f])
      && (forall f :: f in existing && f !in copied && f != InfoFileName && f != ReadmeFileName ==>
            f in files && files[f] == existing[f])
      && (forall i :: 0 <= i < |TestFileNames| ==> TestFileNames[i] in files)
      && (forall i :: 0 <= i < |TestFileNames| && TestFileNames[i] !in existing ==> files[TestFileNames[i]] == "")
      && (forall f :: f in files ==> f in existing || f in copied || f in TestFileNames || f == InfoFileName || f == ReadmeFileName)
  {
    var info := ProblemInfo(PlatformName(platformInput), contest, code, NameOrCode(name, code), url, false, 0);
    var infoText, readme := InfoJson(info, createdAt), ReadmeText(NameOrCode(name, code));
    ProblemFilesCopied(existing, templates, infoText, readme);
    ProblemFilesUntouched(existing, templates, infoText, readme);
    ProblemFilesTests(existing, templates, infoText, readme);
    ProblemFilesOnly(existing, templates, infoText, readme);
  }

  /** The header inserter reads the same platform, contest and problem code
      back from any file inside the new problem's directory. */
  lemma {:induction false} HeaderSeesSetup(root: seq<string>, platformInput: string, contest: string, code: string,
                                           name: Option<string>, url: Option<string>,
                                           existing: map<string, string>, templates: Option<map<string, string>>,
                                           createdAt: string, below: seq<string>, infoFile: AutoHeader.InfoFile)
    requires "platforms" !in root
    ensures var s := SetupProblem(platformInput, contest, code, name, url, existing, templates, createdAt);
      var info := AutoHeader.ExtractContestInfo(root + s.dir + below, infoFile);
      info.Some? && AutoHeader.InfoField(info.value, "platform") == s.info.platform
      && AutoHeader.InfoField(info.value, "contest") == contest
      && AutoHeader.InfoField(info.value, "problem") == code
  {
    var s := SetupProblem(platformInput, contest, code, name, url, existing, templates, createdAt);
    assert root + s.dir + below == root + ["platforms", s.info.platform, contest, code] + below;
    AutoHeader.ContestInfoFromPath(root, s.info.platform, contest, code, below, infoFile);
  }
}
