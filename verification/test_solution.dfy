/** The single-problem test harness: which solutions are found, how one run of
    a solution on one input is classified into a verdict, which runs make up
    the test matrix, and the summary printed at the end.

    Processes are not run: a compiler's exit code and a solution run's outcome
    are inputs, and elapsed times are given as `real`s. */
module SolutionTester {
  import opened Wrappers
  import opened Strings
  import opened Counting

  // ---------------------------------------------------------------------------
  // languages and solution discovery

  datatype Lang = Cpp | Python | Java {

    /** The key under which the solution is recorded ('cpp', 'python', 'java'). */
    function Key(): string {
      match this
      case Cpp => "cpp"
      case Python => "python"
      case Java => "java"
    }

    /** The solution file looked for in the problem directory. */
    function SourceName(): string {
      match this
      case Cpp => "solution.cpp"
      case Python => "solution.py"
      case Java => "Solution.java"
    }

    /** Position in the dictionary's insertion order. */
    function Rank(): nat {
      match this
      case Cpp => 0
      case Python => 1
      case Java => 2
    }
  }

  /** The solutions found in a directory holding the files `files`, in the order
      the dictionary was filled: C++, then Python, then Java. */
  function FindSolutionFiles(files: set<string>): (r: seq<Lang>)
    ensures forall l :: l in r <==> l.SourceName() in files
    ensures forall i, j :: 0 <= i < j < |r| ==> r[i].Rank() < r[j].Rank()
    ensures |r| == 0 <==> "solution.cpp" !in files && "solution.py" !in files && "Solution.java" !in files
  {
    (if "solution.cpp" in files then [Cpp] else [])
    + (if "solution.py" in files then [Python] else [])
    + (if "Solution.java" in files then [Java] else [])
  }

  /** What the tests run: the compiled executable for C++ and Java (absent when
      the compiler exits non-zero), the source itself for Python. */
  function Executable(lang: Lang, compileExit: int): (r: Option<string>)
    ensures lang.Python? ==> r == Some(lang.SourceName())
    ensures !lang.Python? ==> (r.Some? <==> compileExit == 0)
    ensures lang.Cpp? && r.Some? ==> r.value == "solution"
    ensures lang.Java? && r.Some? ==> r.value == "Solution.class"
  {
    match lang
    case Python => Some("solution.py")
    case Cpp => if compileExit != 0 then None else Some("solution")
    case Java => if compileExit != 0 then None else Some("Solution.class")
  }

  // ---------------------------------------------------------------------------
  // one run, one verdict

  /** How running the solution on one input ended.  `Raised` stands for any
      exception other than the timeout raised inside the guarded block
      (failing to launch, to read the expected file, to write `output.txt`). */
  datatype Outcome =
    | TimedOut
    | Raised(message: string)
    | Finished(exitCode: int, stdout: string, stderr: string, elapsed: real)

  /** The time recorded for a run that hit the time limit, in seconds. */
  const TimeLimit: real := 5.0

  /** One entry of the results list. */
  datatype TestRecord =
    | Accepted(test: string, time: real)
    | WrongAnswer(test: string, time: real, expected: string, actual: string)
    | RuntimeError(test: string, time: real, error: string)
    | TimeLimitExceeded(test: string, time: real)
    | OutputGenerated(test: string, time: real, output: string)
    | Error(test: string, error: string)
  {
    /** The record's "status" field. */
    function Status(): string {
      match this
      case Accepted(_, _) => "Accepted"
      case WrongAnswer(_, _, _, _) => "Wrong Answer"
      case RuntimeError(_, _, _) => "Runtime Error"
      case TimeLimitExceeded(_, _) => "Time Limit Exceeded"
      case OutputGenerated(_, _, _) => "Output Generated"
      case Error(_, _) => "Error"
    }

    /** The statuses that count towards the summary's total. */
    predicate Compared() {
      Accepted? || WrongAnswer? || RuntimeError? || TimeLimitExceeded?
    }
  }

  /** One test case: the record appended, or nothing when the input file is
      missing.  `expected` is the expected file's content when the case names
      one and it exists. */
  function RunTestCase(inputExists: bool, outcome: Outcome, expected: Option<string>, test: string): (r: Option<TestRecord>)
    ensures r.Some? <==> inputExists
    ensures r.Some? ==> r.value.test == test
    ensures r.Some? ==> (r.value.TimeLimitExceeded? <==> outcome.TimedOut?)
    ensures r.Some? && r.value.TimeLimitExceeded? ==> r.value.time == TimeLimit
    ensures r.Some? ==> (r.value.Error? <==> outcome.Raised?)
    ensures r.Some? ==> (r.value.RuntimeError? <==> outcome.Finished? && outcome.exitCode != 0)
    ensures r.Some? ==> (r.value.OutputGenerated? <==> outcome.Finished? && outcome.exitCode == 0 && expected.None?)
    // the fields each record carries: the measured time, the stripped streams, the exception text
    ensures r.Some? && outcome.Finished? && !r.value.Error? ==> r.value.time == outcome.elapsed
    ensures r.Some? && r.value.RuntimeError? ==> r.value.error == Strip(outcome.stderr)
    ensures r.Some? && r.value.Error? ==> r.value.error == outcome.message
    ensures r.Some? && r.value.OutputGenerated? ==> r.value.output == Strip(outcome.stdout)
    ensures r.Some? && r.value.WrongAnswer? ==>
      r.value.expected == Strip(expected.value) && r.value.actual == Strip(outcome.stdout) && r.value.expected != r.value.actual
    ensures r.Some? && outcome.Finished? && outcome.exitCode == 0 && expected.Some? ==>
      (r.value.Accepted? <==> Strip(outcome.stdout) == Strip(expected.value))
  {
    if !inputExists then None
    else
      Some(match outcome
           case TimedOut => TimeLimitExceeded(test, TimeLimit)
           case Raised(message) => Error(test, message)
           case Finished(code, out, err, elapsed) =>
             if code != 0 then RuntimeError(test, elapsed, Strip(err))
             else
               match expected
               case Some(e) =>
                 if Strip(out) == Strip(e) then Accepted(test, elapsed)
                 else WrongAnswer(test, elapsed, Strip(e), Strip(out))
               case None => OutputGenerated(test, elapsed, Strip(out)))
  }

  /** A run is accepted exactly when it finished normally, an expected output
      was there, and the two agree once surrounding whitespace is stripped; a
      wrong answer carries the two stripped texts, which then differ. */
  lemma AcceptedIffStrippedEqual(outcome: Outcome, expected: Option<string>, test: string)
    requires outcome.Finished? && outcome.exitCode == 0 && expected.Some?
    ensures RunTestCase(true, outcome, expected, test).value.Accepted?
        <==> Strip(outcome.stdout) == Strip(expected.value)
    ensures RunTestCase(true, outcome, expected, test).value.Accepted?
        || RunTestCase(true, outcome, expected, test).value.WrongAnswer?
    ensures var r := RunTestCase(true, outcome, expected, test).value;
      r.WrongAnswer? ==> r.expected != r.actual && Strip(r.expected) == r.expected && Strip(r.actual) == r.actual
  {
    TrimIdempotent(outcome.stdout, IsSpace);
    TrimIdempotent(expected.value, IsSpace);
  }

  /** Stripping ignores surrounding whitespace. */
  lemma StripIgnoresPadding(s: string, pre: string, post: string)
    requires AllDropped(pre, IsSpace) && AllDropped(post, IsSpace)
    ensures Strip(pre + s + post) == Strip(s)
  {
    TrimIgnoresPadding(s, pre, post, IsSpace);
  }

  /** Leading and trailing whitespace on the solution's output, its error
      stream or the expected file never changes the record, so an output that
      differs from the expected one only in trailing whitespace is accepted. */
  lemma VerdictIgnoresSurroundingWhitespace(
    code: int, out: string, err: string, elapsed: real, e: Option<string>, test: string,
    pre: string, post: string, ePre: string, ePost: string)
    requires AllDropped(pre, IsSpace) && AllDropped(post, IsSpace)
    requires AllDropped(ePre, IsSpace) && AllDropped(ePost, IsSpace)
    ensures var padded := if e.Some? then Some(ePre + e.value + ePost) else None;
      RunTestCase(true, Finished(code, pre + out + post, pre + err + post, elapsed), padded, test)
      == RunTestCase(true, Finished(code, out, err, elapsed), e, test)
  {
    StripIgnoresPadding(out, pre, post);
    StripIgnoresPadding(err, pre, post);
    var padded := if e.Some? then Some(ePre + e.value + ePost) else None;
    if e.Some? {
      StripIgnoresPadding(e.value, ePre, ePost);
    }
    SameStripsSameRecord(code, pre + out + post, out, pre + err + post, err, elapsed, padded, e, test);
  }

  /** The record of a finished run depends on its streams and the expected
      file only through their stripped forms. */
  lemma SameStripsSameRecord(
    code: int, out1: string, out2: string, err1: string, err2: string, elapsed: real,
    e1: Option<string>, e2: Option<string>, test: string)
    requires Strip(out1) == Strip(out2) && Strip(err1) == Strip(err2)
    requires e1.Some? <==> e2.Some?
    requires e1.Some? ==> Strip(e1.value) == Strip(e2.value)
    ensures RunTestCase(true, Finished(code, out1, err1, elapsed), e1, test)
      == RunTestCase(true, Finished(code, out2, err2, elapsed), e2, test)
  {
  }

  /** The special case the harness exists for: an output equal to the expected
      one up to trailing whitespace is accepted. */
  lemma TrailingWhitespaceAccepted(out: string, ws: string, elapsed: real, test: string)
    requires AllDropped(ws, IsSpace)
    ensures RunTestCase(true, Finished(0, out + ws, "", elapsed), Some(out), test) == Some(Accepted(test, elapsed))
  {
    var padded := out + ws;
    assert "" + out + ws == padded;
    StripIgnoresPadding(out, "", ws);
    AcceptedWhenStripsAgree(padded, "", out, elapsed, test);
  }

  /** A clean exit whose stripped output equals the stripped expected text is
      accepted. */
  lemma AcceptedWhenStripsAgree(out: string, err: string, e: string, elapsed: real, test: string)
    requires Strip(out) == Strip(e)
    ensures RunTestCase(true, Finished(0, out, err, elapsed), Some(e), test) == Some(Accepted(test, elapsed))
  {
  }

  // ---------------------------------------------------------------------------
  // the test matrix

  /** One row of the matrix: input file, expected file (if any), test name. */
  datatype TestCase = TestCase(input: string, expected: Option<string>, name: string)

  /** The fixed matrix every language is run through, in order. */
  const Cases: seq<TestCase> := [
    TestCase("sample_input.txt", Some("sample_output.txt"), "Sample Test"),
    TestCase("input.txt", Some("expected.txt"), "Custom Test"),
    TestCase("input.txt", None, "Input Test")
  ]

  /** The name a record carries: the case's name tagged with the language. */
  function TestName(k: nat, lang: Lang): string
    requires k < |Cases|
  {
    Cases[k].name + " (" + lang.Key() + ")"
  }

  /** The problem directory as the harness sees it: the files present, their
      contents, each compiler's exit code, and the outcome of running a
      language on the k-th case of the matrix. */
  datatype Problem = Problem(
    files: set<string>,
    content: string -> string,
    compileExit: Lang -> int,
    run: (Lang, nat) -> Outcome)

  /** The expected output handed to `RunTestCase` for case `k`. */
  function ExpectedFor(p: Problem, k: nat): (r: Option<string>)
    requires k < |Cases|
    ensures r.Some? <==> Cases[k].expected.Some? && Cases[k].expected.value in p.files
  {
    match Cases[k].expected
    case Some(name) => if name in p.files then Some(p.content(name)) else None
    case None => None
  }

  /** The record of case `k` for one (compiled) language, if any. */
  function CaseRecord(p: Problem, lang: Lang, k: nat): (r: Option<TestRecord>)
    requires k < |Cases|
    ensures r.Some? <==> Cases[k].input in p.files
    ensures r.Some? ==> r.value.test == TestName(k, lang)
  {
    RunTestCase(Cases[k].input in p.files, p.run(lang, k), ExpectedFor(p, k), TestName(k, lang))
  }

  function AsSeq<T>(o: Option<T>): seq<T> {
    if o.Some? then [o.value] else []
  }

  /** The indices, among the first `n` cases, of those whose input file
      exists, in matrix order. */
  function RunnableUpTo(p: Problem, n: nat): (r: seq<nat>)
    requires n <= |Cases|
    ensures forall i :: 0 <= i < |r| ==> r[i] < n && Cases[r[i]].input in p.files
    ensures forall i, j :: 0 <= i < j < |r| ==> r[i] < r[j]
    ensures forall k :: 0 <= k < n && Cases[k].input in p.files ==> k in r
  {
    if n == 0 then []
    else RunnableUpTo(p, n - 1) + (if Cases[n - 1].input in p.files then [n - 1] else [])
  }

  function RunnableCases(p: Problem): seq<nat> {
    RunnableUpTo(p, |Cases|)
  }

  /** The records of the first `n` cases for one compiled language: one per
      case whose input exists, in matrix order, named after its case and the
      language. */
  function BlockUpTo(p: Problem, lang: Lang, n: nat): (r: seq<TestRecord>)
    requires n <= |Cases|
    ensures var ks := RunnableUpTo(p, n);
      |r| == |ks| && forall i :: 0 <= i < |r| ==> r[i].test == TestName(ks[i], lang)
  {
    if n == 0 then []
    else BlockUpTo(p, lang, n - 1) + AsSeq(CaseRecord(p, lang, n - 1))
  }

  /** The block of records one compiled language contributes. */
  function BlockRecords(p: Problem, lang: Lang): seq<TestRecord> {
    BlockUpTo(p, lang, |Cases|)
  }

  /** The records of the languages `langs`, skipping any whose compile fails. */
  function LangRecords(p: Problem, langs: seq<Lang>): (r: seq<TestRecord>)
    ensures |r| <= |Cases| * |langs|
  {
    if |langs| == 0 then []
    else
      var lang := langs[0];
      var rest := LangRecords(p, langs[1..]);
      if Executable(lang, p.compileExit(lang)).None? then rest
      else BlockRecords(p, lang) + rest
  }

  /** The whole run: nothing at all when no solution file is found. */
  function TestAllSolutions(p: Problem): (r: Option<seq<TestRecord>>)
    ensures r.None? <==> |FindSolutionFiles(p.files)| == 0
    ensures r.Some? ==> |r.value| <= 3 * |FindSolutionFiles(p.files)|
  {
    var langs := FindSolutionFiles(p.files);
    if |langs| == 0 then None else Some(LangRecords(p, langs))
  }

  /** A record belongs to a language when its name carries that language's tag. */
  predicate TaggedWith(r: TestRecord, lang: Lang) {
    EndsWith(r.test, " (" + lang.Key() + ")")
  }

  /** A test name carries its own language's tag and no other. */
  lemma TestNameTag(k: nat, lang: Lang, other: Lang)
    requires k < |Cases|
    ensures EndsWith(TestName(k, lang), " (" + other.Key() + ")") <==> other == lang
  {
    var name := TestName(k, lang);
    var tag := " (" + other.Key() + ")";
    assert |tag| <= |name|;
    assert name[|name| - |tag|..][|tag| - 2] == name[|name| - 2];
    if other == lang {
      assert name == Cases[k].name + tag;
    } else {
      assert name[|name| - 2] != tag[|tag| - 2];
    }
  }

  /** Every record of a language's block is tagged with it and with no other. */
  lemma BlockTagged(p: Problem, lang: Lang, other: Lang)
    ensures forall i :: 0 <= i < |BlockRecords(p, lang)| ==>
      (TaggedWith(BlockRecords(p, lang)[i], other) <==> other == lang)
  {
    var r := BlockRecords(p, lang);
    var ks := RunnableCases(p);
    forall i | 0 <= i < |r| ensures TaggedWith(r[i], other) <==> other == lang {
      TestNameTag(ks[i], lang, other);
    }
  }

  /** A language whose compilation fails contributes no record; the other
      languages' records are unaffected. */
  lemma {:induction false} CompileFailureSkipsLanguage(p: Problem, langs: seq<Lang>, lang: Lang)
    requires Executable(lang, p.compileExit(lang)).None?
    ensures forall i :: 0 <= i < |LangRecords(p, langs)| ==> !TaggedWith(LangRecords(p, langs)[i], lang)
    decreases |langs|
  {
    if |langs| > 0 {
      CompileFailureSkipsLanguage(p, langs[1..], lang);
      var l := langs[0];
      if Executable(l, p.compileExit(l)).Some? {
        BlockTagged(p, l, lang);
        assert l != lang;
      }
    }
  }

  /** A compiled language that is among the solutions contributes exactly the
      records of its matrix block. */
  lemma {:induction false} CompiledLanguageBlock(p: Problem, langs: seq<Lang>, lang: Lang)
    requires lang in langs
    requires forall i, j :: 0 <= i < j < |langs| ==> langs[i] != langs[j]
    requires Executable(lang, p.compileExit(lang)).Some?
    ensures Filter(LangRecords(p, langs), (r: TestRecord) => TaggedWith(r, lang)) == BlockRecords(p, lang)
    decreases |langs|
  {
    var l := langs[0];
    var rest := LangRecords(p, langs[1..]);
    var tagged := (r: TestRecord) => TaggedWith(r, lang);
    if l == lang {
      assert lang !in langs[1..];
      AbsentLanguageHasNoRecords(p, langs[1..], lang);
      FilterNone(rest, tagged);
      BlockTagged(p, lang, lang);
      FilterAll(BlockRecords(p, lang), tagged);
      FilterAppend(BlockRecords(p, lang), rest, tagged);
    } else {
      CompiledLanguageBlock(p, langs[1..], lang);
      if Executable(l, p.compileExit(l)).Some? {
        BlockTagged(p, l, lang);
        FilterNone(BlockRecords(p, l), tagged);
        FilterAppend(BlockRecords(p, l), rest, tagged);
      }
    }
  }

  /** Languages not in the list contribute no tagged record. */
  lemma {:induction false} AbsentLanguageHasNoRecords(p: Problem, langs: seq<Lang>, lang: Lang)
    requires lang !in langs
    ensures forall i :: 0 <= i < |LangRecords(p, langs)| ==> !TaggedWith(LangRecords(p, langs)[i], lang)
    decreases |langs|
  {
    if |langs| > 0 {
      AbsentLanguageHasNoRecords(p, langs[1..], lang);
      var l := langs[0];
      if Executable(l, p.compileExit(l)).Some? {
        BlockTagged(p, l, lang);
      }
    }
  }

  /** The matrix, language by language: the records tagged with a language are
      exactly its block when its solution exists and compiles, and there are
      none otherwise. */
  lemma TestMatrixPerLanguage(p: Problem, lang: Lang)
    requires TestAllSolutions(p).Some?
    ensures var mine := Filter(TestAllSolutions(p).value, (r: TestRecord) => TaggedWith(r, lang));
      if lang.SourceName() in p.files && Executable(lang, p.compileExit(lang)).Some?
      then mine == BlockRecords(p, lang)
      else mine == []
  {
    var langs := FindSolutionFiles(p.files);
    var rs := LangRecords(p, langs);
    var tagged := (r: TestRecord) => TaggedWith(r, lang);
    if lang.SourceName() in p.files && Executable(lang, p.compileExit(lang)).Some? {
      CompiledLanguageBlock(p, langs, lang);
    } else if lang.SourceName() in p.files {
      CompileFailureSkipsLanguage(p, langs, lang);
      FilterNone(rs, tagged);
    } else {
      AbsentLanguageHasNoRecords(p, langs, lang);
      FilterNone(rs, tagged);
    }
  }

  // ---------------------------------------------------------------------------
  // the summary

  /** The closing line of the summary. */
  datatype Banner = AllPassed | SomeFailed(failed: nat) | AllFailed

  datatype Summary =
    | NoTestsRun
    | Summary(passed: nat, total: nat, statusCounts: map<string, nat>, banner: Banner)

  function Passed(rs: seq<TestRecord>): nat {
    Count(rs, (r: TestRecord) => r.Accepted?)
  }

  function Total(rs: seq<TestRecord>): nat {
    Count(rs, (r: TestRecord) => r.Compared())
  }

  function CountStatus(rs: seq<TestRecord>, status: string): nat {
    Count(rs, (r: TestRecord) => r.Status() == status)
  }

  /** The summary's per-status tally, built record by record: each record
      adds one to its status's entry, which starts at 0 when missing.  An
      entry exists exactly for the statuses some record carries and holds
      how many records carry it. */
  function StatusCounts(rs: seq<TestRecord>): (m: map<string, nat>)
    ensures forall s :: s in m <==> CountStatus(rs, s) > 0
    ensures forall s :: s in m ==> m[s] == CountStatus(rs, s)
  {
    if |rs| == 0 then map[]
    else
      var init, last := rs[..|rs| - 1], rs[|rs| - 1];
      var m := StatusCounts(init);
      var st := last.Status();
      CountStatusSnoc(rs);
      m[st := (if st in m then m[st] else 0) + 1]
  }

  lemma CountStatusSnoc(rs: seq<TestRecord>)
    requires |rs| > 0
    ensures forall s ::
      CountStatus(rs, s) == CountStatus(rs[..|rs| - 1], s) + (if rs[|rs| - 1].Status() == s then 1 else 0)
  {
    var init, last := rs[..|rs| - 1], rs[|rs| - 1];
    LastSplit(rs);
    forall s
      ensures CountStatus(rs, s) == CountStatus(init, s) + (if last.Status() == s then 1 else 0)
    {
      CountSnoc(init, last, (r: TestRecord) => r.Status() == s);
    }
  }

  /** A status occurs in the map exactly when some record carries it. */
  lemma StatusCountsKeys(rs: seq<TestRecord>, s: string)
    ensures s in StatusCounts(rs) <==> exists i :: 0 <= i < |rs| && rs[i].Status() == s
  {
    var carries := (r: TestRecord) => r.Status() == s;
    if i :| 0 <= i < |rs| && rs[i].Status() == s {
      assert carries(rs[i]);
    } else {
      assert forall i :: 0 <= i < |rs| ==> !carries(rs[i]);
    }
  }

  function PrintSummary(rs: seq<TestRecord>): (s: Summary)
    ensures s.NoTestsRun? <==> |rs| == 0
    ensures s.Summary? ==> s.passed <= s.total <= |rs|
    ensures s.Summary? ==> (s.banner.AllPassed? <==> s.total > 0 && forall i :: 0 <= i < |rs| && rs[i].Compared() ==> rs[i].Accepted?)
    ensures s.Summary? && s.banner.SomeFailed? ==> s.banner.failed == s.total - s.passed > 0
    // a run with nothing accepted, including one where no test was compared, reports that all failed
    ensures s.Summary? ==> (s.banner.AllFailed? <==> s.passed == 0)
    ensures s.Summary? ==> s.passed == Passed(rs) && s.total == Total(rs) && s.statusCounts == StatusCounts(rs)
  {
    if |rs| == 0 then NoTestsRun
    else
      var passed := Passed(rs);
      var total := Total(rs);
      CountMonotone(rs, (r: TestRecord) => r.Accepted?, (r: TestRecord) => r.Compared());
      var banner :=
        if passed == total && total > 0 then AllPassed
        else if passed > 0 then SomeFailed(total - passed)
        else AllFailed;
      AllPassedMeansEveryComparedAccepted(rs);
      Summary(passed, total, StatusCounts(rs), banner)
  }

  lemma {:induction false} AllPassedMeansEveryComparedAccepted(rs: seq<TestRecord>)
    ensures Passed(rs) == Total(rs) <==> forall i :: 0 <= i < |rs| && rs[i].Compared() ==> rs[i].Accepted?
    decreases |rs|
  {
    if |rs| > 0 {
      AllPassedMeansEveryComparedAccepted(rs[1..]);
      CountMonotone(rs[1..], (r: TestRecord) => r.Accepted?, (r: TestRecord) => r.Compared());
      assert forall i :: 1 <= i < |rs| ==> rs[i] == rs[1..][i - 1];
    }
  }

  /** The summary depends only on which records were collected, not on the
      order they were collected in. */
  lemma SummaryOrderIndependent(rs: seq<TestRecord>, rs': seq<TestRecord>)
    requires multiset(rs) == multiset(rs')
    ensures PrintSummary(rs) == PrintSummary(rs')
  {
    assert |rs| == |multiset(rs)| == |rs'|;
    CountPermutation(rs, rs', (r: TestRecord) => r.Accepted?);
    CountPermutation(rs, rs', (r: TestRecord) => r.Compared());
    StatusCountsPermutation(rs, rs');
  }

  lemma StatusCountsPermutation(rs: seq<TestRecord>, rs': seq<TestRecord>)
    requires multiset(rs) == multiset(rs')
    ensures StatusCounts(rs) == StatusCounts(rs')
  {
    forall s ensures CountStatus(rs, s) == CountStatus(rs', s) {
      CountStatusPermutation(rs, rs', s);
    }
    SameCountsSameMap(rs, rs');
  }

  lemma SameCountsSameMap(rs: seq<TestRecord>, rs': seq<TestRecord>)
    requires forall s :: CountStatus(rs, s) == CountStatus(rs', s)
    ensures StatusCounts(rs) == StatusCounts(rs')
  {
    var m, m' := StatusCounts(rs), StatusCounts(rs');
    assert m.Keys == m'.Keys;
  }

  lemma CountStatusPermutation(rs: seq<TestRecord>, rs': seq<TestRecord>, s: string)
    requires multiset(rs) == multiset(rs')
    ensures CountStatus(rs, s) == CountStatus(rs', s)
  {
    CountPermutation(rs, rs', (r: TestRecord) => r.Status() == s);
  }

  /** Records outside the compared statuses never move the pass count or the
      total: a run that only generates output cannot make a set of tests pass
      or fail. */
  lemma UncomparedRecordsIgnored(rs: seq<TestRecord>, extra: TestRecord)
    requires !extra.Compared()
    ensures Passed(rs + [extra]) == Passed(rs) && Total(rs + [extra]) == Total(rs)
  {
    CountSnoc(rs, extra, (r: TestRecord) => r.Accepted?);
    CountSnoc(rs, extra, (r: TestRecord) => r.Compared());
  }
}
