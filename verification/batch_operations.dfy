/** Batch testing: finding every problem directory under the platforms
    directory, turning one sub-run of the single-problem harness into a result
    record, running all problems (one after another, or on a pool whose
    completion order is an input), and the closing summary.

    The directory tree is given as the list of its entries, each a path
    relative to the platforms directory written as its list of parts. */
module BatchOperations {
  import opened Wrappers
  import opened Strings
  import opened Ordering
  import opened Counting

  type Path = seq<string>

  /** The directory tree below the platforms directory: every entry (file or
      directory) as its relative path, and the set of directories. */
  datatype Tree = Tree(entries: seq<Path>, dirs: set<Path>)

  /** `rglob("solution.*")` or `rglob("Solution.java")` matches this name. */
  predicate IsSolutionName(name: string) {
    StartsWith(name, "solution.") || name == "Solution.java"
  }

  /** The directory searched: the platforms directory itself, or one platform
      below it.  `None` when a platform is named but does not exist. */
  function SearchRoot(t: Tree, platform: Option<string>): (r: Option<Path>)
    ensures platform.None? || platform == Some("") ==> r == Some([])
    ensures platform.Some? && platform.value != "" ==> (r.Some? <==> [platform.value] in t.dirs)
    ensures platform.Some? && platform.value != "" && r.Some? ==> r.value == [platform.value]
  {
    match platform
    case None => Some([])
    case Some(name) =>
      if name == "" then Some([])
      else if [name] in t.dirs then Some([name]) else None
  }

  /** `path` lies strictly below `root` and its last part names a solution. */
  predicate IsSolutionUnder(path: Path, root: Path) {
    |path| > |root| && path[..|root|] == root && IsSolutionName(path[|path| - 1])
  }

  function Parent(path: Path): Path
    requires |path| > 0
  {
    path[..|path| - 1]
  }

  /** The problem list as collected, before sorting: each matching entry's
      parent, appended unless already present. */
  function Collect(entries: seq<Path>, root: Path, acc: seq<Path>): (r: seq<Path>)
    requires forall i, j :: 0 <= i < j < |acc| ==> acc[i] != acc[j]
    ensures forall i, j :: 0 <= i < j < |r| ==> r[i] != r[j]
    ensures forall d :: d in r <==> d in acc || exists e :: e in entries && IsSolutionUnder(e, root) && Parent(e) == d
    decreases |entries|
  {
    if |entries| == 0 then acc
    else
      var e := entries[0];
      var acc' := if IsSolutionUnder(e, root) && Parent(e) !in acc then acc + [Parent(e)] else acc;
      var r := Collect(entries[1..], root, acc');
      assert forall x :: x in entries <==> x == e || x in entries[1..];
      r
  }

  /** The sorted problem directories holding a solution file; empty when the
      named platform does not exist. */
  function FindAllProblems(t: Tree, platform: Option<string>): (r: seq<Path>)
    ensures StrictlySorted(r, PartsLess)
    ensures forall i, j :: 0 <= i < j < |r| ==> r[i] != r[j]
    ensures SearchRoot(t, platform).None? ==> r == []
    ensures SearchRoot(t, platform).Some? ==> forall d :: d in r <==>
      exists e :: e in t.entries && IsSolutionUnder(e, SearchRoot(t, platform).value) && Parent(e) == d
  {
    PartsLessIsStrictTotal();
    match SearchRoot(t, platform)
    case None => []
    case Some(root) =>
      var r := SortedSet(Collect(t.entries, root, []), PartsLess);
      StrictlySortedDistinct(r, PartsLess);
      r
  }

  /** Sorting the collected list gives the one strictly increasing list of its
      elements, so neither the traversal order nor the second pass for Java
      files can change the result. */
  lemma ProblemsIndependentOfTraversal(t: Tree, t': Tree, platform: Option<string>)
    requires multiset(t.entries) == multiset(t'.entries) && t.dirs == t'.dirs
    ensures FindAllProblems(t, platform) == FindAllProblems(t', platform)
  {
    PartsLessIsStrictTotal();
    var r, r' := FindAllProblems(t, platform), FindAllProblems(t', platform);
    forall e ensures e in t.entries <==> e in t'.entries {
      assert e in t.entries <==> e in multiset(t.entries);
      assert e in t'.entries <==> e in multiset(t'.entries);
    }
    StrictlySortedUnique(r, r', PartsLess);
  }

  // ---------------------------------------------------------------------------
  // one problem

  /** How the sub-run of the single-problem harness ended. */
  datatype SubRun =
    | SubTimedOut
    | SubRaised(message: string)
    | SubFinished(returnCode: int, stdout: string, stderr: string)

  /** One result record; `output` is absent when the sub-run did not finish. */
  datatype BatchRecord = BatchRecord(problem: string, success: bool, output: Option<string>, error: Option<string>)

  /** The phrase the harness prints when every compared test passed. */
  const AllPassedPhrase: string := "All tests passed!"

  /** A problem directory's name relative to the platforms directory. */
  function ProblemName(dir: Path): string {
    if |dir| == 0 then "." else Join(dir, '/')
  }

  function TestProblem(dir: Path, run: SubRun): (r: BatchRecord)
    ensures r.problem == ProblemName(dir)
    ensures r.success <==> run.SubFinished? && Contains(run.stdout, AllPassedPhrase)
    ensures run.SubFinished? ==> r.output == Some(run.stdout) && (r.error.Some? <==> run.returnCode != 0)
    ensures run.SubFinished? && r.error.Some? ==> r.error.value == run.stderr
    ensures run.SubTimedOut? ==> r.error == Some("Timeout")
    ensures run.SubRaised? ==> r.error == Some(run.message)
  {
    match run
    case SubTimedOut => BatchRecord(ProblemName(dir), false, None, Some("Timeout"))
    case SubRaised(message) => BatchRecord(ProblemName(dir), false, None, Some(message))
    case SubFinished(code, out, err) =>
      BatchRecord(ProblemName(dir), Contains(out, AllPassedPhrase), Some(out), if code != 0 then Some(err) else None)
  }

  /** Success is read from the printed text alone: a sub-run that exits
      non-zero after printing the phrase still counts as a success, and one that
      exits zero without it does not. */
  lemma SuccessIgnoresReturnCode(dir: Path, code: int, code': int, out: string, err: string)
    ensures TestProblem(dir, SubFinished(code, out, err)).success
        == TestProblem(dir, SubFinished(code', out, err)).success
  {
  }

  /** Any output that includes the harness's all-passed line is a success,
      whatever is printed around it. */
  lemma SuccessWhenPhrasePrinted(dir: Path, before: string, after: string, code: int, err: string)
    ensures TestProblem(dir, SubFinished(code, before + AllPassedPhrase + after, err)).success
  {
    var s := before + AllPassedPhrase + after;
    assert s[|before|..|before| + |AllPassedPhrase|] == AllPassedPhrase;
    assert OccursAt(s, AllPassedPhrase, |before|);
  }

  // ---------------------------------------------------------------------------
  // all problems

  /** One record per problem, in the sorted problem order. */
  function TestSequential(problems: seq<Path>, run: Path -> SubRun): (r: seq<BatchRecord>)
    ensures |r| == |problems|
    ensures forall i :: 0 <= i < |r| ==> r[i] == TestProblem(problems[i], run(problems[i]))
  {
    Map(problems, (d: Path) => TestProblem(d, run(d)))
  }

  /** One record per problem, in the order the pool completed them:
      `completion` is the problem list reordered. */
  function TestParallel(problems: seq<Path>, run: Path -> SubRun, completion: seq<Path>): (r: seq<BatchRecord>)
    requires multiset(completion) == multiset(problems)
    ensures |r| == |completion| == |problems|
    ensures forall i :: 0 <= i < |r| ==> r[i] == TestProblem(completion[i], run(completion[i]))
  {
    assert |completion| == |multiset(completion)| == |problems|;
    Map(completion, (d: Path) => TestProblem(d, run(d)))
  }

  /** The closing summary: counts, the success rate in percent, and the failed
      records in the order they were collected. */
  datatype BatchSummary = BatchSummary(passed: nat, failed: nat, rate: real, failures: seq<BatchRecord>)

  function Succeeded(r: BatchRecord): bool { r.success }

  function Failed(r: BatchRecord): bool { !r.success }

  /** The success rate in percent lies between 0 and 100 and is 100 exactly
      when everything passed. */
  lemma RateBounds(p: nat, n: nat)
    requires 0 < n && p <= n
    ensures 0.0 <= p as real / n as real * 100.0 <= 100.0
    ensures p as real / n as real * 100.0 == 100.0 <==> p == n
  {
    var q := p as real / n as real;
    assert q * n as real == p as real;
    assert 0.0 <= q <= 1.0;
    if q == 1.0 {
      assert p as real == n as real;
    }
  }

  lemma FailedComplement(rs: seq<BatchRecord>)
    ensures Count(rs, Succeeded) + Count(rs, Failed) == |rs|
  {
    CountComplement(rs, Succeeded);
    CountCongruent(rs, x => !Succeeded(x), Failed);
  }

  function SummarizeBatch(rs: seq<BatchRecord>): (s: BatchSummary)
    requires |rs| > 0
    ensures s.passed + s.failed == |rs|
    ensures s.passed == Count(rs, Succeeded)
    ensures 0.0 <= s.rate <= 100.0
    ensures s.rate == 100.0 <==> s.failed == 0
    ensures |s.failures| == s.failed
    ensures forall x :: x in s.failures <==> x in rs && !x.success
    ensures s.rate == s.passed as real / |rs| as real * 100.0
  {
    var passed := Count(rs, Succeeded);
    FailedComplement(rs);
    var failures := Filter(rs, Failed);
    RateBounds(passed, |rs|);
    BatchSummary(passed, |rs| - passed, passed as real / |rs| as real * 100.0, failures)
  }

  /** The batch run: nothing when no problem is found, otherwise the records
      and their summary.  `completion` is the pool's completion order, used in
      parallel mode only. */
  datatype BatchOutcome = NoProblems | Tested(records: seq<BatchRecord>, summary: BatchSummary)

  function BatchTest(t: Tree, platform: Option<string>, run: Path -> SubRun, parallel: bool, completion: seq<Path>): (r: BatchOutcome)
    requires parallel ==> multiset(completion) == multiset(FindAllProblems(t, platform))
    ensures r.NoProblems? <==> |FindAllProblems(t, platform)| == 0
    ensures r.Tested? ==> |r.records| == |FindAllProblems(t, platform)|
    ensures r.Tested? && !parallel ==> forall i :: 0 <= i < |r.records| ==>
      r.records[i] == TestProblem(FindAllProblems(t, platform)[i], run(FindAllProblems(t, platform)[i]))
    ensures r.Tested? && parallel ==> |completion| == |r.records|
    ensures r.Tested? && parallel ==> forall i :: 0 <= i < |r.records| ==>
      r.records[i] == TestProblem(completion[i], run(completion[i]))
    ensures r.Tested? ==> r.summary == SummarizeBatch(r.records)
  {
    var problems := FindAllProblems(t, platform);
    if |problems| == 0 then NoProblems
    else
      var records := if parallel then TestParallel(problems, run, completion) else TestSequential(problems, run);
      Tested(records, SummarizeBatch(records))
  }

  /** The summary counts and rate depend only on which records came back. */
  lemma SummaryIndependentOfOrder(rs: seq<BatchRecord>, rs': seq<BatchRecord>)
    requires |rs| > 0
    requires multiset(rs) == multiset(rs')
    ensures |rs'| > 0
    ensures SummarizeBatch(rs).passed == SummarizeBatch(rs').passed
    ensures SummarizeBatch(rs).failed == SummarizeBatch(rs').failed
    ensures SummarizeBatch(rs).rate == SummarizeBatch(rs').rate
  {
    assert |rs| == |multiset(rs)| == |rs'|;
    CountPermutation(rs, rs', Succeeded);
  }

  /** The pool's records are the sequential records reordered, so both modes
      report the same numbers. */
  lemma ParallelAndSequentialAgree(t: Tree, platform: Option<string>, run: Path -> SubRun, completion: seq<Path>)
    requires multiset(completion) == multiset(FindAllProblems(t, platform))
    ensures BatchTest(t, platform, run, true, completion).Tested?
        <==> BatchTest(t, platform, run, false, completion).Tested?
    ensures var par := BatchTest(t, platform, run, true, completion);
      var sq := BatchTest(t, platform, run, false, completion);
      par.Tested? ==>
        (multiset(par.records) == multiset(sq.records)
        && par.summary.passed == sq.summary.passed
        && par.summary.failed == sq.summary.failed
        && par.summary.rate == sq.summary.rate)
  {
    var problems := FindAllProblems(t, platform);
    if |problems| > 0 {
      MapPermutation(completion, problems, (d: Path) => TestProblem(d, run(d)));
      SummaryIndependentOfOrder(TestParallel(problems, run, completion), TestSequential(problems, run));
    }
  }
}
