# A verified model of a competitive-programming workspace

The repository is a personal competitive-programming workspace. Its scripts
locate a problem's solutions, compile and run them against the problem's
input and expected-output files, classify each run, and batch this over a
tree of problem directories. Around that harness sit helpers:
- a statistics scanner;
- a listener that turns a browser companion's problem description into a
  platform, a problem id and a directory name;
- a header inserter;
- two problem-setup scripts.
Next to the scripts lie the solutions themselves, small C++ programs for
Codeforces, HackerRank, CodeChef, SPOJ and LeetCode problems.

This project models that core in Dafny and proves what each piece
computes. It has three groups, one module per source file.

- **The harness.**
  - `SolutionTester` models `scripts/test_solution.py`: solution lookup,
    the compile results, the verdict of one run (Time Limit Exceeded,
    Runtime Error, Accepted / Wrong Answer after `strip()`, Output
    Generated, Error), the fixed test matrix per language, and the
    summary.
  - `BatchOperations` models `scripts/batch_operations.py`: problem
    discovery, the record of one sub-run, sequential and parallel
    batches, and the aggregate counts.
  - A process run is an abstract outcome record.
  - The thread pool is a permutation of the problems, given as a
    parameter.
- **The script helpers.**
  - `StatsGenerator` covers file typing, status heuristics and
    statistics.
  - `CompanionListener` covers the URL to platform / problem-id mapping
    and name sanitising.
  - `AutoHeader` covers header insertion and contest info taken from
    path parts.
  - `SetupProblem` covers platform aliases, template choice, test files,
    the `problem_info.json` record and the README it writes, and the
    `.cph` and batch names.
  - `SimpleSetup` covers problem URLs, display names and the argument
    check.
  - These rest on shared modules:
    - `Strings`: ASCII versions of Python's `strip`, `lower`, `title`,
      `split`, `replace` and `join`.
    - `Paths`: file names, stems and suffixes.
    - `Ordering`: lexicographic order and sorting.
    - `Counting`: counts and permutations.
    - `Bags`: multiset helpers.
    - `Sums`: sums of sequences.
    - `Json`: string literals as Python's `json` module writes them,
      and their reading back.
    - `Wrappers`: `Option`.
- **The C++ solutions.** One module per program:
  - `Needle`: the anagram sliding window.
  - `EarningProfit`: prefix sums and 64-bit profit, with the signed
    answer the program evidently intends.
  - `Dsu` and `PowerGrid`: union-find and Kruskal.
  - `AbcPath`: the grid search for the longest ABC path.
  - `UndergroundLab`: the DFS path and the k-line split.
    - `LabWalks`, `LabTour` and `LabRoutes` model the corrected DFS and
      its routes (see Findings).
  - `MailStamps`: degree count, start choice and DFS route.
  - `BobString`, `RingRoad`, `MagicalJewels`, `MaxSubarray`,
    `ArrayManipulation`, `PairSums`, `ContainsDuplicate`.
  - `GraphDfs` holds the recursive adjacency-list DFS that two of them
    share.
  - Integers are unbounded except where the program's fixed width is
    observable. There it is written out:
    - 64-bit wrap-around in the profit search;
    - the 32-bit complement in the pair search;
    - the `int` narrowing of the grid's edge costs.

Some behaviours of the code are easy to misread; the model does what
the code does:
- A C++ or Java solution that fails to compile produces no record at all
  (`scripts/test_solution.py:224-231`).
- A problem passes in a batch exactly when the sub-run printed
  "All tests passed!" (`scripts/batch_operations.py:51`). That is a
  string match on the output, not a check of the verdicts.
- In parallel mode, the batch results keep the pool's completion order
  (`scripts/batch_operations.py:81-96`). They are not sorted by problem
  path.
- The verdict for an exception other than a timeout is "Error"
  (`scripts/test_solution.py:192-198`).
- `StatsGenerator` takes a problem's directory from
  `relative_to(Path.cwd())` on a relative path, which always fails. So the
  model always uses the fallback `platform/<platform>/<name>`
  (`scripts/stats_generator.py:30-35`).

## Model

| member | source | states |
|---|---|---|
| SolutionTester.FindSolutionFiles | scripts/test_solution.py:27-42 | A language is found exactly when its file (solution.cpp, solution.py, Solution.java) is present, in C++, Python, Java order; the result is empty exactly when all three are missing |
| SolutionTester.Executable | scripts/test_solution.py:44-88 | Python runs its source file; C++ and Java get an executable (`solution`, `Solution.class`) exactly when the compiler exits with 0, and nothing otherwise |
| SolutionTester.RunTestCase | scripts/test_solution.py:90-198 | No record exactly when the input file is missing; otherwise one record named after the test: Time Limit Exceeded with time 5.0 exactly on a timeout, Error carrying the exception text exactly on another exception, Runtime Error carrying the stripped stderr exactly on a non-zero exit, Output Generated carrying the stripped stdout exactly on a clean exit without an expected file; after a clean exit with an expected file the record is Accepted exactly when the stripped outputs agree, and Wrong Answer carries both stripped texts; every record of a finished run carries the measured time |
| SolutionTester.AcceptedIffStrippedEqual | scripts/test_solution.py:143-168 | With a clean exit and an expected file the verdict is Accepted or Wrong Answer, Accepted exactly when the stripped output equals the stripped expected text; a Wrong Answer carries two different, already stripped texts |
| SolutionTester.StripIgnoresPadding | scripts/test_solution.py:139-149 | Leading and trailing whitespace around a text does not change its `strip()` |
| SolutionTester.SameStripsSameRecord | scripts/test_solution.py:132-183 | A finished run's record depends on stdout, stderr and the expected text only through their stripped forms |
| SolutionTester.VerdictIgnoresSurroundingWhitespace | scripts/test_solution.py:132-183 | Padding stdout, stderr or the expected file with whitespace on either side never changes the record |
| SolutionTester.AcceptedWhenStripsAgree | scripts/test_solution.py:144-157 | A clean exit whose stripped output equals the stripped expected text is recorded as Accepted with the run's time |
| SolutionTester.TrailingWhitespaceAccepted | scripts/test_solution.py:144-157 | Output that differs from the expected text only by trailing whitespace is Accepted, never Wrong Answer |
| SolutionTester.ExpectedFor | scripts/test_solution.py:147-149 | An expected text is handed to the run exactly when the test case names an expected file and that file exists (see also line 236 of the same file) |
| SolutionTester.CaseRecord | scripts/test_solution.py:234-238 | A test case gives a record exactly when its input file exists, named "<case name> (<language key>)" |
| SolutionTester.RunnableUpTo | scripts/test_solution.py:211-235 | The cases run are exactly those of the fixed matrix (Sample, Custom, Input) whose input exists, in matrix order |
| SolutionTester.BlockUpTo | scripts/test_solution.py:234-238 | A compiled language contributes one record per runnable case, in matrix order, each named after its case and the language |
| SolutionTester.LangRecords | scripts/test_solution.py:217-238 | The languages together contribute at most three records each |
| SolutionTester.TestAllSolutions | scripts/test_solution.py:200-238 | Nothing is run exactly when no solution file is found; otherwise at most three records per found language |
| SolutionTester.TestNameTag | scripts/test_solution.py:238 | A test name ends in " (<key>)" for its own language and for no other |
| SolutionTester.BlockTagged | scripts/test_solution.py:234-238 | Every record of a language's block is tagged with that language and with no other |
| SolutionTester.CompileFailureSkipsLanguage | scripts/test_solution.py:224-231 | A language whose compilation fails contributes no record |
| SolutionTester.AbsentLanguageHasNoRecords | scripts/test_solution.py:202-217 | A language without a solution file contributes no record |
| SolutionTester.CompiledLanguageBlock | scripts/test_solution.py:217-238 | The records tagged with a found, compiled language are exactly its block, whatever the other languages do |
| SolutionTester.TestMatrixPerLanguage | scripts/test_solution.py:200-238 | Per language, the records of the whole run are its matrix block when its solution exists and compiles, and none otherwise |
| SolutionTester.StatusCounts | scripts/test_solution.py:261-265 | The per-status tally has an entry exactly for the statuses some record carries, holding how many records carry it |
| SolutionTester.StatusCountsKeys | scripts/test_solution.py:261-265 | A status is in the tally exactly when some record carries it |
| SolutionTester.PrintSummary | scripts/test_solution.py:246-277 | "No tests were run" exactly for no records; otherwise passed is the number of Accepted records, total the number of compared ones (so passed <= total <= number of records) and each status seen maps to its number of records; "All tests passed!" exactly when total > 0 and every compared record is Accepted; "N test(s) failed" carries total - passed > 0; "All tests failed" exactly when nothing was accepted, including when nothing was compared |
| SolutionTester.AllPassedMeansEveryComparedAccepted | scripts/test_solution.py:256-272 | passed == total exactly when every record with one of the four compared statuses is Accepted |
| SolutionTester.UncomparedRecordsIgnored | scripts/test_solution.py:256-257 | An Output Generated or Error record moves neither the pass count nor the total |
| SolutionTester.StatusCountsPermutation | scripts/test_solution.py:261-265 | The per-status tally does not depend on the order of the records |
| SolutionTester.SummaryOrderIndependent | scripts/test_solution.py:246-277 | The whole summary depends only on which records were collected, not on their order |
| BatchOperations.SearchRoot | scripts/batch_operations.py:16-25 | Without a platform (or with an empty one) the whole platforms directory is searched; a named platform, taken as one directory name, is searched exactly when that directory exists, and then the searched directory is exactly platforms/<name>; nothing is searched otherwise |
| BatchOperations.Collect | scripts/batch_operations.py:27-37 | The collected list has no repeats and holds exactly the parents of the solution files below the search root |
| BatchOperations.FindAllProblems | scripts/batch_operations.py:16-39 | The result is strictly sorted, has no repeats, is empty for an unknown platform, and holds exactly the directories with a `solution.*` or `Solution.java` file |
| BatchOperations.ProblemsIndependentOfTraversal | scripts/batch_operations.py:28-39 | The problem list does not depend on the order in which the tree is walked |
| BatchOperations.TestProblem | scripts/batch_operations.py:41-69 | Success exactly when the sub-run finished and printed "All tests passed!"; the error is stderr exactly on a non-zero return code, "Timeout" on a timeout, and the exception's text on any other exception |
| BatchOperations.SuccessIgnoresReturnCode | scripts/batch_operations.py:51 | Success does not depend on the sub-run's return code |
| BatchOperations.SuccessWhenPhrasePrinted | scripts/batch_operations.py:51 | Any output that contains "All tests passed!" is a success |
| BatchOperations.TestSequential | scripts/batch_operations.py:97-105 | Sequential mode gives one record per problem, in the sorted problem order |
| BatchOperations.TestParallel | scripts/batch_operations.py:81-96 | Parallel mode gives one record per problem, in the pool's completion order |
| BatchOperations.RateBounds | scripts/batch_operations.py:124 | The success rate lies in [0, 100] and is 100 exactly when everything passed |
| BatchOperations.FailedComplement | scripts/batch_operations.py:119-123 | Passed and failed records add up to all records |
| BatchOperations.SummarizeBatch | scripts/batch_operations.py:113-132 | passed counts the successes, passed + failed is the number of records, the rate is passed divided by the number of records times 100, lies in 0..100 and is 100 exactly when nothing failed, and the failed list holds exactly the unsuccessful records |
| BatchOperations.BatchTest | scripts/batch_operations.py:71-111 | No summary exactly when no problem is found (so the rate never divides by zero); otherwise one record per problem, in the sorted problem order when sequential and in the pool's completion order when parallel, each the result of that problem's sub-run, and the summary is the one of those records |
| BatchOperations.SummaryIndependentOfOrder | scripts/batch_operations.py:119-124 | The counts and the rate depend only on which records came back |
| BatchOperations.ParallelAndSequentialAgree | scripts/batch_operations.py:81-108 | Parallel and sequential mode give the same records up to order, hence the same counts and rate |
| StatsGenerator.LanguageOf | scripts/stats_generator.py:82-97 | Exactly the four suffixes .py, .cpp, .java and .js name a language |
| StatsGenerator.FileType | scripts/stats_generator.py:81-105 | A source file is typed "solution" exactly when its lower-cased stem mentions "solution" and is otherwise untyped; any other file is typed documentation, metadata or test_cases exactly for README.md, metadata.json and test_cases.json, and "other" otherwise |
| StatsGenerator.LanguageIgnoresStem | scripts/stats_generator.py:82-97 | The language of a file depends on its extension alone, whatever dot-free stem precedes it |
| StatsGenerator.FileInfos | scripts/stats_generator.py:73-107 | One file record per regular file of the directory and none for sub-directories; a record is in the list exactly when some regular file has that name, modification time and type |
| StatsGenerator.FileInfosInOrder | scripts/stats_generator.py:73-107 | The records follow the listing order: no entries give no records, and a further entry adds its own record at the end exactly when it is a regular file |
| StatsGenerator.Languages | scripts/stats_generator.py:71-114 | The languages are a subset of the four known ones, holding exactly the languages of the directory's regular files |
| StatsGenerator.LatestFrom | scripts/stats_generator.py:109-111 | The running timestamp never decreases, ends at or above every file's timestamp, and is either the start value or some file's timestamp |
| StatsGenerator.LastModified | scripts/stats_generator.py:109-111 | The problem's last_modified is the greatest file timestamp in string order, or "" exactly as the start value when no file is there (see also line 49 of the same file) |
| StatsGenerator.MeaningfulLinesAreCode | scripts/stats_generator.py:138-144 | Every counted line is stripped, non-blank, starts with none of the five comment prefixes, and contains no template word in any case |
| StatsGenerator.MeaningfulLinesAppend | scripts/stats_generator.py:138-144 | Counting is line by line: the lines of two texts joined by a newline are those of the first followed by those of the second |
| StatsGenerator.CommentLineIgnored | scripts/stats_generator.py:138-139 | Appending a blank or comment line never changes the meaningful lines |
| StatsGenerator.StatusFrom | scripts/stats_generator.py:132-154 | The candidates' status is completed, in_progress or started, and "started" exactly when no readable candidate has more than five meaningful lines |
| StatsGenerator.FirstDecisiveWins | scripts/stats_generator.py:146-149 | The first readable candidate with more than five lines decides: over ten means completed, six to ten in_progress, whatever follows |
| StatsGenerator.DetermineStatus | scripts/stats_generator.py:124-154 | The status is one of the four content statuses, and not_started exactly when no `solution.*` file has a known source suffix |
| StatsGenerator.ScanProblem | scripts/stats_generator.py:27-120 | The record keeps the directory's name and platform and lists the directory's files, their languages and their latest change; its status comes from the metadata unless that is missing, unreadable or "Unknown", in which case the content decides; readable metadata supplies difficulty, url, id, tags and creation date where it has them, and otherwise (and without readable metadata) they are Unknown, empty or the empty list |
| StatsGenerator.StatusWithoutMetadata | scripts/stats_generator.py:117-118 | A problem without a metadata file always gets one of the four content-derived statuses |
| StatsGenerator.ScanPlatform | scripts/stats_generator.py:13-27 | One record per problem directory of the platform, in listing order (see also lines 120-122 of the same file) |
| StatsGenerator.DifficultyBucket | scripts/stats_generator.py:188-192 | Every difficulty lands in one of the four buckets, a known difficulty in its own bucket |
| StatsGenerator.PlatformCounts | scripts/stats_generator.py:183-185 | A platform has an entry exactly when some problem is on it, holding how many problems are |
| StatsGenerator.RecentProblems | scripts/stats_generator.py:204-207 | The recent list has min(10, number of problems) entries, is ordered newest first, and draws each entry from the problems; the sort is stable, so for every time the listed problems of that time are the first ones of that time in scan order |
| Ordering.InsertByTies | scripts/stats_generator.py:205-207 | Inserting an element into a sorted list puts it after every element it ties with, and leaves the order among the others unchanged |
| Ordering.SortByStable | scripts/stats_generator.py:205-207 | The sort is stable, as Python's `sorted` with `reverse=True` is: the elements of every class of tied elements keep their order from the input |
| StatsGenerator.RecentAreNewest | scripts/stats_generator.py:204-207 | Any problem left out of the recent list is no newer than every listed one |
| StatsGenerator.CalculateStatistics | scripts/stats_generator.py:156-216 | The total is the number of problems; the difficulty, language and status tables have exactly the four fixed keys each, holding the number of problems in each bucket, using each language, and with each status; recent activity mirrors the recent list |
| StatsGenerator.DifficultyCountsSum | scripts/stats_generator.py:186-192 | Each problem falls in exactly one difficulty bucket, so the difficulty counts add up to the total |
| StatsGenerator.StatusCountsAtMostTotal | scripts/stats_generator.py:194-197 | Statuses outside the four known ones go uncounted, so the status counts add up to at most the total |
| StatsGenerator.PlatformCountsSum | scripts/stats_generator.py:182-185 | The platform counts add up to the total, in whatever order the platforms are listed |
| CompanionListener.FirstKnown | scripts/companion_listener.py:73-84 | No platform exactly when no fragment of the table occurs in the domain; otherwise the platform of a row whose fragment occurs |
| CompanionListener.ExtractPlatform | scripts/companion_listener.py:66-88 | "Unknown" for an empty URL; a host naming a known platform gives the first such platform in table order; any other host gives its lower-cased first dot-separated label, title-cased |
| CompanionListener.CodeforcesTakesPrecedence | scripts/companion_listener.py:73-74 | A host that mentions codeforces, in any case, is Codeforces whatever else it mentions |
| CompanionListener.UnknownHostKeepsLabel | scripts/companion_listener.py:86-88 | An unknown host gives back its first label, up to letter case |
| CompanionListener.CodeforcesSegment | scripts/companion_listener.py:96-101 | A Codeforces URL contributes a segment exactly when it contains "codeforces.com" and some slash-separated part is "problem" with a part after it; the segment holds no slash |
| CompanionListener.ExtractProblemId | scripts/companion_listener.py:90-105 | "unknown" for an empty URL; the id never holds a slash and is empty only when a Codeforces "problem" segment is followed by an empty one; otherwise it is the last non-empty segment or "unknown" |
| CompanionListener.LastSegmentIsId | scripts/companion_listener.py:103-105 | A non-Codeforces URL ending in a non-empty segment has that segment as its id |
| CompanionListener.CodeforcesProblemId | scripts/companion_listener.py:96-101 | A Codeforces URL whose path has a "problem" part gives the part right after its first occurrence, whatever follows |
| CompanionListener.SegmentAfterProblem | scripts/companion_listener.py:97-101 | The segment after the first "problem" part is found, whatever surrounds it |
| CompanionListener.ProblemId | scripts/companion_listener.py:40 | A non-empty contest id from the request wins; otherwise the id comes from the URL |
| CompanionListener.ContainsDoubleDash | scripts/companion_listener.py:114 | The loop's test `'--' in s` holds exactly when two dashes stand next to each other |
| CompanionListener.ReplaceDoubleDash | scripts/companion_listener.py:115 | One replacement pass never lengthens the text and introduces no new character |
| CompanionListener.ReplaceShrinks | scripts/companion_listener.py:114-115 | A pass over a text holding two adjacent dashes makes it strictly shorter, so the loop ends |
| CompanionListener.CollapseDashes | scripts/companion_listener.py:113-115 | After the loop no two dashes are adjacent and no new character appears |
| CompanionListener.SqueezeReplace | scripts/companion_listener.py:115 | A replacement pass never changes the text with every run of dashes squeezed to one |
| CompanionListener.SqueezeFixed | scripts/companion_listener.py:113-115 | A text with no two adjacent dashes is its own squeeze |
| CompanionListener.CollapseIsSqueeze | scripts/companion_listener.py:113-115 | The loop's result is the input with every run of dashes squeezed to one dash |
| CompanionListener.KeepChars | scripts/companion_listener.py:110 | Only letters, digits, '-', '_' and spaces survive the first step |
| CompanionListener.DashesForSpaces | scripts/companion_listener.py:112 | After the second step a text of kept characters holds only lower-case letters, digits, '-' and '_' |
| CompanionListener.SanitizeName | scripts/companion_listener.py:107-116 | A sanitised name holds only lower-case letters, digits, '-' and '_', no two adjacent dashes, and neither starts nor ends with a dash |
| CompanionListener.SanitizeIdempotent | scripts/companion_listener.py:107-116 | Sanitising a sanitised name changes nothing |
| CompanionListener.SanitizeMatchesSqueeze | scripts/companion_listener.py:107-116 | The sanitised name is the filtered, dashed, lower-cased name with each run of dashes squeezed to one, then stripped of dashes at both ends |
| AutoHeader.StyleFor | scripts/auto_header.py:21-31 | Exactly the six suffixes .cpp, .cc, .cxx, .c, .java and .py get a style: block comments for the C family and Java, triple quotes for Python |
| AutoHeader.HeaderLines | scripts/auto_header.py:33-52 | The header is opener, Author, Date and File lines, then Platform, Contest and Problem only when non-empty details are given, then the description, the closer and an empty last line: 10 lines with details, 7 without |
| AutoHeader.AddHeaderToFile | scripts/auto_header.py:13-77 | A missing or unreadable file or an unsupported suffix gives False and writes nothing; a file already holding the opener and "Author:" gives True and writes nothing; otherwise a successful write puts the header joined by newlines in front of the old content and gives True, and a failed write gives False with nothing written |
| AutoHeader.HeaderPrependsContent | scripts/auto_header.py:68 | Whatever is written starts with the opener and ends with the old content, unchanged, right after a newline |
| AutoHeader.HeaderMentionsAuthor | scripts/auto_header.py:36-63 | Every header carries "Author:" |
| AutoHeader.AddHeaderIdempotent | scripts/auto_header.py:63-68 | Adding a header to a file that just got one, with any author, date or details, returns True and writes nothing |
| AutoHeader.ExtractContestInfo | scripts/auto_header.py:106-133 | With at least three parts after the first "platforms" part they become platform, contest and problem; otherwise the details are the info file's content when it can be read, and none otherwise |
| AutoHeader.ContestInfoFromPath | scripts/auto_header.py:110-119 | A directory .../platforms/P/C/X/... gets platform P, contest C and problem X, whatever lies before or after, as long as no earlier part is called "platforms" |
| SetupProblem.Alias | scripts/setup_problem.py:24-35 | Every alias resolves to one of the five full platform names |
| SetupProblem.PlatformName | scripts/setup_problem.py:22-36 | An alias (looked up in lower case) gives exactly the full name it stands for, one of the five; any other input is title-cased: same length and letters up to case, each letter upper case exactly when it follows no letter |
| SetupProblem.PlatformNameIgnoresCase | scripts/setup_problem.py:36 | Two spellings that differ only in letter case name the same platform, aliases and unknown names alike |
| SetupProblem.FullNameIsFixed | scripts/setup_problem.py:24-36 | Each full platform name is itself an alias for that name |
| SetupProblem.PlatformNameIdempotent | scripts/setup_problem.py:22-36 | Resolving an already resolved platform name changes nothing |
| SetupProblem.OutputName | scripts/setup_problem.py:106-111 | The output names are solution.cpp, solution.py and Solution.java |
| SetupProblem.FirstPresent | scripts/setup_problem.py:100-124 | No template exactly when none of the preferred names exists; otherwise the first existing one, with every earlier name missing |
| SetupProblem.CopyLang | scripts/setup_problem.py:100-127 | A language without any template adds nothing; otherwise its first existing template's content is written under its output name |
| SetupProblem.CopyTemplates | scripts/setup_problem.py:88-127 | Nothing is copied without a templates directory; otherwise a language's output file is written exactly when it has a template, holding its first existing template's content, and no other file is written |
| SetupProblem.CopiedFiles | scripts/setup_problem.py:100-124 | The three per-language copies write disjoint files, so each language's file comes from its own first template |
| SetupProblem.PreferredTemplateWins | scripts/setup_problem.py:102-124 | When the most preferred template exists it is the one copied, whatever else the templates directory holds |
| SetupProblem.MissingTemplatesSkipLanguage | scripts/setup_problem.py:126-127 | A language with none of its three templates gets no solution file |
| SetupProblem.TouchAll | scripts/setup_problem.py:139-142 | Afterwards the directory holds exactly its old files and the named ones; old files keep their content and new ones are empty |
| SetupProblem.CreateTestFilesKeeps | scripts/setup_problem.py:129-142 | The five test files all exist afterwards; existing files, test files included, are never overwritten, and only test files are added |
| SetupProblem.CreateTestFilesIdempotent | scripts/setup_problem.py:139-142 | Creating the test files twice is creating them once |
| SetupProblem.TouchAllIdempotent | scripts/setup_problem.py:139-142 | Touching the same files twice is touching them once |
| SetupProblem.NameOrCode | scripts/setup_problem.py:54 | A missing or empty problem name falls back to the problem code (see also lines 81, 155 of the same file) |
| SetupProblem.CphFileName | scripts/setup_problem.py:151 | The helper file's name ends in ".prob" |
| SetupProblem.CphFileNameParts | scripts/setup_problem.py:151 | Without underscores in the parts, the helper file's name splits back into platform, contest and code |
| SetupProblem.BatchIdParts | scripts/setup_problem.py:181 | Without dashes in the parts, the batch id splits back into the lower-cased platform, the contest and the lower-cased code |
| SetupProblem.CphFor | scripts/setup_problem.py:146-185 | The helper data's name, group, URL (empty when absent), batch id and source path under platforms/P/C/X/solution.cpp |
| Json.EscapeChar | scripts/setup_problem.py:66-68 | A character is written as itself exactly when it is printable ASCII other than the quote and the backslash; otherwise its escape starts with a backslash; either way only printable ASCII is written |
| Json.Quote | scripts/setup_problem.py:66-68 | A string literal starts and ends with a quote and holds only printable ASCII, so never a line break |
| Json.Hex4RoundTrip | scripts/setup_problem.py:66-68 | Four hexadecimal digits written for a number below 0x10000 read back as that number |
| Json.UnescapeChar | scripts/setup_problem.py:66-68 | One escaped character, including a surrogate pair for a character beyond the Basic Multilingual Plane, reads back as that character whatever follows |
| Json.UnescapeEscape | scripts/setup_problem.py:66-68 | Reading an escaped string back as `json.load` does gives the string itself |
| Json.UnquoteQuote | scripts/setup_problem.py:66-68 | A written string literal reads back as its text |
| Json.QuoteInjective | scripts/setup_problem.py:66-68 | Different strings are written as different literals |
| SetupProblem.InfoLine | scripts/setup_problem.py:50-68 | No line of the record file holds a line break |
| SetupProblem.FieldReadsBack | scripts/setup_problem.py:66-68 | A string member line of the record file reads back as its value |
| SetupProblem.NullFieldReadsBack | scripts/setup_problem.py:55-68 | A null member line reads back as no value |
| SetupProblem.InfoJsonSplits | scripts/setup_problem.py:66-68 | Split at line breaks, the record file gives back the lines it was written from |
| SetupProblem.InfoJsonFrame | scripts/setup_problem.py:66-68 | The record file has 14 lines, the first opening the object and the last closing it |
| SetupProblem.InfoJsonReadsBack | scripts/setup_problem.py:50-68 | In the record file the platform, contest, problem code, problem name and creation-time members read back as written, and the URL member as the URL or, when it is null, as nothing |
| SetupProblem.ReadmeTitleLine | scripts/setup_problem.py:192-236 | The README's first line is "# " followed by the title, when the title is one line |
| SetupProblem.ProblemFilesWritten | scripts/setup_problem.py:66-81 | After set-up problem_info.json and README.md hold exactly the texts written for them |
| SetupProblem.ProblemFilesCopied | scripts/setup_problem.py:72 | Every copied template is present with the template's content |
| SetupProblem.ProblemFilesUntouched | scripts/setup_problem.py:66-81 | A file the set-up does not write keeps its content |
| SetupProblem.ProblemFilesTests | scripts/setup_problem.py:75 | All five test files exist afterwards and those that did not exist before are empty |
| SetupProblem.ProblemFilesOnly | scripts/setup_problem.py:66-81 | No file is created besides the record file, the copied templates, the test files and the README |
| SetupProblem.SetupProblem | scripts/setup_problem.py:38-86 | The problem goes to platforms/P/C/X with P the resolved platform; the record and helper data use P, the README title, record name and helper name agree, and the helper's source path lies in the new directory; problem_info.json holds the record written as JSON with the given time stamp and README.md the README for the problem's title |
| SetupProblem.SetupFiles | scripts/setup_problem.py:88-142 | After set-up the copied templates are present, other existing files keep their content unless they are problem_info.json or README.md, all five test files exist and the new ones are empty, and nothing else was added (see also lines 66-81 of the same file) |
| SetupProblem.HeaderSeesSetup | scripts/setup_problem.py:44 | The header inserter, run on any file inside a set-up problem's directory, reads back the set-up's platform, contest and code (see also scripts/auto_header.py:110-119) |
| SimpleSetup.ProblemUrl | scripts/simple_setup.py:93-101 | Every problem URL starts with "https://" |
| SimpleSetup.UrlEmbeds | scripts/simple_setup.py:95-101 | LeetCode, HackerRank and AtCoder URLs contain the problem name; Codeforces and AtCoder URLs end in the problem id; an unknown platform gives "https://" + its lower-cased name + ".com/" |
| SimpleSetup.CodeforcesUrlSegments | scripts/simple_setup.py:97 | A Codeforces URL is the slash-joined https:, empty host separator, codeforces.com, problem and the id |
| SimpleSetup.CodeforcesUrlRoundTrip | scripts/simple_setup.py:97 | The listener reads back as problem id exactly the slash-free id this script put into a Codeforces URL (see also scripts/companion_listener.py:96-101) |
| SimpleSetup.CodeforcesUrlPlatform | scripts/simple_setup.py:97 | The listener names the platform of a Codeforces URL built here Codeforces (see also scripts/companion_listener.py:66-74) |
| SimpleSetup.DisplayName | scripts/simple_setup.py:115 | The display name has the slug's length, holds no dash, and is the slug with dashes turned into spaces, up to letter case |
| SimpleSetup.TitleOfWords | scripts/simple_setup.py:115 | Title-casing space-separated words title-cases each word on its own |
| SimpleSetup.DisplayNameOfSlug | scripts/simple_setup.py:115 | A dash-joined slug is shown as its words title-cased and joined by spaces |
| SimpleSetup.SetupProblem | scripts/simple_setup.py:103-173 | The problem goes to platform/P/N; the record carries the display name, platform, id and URL, an empty difficulty and status not_started |
| SimpleSetup.AsParsed | scripts/simple_setup.py:160-173 | The statistics scanner reads back the recorded status, URL and id (see also scripts/stats_generator.py:56-65) |
| SimpleSetup.FreshProblemNotStarted | scripts/simple_setup.py:160-173 | A freshly set-up problem is scanned as not_started, whatever files it holds, with the URL and id recorded and the directory the script made (see also scripts/stats_generator.py:27-120) |
| SimpleSetup.ParseArgs | scripts/simple_setup.py:180-188 | The script runs exactly when given three arguments, taking platform, problem name and id in that order; otherwise it exits with status 1 |
| Needle.CoverAdd | platforms/hackerrank/A_Needle_in_the_Haystack.cpp:35-39 | A letter entering the window covers one more pattern letter exactly when the window held fewer of it than the pattern |
| Needle.CoverRemove | platforms/hackerrank/A_Needle_in_the_Haystack.cpp:48-53 | A letter leaving the window uncovers a pattern letter exactly when the window held no more of it than the pattern |
| Needle.FullCover | platforms/hackerrank/A_Needle_in_the_Haystack.cpp:57 | A window no longer than the pattern covers all of the pattern's letters exactly when it is a rearrangement of the pattern |
| Needle.CountedAgrees | platforms/hackerrank/A_Needle_in_the_Haystack.cpp:35-52 | The kept count of a pattern letter is its count in the window; letters outside the pattern are never counted |
| Needle.Push | platforms/hackerrank/A_Needle_in_the_Haystack.cpp:34-39 | After a letter enters, the kept counts and the number of covered letters describe the window grown by one on the right |
| Needle.Pop | platforms/hackerrank/A_Needle_in_the_Haystack.cpp:44-55 | After the leftmost letter leaves, the kept counts and the number of covered letters describe the window shrunk by one on the left |
| Needle.Step | platforms/hackerrank/A_Needle_in_the_Haystack.cpp:32-60 | One turn keeps the window at most the pattern's length, sliding its left end exactly when it grew too long, and reports a hit exactly when the window is a rearrangement of the pattern |
| Needle.CheckPermutation | platforms/hackerrank/A_Needle_in_the_Haystack.cpp:22-65 | True exactly when some stretch of the text as long as the pattern is a rearrangement of it (false whenever the pattern is longer than the text) |
| Needle.EmptyPatternFound | platforms/hackerrank/A_Needle_in_the_Haystack.cpp:32-60 | An empty pattern is found exactly in a non-empty text |
| Needle.RearrangedTextFound | platforms/hackerrank/A_Needle_in_the_Haystack.cpp:22-65 | A non-empty text is always found in any rearrangement of itself |
| Needle.Answer | platforms/hackerrank/A_Needle_in_the_Haystack.cpp:81-88 | A test case prints YES exactly when the text holds a rearrangement of the pattern, and NO otherwise |
| Needle.Answers | platforms/hackerrank/A_Needle_in_the_Haystack.cpp:67-93 | One answer line per test case, in input order |
| EarningProfit.Wrap | platforms/CodeChef/Earning_A_Profit.cpp:26-40 | Every 64-bit result lies in [0, 2^64) |
| EarningProfit.WrapSub | platforms/CodeChef/Earning_A_Profit.cpp:38-40 | Subtracting two wrapped values wraps the plain difference |
| EarningProfit.WrapAdd | platforms/CodeChef/Earning_A_Profit.cpp:73 | Adding to a wrapped value wraps the plain sum, so the wrapped prefix sums are the plain ones modulo 2^64 |
| EarningProfit.MinOf | platforms/CodeChef/Earning_A_Profit.cpp:36 | The minimum of a run is one of its elements and no greater than any of them |
| EarningProfit.MaxOf | platforms/CodeChef/Earning_A_Profit.cpp:37 | The maximum of a run is one of its elements and no less than any of them |
| EarningProfit.MinMaxSnoc | platforms/CodeChef/Earning_A_Profit.cpp:34-37 | Extending the run by one element updates its minimum and maximum as the inner loop does |
| EarningProfit.Consider | platforms/CodeChef/Earning_A_Profit.cpp:35-41 | After one inner step min_d and max_d are the minimum and maximum of diff[i..j], and the best so far is the larger of itself and segment i..j's 64-bit profit |
| EarningProfit.ScanFrom | platforms/CodeChef/Earning_A_Profit.cpp:34-42 | The inner loop's result is at least its start value and every profit of a segment starting at i, and is the start value or one of those profits |
| EarningProfit.Extend | platforms/CodeChef/Earning_A_Profit.cpp:41 | Taking the larger of the best so far and one more segment's profit keeps the best an upper bound that some examined segment (or the start value) attains |
| EarningProfit.GetMaxProfit | platforms/CodeChef/Earning_A_Profit.cpp:26-45 | maxProfit ends at least its start value and every 64-bit segment profit for 1 <= i <= j <= N, and equal to its start value or one of those profits |
| EarningProfit.SegmentValueIs | platforms/CodeChef/Earning_A_Profit.cpp:38-40 | The program's chain of 64-bit operations equals length*A - fuel - spread^2 modulo 2^64 |
| EarningProfit.FuelSegment | platforms/CodeChef/Earning_A_Profit.cpp:38-73 | The fuel over a run of planets is the difference of two prefix sums |
| EarningProfit.SameProfit | platforms/CodeChef/Earning_A_Profit.cpp:38-73 | A segment's 64-bit profit computed from the arrays is its plain profit modulo 2^64 |
| EarningProfit.Transfer | platforms/CodeChef/Earning_A_Profit.cpp:62-78 | What getMaxProfit establishes about the arrays holds of the planets themselves |
| EarningProfit.Solve | platforms/CodeChef/Earning_A_Profit.cpp:60-80 | The printed value is 0 or more, at least every segment's profit modulo 2^64, and is 0 or some segment's profit |
| EarningProfit.SegmentProfit | platforms/CodeChef/Earning_A_Profit.cpp:38-40 | A segment's unsigned 64-bit profit is congruent to its signed profit modulo 2^64, and equal to it when the signed profit lies in [0, 2^64) |
| EarningProfit.LosingSegmentWins | platforms/CodeChef/Earning_A_Profit.cpp:38-41 | For one planet with A = 1, fuel 2 and difficulty 0 the only value the program may print is 2^64 - 1, although the segment loses one coin |
| EarningProfit.SolveFixed | platforms/CodeChef/Earning_A_Profit.cpp:75-78 | The corrected answer is 0 or more, at least every segment's signed profit, and 0 or some segment's signed profit: the best profit, or 0 for visiting nothing |
| EarningProfit.BestFrom | platforms/CodeChef/Earning_A_Profit.cpp:34-42 | The corrected inner loop's result is at least its start value and every signed profit of a segment starting at i, and is the start value or one of them |
| EarningProfit.ExtendPlain | platforms/CodeChef/Earning_A_Profit.cpp:41 | Taking the larger of the best so far and one more signed profit keeps the best an upper bound that some examined segment (or the start value) attains |
| EarningProfit.LosingSegmentFixed | platforms/CodeChef/Earning_A_Profit.cpp:75-76 | For the same losing planet the corrected answer is 0 |
| EarningProfit.FixAgreesWithoutLoss | platforms/CodeChef/Earning_A_Profit.cpp:38-41 | When no segment loses money and none reaches 2^64, every answer the program may print meets the corrected answer's contract |
| Dsu.Root | platform/Codeforces/d-shichikuji-and-power-grid/solution.cpp:22-25 | Following parents from a node ends at a node that is its own parent, reached through strictly decreasing rank |
| Dsu.Singletons | platform/Codeforces/d-shichikuji-and-power-grid/solution.cpp:18-52 | After make(v) for every node 0..n each node is its own parent with size 1, every size counts its set, and there are n+1 sets |
| Dsu.Find | platform/Codeforces/d-shichikuji-and-power-grid/solution.cpp:22-25 | find(v) returns v's root, points v at it, and every node it changes now points straight at its root |
| Dsu.FindKeepsRoots | platform/Codeforces/d-shichikuji-and-power-grid/solution.cpp:22-25 | Path compression keeps the forest well-founded, every node's root and the set of roots |
| Dsu.CompressionKeepsRoots | platform/Codeforces/d-shichikuji-and-power-grid/solution.cpp:24 | Any parent array that only repoints nodes at their roots has the same roots as before |
| Dsu.Union | platform/Codeforces/d-shichikuji-and-power-grid/solution.cpp:26-36 | Union keeps the number of nodes; what it does to roots and sizes is stated by the Union lemmas below |
| Dsu.UnionIsLink | platform/Codeforces/d-shichikuji-and-power-grid/solution.cpp:26-36 | Union is the two finds followed by linking the two roots found |
| Dsu.Link | platform/Codeforces/d-shichikuji-and-power-grid/solution.cpp:29-35 | Linking keeps the number of nodes and of sizes |
| Dsu.UnionSameSet | platform/Codeforces/d-shichikuji-and-power-grid/solution.cpp:29 | Union within one set changes no size, no node's root and no set: only paths are compressed |
| Dsu.UnionMerges | platform/Codeforces/d-shichikuji-and-power-grid/solution.cpp:29-34 | Union of two sets roots both at the larger set's root (a's on a tie) and leaves every other node's root alone |
| Dsu.UnionAddsSizes | platform/Codeforces/d-shichikuji-and-power-grid/solution.cpp:30-34 | Union of two sets gives the surviving root the sum of the two sizes and changes no other size |
| Dsu.UnionDropsRoot | platform/Codeforces/d-shichikuji-and-power-grid/solution.cpp:33 | Union of two sets makes the smaller set's root a non-root, so there is exactly one set fewer |
| Dsu.UnionKeepsSizes | platform/Codeforces/d-shichikuji-and-power-grid/solution.cpp:26-36 | Union keeps every root's size equal to the number of nodes in its set |
| Dsu.MergedMembers | platform/Codeforces/d-shichikuji-and-power-grid/solution.cpp:33-34 | After a merge the surviving set has as many members as the two merged sets together, and every other set keeps its members |
| PowerGrid.EdgeLeIsTotalPreorder | platform/Codeforces/d-shichikuji-and-power-grid/solution.cpp:76 | The pair order that sort uses is a total preorder |
| PowerGrid.StationEdges | platform/Codeforces/d-shichikuji-and-power-grid/solution.cpp:63-66 | Exactly one edge (c[i], 0, i) per city |
| PowerGrid.WiresFrom | platform/Codeforces/d-shichikuji-and-power-grid/solution.cpp:69-74 | For fixed i, exactly one wire per j > i, weighted by Manhattan distance times k[i] + k[j] |
| PowerGrid.WireEdges | platform/Codeforces/d-shichikuji-and-power-grid/solution.cpp:67-75 | Exactly one wire per pair of cities i < j |
| PowerGrid.Edges | platform/Codeforces/d-shichikuji-and-power-grid/solution.cpp:62-75 | The edge list holds exactly the station edges and the wires |
| PowerGrid.Narrow | platform/Codeforces/d-shichikuji-and-power-grid/solution.cpp:81 | The narrowed cost lies in the 32-bit range and agrees with the cost modulo 2^32 |
| PowerGrid.SplitAccepted | platform/Codeforces/d-shichikuji-and-power-grid/solution.cpp:85-91 | Every accepted edge becomes exactly one station or one connection |
| PowerGrid.Step | platform/Codeforces/d-shichikuji-and-power-grid/solution.cpp:84-93 | An edge is accepted exactly when its endpoints are in different sets; afterwards both endpoints of every processed edge share a set, and an acceptance removes exactly one set |
| PowerGrid.Guard | platform/Codeforces/d-shichikuji-and-power-grid/solution.cpp:84 | The test find(v1) == find(v2) holds exactly when both are in one set, and its compression changes no root and no size |
| PowerGrid.CutWhenApart | platform/Codeforces/d-shichikuji-and-power-grid/solution.cpp:84 | An edge whose endpoints are still apart was not preceded by the station edges of both its endpoints |
| PowerGrid.CutsGrow | platform/Codeforces/d-shichikuji-and-power-grid/solution.cpp:80-97 | Each accepted edge keeps the position where it was accepted, with that cut property |
| PowerGrid.AcceptOne | platform/Codeforces/d-shichikuji-and-power-grid/solution.cpp:85-96 | Accepting an edge adds its narrowed cost to yen and its station (the larger endpoint) or its connection |
| PowerGrid.Kruskal | platform/Codeforces/d-shichikuji-and-power-grid/solution.cpp:77-97 | At the end both endpoints of every edge share a set, accepted edges plus remaining sets number n+1, yen is the sum of the narrowed accepted costs, and stations and connections list the accepted edges in order |
| PowerGrid.Solve | platform/Codeforces/d-shichikuji-and-power-grid/solution.cpp:39-108 | Exactly n edges are accepted, all from the edge list; stations are cities and connections are pairs i < j; each accepted wire costs no more than the dearer of its two cities' stations; within the problem's limits yen is the plain sum of the accepted costs |
| PowerGrid.AllJoined | platform/Codeforces/d-shichikuji-and-power-grid/solution.cpp:63-97 | Because every city has a station edge, joining every edge's endpoints leaves a single set |
| PowerGrid.StationEarlier | platform/Codeforces/d-shichikuji-and-power-grid/solution.cpp:76 | After sorting, a station cheaper than some wire comes before it |
| PowerGrid.WireCheap | platform/Codeforces/d-shichikuji-and-power-grid/solution.cpp:76-93 | An accepted wire costs no more than the dearer of its two cities' stations |
| PowerGrid.AcceptedCheap | platform/Codeforces/d-shichikuji-and-power-grid/solution.cpp:76-93 | Every edge the loop accepts over the sorted list costs no more than the dearer of its cities' stations |
| PowerGrid.AcceptedShapes | platform/Codeforces/d-shichikuji-and-power-grid/solution.cpp:85-91 | Every station printed is a city 1..n and every connection a pair of cities i < j |
| PowerGrid.CostsInRange | platform/Codeforces/d-shichikuji-and-power-grid/solution.cpp:71-81 | Within the problem's limits every accepted cost fits in a 32-bit int |
| PowerGrid.NarrowHarmless | platform/Codeforces/d-shichikuji-and-power-grid/solution.cpp:81-96 | When every accepted cost fits in 32 bits, yen is the plain sum of the costs |
| AbcPath.Opposite | platform/SPOJ/abc-path/solution.cpp:30-31 | Move 7 - k undoes move k, so a cell reached by a move sees its origin as a neighbour |
| AbcPath.ReachableRank | platform/SPOJ/abc-path/solution.cpp:43-53 | The end of an ABC path holds a letter from 'A' on |
| AbcPath.ReachableFromA | platform/SPOJ/abc-path/solution.cpp:83-84 | Every ABC path starts at an 'A' in the grid |
| AbcPath.ReachNext | platform/SPOJ/abc-path/solution.cpp:43-53 | Stepping from the end of an ABC path to a neighbour with the next letter extends it |
| AbcPath.Reset | platform/SPOJ/abc-path/solution.cpp:17-28 | reset clears exactly the grid's marks: a mark survives only outside the current grid |
| AbcPath.Dfs | platform/SPOJ/abc-path/solution.cpp:33-57 | Outside the grid, on a '0' or on a marked cell nothing changes; otherwise the cell gets marked; marks stay sound (each ends an ABC path), max_ct stays the largest marked rank, and every next-letter neighbour of a new mark is marked |
| AbcPath.Try | platform/SPOJ/abc-path/solution.cpp:44-56 | Each move either changes nothing or runs a nested search that only adds sound, closed marks, and afterwards that move's next-letter neighbour is marked |
| AbcPath.ProgressSkip | platform/SPOJ/abc-path/solution.cpp:48-51 | A move off the grid, onto another letter or onto a marked cell keeps the search's invariant |
| AbcPath.ProgressChild | platform/SPOJ/abc-path/solution.cpp:51-53 | A nested search's marks join the caller's and keep its invariant |
| AbcPath.Finish | platform/SPOJ/abc-path/solution.cpp:44-56 | Once all eight moves are tried, every next-letter neighbour of every new mark is marked |
| AbcPath.ChildClosed | platform/SPOJ/abc-path/solution.cpp:53 | After a nested search the earlier new marks stay closed and the nested ones are closed by its own contract |
| AbcPath.ChildHanging | platform/SPOJ/abc-path/solution.cpp:51-53 | Every mark a search adds, except its start, sits next to a mark with the letter before its own |
| AbcPath.AllReached | platform/SPOJ/abc-path/solution.cpp:79-86 | With every 'A' marked and the marks closed, the end of every ABC path is marked |
| AbcPath.StartAt | platform/SPOJ/abc-path/solution.cpp:83-84 | Searching from an unmarked 'A' keeps the marks sound and closed and marks every 'A' up to this cell in reading order |
| AbcPath.NextRow | platform/SPOJ/abc-path/solution.cpp:79-81 | A finished row hands its marked 'A's over to the next row |
| AbcPath.StillClosed | platform/SPOJ/abc-path/solution.cpp:83-84 | A search from a new 'A' leaves all the marks closed |
| AbcPath.Conclude | platform/SPOJ/abc-path/solution.cpp:79-87 | After the scan, max_ct is at least the length of every ABC path and is the length of one, and it is 0 exactly when the grid has no 'A' |
| AbcPath.Solve | platform/SPOJ/abc-path/solution.cpp:66-87 | The printed count is the length of the longest ABC path in the grid: none is longer, one is that long, and it is 0 exactly when there is no 'A' |
| GraphDfs.Dfs | platform/Codeforces/c-underground-lab/solution.cpp:19-28 | dfs(v, p) on an unmarked v marks v and appends it first; each vertex goes on the path once, exactly when it is marked; every later entry is a neighbour of an earlier one; every neighbour of a newly visited vertex ends up marked, except possibly p |
| GraphDfs.StaysClosed | platform/Codeforces/c-underground-lab/solution.cpp:23-27 | Marks only grow, so vertices whose neighbours were all marked before a nested call stay that way |
| GraphDfs.Extended | platform/Codeforces/c-underground-lab/solution.cpp:25 | After a nested call from v, the path's new part still hangs each entry off an earlier one: the nested start hangs off v |
| GraphDfs.Shrinks | platform/Codeforces/c-underground-lab/solution.cpp:25 | The recursion terminates: a nested call starts with strictly fewer unmarked vertices |
| UndergroundLab.AddCorridor | platform/Codeforces/c-underground-lab/solution.cpp:43-44 | Reading a corridor gives both ends a list |
| UndergroundLab.AddCorridorCounts | platform/Codeforces/c-underground-lab/solution.cpp:43-44 | One corridor puts w on v's list once exactly when it joins v and w; a loop is listed once |
| UndergroundLab.BuildCounts | platform/Codeforces/c-underground-lab/solution.cpp:39-48 | w is on v's list once per corridor between them, in either direction |
| UndergroundLab.ListedBothWays | platform/Codeforces/c-underground-lab/solution.cpp:43-44 | The lists are symmetric, and a loop at v puts v on its own list once per loop corridor |
| UndergroundLab.BuildWithin | platform/Codeforces/c-underground-lab/solution.cpp:37-48 | When every corridor ends in 1..n, every list and every listed vertex is in 1..n |
| UndergroundLab.Walk | platform/Codeforces/c-underground-lab/solution.cpp:19-51 | dfs(1, -1) yields a path that starts at 1, has no repeats and at most n entries, all in 1..n; each later entry is a neighbour of an earlier one, and every neighbour of an entry is on the path |
| UndergroundLab.Split | platform/Codeforces/c-underground-lab/solution.cpp:54-85 | Exactly k lines; read back in order they give the path; line i is a piece exactly when i is below the path's length; piece i holds size / k cells, plus one for each of the first size % k lines; so pieces are non-empty, at most ceil(size / k) long, and differ in length by at most one |
| UndergroundLab.NextLine | platform/Codeforces/c-underground-lab/solution.cpp:60-77 | One round of the loop appends the planned line and moves idx to the end of it |
| UndergroundLab.Cut | platform/Codeforces/c-underground-lab/solution.cpp:66-82 | A planned size above 0 prints the next piece of the path and moves past it; size 0 prints the filler "1 1" |
| UndergroundLab.NoClamp | platform/Codeforces/c-underground-lab/solution.cpp:55-66 | The cap by what is left never bites: the planned sizes add up to exactly the path's length |
| UndergroundLab.ChunkWhenLeft | platform/Codeforces/c-underground-lab/solution.cpp:62-68 | Line i gets a piece exactly when i is below the path's length |
| UndergroundLab.BalancedBounds | platform/Codeforces/c-underground-lab/solution.cpp:62-65 | Pieces are base or base + 1 long, so any two differ by at most one |
| UndergroundLab.CeilIs | platform/Codeforces/c-underground-lab/solution.cpp:55-65 | The longest piece, base plus one when k does not divide the length, is the ceiling of length / k |
| UndergroundLab.WithinLimit | platform/Codeforces/c-underground-lab/solution.cpp:53-56 | A path of at most 2n entries cut into k lines keeps each route within ceil(2n / k) |
| UndergroundLab.Solve | platform/Codeforces/c-underground-lab/solution.cpp:30-91 | k lines that read back as the path from 1 in order, each route non-empty and at most ceil(2n / k) long |
| LabWalks.BuildSymmetric | platform/Codeforces/c-underground-lab/solution.cpp:43-44 | Every corridor is listed from both ends |
| LabTour.TourDfs | platform/Codeforces/c-underground-lab/solution.cpp:19-50 | With the return step the comments call for, the new part of the path is a walk from v back to v; it runs through exactly the newly marked vertices, with two entries per new mark but one, and every neighbour of a new mark is marked except possibly p |
| LabTour.TourStep | platform/Codeforces/c-underground-lab/solution.cpp:23-27 | One neighbour: a nested tour followed by the return to v, or nothing when the neighbour is p or marked |
| LabTour.TourChild | platform/Codeforces/c-underground-lab/solution.cpp:25-26 | A nested tour and the return step keep the walk, the mark count and the closure |
| LabWalks.Rejoin | platform/Codeforces/c-underground-lab/solution.cpp:25-26 | v leads into a nested tour from its neighbour, and the return step leads back to v |
| LabRoutes.Tour | platform/Codeforces/c-underground-lab/solution.cpp:50-51 | The corrected search from 1 is a walk of fewer than 2n entries, all in 1..n, and every neighbour of an entry is on it |
| LabRoutes.PiecesAreWalks | platform/Codeforces/c-underground-lab/solution.cpp:60-85 | Cutting a walk into consecutive pieces leaves every clone's route a walk; the filler is vertex 1 alone |
| LabRoutes.SolveFixed | platform/Codeforces/c-underground-lab/solution.cpp:30-91 | With the return step, k lines read back as the tour; each route is a non-empty walk along corridors, at most ceil(2n / k) long |
| LabRoutes.PreorderNotWalk | platform/Codeforces/c-underground-lab/solution.cpp:19-51 | With corridors 1-2 and 1-3, every path the written dfs can leave puts 2 and 3 next to each other, and they share no corridor; with one clone that path is its whole route |
| MailStamps.AddStamp | platform/Codeforces/c-mail-stamps/solution.cpp:43-44 | Reading a stamp gives both its cities a list |
| MailStamps.AddStampCounts | platform/Codeforces/c-mail-stamps/solution.cpp:43-44 | One stamp (a, b) puts b on a's list once and a on b's once, so a stamp from a city to itself puts it there twice |
| MailStamps.BuildCounts | platform/Codeforces/c-mail-stamps/solution.cpp:39-48 | w is on v's list once per stamp from v to w plus once per stamp from w to v |
| MailStamps.TallyIsDegree | platform/Codeforces/c-mail-stamps/solution.cpp:45-46 | cnt[v] is the number of stamp ends at v, which is the length of v's list; the cities counted are exactly the cities with a list |
| MailStamps.PickStart | platform/Codeforces/c-mail-stamps/solution.cpp:50-56 | Scanning the counts in the map's order, the start is a city with count 1 when there is one, and -1 otherwise |
| MailStamps.DegreeChoice | platform/Codeforces/c-mail-stamps/solution.cpp:50-56 | The start has exactly one neighbour listed when some city does, and is -1 otherwise |
| MailStamps.Solve | platform/Codeforces/c-mail-stamps/solution.cpp:36-62 | The route printed begins at the start; it has no repeats; each later city shares a stamp with an earlier one; every city sharing a stamp with a printed one is printed |
| BobString.Operations | platforms/hackerrank/Bob_and_String.cpp:36-62 | Whatever order the maps are visited in, the count printed is the number of letters S has beyond T plus the number T has beyond S |
| BobString.DistanceProperties | platforms/hackerrank/Bob_and_String.cpp:8-10 | The count is symmetric in S and T, at most the two lengths together, and 0 exactly when S and T are anagrams |
| BobString.DistanceIsAbsDiffSum | platforms/hackerrank/Bob_and_String.cpp:8-10 | Over any alphabet listing every letter once, the count is the sum of the per-letter count differences, as the approach notes say |
| BobString.SumCountsSplit | platforms/hackerrank/Bob_and_String.cpp:50-56 | Each letter's difference goes wholly to S's surplus or to T's |
| BobString.CardBySupport | platforms/hackerrank/Bob_and_String.cpp:59-61 | The letters left in T's map add up to T's surplus |
| RingRoad.CppRem | platform/Codeforces/a-ring-road/solution.cpp:46-49 | C++'s % keeps the dividend's sign and stays below the divisor in size |
| RingRoad.RingRoad | platform/Codeforces/a-ring-road/solution.cpp:31-55 | cost_ccw is the total of the roads from a to a % n + 1, cost_cw the total of the other roads from b % n + 1 to b; the answer is the smaller |
| RingRoad.WaysPartition | platform/Codeforces/a-ring-road/solution.cpp:46-52 | No road is charged to both costs: the two costs plus the roads joining no neighbours add up to the total |
| RingRoad.ReverseSwapsWay | platform/Codeforces/a-ring-road/solution.cpp:46-51 | On a ring of three or more cities a road runs one way exactly when its reverse runs the other way |
| RingRoad.RemOnRing | platform/Codeforces/a-ring-road/solution.cpp:46-49 | For a city 1..n, a % n is a, except n gives 0 |
| RingRoad.ReverseAllSwapsCosts | platform/Codeforces/a-ring-road/solution.cpp:7-14 | Turning every road round swaps the two costs, so the answer does not change (see also line 55 of the same file) |
| MagicalJewels.LetterCounts | platforms/hackerrank/Little_Jhool_and_the_Magical_Jewels.cpp:31-34 | The map holds each letter's count in s; a missing letter reads 0 |
| MagicalJewels.Rubies | platforms/hackerrank/Little_Jhool_and_the_Magical_Jewels.cpp:29-45 | The count printed is the fewest of the four letters r, u, b, y in s |
| MagicalJewels.OneMoreRuby | platforms/hackerrank/Little_Jhool_and_the_Magical_Jewels.cpp:37-44 | Adding the letters of "ruby" spells exactly one more ruby |
| MaxSubarray.MaximumSumSubarray | platforms/hackerrank/MaximumSubarray.cpp:17-30 | k above the length (or negative, which compares as a huge unsigned value) gives -1; otherwise the result is the largest sum of k consecutive elements, and some window attains it |
| MaxSubarray.WindowStep | platforms/hackerrank/MaximumSubarray.cpp:26-27 | Sliding the window one step adds the new element and drops the oldest |
| ArrayManipulation.ValueStep | platforms/hackerrank/Array_Manipulation.cpp:38-41 | One step of the prefix pass adds the next cell of the difference array |
| ArrayManipulation.ValueIsCoverage | platforms/hackerrank/Array_Manipulation.cpp:7-41 | For ranges with a <= b, each position's value is the sum of k over the queries whose range holds it |
| ArrayManipulation.ValueAtZero | platforms/hackerrank/Array_Manipulation.cpp:32-40 | Cell 0 of the prefix pass is cell 0 of the difference array |
| ArrayManipulation.ZeroCellUntouched | platforms/hackerrank/Array_Manipulation.cpp:32-40 | With every range starting at 1 or later, cell 0 stays 0, so the prefix pass starts from nothing |
| ArrayManipulation.ArrayManipulation | platforms/hackerrank/Array_Manipulation.cpp:25-42 | The result is the value at some position 1..n, and no position 1..n has a larger value |
| PairSums.Wrap32 | platforms/hackerrank/Pair_Sums.cpp:33 | The int32 complement lies in the 32-bit range and agrees with k - l modulo 2^32 |
| PairSums.PairSums | platforms/hackerrank/Pair_Sums.cpp:21-43 | YES exactly when some later value's 32-bit complement occurs earlier; it stops at the first such position, with no pair before it |
| PairSums.NoPairExtends | platforms/hackerrank/Pair_Sums.cpp:34-38 | A value without a partner among the earlier ones keeps the prefix free of pairs |
| PairSums.PairWithoutOverflow | platforms/hackerrank/Pair_Sums.cpp:33-35 | Without 32-bit overflow, YES means two values at distinct positions add up to k |
| ContainsDuplicate.ContainsDuplicate | platforms/leetcode/217.contains-duplicate.cpp:20-27 | True exactly when some value occurs at two positions |

## Left out

- Running processes. The scripts compile with `g++` and `javac` and run
  programs under `subprocess.run` with wall-clock timeouts. These appear
  as abstract outcome records: did it time out, the exit code, stdout,
  stderr. Run times and the batch success rate are modelled as exact
  reals; floating-point rounding is left out.
- The thread pool's concurrency. Parallel mode is modelled only through
  the order in which records come back, which is given as a permutation.
- Walking the file system, `stat` and modification times, reading and
  writing JSON, and `datetime.now()`. Directory listings, file contents
  and timestamps are passed in as data.
- Persisting results. `save_results` and `save_batch_results` call
  `datetime` without importing it, so as written they raise `NameError`.
  No persistence is modelled.
- The companion listener's HTTP server and request handling, and
  `urlparse`. The domain and path come in as strings, and the
  subprocess-driven setup it triggers is left out.
- Command-line `main` functions, argument parsing beyond the
  three-argument check of `simple_setup.py`, all printing, and the
  `output.txt` the tester writes.
- The directory-wide header commands of `auto_header.py`
  (`add_headers_to_directory`, `add_headers_batch`). They loop over the
  files already modelled one at a time.
- JSON beyond the record file. `Json` writes and reads back string
  literals only, and the record file is read back line by line. A general
  `json.load` of whole documents is not modelled. The `.prob` file is
  modelled as its fields, not as its JSON text.
- The reading of `problem_info.json` as a fallback for contest info.
  The parsed result is a parameter.
- `quick_commands.py`, `init_repo.py`, `process_problem.py` and
  `update_readme.py`. They are shell plumbing or fixed-file writers with
  no logic to state.
- `D_Non_zero_Segments.cpp`. Its header is an unfilled template that
  states no intent.
- Unicode. `isalnum`, `lower`, `title`, `strip` and the other string
  operations are modelled on ASCII only. `strip` also treats `\x1c` to
  `\x1f` as space, as Python does.
- The template text that `simple_setup.py` writes into new files. Only
  the names and URLs it builds are modelled.
- Reading input with `cin` and printing with `cout`. The programs are
  modelled over their input sequences.
- AutoHeader.AddHeaderToFile: a failed write is modelled as writing
  nothing. A file that `open(..., 'w')` truncates before the write fails
  is not modelled, because where the write fails is not part of the data.
- BatchOperations.SearchRoot: a platform name is taken as one directory
  name below the platforms directory. A name holding `/`, `.` or `..`,
  or an absolute path, which `pathlib` would join as several components
  or as a path outside that directory, is not modelled, because the tree
  is given as component lists below the platforms directory.
- RingRoad.RingRoad: the costs are unbounded integers. The program's
  `int` sums could overflow only far beyond the problem's limits.
- RingRoad.RingRoad: roads are classified by the numeric ring order
  1, 2, ..., n, exactly as the program does. The model does not decide
  whether that order is the one the problem's input describes.
- MaxSubarray.MaximumSumSubarray: the window sum is an unbounded integer.
  The program's `int` sum is not wrapped.
- ArrayManipulation.ArrayManipulation: the cells are unbounded integers.
  The program's `long long` cells cannot overflow within the problem's
  limits.
- BobString.Operations: the `unsigned long long` counts are unbounded.
  The hash maps' iteration order is not modelled. Each round the method
  picks any remaining key, so the ensures hold for every visiting order.
- EarningProfit.Solve: the inputs arrive as plain integers already
  read. The 64-bit wrap-around is modelled from there on.
- EarningProfit.SolveFixed: the corrected profits are unbounded
  integers. A signed 64-bit version is assumed wide enough for the
  problem's limits.
- Dsu.Singletons: the fixed capacity `N = 2e3 + 10` of the program's
  arrays is not modelled. The forest has exactly the nodes 0..n.
- PowerGrid.Solve: it proves the forest shape, the cost bookkeeping, and
  that no accepted wire costs more than the dearer of its cities'
  stations. It does not prove that the total is minimal.
- PowerGrid.Solve: the problem's input limits are assumed through
  `InputBounds`, as the problem statement promises. The program never
  checks them.
- MailStamps.Solve: the start choice depends on the hash map's order,
  which is a parameter. The proof stops at the walk's local shape: no
  repeats, each city joined to an earlier one, neighbours closed. It does
  not prove that the output is the whole route.
- AbcPath.Solve: the grid is a sequence of rows of the given size. The
  program's fixed 55 by 55 arrays are not modelled. Cells are compared
  by code point, as in the program, so a '[' follows a 'Z'. The input is
  expected to hold only capital letters.
- AbcPath.Solve: output for several test cases is not modelled.
- UndergroundLab.Solve: the problem's limits (1 <= n, 1 <= k, corridor
  ends in 1..n) are preconditions. The program does not check them.
- UndergroundLab.Solve: the `vector` of adjacency lists is a map from
  vertex to list.

## Findings

| source | as written | input that shows it | evidently intended | confidence | as-written member | corrected member |
|---|---|---|---|---|---|---|
| platform/Codeforces/c-underground-lab/solution.cpp:19-28 | `dfs` appends a vertex only on entry, so the path is a preorder listing, not a walk along corridors. The commented-out `push_back(v)` at line 26 sits outside `if (!vis[child])`. Restored as it stands, it would append `v` after every non-parent child, visited ones included, so `v` would repeat in place and on a graph with cycles the path could exceed 2n - 1 entries. | n = 3, corridors 1-2 and 1-3, k = 1: the one clone's route is 1 2 3 (or 1 3 2), and 2 and 3 share no corridor. | An Euler-tour walk (comments at lines 50 and 53): append v again only after each nested call into an unvisited child, as LabTour.TourDfs does. This gives a walk of at most 2n - 1 entries, which fits the ceil(2n / k) limit. | not executed | UndergroundLab.Walk, LabRoutes.PreorderNotWalk | LabTour.TourDfs, LabRoutes.SolveFixed |
| platforms/CodeChef/Earning_A_Profit.cpp:38-41 | Every profit is an unsigned 64-bit number, so a segment that loses money wraps to a value near 2^64 and beats the starting 0 of `maxProfit` (line 76). | N = 1, A = 1, one planet with fuel 2 and difficulty 0: the profit is -1 and the program prints 18446744073709551615. | The comment at line 75: the answer is the best signed profit, or 0 when every segment loses. | not executed | EarningProfit.Solve, EarningProfit.LosingSegmentWins | EarningProfit.SolveFixed, EarningProfit.LosingSegmentFixed |
