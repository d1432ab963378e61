/** The statistics scan: how each file of a problem directory is classified,
    how a problem's status is guessed from its solution files, and the counts
    and recent-activity list computed over all problems.

    Directory listings, file contents and modification timestamps (already
    rendered as ISO-8601 strings) are given as data. */
module StatsGenerator {
  import opened Wrappers
  import opened Strings
  import opened Ordering
  import opened Counting
  import opened Paths

  // ---------------------------------------------------------------------------
  // file names

  /** The language a source suffix stands for. */
  function LanguageOf(suffix: string): (r: Option<string>)
    ensures r.Some? <==> suffix in {".py", ".cpp", ".java", ".js"}
  {
    if suffix == ".py" then Some("Python")
    else if suffix == ".cpp" then Some("C++")
    else if suffix == ".java" then Some("Java")
    else if suffix == ".js" then Some("JavaScript")
    else None
  }

  /** The `type` recorded for a file; absent for a source file whose stem does
      not mention "solution". */
  function FileType(name: string): (r: Option<string>)
    ensures LanguageOf(Suffix(name)).Some? ==>
      (r == Some("solution") <==> Contains(Lower(Stem(name)), "solution")) && (r.Some? ==> r == Some("solution"))
    ensures LanguageOf(Suffix(name)).None? ==> r.Some? && r.value in {"documentation", "metadata", "test_cases", "other"}
    ensures LanguageOf(Suffix(name)).None? ==> (r == Some("documentation") <==> name == "README.md")
    ensures LanguageOf(Suffix(name)).None? ==> (r == Some("metadata") <==> name == "metadata.json")
    ensures LanguageOf(Suffix(name)).None? ==> (r == Some("test_cases") <==> name == "test_cases.json")
  {
    if LanguageOf(Suffix(name)).Some? then
      if Contains(Lower(Stem(name)), "solution") then Some("solution") else None
    else if name == "README.md" then Some("documentation")
    else if name == "metadata.json" then Some("metadata")
    else if name == "test_cases.json" then Some("test_cases")
    else Some("other")
  }

  /** The language is decided by the extension alone: whatever dot-free name
      stands in front of it, a file `name.ext` gets the language of `.ext`. */
  lemma LanguageIgnoresStem(stem: string, ext: string)
    requires |stem| > 0 && |ext| > 0 && '.' !in stem && '.' !in ext
    ensures LanguageOf(Suffix(stem + "." + ext)) == LanguageOf("." + ext)
  {
    SimpleName(stem, ext);
  }

  // ---------------------------------------------------------------------------
  // one problem directory

  /** An entry of a problem directory: its name, whether it is a regular file,
      its modification time, and its text when it can be read. */
  datatype Entry = Entry(name: string, isFile: bool, modified: string, content: Option<string>)

  /** The record kept for each file (the size is not modelled). */
  datatype FileInfo = FileInfo(name: string, lastModified: string, fileType: Option<string>)

  function FileInfoOf(e: Entry): FileInfo {
    FileInfo(e.name, e.modified, FileType(e.name))
  }

  predicate IsFileEntry(e: Entry) { e.isFile }

  /** One record per regular file: its name, time and type. */
  function FileInfos(entries: seq<Entry>): (r: seq<FileInfo>)
    ensures |r| == Count(entries, IsFileEntry)
    ensures forall f :: f in r <==> exists e :: e in entries && e.isFile && f == FileInfo(e.name, e.modified, FileType(e.name))
  {
    Map(Filter(entries, IsFileEntry), FileInfoOf)
  }

  /** The records follow the listing: a further entry adds its own record at
      the end when it is a regular file, and nothing otherwise. */
  lemma FileInfosInOrder(entries: seq<Entry>, e: Entry)
    ensures FileInfos([]) == []
    ensures FileInfos(entries + [e]) == FileInfos(entries) + (if e.isFile then [FileInfo(e.name, e.modified, FileType(e.name))] else [])
  {
    var before, one := Filter(entries, IsFileEntry), Filter([e], IsFileEntry);
    FilterAppend(entries, [e], IsFileEntry);
    FilterOne(e);
    MapAppend(before, one, FileInfoOf);
  }

  lemma FilterOne(e: Entry)
    ensures Filter([e], IsFileEntry) == if e.isFile then [e] else []
  {
    assert [e][1..] == [];
  }

  /** The languages of the directory's files. */
  function Languages(entries: seq<Entry>): (r: set<string>)
    ensures r <= {"Python", "C++", "Java", "JavaScript"}
    ensures forall l :: l in r <==> exists e :: e in entries && e.isFile && LanguageOf(Suffix(e.name)) == Some(l)
  {
    set e, l | e in entries && e.isFile && l in {"Python", "C++", "Java", "JavaScript"} && LanguageOf(Suffix(e.name)) == Some(l) :: l
  }

  /** The running maximum of the file timestamps, starting from `current`. */
  function LatestFrom(entries: seq<Entry>, current: string): (r: string)
    ensures StrLessEq(current, r)
    ensures forall e :: e in entries && e.isFile ==> StrLessEq(e.modified, r)
    ensures r == current || exists e :: e in entries && e.isFile && e.modified == r
    decreases |entries|
  {
    StrLessIsStrictTotal();
    if |entries| == 0 then current
    else
      var e := entries[0];
      var next := if e.isFile && (current == "" || StrLess(current, e.modified)) then e.modified else current;
      EmptyIsLeast(e.modified);
      EmptyIsLeast(current);
      assert StrLessEq(current, next);
      var r := LatestFrom(entries[1..], next);
      assert forall x :: x in entries <==> x == e || x in entries[1..];
      r
  }

  lemma EmptyIsLeast(s: string)
    ensures StrLessEq("", s)
  {
  }

  /** The problem's `last_modified`: the greatest file timestamp in string
      order, or "" when there is no file. */
  function LastModified(entries: seq<Entry>): (r: string)
    ensures forall e :: e in entries && e.isFile ==> StrLessEq(e.modified, r)
    ensures r == "" || exists e :: e in entries && e.isFile && e.modified == r
  {
    LatestFrom(entries, "")
  }

  // ---------------------------------------------------------------------------
  // meaningful lines and status

  const CommentPrefixes: seq<string> := ["#", "//", "/*", "*", "\"\"\""]
  const TemplateWords: seq<string> := ["implementation here", "todo", "pass", "# test cases"]

  /** A stripped line that is not blank and not a comment. */
  predicate IsCodeLine(line: string) {
    line != "" && forall k :: 0 <= k < |CommentPrefixes| ==> !StartsWith(line, CommentPrefixes[k])
  }

  predicate KeepRawLine(raw: string) { IsCodeLine(Strip(raw)) }

  /** The line mentions a template word, in any letter case. */
  predicate HasTemplateWord(line: string) {
    exists k :: 0 <= k < |TemplateWords| && Contains(Lower(line), TemplateWords[k])
  }

  predicate IsMeaningful(line: string) { !HasTemplateWord(line) }

  /** The stripped lines that are neither blank, comments nor template text. */
  function MeaningfulLines(content: string): seq<string> {
    Filter(Map(Filter(Split(content, '\n'), KeepRawLine), Strip), IsMeaningful)
  }

  /** Every line counted is a stripped code line free of template text. */
  lemma MeaningfulLinesAreCode(content: string)
    ensures forall line :: line in MeaningfulLines(content) ==> IsCodeLine(line) && !HasTemplateWord(line) && Strip(line) == line
  {
    var kept := Filter(Split(content, '\n'), KeepRawLine);
    var lines := Map(kept, Strip);
    forall line | line in MeaningfulLines(content)
      ensures IsCodeLine(line) && !HasTemplateWord(line) && Strip(line) == line
    {
      assert line in lines;
      var j :| 0 <= j < |lines| && lines[j] == line;
      assert KeepRawLine(kept[j]);
      TrimIdempotent(kept[j], IsSpace);
    }
  }

  /** Counting is line by line: the meaningful lines of two texts joined by a
      newline are those of the first followed by those of the second. */
  lemma MeaningfulLinesAppend(a: string, b: string)
    ensures MeaningfulLines(a + "\n" + b) == MeaningfulLines(a) + MeaningfulLines(b)
  {
    SplitAppend(a, b, '\n');
    assert a + "\n" + b == a + ['\n'] + b;
    FilterAppend(Split(a, '\n'), Split(b, '\n'), KeepRawLine);
    MapAppend(Filter(Split(a, '\n'), KeepRawLine), Filter(Split(b, '\n'), KeepRawLine), Strip);
    FilterAppend(Map(Filter(Split(a, '\n'), KeepRawLine), Strip), Map(Filter(Split(b, '\n'), KeepRawLine), Strip), IsMeaningful);
  }

  /** Adding a blank or comment line never changes the count. */
  lemma CommentLineIgnored(a: string, line: string)
    requires '\n' !in line && !IsCodeLine(Strip(line))
    ensures MeaningfulLines(a + "\n" + line) == MeaningfulLines(a)
  {
    MeaningfulLinesAppend(a, line);
    SplitJoin([line], '\n');
    assert Split(line, '\n') == [line];
  }

  /** The number of meaningful lines of a text. */
  function MeaningfulCount(text: string): nat {
    |MeaningfulLines(text)|
  }

  /** A `solution.*` entry with a known source suffix, as globbed for the
      status check. */
  predicate IsStatusCandidate(e: Entry) {
    StartsWith(e.name, "solution.") && LanguageOf(Suffix(e.name)).Some?
  }

  /** What reading a candidate gives: its meaningful-line count, or nothing
      when it cannot be read. */
  function CandidateLines(e: Entry): Option<nat> {
    match e.content
    case None => None
    case Some(text) => Some(MeaningfulCount(text))
  }

  /** A readable candidate with more than five meaningful lines decides the
      status. */
  predicate Decisive(lines: Option<nat>) {
    lines.Some? && lines.value > 5
  }

  /** The status from the first decisive candidate, or "started". */
  function StatusFrom(counts: seq<Option<nat>>): (r: string)
    ensures r in {"completed", "in_progress", "started"}
    ensures r == "started" <==> forall i :: 0 <= i < |counts| ==> !Decisive(counts[i])
  {
    if |counts| == 0 then "started"
    else
      var rest := StatusFrom(counts[1..]);
      assert forall i :: 1 <= i < |counts| ==> counts[i] == counts[1..][i - 1];
      match counts[0]
      case None => rest
      case Some(n) =>
        if n > 10 then "completed" else if n > 5 then "in_progress" else rest
  }

  /** The first decisive candidate decides: over 10 meaningful lines means
      "completed", 6 to 10 means "in_progress". */
  lemma {:induction false} FirstDecisiveWins(counts: seq<Option<nat>>, i: nat)
    requires i < |counts| && Decisive(counts[i])
    requires forall j :: 0 <= j < i ==> !Decisive(counts[j])
    ensures StatusFrom(counts) == if counts[i].value > 10 then "completed" else "in_progress"
    decreases i
  {
    if i > 0 {
      var tail := counts[1..];
      assert !Decisive(counts[0]);
      assert forall j :: 0 <= j < i - 1 ==> tail[j] == counts[j + 1];
      FirstDecisiveWins(tail, i - 1);
    }
  }

  function DetermineStatus(entries: seq<Entry>): (r: string)
    ensures r in {"completed", "in_progress", "started", "not_started"}
    ensures r == "not_started" <==> forall i :: 0 <= i < |entries| ==> !IsStatusCandidate(entries[i])
  {
    var candidates := Filter(entries, IsStatusCandidate);
    if |candidates| == 0 then "not_started" else StatusFrom(Map(candidates, CandidateLines))
  }

  // ---------------------------------------------------------------------------
  // scanning

  /** The parsed `metadata.json`, field by field (`None` when a key is absent). */
  datatype Metadata = Metadata(
    difficulty: Option<string>, status: Option<string>, url: Option<string>,
    id: Option<string>, tags: Option<seq<string>>, created: Option<string>)

  datatype MetadataFile = NoMetadata | UnreadableMetadata | MetadataFound(data: Metadata)

  datatype ProblemDir = ProblemDir(name: string, entries: seq<Entry>, metadata: MetadataFile)

  datatype ProblemInfo = ProblemInfo(
    name: string, platform: string, directory: string, files: seq<FileInfo>,
    languages: set<string>, difficulty: string, status: string, url: string,
    problemId: string, tags: seq<string>, dateCreated: string, lastModified: string)

  /** The status before the content check: "Unknown" unless the metadata
      names one. */
  function MetadataStatus(m: MetadataFile): string {
    if m.MetadataFound? then m.data.status.GetOr("Unknown") else "Unknown"
  }

  function ScanProblem(platform: string, d: ProblemDir): (r: ProblemInfo)
    ensures r.name == d.name && r.platform == platform
    ensures r.directory == "platform/" + platform + "/" + d.name
    ensures r.status == if MetadataStatus(d.metadata) == "Unknown" then DetermineStatus(d.entries) else MetadataStatus(d.metadata)
    ensures d.metadata.NoMetadata? || d.metadata.UnreadableMetadata? ==>
      r.difficulty == "Unknown" && r.url == "" && r.tags == [] && r.problemId == "" && r.dateCreated == ""
    // a readable metadata file supplies each field it has, the defaults stand for the rest
    ensures d.metadata.MetadataFound? ==>
      var m := d.metadata.data;
      r.difficulty == m.difficulty.GetOr("Unknown") && r.url == m.url.GetOr("") && r.problemId == m.id.GetOr("")
      && r.tags == m.tags.GetOr([]) && r.dateCreated == m.created.GetOr("")
    // the file list, the languages and the latest change come from the directory's files
    ensures r.files == FileInfos(d.entries) && r.languages == Languages(d.entries)
    ensures r.lastModified == LastModified(d.entries)
  {
    var m := if d.metadata.MetadataFound? then d.metadata.data else Metadata(None, None, None, None, None, None);
    var status := MetadataStatus(d.metadata);
    ProblemInfo(
      d.name, platform, "platform/" + platform + "/" + d.name,
      FileInfos(d.entries), Languages(d.entries),
      m.difficulty.GetOr("Unknown"), if status == "Unknown" then DetermineStatus(d.entries) else status,
      m.url.GetOr(""), m.id.GetOr(""), m.tags.GetOr([]), m.created.GetOr(""),
      LastModified(d.entries))
  }

  /** A problem scanned without a metadata file always has one of the four
      content-derived statuses. */
  lemma StatusWithoutMetadata(platform: string, d: ProblemDir)
    requires d.metadata.NoMetadata?
    ensures ScanProblem(platform, d).status in {"completed", "in_progress", "started", "not_started"}
  {
  }

  function ScanPlatform(platform: string, dirs: seq<ProblemDir>): (r: seq<ProblemInfo>)
    ensures |r| == |dirs|
    ensures forall i :: 0 <= i < |r| ==> r[i] == ScanProblem(platform, dirs[i])
  {
    Map(dirs, (d: ProblemDir) => ScanProblem(platform, d))
  }

  // ---------------------------------------------------------------------------
  // statistics

  const DifficultyKeys: seq<string> := ["Easy", "Medium", "Hard", "Unknown"]
  const LanguageKeys: seq<string> := ["Python", "C++", "Java", "JavaScript"]
  const StatusKeys: seq<string> := ["completed", "in_progress", "started", "not_started"]

  lemma DifficultyKeysDistinct()
    ensures forall i, j :: 0 <= i < j < |DifficultyKeys| ==> DifficultyKeys[i] != DifficultyKeys[j]
  {
    var ks := DifficultyKeys;
    assert ks[0][0] == 'E' && ks[1][0] == 'M' && ks[2][0] == 'H' && ks[3][0] == 'U';
  }

  lemma StatusKeysDistinct()
    ensures forall i, j :: 0 <= i < j < |StatusKeys| ==> StatusKeys[i] != StatusKeys[j]
  {
    var ks := StatusKeys;
    assert ks[0][0] == 'c' && ks[1][0] == 'i' && ks[2][0] == 's' && ks[3][0] == 'n';
  }

  /** The bucket a difficulty is counted under. */
  function DifficultyBucket(d: string): (r: string)
    ensures r in DifficultyKeys
    ensures d in DifficultyKeys ==> r == d
  {
    if d in DifficultyKeys then d else "Unknown"
  }

  function Bucket(p: ProblemInfo): string { DifficultyBucket(p.difficulty) }
  function PlatformOf(p: ProblemInfo): string { p.platform }
  function StatusOf(p: ProblemInfo): string { p.status }

  datatype RecentEntry = RecentEntry(name: string, platform: string, lastModified: string, status: string)

  datatype Stats = Stats(
    total: nat,
    platforms: map<string, nat>,
    difficulty: map<string, nat>,
    languages: map<string, nat>,
    status: map<string, nat>,
    recent: seq<RecentEntry>)

  function PlatformCounts(ps: seq<ProblemInfo>): (m: map<string, nat>)
    ensures forall k :: k in m <==> exists i :: 0 <= i < |ps| && ps[i].platform == k
    ensures forall k :: k in m ==> m[k] == GroupCount(ps, PlatformOf, k)
  {
    var platforms := set i | 0 <= i < |ps| :: PlatformOf(ps[i]);
    map k | k in platforms :: GroupCount(ps, PlatformOf, k)
  }

  /** Newest first: `a` may precede `b` when it was modified no earlier. */
  predicate NewerOrSame(a: ProblemInfo, b: ProblemInfo) {
    StrLessEq(b.lastModified, a.lastModified)
  }

  lemma NewerOrSameIsPreorder()
    ensures TotalPreorder(NewerOrSame)
  {
    StrLessIsStrictTotal();
  }

  function RecentEntryOf(p: ProblemInfo): RecentEntry {
    RecentEntry(p.name, p.platform, p.lastModified, p.status)
  }

  /** The problems sorted newest first, cut to ten.  The sort is stable, so
      among problems with the same time the earlier scanned comes first: the
      listed problems of each time are the first ones of that time in `ps`. */
  function RecentProblems(ps: seq<ProblemInfo>): (r: seq<ProblemInfo>)
    ensures |r| == if |ps| < 10 then |ps| else 10
    ensures forall i, j :: 0 <= i < j < |r| ==> StrLessEq(r[j].lastModified, r[i].lastModified)
    ensures multiset(r) <= multiset(ps)
    ensures forall y :: Ties(r, y, NewerOrSame) <= Ties(ps, y, NewerOrSame)
  {
    NewerOrSameIsPreorder();
    var sorted := SortBy(ps, NewerOrSame);
    assert |sorted| == |multiset(sorted)| == |ps|;
    var m := if |ps| < 10 then |ps| else 10;
    assert sorted == sorted[..m] + sorted[m..];
    assert forall y :: Ties(sorted[..m], y, NewerOrSame) <= Ties(ps, y, NewerOrSame) by {
      forall y ensures Ties(sorted[..m], y, NewerOrSame) <= Ties(ps, y, NewerOrSame) {
        SortByStable(ps, y, NewerOrSame);
        TiesOfPrefix(sorted, m, y, NewerOrSame);
      }
    }
    sorted[..m]
  }

  /** The recent list really holds the newest problems: any problem left out
      is no newer than every one listed. */
  lemma RecentAreNewest(ps: seq<ProblemInfo>, q: ProblemInfo)
    requires q in ps
    ensures var r := RecentProblems(ps);
      q in r || forall i :: 0 <= i < |r| ==> StrLessEq(q.lastModified, r[i].lastModified)
  {
    NewerOrSameIsPreorder();
    var sorted := SortBy(ps, NewerOrSame);
    var m := if |ps| < 10 then |ps| else 10;
    assert q in multiset(sorted);
    var k :| 0 <= k < |sorted| && sorted[k] == q;
    if k >= m {
      assert forall i :: 0 <= i < m ==> NewerOrSame(sorted[i], sorted[k]);
    }
  }

  function LanguageCount(ps: seq<ProblemInfo>, language: string): nat {
    Count(ps, (p: ProblemInfo) => language in p.languages)
  }

  function CalculateStatistics(ps: seq<ProblemInfo>): (s: Stats)
    ensures s.total == |ps|
    ensures s.platforms == PlatformCounts(ps)
    ensures forall k :: k in s.difficulty <==> k in DifficultyKeys
    ensures forall k :: k in DifficultyKeys ==> s.difficulty[k] == GroupCount(ps, Bucket, k)
    ensures forall k :: k in s.status <==> k in StatusKeys
    ensures forall k :: k in StatusKeys ==> s.status[k] == GroupCount(ps, StatusOf, k)
    ensures forall k :: k in s.languages <==> k in LanguageKeys
    ensures forall k :: k in LanguageKeys ==> s.languages[k] == LanguageCount(ps, k)
    ensures s.recent == Map(RecentProblems(ps), RecentEntryOf)
  {
    Stats(
      |ps|,
      PlatformCounts(ps),
      map k | k in DifficultyKeys :: GroupCount(ps, Bucket, k),
      map k | k in LanguageKeys :: LanguageCount(ps, k),
      map k | k in StatusKeys :: GroupCount(ps, StatusOf, k),
      Map(RecentProblems(ps), RecentEntryOf))
  }

  /** Every problem is counted under exactly one difficulty, so the
      difficulty counts add up to the total. */
  lemma DifficultyCountsSum(ps: seq<ProblemInfo>)
    ensures forall i :: 0 <= i < |DifficultyKeys| ==> DifficultyKeys[i] in CalculateStatistics(ps).difficulty
    ensures SumValues(CalculateStatistics(ps).difficulty, DifficultyKeys) == |ps|
  {
    DifficultyKeysDistinct();
    GroupCountsSum(ps, Bucket, DifficultyKeys);
    SumValuesOfGroups(CalculateStatistics(ps).difficulty, ps, Bucket, DifficultyKeys);
  }

  /** Statuses outside the four known ones are not counted, so the status
      counts add up to at most the total. */
  lemma StatusCountsAtMostTotal(ps: seq<ProblemInfo>)
    ensures forall i :: 0 <= i < |StatusKeys| ==> StatusKeys[i] in CalculateStatistics(ps).status
    ensures SumValues(CalculateStatistics(ps).status, StatusKeys) <= |ps|
  {
    StatusKeysDistinct();
    GroupCountsAtMost(ps, StatusOf, StatusKeys);
    SumValuesOfGroups(CalculateStatistics(ps).status, ps, StatusOf, StatusKeys);
  }

  /** Every problem is counted under its own platform, so the platform counts
      add up to the total, whatever order the platforms are listed in. */
  lemma PlatformCountsSum(ps: seq<ProblemInfo>, keys: seq<string>)
    requires forall i, j :: 0 <= i < j < |keys| ==> keys[i] != keys[j]
    requires forall k :: k in keys <==> k in PlatformCounts(ps)
    ensures forall i :: 0 <= i < |keys| ==> keys[i] in PlatformCounts(ps)
    ensures SumValues(PlatformCounts(ps), keys) == |ps|
  {
    EveryPlatformListed(ps, keys);
    GroupCountsSum(ps, PlatformOf, keys);
    ListedPlatformCounts(ps, keys);
    SumValuesOfGroups(PlatformCounts(ps), ps, PlatformOf, keys);
  }

  lemma ListedPlatformCounts(ps: seq<ProblemInfo>, keys: seq<string>)
    requires forall k :: k in keys <==> k in PlatformCounts(ps)
    ensures forall i :: 0 <= i < |keys| ==>
      keys[i] in PlatformCounts(ps) && PlatformCounts(ps)[keys[i]] == GroupCount(ps, PlatformOf, keys[i])
  {
    var m := PlatformCounts(ps);
    forall i | 0 <= i < |keys|
      ensures keys[i] in m && m[keys[i]] == GroupCount(ps, PlatformOf, keys[i])
    {
      assert keys[i] in keys;
    }
  }

  lemma EveryPlatformListed(ps: seq<ProblemInfo>, keys: seq<string>)
    requires forall k :: k in keys <==> k in PlatformCounts(ps)
    ensures forall i :: 0 <= i < |ps| ==> PlatformOf(ps[i]) in keys
  {
    var m := PlatformCounts(ps);
    forall i | 0 <= i < |ps| ensures PlatformOf(ps[i]) in keys {
      assert ps[i].platform in m;
    }
  }
}
