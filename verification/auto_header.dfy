/** The header inserter: which source files get a header comment, the lines
    of that header, the check that keeps a second insertion from happening,
    and where the contest details in the header come from.

    Whether the file exists, its content when it can be read, whether the
    write succeeds and the current time (already formatted) are given as
    data. */
module AutoHeader {
  import opened Wrappers
  import opened Strings
  import opened Counting
  import opened Paths

  /** The opening and closing comment markers of a header. */
  datatype CommentStyle = CommentStyle(start: string, end: string)

  /** The header style for a lower-cased suffix: C-family and Java files take
      a block comment, Python files a docstring, anything else none. */
  function StyleFor(ext: string): (r: Option<CommentStyle>)
    ensures r.Some? <==> ext in {".cpp", ".cc", ".cxx", ".c", ".java", ".py"}
    ensures ext == ".py" ==> r == Some(CommentStyle("\"\"\"", "\"\"\""))
    ensures ext in {".cpp", ".cc", ".cxx", ".c", ".java"} ==> r == Some(CommentStyle("/*", "*/"))
  {
    if ext in {".cpp", ".cc", ".cxx", ".c", ".java"} then Some(CommentStyle("/*", "*/"))
    else if ext == ".py" then Some(CommentStyle("\"\"\"", "\"\"\""))
    else None
  }

  /** The contest details a header may carry, keyed "platform", "contest" and
      "problem"; an empty map counts as no details. */
  type ContestInfo = map<string, string>

  function InfoField(info: ContestInfo, key: string): string {
    if key in info then info[key] else "Unknown"
  }

  /** The header's lines: opener, author, date, file name, the contest lines
      when details are given, the description, the closer and a final empty
      line (so the joined header ends in a newline). */
  function HeaderLines(style: CommentStyle, author: string, date: string, fileName: string, info: Option<ContestInfo>): (r: seq<string>)
    ensures |r| == if info.Some? && |info.value| > 0 then 10 else 7
    ensures r[0] == style.start && r[1] == " * Author: " + author
    ensures r[2] == " * Date: " + date && r[3] == " * File: " + fileName
    ensures info.Some? && |info.value| > 0 ==>
      r[4] == " * Platform: " + InfoField(info.value, "platform")
      && r[5] == " * Contest: " + InfoField(info.value, "contest")
      && r[6] == " * Problem: " + InfoField(info.value, "problem")
    ensures r[|r| - 3] == " * Description: [Add problem description]"
    ensures r[|r| - 2] == " " + style.end && r[|r| - 1] == ""
  {
    var head := [style.start, " * Author: " + author, " * Date: " + date, " * File: " + fileName];
    var contest :=
      if info.Some? && |info.value| > 0 then
        [" * Platform: " + InfoField(info.value, "platform"),
         " * Contest: " + InfoField(info.value, "contest"),
         " * Problem: " + InfoField(info.value, "problem")]
      else [];
    head + contest + [" * Description: [Add problem description]", " " + style.end, ""]
  }

  /** The file as the inserter finds it. */
  datatype SourceFile =
    | Missing
    | Unreadable(name: string)
    | Readable(name: string, content: string)

  /** What a call returns and the text written to the file (`None` when
      nothing was written, a failed write included). */
  datatype Outcome = Outcome(returned: bool, written: Option<string>)

  /** A header is taken to be present when the opener and "Author:" both
      occur somewhere in the text. */
  predicate HasHeader(style: CommentStyle, content: string) {
    Contains(content, style.start) && Contains(content, "Author:")
  }

  function AddHeaderToFile(file: SourceFile, author: string, date: string, info: Option<ContestInfo>, writeSucceeds: bool): (r: Outcome)
    ensures file.Missing? ==> r == Outcome(false, None)
    ensures file.Unreadable? || (file.Readable? && StyleFor(Lower(Suffix(file.name))).None?) ==> !r.returned && r.written.None?
    ensures file.Readable? && StyleFor(Lower(Suffix(file.name))).Some? ==>
      var style := StyleFor(Lower(Suffix(file.name))).value;
      if HasHeader(style, file.content) then r == Outcome(true, None)
      else (r.returned == writeSucceeds && (r.written.Some? <==> writeSucceeds)
        && (writeSucceeds ==> r.written.value == Join(HeaderLines(style, author, date, file.name, info), '\n') + file.content))
  {
    match file
    case Missing => Outcome(false, None)
    case Unreadable(_) => Outcome(false, None)
    case Readable(name, content) =>
      match StyleFor(Lower(Suffix(name)))
      case None => Outcome(false, None)
      case Some(style) =>
        if HasHeader(style, content) then Outcome(true, None)
        else if writeSucceeds then Outcome(true, Some(Join(HeaderLines(style, author, date, name, info), '\n') + content))
        else Outcome(false, None)
  }

  /** The text written starts with the header, ends with the old content
      unchanged, and the header's last line ends in a newline. */
  lemma {:induction false} HeaderPrependsContent(file: SourceFile, author: string, date: string, info: Option<ContestInfo>, writeSucceeds: bool)
    requires AddHeaderToFile(file, author, date, info, writeSucceeds).written.Some?
    ensures var w := AddHeaderToFile(file, author, date, info, writeSucceeds).written.value;
      file.Readable? && EndsWith(w, file.content) && StartsWith(w, StyleFor(Lower(Suffix(file.name))).value.start)
      && w[|w| - |file.content| - 1] == '\n'
  {
    var style := StyleFor(Lower(Suffix(file.name))).value;
    var lines := HeaderLines(style, author, date, file.name, info);
    var header := Join(lines, '\n');
    JoinEndsInSeparator(lines, '\n');
    JoinFirst(lines, '\n');
    StartsWithExtend(header, file.content, style.start);
    EndsWithAppend(header, file.content);
    assert (header + file.content)[|header| - 1] == '\n';
  }

  /** The joined header carries "Author:" on its second line. */
  lemma {:induction false} HeaderMentionsAuthor(style: CommentStyle, author: string, date: string, fileName: string, info: Option<ContestInfo>)
    ensures Contains(Join(HeaderLines(style, author, date, fileName, info), '\n'), "Author:")
  {
    var lines := HeaderLines(style, author, date, fileName, info);
    var header := Join(lines, '\n');
    var authorLine := " * Author: " + author;
    var rest := [authorLine] + lines[2..];
    assert lines == [lines[0]] + rest;
    JoinAppend([lines[0]], rest, '\n');
    JoinFirst(rest, '\n');
    var at := |lines[0]| + 1 + 3;
    assert header[at..at + 7] == authorLine[3..10];
    assert OccursAt(header, "Author:", at);
  }

  /** Inserting twice is inserting once: the written text already carries the
      opener and "Author:", so a second call reports success and writes
      nothing. */
  lemma {:induction false} AddHeaderIdempotent(file: SourceFile, author: string, date: string, info: Option<ContestInfo>,
                            author': string, date': string, info': Option<ContestInfo>, ok: bool, ok': bool)
    requires AddHeaderToFile(file, author, date, info, ok).written.Some?
    ensures var w := AddHeaderToFile(file, author, date, info, ok).written.value;
      AddHeaderToFile(Readable(file.name, w), author', date', info', ok') == Outcome(true, None)
  {
    var style := StyleFor(Lower(Suffix(file.name))).value;
    var header := Join(HeaderLines(style, author, date, file.name, info), '\n');
    var w := header + file.content;
    HeaderPrependsContent(file, author, date, info, ok);
    assert OccursAt(w, style.start, 0);
    HeaderMentionsAuthor(style, author, date, file.name, info);
    ContainsPrefix(header, file.content, "Author:");
    assert HasHeader(style, w);
  }

  // ---------------------------------------------------------------------------
  // contest details

  /** The `problem_info.json` beside the sources, as far as it matters. */
  datatype InfoFile = NoInfoFile | UnreadableInfo | InfoFound(data: ContestInfo)

  /** The details for a directory: the three parts after "platforms" in its
      path when there are three, otherwise the info file's content, otherwise
      none. */
  function ExtractContestInfo(parts: seq<string>, infoFile: InfoFile): (r: Option<ContestInfo>)
    ensures IndexOf(parts, "platforms").Some? && |parts| > IndexOf(parts, "platforms").value + 3 ==>
      var i := IndexOf(parts, "platforms").value;
      r == Some(map["platform" := parts[i + 1], "contest" := parts[i + 2], "problem" := parts[i + 3]])
    ensures !(IndexOf(parts, "platforms").Some? && |parts| > IndexOf(parts, "platforms").value + 3) ==>
      (r.Some? <==> infoFile.InfoFound?) && (r.Some? ==> r.value == infoFile.data)
  {
    var fromPath :=
      match IndexOf(parts, "platforms")
      case Some(i) =>
        if |parts| > i + 3 then Some(map["platform" := parts[i + 1], "contest" := parts[i + 2], "problem" := parts[i + 3]])
        else None
      case None => None;
    if fromPath.Some? then fromPath
    else if infoFile.InfoFound? then Some(infoFile.data)
    else None
  }

  /** A directory `.../platforms/P/C/X/...` gets platform P, contest C and
      problem X in its header, whatever lies before or after, as long as no
      earlier part is called "platforms". */
  lemma {:induction false} ContestInfoFromPath(before: seq<string>, p: string, c: string, x: string, after: seq<string>, infoFile: InfoFile)
    requires "platforms" !in before
    ensures var info := ExtractContestInfo(before + ["platforms", p, c, x] + after, infoFile);
      info.Some? && InfoField(info.value, "platform") == p
      && InfoField(info.value, "contest") == c && InfoField(info.value, "problem") == x
  {
    var parts := before + ["platforms", p, c, x] + after;
    assert parts == before + ["platforms"] + ([p, c, x] + after);
    IndexAfter(before, "platforms", [p, c, x] + after);
    assert parts[|before| + 1] == p && parts[|before| + 2] == c && parts[|before| + 3] == x;
  }
}
