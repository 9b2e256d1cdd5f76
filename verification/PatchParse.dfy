/** Reading a unified diff, plain or from `git diff`, into file patches and hunks. */
module PatchParse {
  import opened Text
  import opened PatchApply

  const USIZE_LIMIT: nat := 0x1_0000_0000_0000_0000
  const U32_LIMIT: nat := 0x1_0000_0000

  datatype FilePatch = FilePatch(
    line: nat, oldHeader: string, oldName: Option<string>, newName: Option<string>, fromGit: bool,
    renameFrom: Option<string>, renameTo: Option<string>, newMode: Option<nat>, hunks: seq<Hunk>)

  const BLANK := FilePatch(0, "", None, None, false, None, None, None, [])

  const GIT := "diff --git "
  const RENAME_FROM := "rename from "
  const RENAME_TO := "rename to "
  const NEW_FILE_MODE := "new file mode "
  const NEW_MODE := "new mode "
  const OLD := "--- "
  const NEW := "+++ "
  const HUNK := "@@ "

  // ---------- Text of one line ----------

  function TrimEnd(s: string): string {
    if s != "" && IsWhitespace(s[|s| - 1]) then TrimEnd(s[..|s| - 1]) else s
  }

  function TrimStart(s: string): string {
    if s != "" && IsWhitespace(s[0]) then TrimStart(s[1..]) else s
  }

  function TrimSigns(s: string): string {
    if s != "" && (s[0] == '-' || s[0] == '+') then TrimSigns(s[1..]) else s
  }

  function WordLength(s: string): (n: nat)
    ensures n <= |s|
  {
    if s == "" || IsWhitespace(s[0]) then 0 else 1 + WordLength(s[1..])
  }

  /** The words between runs of whitespace. */
  function Words(s: string): seq<string>
    decreases |s|
  {
    if s == "" then []
    else if IsWhitespace(s[0]) then Words(s[1..])
    else
      var n := WordLength(s);
      [s[..n]] + Words(s[n..])
  }

  /** The name in a header line: up to a tab, without trailing whitespace. */
  function HeaderName(text: string): string {
    match SplitOnce(text, '\t')
    case None => TrimEnd(text)
    case Some((name, _)) => TrimEnd(name)
  }

  function ParseRange(text: string): Option<(nat, nat)> {
    var range := TrimSigns(text);
    match SplitOnce(range, ',')
    case None =>
      (match ParseUnsigned(range, 10, USIZE_LIMIT)
       case None => None
       case Some(start) => Some((start, 1)))
    case Some((before, after)) =>
      match ParseUnsigned(before, 10, USIZE_LIMIT)
      case None => None
      case Some(start) =>
        match ParseUnsigned(after, 10, USIZE_LIMIT)
        case None => None
        case Some(count) => Some((start, count))
  }

  /** The old start, the old count and the new count that a hunk header states. */
  function HunkRanges(line: string): Option<(nat, nat, nat)> {
    var words := Words(line);
    if |words| < 3 then None
    else
      match ParseRange(words[1])
      case None => None
      case Some((start, oldCount)) =>
        match ParseRange(words[2])
        case None => None
        case Some((_, newCount)) => Some((start, oldCount, newCount))
  }

  // ---------- Building the file patches ----------

  function Last(files: seq<FilePatch>): FilePatch
    requires files != []
  {
    files[|files| - 1]
  }

  function SetLast(files: seq<FilePatch>, file: FilePatch): seq<FilePatch>
    requires files != []
  {
    files[..|files| - 1] + [file]
  }

  function GitFile(line: nat, rest: string): FilePatch {
    var file := BLANK.(line := line, fromGit := true);
    match SplitOnce(rest, ' ')
    case None => file
    case Some((a, b)) => file.(oldName := Some(a), newName := Some(b))
  }

  /** A `---` and `+++` pair: for the file a git header began, or for a file of its own. */
  function WithHeaders(files: seq<FilePatch>, line: nat, oldLine: string, newLine: string): seq<FilePatch>
    requires OLD <= oldLine && NEW <= newLine
  {
    var inGit := files != [] && Last(files).hunks == [] && Last(files).oldHeader == "" && Last(files).oldName.Some?;
    var kept :=
      if inGit then files
      else (if files != [] && !Last(files).fromGit then files[..|files| - 1] else files) + [BLANK.(line := line)];
    SetLast(kept, Last(kept).(
      oldHeader := oldLine,
      oldName := Some(HeaderName(oldLine[|OLD|..])),
      newName := Some(HeaderName(newLine[|NEW|..]))))
  }

  /** What a line of a git header changes in the file it belongs to; any other line changes nothing. */
  function Extend(file: FilePatch, line: string): FilePatch {
    if RENAME_FROM <= line then file.(renameFrom := Some(line[|RENAME_FROM|..]))
    else if RENAME_TO <= line then file.(renameTo := Some(line[|RENAME_TO|..]))
    else if NEW_FILE_MODE <= line then file.(newMode := ParseMode(line[|NEW_FILE_MODE|..]))
    else if NEW_MODE <= line then file.(newMode := ParseMode(line[|NEW_MODE|..]))
    else file
  }

  function ParseMode(text: string): Option<nat> {
    ParseUnsigned(TrimStart(TrimEnd(text)), 8, U32_LIMIT)
  }

  predicate IsExtension(line: string) {
    RENAME_FROM <= line || RENAME_TO <= line || NEW_FILE_MODE <= line || NEW_MODE <= line
  }

  function ExtendLast(files: seq<FilePatch>, line: string): seq<FilePatch> {
    if files == [] then [] else SetLast(files, Extend(Last(files), line))
  }

  function AddHunk(files: seq<FilePatch>, hunk: Hunk): seq<FilePatch>
    requires files != []
  {
    SetLast(files, Last(files).(hunks := Last(files).hunks + [hunk]))
  }

  // ---------- Hunk bodies ----------

  /** One body line's kind and text. */
  function BodyKind(line: string): Option<(char, string)> {
    if line == "" then Some((' ', ""))
    else if line[0] == ' ' || line[0] == '-' || line[0] == '+' then Some((line[0], line[1..]))
    else None
  }

  datatype Body = Body(next: nat, oldLines: seq<Line>, newLines: seq<Line>)

  /**
   Exactly as many body lines as the counts ask for, after those already taken; `next` is the number
   of the line after them. The error is a line number, from 1.
  */
  function TakeBody(rest: seq<string>, i: nat, oldLeft: nat, newLeft: nat, taken: Body): (r: Result<Body, nat>)
    ensures r.Ok? ==> i <= r.value.next <= i + |rest|
    ensures r.Ok? ==> |r.value.oldLines| == |taken.oldLines| + oldLeft
                      && |r.value.newLines| == |taken.newLines| + newLeft
    decreases |rest|
  {
    if oldLeft == 0 && newLeft == 0 then Ok(taken.(next := i))
    else if rest == [] || BodyKind(rest[0]).None? then Err(i + 1)
    else
      var (kind, text) := BodyKind(rest[0]).value;
      if kind == ' ' && oldLeft > 0 && newLeft > 0 then
        TakeBody(rest[1..], i + 1, oldLeft - 1, newLeft - 1,
                 Body(i + 1, taken.oldLines + [text], taken.newLines + [text]))
      else if kind == '-' && oldLeft > 0 then
        TakeBody(rest[1..], i + 1, oldLeft - 1, newLeft, Body(i + 1, taken.oldLines + [text], taken.newLines))
      else if kind == '+' && newLeft > 0 then
        TakeBody(rest[1..], i + 1, oldLeft, newLeft - 1, Body(i + 1, taken.oldLines, taken.newLines + [text]))
      else Err(i + 1)
  }

  // ---------- The parser ----------

  /** What parsing makes of the lines from number `i` on, with `files` begun before. */
  function ParseFrom(rest: seq<string>, i: nat, files: seq<FilePatch>): Result<seq<FilePatch>, nat>
    decreases |rest|
  {
    if rest == [] then Ok(files)
    else
      var line := rest[0];
      if GIT <= line then ParseFrom(rest[1..], i + 1, files + [GitFile(i + 1, line[|GIT|..])])
      else if IsExtension(line) then ParseFrom(rest[1..], i + 1, ExtendLast(files, line))
      else if OLD <= line then
        if |rest| > 1 && NEW <= rest[1]
        then ParseFrom(rest[2..], i + 2, WithHeaders(files, i + 1, line, rest[1]))
        else ParseFrom(rest[1..], i + 1, files)
      else if HUNK <= line && files != [] && HunkRanges(line).Some? then
        var (start, oldCount, newCount) := HunkRanges(line).value;
        match TakeBody(rest[1..], i + 1, oldCount, newCount, Body(i + 1, [], []))
        case Err(at) => Err(at)
        case Ok(body) =>
          ParseFrom(rest[body.next - i..], body.next, AddHunk(files, Hunk(start, body.oldLines, body.newLines)))
      else ParseFrom(rest[1..], i + 1, files)
  }

  /** Reads one hunk body, line by line. */
  method ParseBody(lines: seq<string>, start: nat, oldCount: nat, newCount: nat)
    returns (r: Result<Body, nat>)
    requires start <= |lines|
    ensures r == TakeBody(lines[start..], start, oldCount, newCount, Body(start, [], []))
  {
    var oldLeft, newLeft, i := oldCount, newCount, start;
    var oldLines: seq<Line>, newLines: seq<Line> := [], [];
    while oldLeft > 0 || newLeft > 0
      invariant start <= i <= |lines|
      invariant TakeBody(lines[start..], start, oldCount, newCount, Body(start, [], []))
             == TakeBody(lines[i..], i, oldLeft, newLeft, Body(i, oldLines, newLines))
      decreases |lines| - i
    {
      if i == |lines| {
        return Err(i + 1);
      }
      ghost var rest := lines[i..];
      assert rest[0] == lines[i] && rest[1..] == lines[i + 1..];
      var kind := BodyKind(lines[i]);
      if kind.None? {
        return Err(i + 1);
      }
      var (c, text) := kind.value;
      if c == ' ' && oldLeft > 0 && newLeft > 0 {
        oldLines, newLines := oldLines + [text], newLines + [text];
        oldLeft, newLeft := oldLeft - 1, newLeft - 1;
      } else if c == '-' && oldLeft > 0 {
        oldLines, oldLeft := oldLines + [text], oldLeft - 1;
      } else if c == '+' && newLeft > 0 {
        newLines, newLeft := newLines + [text], newLeft - 1;
      } else {
        return Err(i + 1);
      }
      i := i + 1;
    }
    r := Ok(Body(i, oldLines, newLines));
  }

  method Parse(lines: seq<string>) returns (r: Result<seq<FilePatch>, nat>)
    ensures r == ParseFrom(lines, 0, [])
  {
    hide WithHeaders, ExtendLast, AddHunk, GitFile, HunkRanges, TakeBody;
    var files: seq<FilePatch> := [];
    var i := 0;
    assert lines[0..] == lines;
    while i < |lines|
      invariant i <= |lines|
      invariant ParseFrom(lines[i..], i, files) == ParseFrom(lines, 0, [])
      decreases |lines| - i
    {
      var line := lines[i];
      ghost var rest := lines[i..];
      assert rest[0] == line && rest[1..] == lines[i + 1..];
      if GIT <= line {
        files := files + [GitFile(i + 1, line[|GIT|..])];
      } else if IsExtension(line) {
        files := ExtendLast(files, line);
      } else if OLD <= line {
        if i + 1 < |lines| && NEW <= lines[i + 1] {
          assert rest[1] == lines[i + 1] && rest[2..] == lines[i + 2..];
          files := WithHeaders(files, i + 1, line, lines[i + 1]);
          i := i + 1;
        }
      } else if HUNK <= line && files != [] && HunkRanges(line).Some? {
        var (start, oldCount, newCount) := HunkRanges(line).value;
        var body := ParseBody(lines, i + 1, oldCount, newCount);
        if body.Err? {
          return Err(body.error);
        }
        assert rest[body.value.next - i..] == lines[body.value.next..];
        files := AddHunk(files, Hunk(start, body.value.oldLines, body.value.newLines));
        i := body.value.next;
        continue;
      }
      i := i + 1;
    }
    r := Ok(files);
  }
}
