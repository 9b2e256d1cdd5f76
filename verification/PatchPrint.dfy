/** Printing git-style patches, and that reading a printed patch gives it back. */
module PatchPrint {
  import opened Text
  import opened PatchApply
  import opened PatchParse

  /** A line of a hunk's body; `Bare` is an empty context line printed without its space. */
  datatype BodyLine = Context(text: string) | Bare | Removed(text: string) | Added(text: string)

  datatype HunkDoc = HunkDoc(oldStart: nat, newStart: nat, section: string, body: seq<BodyLine>)

  /** A line of a git header; `Other` is one the parser passes over, such as `index`. */
  datatype Extended =
    | RenameFrom(name: string)
    | RenameTo(name: string)
    | NewFileMode(mode: nat)
    | NewMode(mode: nat)
    | Other(text: string)

  /** A `---` or `+++` line: a name, then perhaps a tab and more. */
  datatype HeaderDoc = HeaderDoc(name: string, stamp: Option<string>)

  datatype FileDoc = FileDoc(
    a: string, b: string, extended: seq<Extended>, headers: Option<(HeaderDoc, HeaderDoc)>, hunks: seq<HunkDoc>)

  // ---------- Printing ----------

  function BodyText(line: BodyLine): string {
    match line
    case Context(text) => " " + text
    case Bare => ""
    case Removed(text) => "-" + text
    case Added(text) => "+" + text
  }

  function PrintBody(body: seq<BodyLine>): (r: seq<string>)
    ensures |r| == |body|
  {
    if body == [] then [] else [BodyText(body[0])] + PrintBody(body[1..])
  }

  function OldOf(line: BodyLine): seq<Line> {
    match line
    case Context(text) => [text]
    case Bare => [""]
    case Removed(text) => [text]
    case Added(_) => []
  }

  function NewOf(line: BodyLine): seq<Line> {
    match line
    case Context(text) => [text]
    case Bare => [""]
    case Removed(_) => []
    case Added(text) => [text]
  }

  function OldSide(body: seq<BodyLine>): seq<Line> {
    if body == [] then [] else OldOf(body[0]) + OldSide(body[1..])
  }

  function NewSide(body: seq<BodyLine>): seq<Line> {
    if body == [] then [] else NewOf(body[0]) + NewSide(body[1..])
  }

  function RangeText(start: nat, count: nat): string {
    if count == 1 then Numeral(start, 10) else Numeral(start, 10) + "," + Numeral(count, 10)
  }

  function HunkHeader(h: HunkDoc): string {
    "@@" + " " + (("-" + RangeText(h.oldStart, |OldSide(h.body)|)) + " "
                  + (("+" + RangeText(h.newStart, |NewSide(h.body)|)) + " " + ("@@" + h.section)))
  }

  function PrintHunks(hunks: seq<HunkDoc>): seq<string> {
    if hunks == [] then []
    else [HunkHeader(hunks[0])] + PrintBody(hunks[0].body) + PrintHunks(hunks[1..])
  }

  function ExtendedText(e: Extended): string {
    match e
    case RenameFrom(name) => RENAME_FROM + name
    case RenameTo(name) => RENAME_TO + name
    case NewFileMode(mode) => NEW_FILE_MODE + Numeral(mode, 8)
    case NewMode(mode) => NEW_MODE + Numeral(mode, 8)
    case Other(text) => text
  }

  function PrintExtended(extended: seq<Extended>): (r: seq<string>)
    ensures |r| == |extended|
  {
    if extended == [] then [] else [ExtendedText(extended[0])] + PrintExtended(extended[1..])
  }

  function HeaderText(h: HeaderDoc): string {
    match h.stamp
    case None => h.name
    case Some(stamp) => h.name + ['\t'] + stamp
  }

  function PrintHeaders(headers: Option<(HeaderDoc, HeaderDoc)>): seq<string> {
    match headers
    case None => []
    case Some((o, n)) => [OLD + HeaderText(o), NEW + HeaderText(n)]
  }

  function PrintFile(f: FileDoc): seq<string> {
    [GIT + (f.a + [' '] + f.b)] + (PrintExtended(f.extended) + (PrintHeaders(f.headers) + PrintHunks(f.hunks)))
  }

  function PrintPatch(files: seq<FileDoc>): seq<string> {
    if files == [] then [] else PrintFile(files[0]) + PrintPatch(files[1..])
  }

  // ---------- What may be printed ----------

  predicate IsOther(text: string) {
    && !(GIT <= text) && !IsExtension(text) && !(OLD <= text) && !(HUNK <= text)
  }

  predicate ExtendedOk(e: Extended) {
    match e
    case RenameFrom(_) => true
    case RenameTo(_) => true
    case NewFileMode(mode) => mode < U32_LIMIT
    case NewMode(mode) => mode < U32_LIMIT
    case Other(text) => IsOther(text)
  }

  predicate HeaderOk(h: HeaderDoc) {
    '\t' !in h.name && TrimEnd(h.name) == h.name
  }

  predicate HunkOk(h: HunkDoc) {
    && h.oldStart < USIZE_LIMIT && h.newStart < USIZE_LIMIT
    && |OldSide(h.body)| < USIZE_LIMIT && |NewSide(h.body)| < USIZE_LIMIT
  }

  /** Names that can be told apart, and numbers that fit; the text of bodies is free. */
  predicate FileOk(f: FileDoc) {
    && ' ' !in f.a
    && (forall i | 0 <= i < |f.extended| :: ExtendedOk(f.extended[i]))
    && (f.headers.Some? ==> HeaderOk(f.headers.value.0) && HeaderOk(f.headers.value.1))
    && (forall i | 0 <= i < |f.hunks| :: HunkOk(f.hunks[i]))
  }

  // ---------- What should be read ----------

  function HunkOf(h: HunkDoc): Hunk { Hunk(h.oldStart, OldSide(h.body), NewSide(h.body)) }

  function HunksOf(hunks: seq<HunkDoc>): seq<Hunk> {
    if hunks == [] then [] else [HunkOf(hunks[0])] + HunksOf(hunks[1..])
  }

  function ExtendedBy(file: FilePatch, e: Extended): FilePatch {
    match e
    case RenameFrom(name) => file.(renameFrom := Some(name))
    case RenameTo(name) => file.(renameTo := Some(name))
    case NewFileMode(mode) => file.(newMode := Some(mode))
    case NewMode(mode) => file.(newMode := Some(mode))
    case Other(_) => file
  }

  /** The file with the header lines taken in, one after another: the last of a kind counts. */
  function Extending(file: FilePatch, extended: seq<Extended>): (r: FilePatch)
    ensures r == file.(renameFrom := r.renameFrom, renameTo := r.renameTo, newMode := r.newMode)
    decreases |extended|
  {
    if extended == [] then file else Extending(ExtendedBy(file, extended[0]), extended[1..])
  }

  function Named(file: FilePatch, headers: Option<(HeaderDoc, HeaderDoc)>): FilePatch {
    match headers
    case None => file
    case Some((o, n)) =>
      file.(oldHeader := OLD + HeaderText(o), oldName := Some(o.name), newName := Some(n.name))
  }

  function Begun(f: FileDoc, line: nat): FilePatch {
    BLANK.(line := line, fromGit := true, oldName := Some(f.a), newName := Some(f.b))
  }

  function FileOf(f: FileDoc, line: nat): FilePatch {
    Named(Extending(Begun(f, line), f.extended), f.headers).(hunks := HunksOf(f.hunks))
  }

  function FilesOf(files: seq<FileDoc>, i: nat): seq<FilePatch> {
    if files == [] then []
    else [FileOf(files[0], i + 1)] + FilesOf(files[1..], i + |PrintFile(files[0])|)
  }

  // ---------- Hunk headers ----------

  lemma {:induction false} FirstWord(w: string, rest: string)
    requires w != "" && forall i | 0 <= i < |w| :: !IsWhitespace(w[i])
    ensures Words(w + " " + rest) == [w] + Words(rest)
  {
    var s := w + " " + rest;
    WordEnds(w, " " + rest);
    assert s == w + (" " + rest);
    assert s[..|w|] == w && s[|w|..] == " " + rest;
    assert (" " + rest)[1..] == rest;
  }

  lemma {:induction false} WordEnds(w: string, rest: string)
    requires forall i | 0 <= i < |w| :: !IsWhitespace(w[i])
    requires rest != "" && IsWhitespace(rest[0])
    ensures WordLength(w + rest) == |w|
  {
    if w == "" {
      assert w + rest == rest;
    } else {
      assert (w + rest)[1..] == w[1..] + rest;
      WordEnds(w[1..], rest);
    }
  }

  lemma RangeIsTrimmed(sign: char, start: nat, count: nat)
    requires sign == '-' || sign == '+'
    ensures TrimSigns([sign] + RangeText(start, count)) == RangeText(start, count)
    ensures forall i | 0 <= i < |RangeText(start, count)| :: !IsWhitespace(RangeText(start, count)[i])
  {
    hide Numeral;
    var text, before := RangeText(start, count), Numeral(start, 10);
    assert text[0] == before[0];
    assert ([sign] + text)[1..] == text;
    assert TrimSigns(text) == text;
  }

  lemma RangeReads(sign: char, start: nat, count: nat)
    requires sign == '-' || sign == '+'
    requires start < USIZE_LIMIT && count < USIZE_LIMIT
    ensures ParseRange([sign] + RangeText(start, count)) == Some((start, count))
    ensures forall i | 0 <= i < |RangeText(start, count)| :: !IsWhitespace(RangeText(start, count)[i])
  {
    hide TrimSigns, Numeral, ParseUnsigned;
    RangeIsTrimmed(sign, start, count);
    ParseUnsignedNumeral(start, 10, USIZE_LIMIT);
    ParseUnsignedNumeral(count, 10, USIZE_LIMIT);
    var before, after := Numeral(start, 10), Numeral(count, 10);
    if count == 1 {
      assert ',' !in before;
    } else {
      assert before + "," + after == before + [','] + after;
      SplitOnceFirst(before, ',', after);
    }
  }

  lemma HunkHeaderReads(h: HunkDoc)
    requires HunkOk(h)
    ensures HUNK <= HunkHeader(h)
    ensures HunkRanges(HunkHeader(h)) == Some((h.oldStart, |OldSide(h.body)|, |NewSide(h.body)|))
  {
    hide Words, ParseRange;
    var o, n := RangeText(h.oldStart, |OldSide(h.body)|), RangeText(h.newStart, |NewSide(h.body)|);
    RangeReads('-', h.oldStart, |OldSide(h.body)|);
    RangeReads('+', h.newStart, |NewSide(h.body)|);
    var tail := "@@" + h.section;
    FirstWord("+" + n, tail);
    FirstWord("-" + o, ("+" + n) + " " + tail);
    FirstWord("@@", ("-" + o) + " " + (("+" + n) + " " + tail));
  }

  // ---------- Hunks ----------

  lemma BodyLineReads(line: BodyLine, rest: seq<string>, i: nat, oldLeft: nat, newLeft: nat, taken: Body)
    requires |OldOf(line)| <= oldLeft && |NewOf(line)| <= newLeft
    ensures TakeBody([BodyText(line)] + rest, i, oldLeft, newLeft, taken)
         == TakeBody(rest, i + 1, oldLeft - |OldOf(line)|, newLeft - |NewOf(line)|,
                     Body(i + 1, taken.oldLines + OldOf(line), taken.newLines + NewOf(line)))
  {
    var lines := [BodyText(line)] + rest;
    assert lines[0] == BodyText(line) && lines[1..] == rest;
    assert taken.oldLines + [] == taken.oldLines && taken.newLines + [] == taken.newLines;
    if !line.Bare? { assert lines[0][1..] == line.text; }
  }

  lemma TakeNothing(rest: seq<string>, i: nat, taken: Body)
    ensures TakeBody(rest, i, 0, 0, taken) == Ok(taken.(next := i))
  {
  }

  /** The counts delimit the body, whatever its lines look like and whatever follows. */
  lemma {:induction false} BodyReads(body: seq<BodyLine>, rest: seq<string>, i: nat, taken: Body)
    ensures TakeBody(PrintBody(body) + rest, i, |OldSide(body)|, |NewSide(body)|, taken)
         == Ok(Body(i + |body|, taken.oldLines + OldSide(body), taken.newLines + NewSide(body)))
    decreases |body|
  {
    hide TakeBody;
    if body == [] {
      TakeNothing(PrintBody(body) + rest, i, taken);
      assert taken.oldLines + [] == taken.oldLines && taken.newLines + [] == taken.newLines;
    } else {
      var o, n := OldSide(body[1..]), NewSide(body[1..]);
      var lines := PrintBody(body[1..]) + rest;
      Assoc([BodyText(body[0])], PrintBody(body[1..]), rest);
      BodyLineReads(body[0], lines, i, |OldSide(body)|, |NewSide(body)|, taken);
      var taken' := Body(i + 1, taken.oldLines + OldOf(body[0]), taken.newLines + NewOf(body[0]));
      BodyReads(body[1..], rest, i + 1, taken');
      Assoc(taken.oldLines, OldOf(body[0]), o);
      Assoc(taken.newLines, NewOf(body[0]), n);
    }
  }

  /** One turn of the parser on a hunk whose body is all there. */
  lemma HunkTurn(
    lines: seq<string>, i: nat, files: seq<FilePatch>, start: nat, oldCount: nat, newCount: nat, body: Body)
    requires lines != [] && HUNK <= lines[0] && files != []
    requires HunkRanges(lines[0]) == Some((start, oldCount, newCount))
    requires TakeBody(lines[1..], i + 1, oldCount, newCount, Body(i + 1, [], [])) == Ok(body)
    ensures i < body.next <= i + |lines|
    ensures ParseFrom(lines, i, files)
         == ParseFrom(lines[body.next - i..], body.next, AddHunk(files, Hunk(start, body.oldLines, body.newLines)))
  {
    hide HunkRanges, TakeBody, AddHunk;
    var line := lines[0];
    assert line[0] == '@' && GIT[0] == 'd' && RENAME_FROM[0] == 'r' && RENAME_TO[0] == 'r'
           && NEW_FILE_MODE[0] == 'n' && NEW_MODE[0] == 'n' && OLD[0] == '-';
  }

  lemma HunkReads(h: HunkDoc, rest: seq<string>, i: nat, files: seq<FilePatch>)
    requires HunkOk(h) && files != []
    ensures ParseFrom([HunkHeader(h)] + PrintBody(h.body) + rest, i, files)
         == ParseFrom(rest, i + 1 + |h.body|, AddHunk(files, HunkOf(h)))
  {
    hide ParseFrom, TakeBody, HunkRanges, HunkHeader;
    var lines := [HunkHeader(h)] + PrintBody(h.body) + rest;
    HunkHeaderReads(h);
    assert lines[0] == HunkHeader(h) && lines[1..] == PrintBody(h.body) + rest;
    BodyReads(h.body, rest, i + 1, Body(i + 1, [], []));
    assert [] + OldSide(h.body) == OldSide(h.body) && [] + NewSide(h.body) == NewSide(h.body);
    var body := Body(i + 1 + |h.body|, OldSide(h.body), NewSide(h.body));
    assert lines[body.next - i..] == rest;
    HunkTurn(lines, i, files, h.oldStart, |OldSide(h.body)|, |NewSide(h.body)|, body);
  }

  lemma {:induction false} HunksRead(hunks: seq<HunkDoc>, rest: seq<string>, i: nat, before: seq<FilePatch>, file: FilePatch)
    requires forall j | 0 <= j < |hunks| :: HunkOk(hunks[j])
    ensures ParseFrom(PrintHunks(hunks) + rest, i, before + [file])
         == ParseFrom(rest, i + |PrintHunks(hunks)|, before + [file.(hunks := file.hunks + HunksOf(hunks))])
    decreases |hunks|
  {
    hide ParseFrom, HunkHeader, PrintBody, OldSide, NewSide, HunkOk;
    if hunks == [] {
      assert PrintHunks(hunks) + rest == rest && file.hunks + [] == file.hunks;
    } else {
      var h := hunks[0];
      var file' := file.(hunks := file.hunks + [HunkOf(h)]);
      Assoc([HunkHeader(h)] + PrintBody(h.body), PrintHunks(hunks[1..]), rest);
      HunkReads(h, PrintHunks(hunks[1..]) + rest, i, before + [file]);
      assert AddHunk(before + [file], HunkOf(h)) == before + [file'];
      HunksRead(hunks[1..], rest, i + 1 + |h.body|, before, file');
      Assoc(file.hunks, [HunkOf(h)], HunksOf(hunks[1..]));
    }
  }

  // ---------- Headers ----------

  lemma HeaderReads(h: HeaderDoc)
    requires HeaderOk(h)
    ensures HeaderName(HeaderText(h)) == h.name
  {
    match h.stamp
    case None =>
    case Some(stamp) => SplitOnceFirst(h.name, '\t', stamp);
  }

  lemma HeadersRead(
    headers: Option<(HeaderDoc, HeaderDoc)>, rest: seq<string>, i: nat, before: seq<FilePatch>, file: FilePatch)
    requires headers.Some? ==> HeaderOk(headers.value.0) && HeaderOk(headers.value.1)
    requires file.hunks == [] && file.oldHeader == "" && file.oldName.Some?
    ensures ParseFrom(PrintHeaders(headers) + rest, i, before + [file])
         == ParseFrom(rest, i + |PrintHeaders(headers)|,
                      before + [Named(file, headers)])
  {
    match headers
    case None => assert PrintHeaders(headers) + rest == rest;
    case Some((o, n)) =>
      var lines := PrintHeaders(headers) + rest;
      HeaderReads(o);
      HeaderReads(n);
      assert lines[0] == OLD + HeaderText(o) && lines[1] == NEW + HeaderText(n) && lines[2..] == rest;
      assert lines[0][|OLD|..] == HeaderText(o) && lines[1][|NEW|..] == HeaderText(n);
      assert lines[0][0] == '-' && !(GIT <= lines[0]) && !IsExtension(lines[0]);
      assert SetLast(before + [file], file) == before + [file];
  }

  lemma OctalReads(mode: nat)
    requires mode < U32_LIMIT
    ensures ParseMode(Numeral(mode, 8)) == Some(mode)
  {
    ParseUnsignedNumeral(mode, 8, U32_LIMIT);
    var text := Numeral(mode, 8);
    assert !IsWhitespace(text[0]) && !IsWhitespace(text[|text| - 1]);
  }

  lemma ExtendedLineReads(e: Extended, rest: seq<string>, i: nat, before: seq<FilePatch>, file: FilePatch)
    requires ExtendedOk(e)
    ensures ParseFrom([ExtendedText(e)] + rest, i, before + [file])
         == ParseFrom(rest, i + 1, before + [ExtendedBy(file, e)])
  {
    var line := ExtendedText(e);
    var lines := [line] + rest;
    assert lines[0] == line && lines[1..] == rest;
    match e
    case RenameFrom(name) => assert line[|RENAME_FROM|..] == name && line[0] == 'r';
    case RenameTo(name) =>
      assert line[|RENAME_TO|..] == name && line[0] == 'r' && line[7] == 't' && RENAME_FROM[7] == 'f';
    case NewFileMode(mode) =>
      assert line[|NEW_FILE_MODE|..] == Numeral(mode, 8) && line[0] == 'n';
      OctalReads(mode);
    case NewMode(mode) =>
      assert line[|NEW_MODE|..] == Numeral(mode, 8) && line[0] == 'n' && line[4] == 'm' && NEW_FILE_MODE[4] == 'f';
      OctalReads(mode);
    case Other(_) =>
  }

  lemma {:induction false} ExtendedReads(
    extended: seq<Extended>, rest: seq<string>, i: nat, before: seq<FilePatch>, file: FilePatch)
    requires forall j | 0 <= j < |extended| :: ExtendedOk(extended[j])
    ensures ParseFrom(PrintExtended(extended) + rest, i, before + [file])
         == ParseFrom(rest, i + |extended|, before + [Extending(file, extended)])
    decreases |extended|
  {
    hide ParseFrom, ExtendedText, ExtendedOk, ExtendedBy;
    if extended == [] {
      assert PrintExtended(extended) + rest == rest;
    } else {
      var e := extended[0];
      Assoc([ExtendedText(e)], PrintExtended(extended[1..]), rest);
      ExtendedLineReads(e, PrintExtended(extended[1..]) + rest, i, before, file);
      ExtendedReads(extended[1..], rest, i + 1, before, ExtendedBy(file, e));
    }
  }

  // ---------- Files and patches ----------

  lemma GitLineReads(f: FileDoc, rest: seq<string>, i: nat, before: seq<FilePatch>)
    requires ' ' !in f.a
    ensures ParseFrom([GIT + (f.a + [' '] + f.b)] + rest, i, before)
         == ParseFrom(rest, i + 1, before + [Begun(f, i + 1)])
  {
    var first := GIT + (f.a + [' '] + f.b);
    var lines := [first] + rest;
    assert lines[0] == first && lines[1..] == rest && first[|GIT|..] == f.a + [' '] + f.b;
    SplitOnceFirst(f.a, ' ', f.b);
  }

  lemma FileReads(f: FileDoc, rest: seq<string>, i: nat, before: seq<FilePatch>)
    requires FileOk(f)
    ensures ParseFrom(PrintFile(f) + rest, i, before)
         == ParseFrom(rest, i + |PrintFile(f)|, before + [FileOf(f, i + 1)])
  {
    hide ParseFrom, PrintExtended, PrintHeaders, PrintHunks, Extending, HunksOf, ExtendedOk, HeaderOk, HunkOk;
    var extended, headers, hunks := PrintExtended(f.extended), PrintHeaders(f.headers), PrintHunks(f.hunks);
    Assoc([GIT + (f.a + [' '] + f.b)], extended + (headers + hunks), rest);
    Assoc(extended, headers + hunks, rest);
    Assoc(headers, hunks, rest);
    GitLineReads(f, extended + (headers + (hunks + rest)), i, before);
    ExtendedReads(f.extended, headers + (hunks + rest), i + 1, before, Begun(f, i + 1));
    var git := Extending(Begun(f, i + 1), f.extended);
    HeadersRead(f.headers, hunks + rest, i + 1 + |extended|, before, git);
    HunksRead(f.hunks, rest, i + 1 + |extended| + |headers|, before, Named(git, f.headers));
    assert [] + HunksOf(f.hunks) == HunksOf(f.hunks);
  }

  lemma NothingLeft(i: nat, files: seq<FilePatch>)
    ensures ParseFrom([], i, files) == Ok(files)
  {
  }

  lemma {:induction false} PatchReadsFrom(files: seq<FileDoc>, i: nat, before: seq<FilePatch>)
    requires forall j | 0 <= j < |files| :: FileOk(files[j])
    ensures ParseFrom(PrintPatch(files), i, before) == Ok(before + FilesOf(files, i))
    decreases |files|
  {
    hide ParseFrom, FileOf, PrintFile;
    if files == [] {
      NothingLeft(i, before);
      assert before + [] == before;
    } else {
      var file := FileOf(files[0], i + 1);
      FileReads(files[0], PrintPatch(files[1..]), i, before);
      PatchReadsFrom(files[1..], i + |PrintFile(files[0])|, before + [file]);
      assert before + [file] + FilesOf(files[1..], i + |PrintFile(files[0])|) == before + FilesOf(files, i);
    }
  }

  /** Reading a printed git-style patch gives back its files, for any text in the bodies. */
  lemma PatchReads(files: seq<FileDoc>)
    requires forall j | 0 <= j < |files| :: FileOk(files[j])
    ensures ParseFrom(PrintPatch(files), 0, []) == Ok(FilesOf(files, 0))
  {
    hide ParseFrom, FilesOf, PrintPatch;
    PatchReadsFrom(files, 0, []);
    assert [] + FilesOf(files, 0) == FilesOf(files, 0);
  }

  // ---------- Plain patches ----------

  /** No two neighbours are both without a git header. */
  ghost predicate PlainApart(files: seq<FilePatch>) {
    forall i, j | 0 <= i < j < |files| && j == i + 1 :: files[i].fromGit || files[j].fromGit
  }

  /** A file without a git header was begun by its `---` line. */
  predicate PlainHeaded(files: seq<FilePatch>) {
    forall i | 0 <= i < |files| && !files[i].fromGit :: files[i].oldHeader != ""
  }

  predicate AllPlain(files: seq<FilePatch>) {
    forall i | 0 <= i < |files| :: !files[i].fromGit
  }

  lemma HeadersKeepApart(files: seq<FilePatch>, line: nat, oldLine: string, newLine: string)
    requires OLD <= oldLine && NEW <= newLine && PlainApart(files) && PlainHeaded(files)
    ensures var r := WithHeaders(files, line, oldLine, newLine);
            PlainApart(r) && PlainHeaded(r) && (AllPlain(files) ==> AllPlain(r))
  {
    hide HeaderName;
  }

  lemma HunkKeepsApart(files: seq<FilePatch>, hunk: Hunk)
    requires files != [] && PlainApart(files) && PlainHeaded(files)
    ensures var r := AddHunk(files, hunk);
            PlainApart(r) && PlainHeaded(r) && (AllPlain(files) ==> AllPlain(r))
  {
  }

  lemma ExtensionKeepsApart(files: seq<FilePatch>, line: string)
    requires PlainApart(files) && PlainHeaded(files)
    ensures var r := ExtendLast(files, line);
            PlainApart(r) && PlainHeaded(r) && (AllPlain(files) ==> AllPlain(r))
  {
    hide ParseMode;
  }

  /** Whatever the text, no two neighbouring files are left that both lack a git header. */
  lemma {:induction false} ParseKeepsApart(rest: seq<string>, i: nat, files: seq<FilePatch>)
    requires PlainApart(files) && PlainHeaded(files)
    ensures var r := ParseFrom(rest, i, files);
            && (r.Ok? ==> PlainApart(r.value) && PlainHeaded(r.value))
            && (r.Ok? && AllPlain(files) && (forall j | 0 <= j < |rest| :: !(GIT <= rest[j])) ==> AllPlain(r.value))
    decreases |rest|
  {
    hide WithHeaders, ExtendLast, AddHunk, HunkRanges, TakeBody, GitFile;
    if rest != [] {
      var line := rest[0];
      if GIT <= line {
        assert GitFile(i + 1, line[|GIT|..]).fromGit by { GitFileIsGit(i + 1, line[|GIT|..]); }
        ParseKeepsApart(rest[1..], i + 1, files + [GitFile(i + 1, line[|GIT|..])]);
      } else if IsExtension(line) {
        ExtensionKeepsApart(files, line);
        ParseKeepsApart(rest[1..], i + 1, ExtendLast(files, line));
      } else if OLD <= line && |rest| > 1 && NEW <= rest[1] {
        HeadersKeepApart(files, i + 1, line, rest[1]);
        ParseKeepsApart(rest[2..], i + 2, WithHeaders(files, i + 1, line, rest[1]));
      } else if !(OLD <= line) && HUNK <= line && files != [] && HunkRanges(line).Some? {
        var (start, oldCount, newCount) := HunkRanges(line).value;
        var body := TakeBody(rest[1..], i + 1, oldCount, newCount, Body(i + 1, [], []));
        if body.Ok? {
          var hunk := Hunk(start, body.value.oldLines, body.value.newLines);
          HunkKeepsApart(files, hunk);
          ParseKeepsApart(rest[body.value.next - i..], body.value.next, AddHunk(files, hunk));
        }
      } else {
        ParseKeepsApart(rest[1..], i + 1, files);
      }
    }
  }

  lemma GitFileIsGit(line: nat, rest: string)
    ensures GitFile(line, rest).fromGit
  {
  }

  /** Whatever the text, without a git header it is read as one file at most. */
  lemma PlainPatchIsOneFile(lines: seq<string>)
    requires forall j | 0 <= j < |lines| :: !(GIT <= lines[j])
    ensures ParseFrom(lines, 0, []).Ok? ==> |ParseFrom(lines, 0, []).value| <= 1
  {
    ParseKeepsApart(lines, 0, []);
    hide ParseFrom;
    var r := ParseFrom(lines, 0, []);
    if r.Ok? && |r.value| > 1 { PlainPair(r.value); }
  }

  lemma PlainPair(files: seq<FilePatch>)
    requires |files| > 1
    ensures !PlainApart(files) || !AllPlain(files)
  {
    if AllPlain(files) {
      assert !files[0].fromGit && !files[1].fromGit;
    }
  }
}
