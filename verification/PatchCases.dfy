/** What the applier and the parser make of hunks and lines that do not go smoothly. */
module PatchCases {
  import opened Text
  import opened PatchApply
  import opened PatchParse
  import opened PatchPrint

  // ---------- Applying ----------

  /** Where the search for a hunk begins: where it says, moved by the drift, but not before the file. */
  predicate LooksFrom(h: Hunk, drift: int, expected: nat) {
    var line := if h.oldStart == 0 then 0 else h.oldStart - 1;
    (line + drift >= 0 ==> expected == line + drift) && (line + drift < 0 ==> expected == 0)
  }

  /** The file with the hunk's old lines, found at `at`, replaced by its new ones. */
  predicate Replaced(lines: seq<Line>, h: Hunk, at: nat, r: seq<Line>) {
    && at + |h.oldLines| <= |lines| && |r| == |lines| - |h.oldLines| + |h.newLines|
    && (forall i | 0 <= i < at :: r[i] == lines[i])
    && (forall i | 0 <= i < |h.newLines| :: r[at + i] == h.newLines[i])
    && forall i | at + |h.oldLines| <= i < |lines| :: r[i - |h.oldLines| + |h.newLines|] == lines[i]
  }

  /**
   The first hunk goes to the nearest match within as many lines as the file has, and the others follow with
   the drift it leaves: its displacement, and the lines it adds.
  */
  lemma FirstHunkFound(lines: seq<Line>, hunks: seq<Hunk>, drift: int, expected: nat, at: nat) returns (r: seq<Line>)
    requires hunks != [] && LooksFrom(hunks[0], drift, expected)
    requires Nearest(lines, hunks[0].oldLines, expected, at) && Distance(at, expected) <= |lines|
    ensures Replaced(lines, hunks[0], at, r)
    ensures Apply(lines, hunks, drift)
         == Apply(r, hunks[1..], drift + (at - expected) + |hunks[0].newLines| - |hunks[0].oldLines|)
  {
    hide Find, Apply, Replaced, Splice, Nearest, Expected, LooksFrom;
    var h := hunks[0];
    FoundNearest(lines, h, drift, expected, at);
    hide Fits;
    ApplyFound(lines, hunks, drift, at);
    SpliceReplaces(lines, h, at);
    r := Splice(lines, at, |h.oldLines|, h.newLines);
  }

  lemma FoundNearest(lines: seq<Line>, h: Hunk, drift: int, expected: nat, at: nat)
    requires LooksFrom(h, drift, expected)
    requires Nearest(lines, h.oldLines, expected, at) && Distance(at, expected) <= |lines|
    ensures Expected(h, drift) == expected && Find(lines, h.oldLines, expected) == Some(at)
    ensures at + |h.oldLines| <= |lines|
  {
    hide Find;
    FindIsNearest(lines, h.oldLines, expected, at);
  }

  /** Without such a match it is refused. */
  lemma FirstHunkRefused(lines: seq<Line>, hunks: seq<Hunk>, drift: int, expected: nat)
    requires hunks != [] && LooksFrom(hunks[0], drift, expected)
    requires forall at | Fits(lines, hunks[0].oldLines, at) :: |lines| < Distance(at, expected)
    ensures Apply(lines, hunks, drift) == Err(hunks[0].oldStart)
  {
    assert Expected(hunks[0], drift) == expected;
    NothingFound(lines, hunks[0].oldLines, expected);
    hide Find, Fits;
  }

  lemma NothingFound(lines: seq<Line>, oldLines: seq<Line>, expected: nat)
    requires forall at | Fits(lines, oldLines, at) :: |lines| < Distance(at, expected)
    ensures Find(lines, oldLines, expected).None?
  {
    SearchIsNearest(lines, oldLines, expected, 0);
  }

  lemma SpliceReplaces(lines: seq<Line>, h: Hunk, at: nat)
    requires at + |h.oldLines| <= |lines|
    ensures Replaced(lines, h, at, Splice(lines, at, |h.oldLines|, h.newLines))
  {
  }

  // ---------- Bodies ----------

  /** The body lines taken: they come next in the text, and their sides have the lines that are counted. */
  predicate Takes(rest: seq<string>, body: seq<BodyLine>, oldCount: nat, newCount: nat) {
    |body| <= |rest| && PrintBody(body) == rest[..|body|] && |OldSide(body)| == oldCount && |NewSide(body)| == newCount
  }

  /** The line says what no body line says that still has room. */
  ghost predicate Misfits(line: string, oldLeft: nat, newLeft: nat) {
    forall b: BodyLine | BodyText(b) == line :: |OldOf(b)| > oldLeft || |NewOf(b)| > newLeft
  }

  /** Only body lines with room for them are taken, up to the counts. */
  lemma {:induction false} BodyTaken(rest: seq<string>, i: nat, oldLeft: nat, newLeft: nat, taken: Body)
    returns (body: seq<BodyLine>)
    requires TakeBody(rest, i, oldLeft, newLeft, taken).Ok?
    ensures Takes(rest, body, oldLeft, newLeft)
    ensures TakeBody(rest, i, oldLeft, newLeft, taken)
         == Ok(Body(i + |body|, taken.oldLines + OldSide(body), taken.newLines + NewSide(body)))
    decreases |rest|
  {
    body := [];
    if oldLeft == 0 && newLeft == 0 {
      assert taken.oldLines + [] == taken.oldLines && taken.newLines + [] == taken.newLines;
    } else {
      var line, taken' := OneTaken(rest, i, oldLeft, newLeft, taken);
      hide TakeBody, FittingLine, Takes;
      var more := BodyTaken(rest[1..], i + 1, oldLeft - |OldOf(line)|, newLeft - |NewOf(line)|, taken');
      TakesMore(rest, line, more, oldLeft - |OldOf(line)|, newLeft - |NewOf(line)|, taken);
      body := [line] + more;
    }
  }

  /** The first line that does not fit, or the end of the text, is where a body is refused. */
  lemma {:induction false} BodyRefused(rest: seq<string>, i: nat, oldLeft: nat, newLeft: nat, taken: Body)
    returns (body: seq<BodyLine>, o: nat, n: nat)
    requires TakeBody(rest, i, oldLeft, newLeft, taken).Err?
    ensures Stuck(rest, body, o, n, oldLeft, newLeft)
    ensures TakeBody(rest, i, oldLeft, newLeft, taken) == Err(i + |body| + 1)
    decreases |rest|
  {
    body, o, n := [], 0, 0;
    if rest != [] && FittingLine(rest[0], oldLeft, newLeft).Some? {
      var line, taken' := OneTaken(rest, i, oldLeft, newLeft, taken);
      hide TakeBody, FittingLine, Stuck;
      body, o, n := BodyRefused(rest[1..], i + 1, oldLeft - |OldOf(line)|, newLeft - |NewOf(line)|, taken');
      StuckMore(rest, line, body, o, n, oldLeft, newLeft, taken);
      body, o, n := [line] + body, o + |OldOf(line)|, n + |NewOf(line)|;
    } else if rest != [] {
      NoFittingLine(rest[0], oldLeft, newLeft);
      NotTaken(rest, i, oldLeft, newLeft, taken);
    }
  }

  lemma OneTaken(rest: seq<string>, i: nat, oldLeft: nat, newLeft: nat, taken: Body)
    returns (line: BodyLine, taken': Body)
    requires rest != [] && (oldLeft > 0 || newLeft > 0)
    requires FittingLine(rest[0], oldLeft, newLeft).Some? || TakeBody(rest, i, oldLeft, newLeft, taken).Ok?
    ensures BodyText(line) == rest[0] && |OldOf(line)| <= oldLeft && |NewOf(line)| <= newLeft
    ensures taken' == Body(i + 1, taken.oldLines + OldOf(line), taken.newLines + NewOf(line))
    ensures TakeBody(rest, i, oldLeft, newLeft, taken)
         == TakeBody(rest[1..], i + 1, oldLeft - |OldOf(line)|, newLeft - |NewOf(line)|, taken')
  {
    if FittingLine(rest[0], oldLeft, newLeft).None? { NotTaken(rest, i, oldLeft, newLeft, taken); }
    line := FittingLine(rest[0], oldLeft, newLeft).value;
    taken' := Body(i + 1, taken.oldLines + OldOf(line), taken.newLines + NewOf(line));
    FittingLineFits(rest[0], oldLeft, newLeft);
    assert rest == [rest[0]] + rest[1..];
    hide TakeBody, FittingLine;
    BodyLineReads(line, rest[1..], i, oldLeft, newLeft, taken);
  }

  /** `body` is taken, and something is left to count, but not in the next line. */
  ghost predicate Stuck(rest: seq<string>, body: seq<BodyLine>, o: nat, n: nat, oldLeft: nat, newLeft: nat) {
    && Takes(rest, body, o, n) && o <= oldLeft && n <= newLeft && (o < oldLeft || n < newLeft)
    && (|body| < |rest| ==> Misfits(rest[|body|], oldLeft - o, newLeft - n))
  }

  /** The body line that the text is, when there is room for it. */
  function FittingLine(text: string, oldLeft: nat, newLeft: nat): Option<BodyLine> {
    var line :=
      if text == "" then Some(Bare)
      else if text[0] == ' ' then Some(Context(text[1..]))
      else if text[0] == '-' then Some(Removed(text[1..]))
      else if text[0] == '+' then Some(Added(text[1..]))
      else None;
    if line.Some? && |OldOf(line.value)| <= oldLeft && |NewOf(line.value)| <= newLeft then line else None
  }

  lemma FittingLineFits(text: string, oldLeft: nat, newLeft: nat)
    requires FittingLine(text, oldLeft, newLeft).Some?
    ensures var line := FittingLine(text, oldLeft, newLeft).value;
            BodyText(line) == text && |OldOf(line)| <= oldLeft && |NewOf(line)| <= newLeft
  {
    if text != "" { assert text == [text[0]] + text[1..]; }
  }

  lemma NoFittingLine(text: string, oldLeft: nat, newLeft: nat)
    requires FittingLine(text, oldLeft, newLeft).None?
    ensures Misfits(text, oldLeft, newLeft)
  {
    forall b: BodyLine | BodyText(b) == text ensures |OldOf(b)| > oldLeft || |NewOf(b)| > newLeft {
      if !b.Bare? { assert text[1..] == b.text; }
    }
  }

  lemma NotTaken(rest: seq<string>, i: nat, oldLeft: nat, newLeft: nat, taken: Body)
    requires rest != [] && (oldLeft > 0 || newLeft > 0) && FittingLine(rest[0], oldLeft, newLeft).None?
    ensures TakeBody(rest, i, oldLeft, newLeft, taken) == Err(i + 1)
  {
  }

  /** What is taken after one line, with that line in front. */
  lemma TakesMore(rest: seq<string>, line: BodyLine, body: seq<BodyLine>, o: nat, n: nat, taken: Body)
    requires rest != [] && BodyText(line) == rest[0] && Takes(rest[1..], body, o, n)
    ensures Takes(rest, [line] + body, o + |OldOf(line)|, n + |NewOf(line)|)
    ensures taken.oldLines + OldOf(line) + OldSide(body) == taken.oldLines + OldSide([line] + body)
    ensures taken.newLines + NewOf(line) + NewSide(body) == taken.newLines + NewSide([line] + body)
  {
    var all := [line] + body;
    assert all[1..] == body && rest[..|all|] == [rest[0]] + rest[1..][..|body|];
    Assoc(taken.oldLines, OldOf(line), OldSide(body));
    Assoc(taken.newLines, NewOf(line), NewSide(body));
  }

  lemma StuckMore(
    rest: seq<string>, line: BodyLine, body: seq<BodyLine>, o: nat, n: nat, oldLeft: nat, newLeft: nat, taken: Body)
    requires rest != [] && BodyText(line) == rest[0] && |OldOf(line)| <= oldLeft && |NewOf(line)| <= newLeft
    requires Stuck(rest[1..], body, o, n, oldLeft - |OldOf(line)|, newLeft - |NewOf(line)|)
    ensures Stuck(rest, [line] + body, o + |OldOf(line)|, n + |NewOf(line)|, oldLeft, newLeft)
  {
    TakesMore(rest, line, body, o, n, taken);
    hide Misfits, Takes;
    assert |body| < |rest[1..]| ==> rest[1..][|body|] == rest[|body| + 1];
  }

  // ---------- Lines that say nothing ----------

  /** A line that begins none of the things a patch is made of. */
  predicate Silent(line: string) {
    && !("diff --git " <= line) && !("rename from " <= line) && !("rename to " <= line)
    && !("new file mode " <= line) && !("new mode " <= line) && !("--- " <= line) && !("@@ " <= line)
  }

  /**
   The parser passes over a line that says nothing, a `---` line without its `+++` line, and a hunk header
   that has no file to belong to or no ranges to read; a body that does not fit its counts it refuses.
  */
  lemma PassedOver(line: string, rest: seq<string>, i: nat, files: seq<FilePatch>)
    ensures Silent(line) ==> ParseFrom([line] + rest, i, files) == ParseFrom(rest, i + 1, files)
    ensures "--- " <= line && (rest == [] || !("+++ " <= rest[0]))
        ==> ParseFrom([line] + rest, i, files) == ParseFrom(rest, i + 1, files)
    ensures "@@ " <= line && (files == [] || HunkRanges(line).None?)
        ==> ParseFrom([line] + rest, i, files) == ParseFrom(rest, i + 1, files)
    ensures "@@ " <= line && files != [] && HunkRanges(line).Some? ==>
              var (start, oldCount, newCount) := HunkRanges(line).value;
              var body := TakeBody(rest, i + 1, oldCount, newCount, Body(i + 1, [], []));
              body.Err? ==> ParseFrom([line] + rest, i, files) == Err(body.error)
  {
    hide HunkRanges, TakeBody, WithHeaders, ExtendLast, AddHunk, GitFile;
    var lines := [line] + rest;
    assert lines[0] == line && lines[1..] == rest;
    if "--- " <= line { assert line[0] == '-'; }
    if "@@ " <= line { assert line[0] == '@'; }
    assert GIT[0] == 'd' && RENAME_FROM[0] == 'r' && RENAME_TO[0] == 'r' && NEW_FILE_MODE[0] == 'n'
           && NEW_MODE[0] == 'n' && OLD[0] == '-' && HUNK[0] == '@';
  }

  // ---------- Texts within a line ----------

  predicate Blank(s: string) { forall i | 0 <= i < |s| :: IsWhitespace(s[i]) }

  /** The text does not end in whitespace. */
  predicate EndsSolid(s: string) { s != "" ==> !IsWhitespace(s[|s| - 1]) }

  lemma {:induction false} TrimEndCuts(s: string, blank: string)
    requires Blank(blank) && EndsSolid(s)
    ensures TrimEnd(s + blank) == s
    decreases |blank|
  {
    if blank == "" {
      assert s + blank == s;
    } else {
      var all := s + blank;
      assert all[|all| - 1] == blank[|blank| - 1] && all[..|all| - 1] == s + blank[..|blank| - 1];
      TrimEndCuts(s, blank[..|blank| - 1]);
    }
  }

  lemma {:induction false} TrimStartCuts(blank: string, s: string)
    requires Blank(blank) && (s != "" ==> !IsWhitespace(s[0]))
    ensures TrimStart(blank + s) == s
    decreases |blank|
  {
    if blank == "" {
      assert blank + s == s;
    } else {
      assert (blank + s)[1..] == blank[1..] + s;
      TrimStartCuts(blank[1..], s);
    }
  }

  /** A header's name goes up to a tab, and whitespace before that is not part of it. */
  lemma HeaderNameEnds(name: string, blank: string, stamp: string)
    requires '\t' !in name && '\t' !in blank && Blank(blank) && EndsSolid(name)
    ensures HeaderName(name + blank) == name
    ensures HeaderName(name + blank + ['\t'] + stamp) == name
  {
    TrimEndCuts(name, blank);
    SplitOnceFirst(name + blank, '\t', stamp);
  }

  /** A mode is read in base eight, whatever whitespace is around it; one that does not fit is none. */
  lemma ModeReads(before: string, mode: nat, after: string)
    requires Blank(before) && Blank(after)
    ensures ParseMode(before + Numeral(mode, 8) + after) == if mode < 0x1_0000_0000 then Some(mode) else None
  {
    var text := Numeral(mode, 8);
    assert !IsWhitespace(text[0]) && !IsWhitespace(text[|text| - 1]);
    assert (before + text)[|before + text| - 1] == text[|text| - 1];
    TrimEndCuts(before + text, after);
    TrimStartCuts(before, text);
    NumeralRoundTrip(mode, 8);
  }

  lemma {:induction false} SignsAreTrimmed(signs: string, range: string)
    requires forall i | 0 <= i < |signs| :: signs[i] == '-' || signs[i] == '+'
    requires range != "" ==> range[0] != '-' && range[0] != '+'
    ensures TrimSigns(signs + range) == range
    decreases |signs|
  {
    if signs == "" {
      assert signs + range == range;
    } else {
      assert (signs + range)[1..] == signs[1..] + range;
      SignsAreTrimmed(signs[1..], range);
    }
  }

  /** A range is a start, and a count after a comma, or else of one line, after any signs; large numbers are refused. */
  lemma RangeByCases(signs: string, start: nat, count: nat)
    requires forall i | 0 <= i < |signs| :: signs[i] == '-' || signs[i] == '+'
    ensures ParseRange(signs + Numeral(start, 10)) == if start < USIZE_LIMIT then Some((start, 1)) else None
    ensures ParseRange(signs + (Numeral(start, 10) + [','] + Numeral(count, 10)))
         == if start < USIZE_LIMIT && count < USIZE_LIMIT then Some((start, count)) else None
  {
    var s, c := Numeral(start, 10), Numeral(count, 10);
    NumeralRoundTrip(start, 10);
    NumeralRoundTrip(count, 10);
    SignsAreTrimmed(signs, s);
    assert (s + [','] + c)[0] == s[0];
    SignsAreTrimmed(signs, s + [','] + c);
    assert ',' !in s;
    SplitOnceFirst(s, ',', c);
    hide TrimSigns, Numeral, NumeralValue, SplitOnce;
  }

  /** Whitespace between the words of a hunk header is whitespace, however much there is. */
  lemma {:induction false} BlankBeforeWords(blank: string, s: string)
    requires Blank(blank)
    ensures Words(blank + s) == Words(s)
    decreases |blank|
  {
    if blank == "" {
      assert blank + s == s;
    } else {
      assert (blank + s)[1..] == blank[1..] + s;
      BlankBeforeWords(blank[1..], s);
    }
  }
}
