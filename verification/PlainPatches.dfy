/**
 Patches with and without git headers in one text: which of the printed files the parser keeps. A `---`
 line starts over a file that has no git header, and completes one that has nothing else.
*/
module PlainPatches {
  import opened Text
  import opened PatchApply
  import opened PatchParse
  import opened PatchPrint

  /** A file's part of a patch, under a git header or without one. */
  datatype Doc =
    | Git(file: FileDoc)
    | Plain(oldHeader: HeaderDoc, newHeader: HeaderDoc, hunks: seq<HunkDoc>)

  function PrintDoc(d: Doc): seq<string> {
    match d
    case Git(file) => PrintFile(file)
    case Plain(o, n, hunks) => PrintHeaders(Some((o, n))) + PrintHunks(hunks)
  }

  function PrintDocs(docs: seq<Doc>): seq<string> {
    if docs == [] then [] else PrintDoc(docs[0]) + PrintDocs(docs[1..])
  }

  predicate DocOk(d: Doc) {
    match d
    case Git(file) => FileOk(file)
    case Plain(o, n, hunks) => HeaderOk(o) && HeaderOk(n) && forall i | 0 <= i < |hunks| :: HunkOk(hunks[i])
  }

  /** The file patch that says what the document says. */
  function DocOf(d: Doc, line: nat): FilePatch {
    match d
    case Git(file) => FileOf(file, line)
    case Plain(o, n, hunks) => Named(BLANK.(line := line), Some((o, n))).(hunks := HunksOf(hunks))
  }

  /** All of them, each at the line it begins on; the first begins after `i` lines. */
  function DocsOf(docs: seq<Doc>, i: nat): seq<FilePatch> {
    if docs == [] then [] else [DocOf(docs[0], i + 1)] + DocsOf(docs[1..], i + |PrintDoc(docs[0])|)
  }

  // ---------- What is kept ----------

  /** A git header with neither `---` and `+++` lines nor hunks. */
  predicate Bare(d: Doc) {
    d.Git? && d.file.headers.None? && d.file.hunks == []
  }

  /** A document without a git header does not stay apart from one it replaces or completes. */
  predicate Clash(d: Doc, after: Doc) {
    after.Plain? && (d.Plain? || Bare(d))
  }

  ghost predicate Apart(docs: seq<Doc>) {
    forall i, j | 0 <= i < j < |docs| && j == i + 1 :: !Clash(docs[i], docs[j])
  }

  /** What two documents that clash are read as: the later one, under the git header if there is one. */
  function Joined(d: Doc, after: Doc): Doc
    requires Clash(d, after)
  {
    if d.Plain? then after
    else Git(d.file.(headers := Some((after.oldHeader, after.newHeader)), hunks := after.hunks))
  }

  /** What is kept of `d`, begun on `line`, and the documents after it, the first of which follows `i` lines. */
  function KeptFrom(d: Doc, line: nat, docs: seq<Doc>, i: nat): seq<FilePatch>
    decreases |docs|
  {
    if docs == [] then [DocOf(d, line)]
    else
      var next := i + |PrintDoc(docs[0])|;
      if Clash(d, docs[0]) then KeptFrom(Joined(d, docs[0]), if d.Plain? then i + 1 else line, docs[1..], next)
      else [DocOf(d, line)] + KeptFrom(docs[0], i + 1, docs[1..], next)
  }

  function Kept(docs: seq<Doc>): seq<FilePatch> {
    if docs == [] then [] else KeptFrom(docs[0], 1, docs[1..], |PrintDoc(docs[0])|)
  }

  // ---------- One document ----------

  lemma PlainHeadersRead(
    o: HeaderDoc, n: HeaderDoc, rest: seq<string>, i: nat, files: seq<FilePatch>, kept: seq<FilePatch>)
    requires HeaderOk(o) && HeaderOk(n)
    requires files == kept || (files != [] && !Last(files).fromGit && files[..|files| - 1] == kept)
    requires files == kept ==> files == [] || Last(files).fromGit
    requires files == [] || Last(files).hunks != [] || Last(files).oldHeader != ""
    ensures ParseFrom(PrintHeaders(Some((o, n))) + rest, i, files)
         == ParseFrom(rest, i + 2, kept + [Named(BLANK.(line := i + 1), Some((o, n)))])
  {
    hide TrimEnd;
    var lines := PrintHeaders(Some((o, n))) + rest;
    HeaderReads(o);
    HeaderReads(n);
    assert lines[0] == OLD + HeaderText(o) && lines[1] == NEW + HeaderText(n) && lines[2..] == rest;
    assert lines[0][|OLD|..] == HeaderText(o) && lines[1][|NEW|..] == HeaderText(n);
    assert lines[0][0] == '-' && !(GIT <= lines[0]) && !IsExtension(lines[0]);
    hide HeaderName, HeaderText;
    var blank := BLANK.(line := i + 1);
    assert WithHeaders(files, i + 1, lines[0], lines[1])
        == SetLast(kept + [blank], Named(blank, Some((o, n))));
    assert SetLast(kept + [blank], Named(blank, Some((o, n)))) == kept + [Named(blank, Some((o, n)))];
  }

  /** A document without a git header, after nothing or after a file it does not complete. */
  lemma PlainReads(d: Doc, rest: seq<string>, i: nat, files: seq<FilePatch>, kept: seq<FilePatch>)
    requires d.Plain? && DocOk(d)
    requires files == kept || (files != [] && !Last(files).fromGit && files[..|files| - 1] == kept)
    requires files == kept ==> files == [] || Last(files).fromGit
    requires files == [] || Last(files).hunks != [] || Last(files).oldHeader != ""
    ensures ParseFrom(PrintDoc(d) + rest, i, files) == ParseFrom(rest, i + |PrintDoc(d)|, kept + [DocOf(d, i + 1)])
  {
    hide ParseFrom, PrintHunks, HunksOf, HeaderOk, HunkOk;
    var headers := PrintHeaders(Some((d.oldHeader, d.newHeader)));
    var file := Named(BLANK.(line := i + 1), Some((d.oldHeader, d.newHeader)));
    Assoc(headers, PrintHunks(d.hunks), rest);
    PlainHeadersRead(d.oldHeader, d.newHeader, PrintHunks(d.hunks) + rest, i, files, kept);
    HunksRead(d.hunks, rest, i + 2, kept, file);
    assert [] + HunksOf(d.hunks) == HunksOf(d.hunks);
  }

  /** A document without a git header after a bare one, which it completes. */
  lemma CompletionReads(bare: Doc, line: nat, d: Doc, rest: seq<string>, i: nat, before: seq<FilePatch>)
    requires Clash(bare, d) && bare.Git? && DocOk(d)
    ensures ParseFrom(PrintDoc(d) + rest, i, before + [DocOf(bare, line)])
         == ParseFrom(rest, i + |PrintDoc(d)|, before + [DocOf(Joined(bare, d), line)])
  {
    hide ParseFrom, PrintHunks, PrintHeaders, HeaderOk, HunkOk, Extending;
    var pair := Some((d.oldHeader, d.newHeader));
    var file := DocOf(bare, line);
    Assoc(PrintHeaders(pair), PrintHunks(d.hunks), rest);
    HeadersRead(pair, PrintHunks(d.hunks) + rest, i, before, file);
    HunksRead(d.hunks, rest, i + |PrintHeaders(pair)|, before, Named(file, pair));
    assert [] + HunksOf(d.hunks) == HunksOf(d.hunks);
  }

  /** How a document leaves its file, as far as the next `---` line asks. */
  lemma DocShape(d: Doc, line: nat)
    ensures DocOf(d, line).fromGit <==> d.Git?
    ensures DocOf(d, line).hunks == [] && DocOf(d, line).oldHeader == "" <==> Bare(d)
  {
  }

  /** The document after another one. */
  lemma NextReads(d: Doc, line: nat, after: Doc, rest: seq<string>, i: nat, before: seq<FilePatch>)
    requires DocOk(after)
    ensures ParseFrom(PrintDoc(after) + rest, i, before + [DocOf(d, line)])
         == ParseFrom(rest, i + |PrintDoc(after)|,
                      if !Clash(d, after) then before + [DocOf(d, line)] + [DocOf(after, i + 1)]
                      else before + [DocOf(Joined(d, after), if d.Plain? then i + 1 else line)])
  {
    DocShape(d, line);
    hide ParseFrom, DocOf;
    var files := before + [DocOf(d, line)];
    assert files[..|files| - 1] == before;
    match after
    case Git(file) =>
      hide PrintFile, FileOf;
      FileReads(file, rest, i, files);
      assert DocOf(after, i + 1) == FileOf(file, i + 1) by { GitDocOf(after, i + 1); }
    case Plain(_, _, _) =>
      if Bare(d) {
        CompletionReads(d, line, after, rest, i, before);
      } else {
        PlainReads(after, rest, i, files, if d.Plain? then before else files);
      }
  }

  lemma GitDocOf(d: Doc, line: nat)
    requires d.Git?
    ensures DocOf(d, line) == FileOf(d.file, line)
  {
  }

  // ---------- All documents ----------

  lemma {:induction false} DocsReadFrom(d: Doc, line: nat, docs: seq<Doc>, i: nat, before: seq<FilePatch>)
    requires forall j | 0 <= j < |docs| :: DocOk(docs[j])
    ensures ParseFrom(PrintDocs(docs), i, before + [DocOf(d, line)]) == Ok(before + KeptFrom(d, line, docs, i))
    decreases |docs|
  {
    hide ParseFrom, DocOf, PrintDoc, DocOk, Clash, Joined;
    if docs == [] {
      NothingLeft(i, before + [DocOf(d, line)]);
    } else {
      var after, next := docs[0], i + |PrintDoc(docs[0])|;
      NextReads(d, line, after, PrintDocs(docs[1..]), i, before);
      if Clash(d, after) {
        DocsReadFrom(Joined(d, after), if d.Plain? then i + 1 else line, docs[1..], next, before);
      } else {
        DocsReadFrom(after, i + 1, docs[1..], next, before + [DocOf(d, line)]);
        Assoc(before, [DocOf(d, line)], KeptFrom(after, i + 1, docs[1..], next));
      }
    }
  }

  lemma FirstReads(d: Doc, rest: seq<string>)
    requires DocOk(d)
    ensures ParseFrom(PrintDoc(d) + rest, 0, []) == ParseFrom(rest, |PrintDoc(d)|, [DocOf(d, 1)])
  {
    hide ParseFrom, PrintFile, FileOf, FileOk;
    assert [] + [DocOf(d, 1)] == [DocOf(d, 1)];
    match d
    case Git(file) => FileReads(file, rest, 0, []);
    case Plain(_, _, _) => PlainReads(d, rest, 0, [], []);
  }

  /** Reading a printed patch gives what is kept of its documents. */
  lemma DocsRead(docs: seq<Doc>)
    requires forall j | 0 <= j < |docs| :: DocOk(docs[j])
    ensures ParseFrom(PrintDocs(docs), 0, []) == Ok(Kept(docs))
  {
    hide ParseFrom, DocOf, PrintDoc, DocOk, KeptFrom;
    if docs == [] {
      NothingLeft(0, []);
    } else {
      FirstReads(docs[0], PrintDocs(docs[1..]));
      assert [] + [DocOf(docs[0], 1)] == [DocOf(docs[0], 1)];
      DocsReadFrom(docs[0], 1, docs[1..], |PrintDoc(docs[0])|, []);
      var kept := KeptFrom(docs[0], 1, docs[1..], |PrintDoc(docs[0])|);
      assert [] + kept == kept;
    }
  }

  // ---------- When nothing is lost ----------

  lemma {:induction false} KeptWhenApart(d: Doc, line: nat, docs: seq<Doc>, i: nat)
    ensures var kept := KeptFrom(d, line, docs, i);
            if Apart([d] + docs) then kept == [DocOf(d, line)] + DocsOf(docs, i) else |kept| <= |docs|
    decreases |docs|
  {
    hide DocOf, PrintDoc, Clash, Joined, Apart;
    ApartStep(d, docs);
    if docs != [] {
      var after, next := docs[0], i + |PrintDoc(docs[0])|;
      if Clash(d, after) {
        FewerKept(Joined(d, after), if d.Plain? then i + 1 else line, docs[1..], next);
      } else {
        KeptWhenApart(after, i + 1, docs[1..], next);
        assert [after] + docs[1..] == docs;
      }
    }
  }

  lemma {:induction false} FewerKept(d: Doc, line: nat, docs: seq<Doc>, i: nat)
    ensures |KeptFrom(d, line, docs, i)| <= |docs| + 1
    decreases |docs|
  {
    hide DocOf, PrintDoc, Clash, Joined;
    if docs != [] {
      var next := i + |PrintDoc(docs[0])|;
      if Clash(d, docs[0]) {
        FewerKept(Joined(d, docs[0]), if d.Plain? then i + 1 else line, docs[1..], next);
      } else {
        FewerKept(docs[0], i + 1, docs[1..], next);
      }
    }
  }

  lemma ApartStep(d: Doc, docs: seq<Doc>)
    ensures Apart([d] + docs) <==> docs == [] || (!Clash(d, docs[0]) && Apart(docs))
  {
    hide Clash;
    var all := [d] + docs;
    if Apart(all) && docs != [] {
      assert !Clash(all[0], all[1]);
      forall i, j | 0 <= i < j < |docs| && j == i + 1 ensures !Clash(docs[i], docs[j]) {
        assert !Clash(all[i + 1], all[j + 1]);
      }
    } else if docs != [] && !Clash(d, docs[0]) && Apart(docs) {
      forall i, j | 0 <= i < j < |all| && j == i + 1 ensures !Clash(all[i], all[j]) {
        if i > 0 { assert !Clash(docs[i - 1], docs[j - 1]); }
      }
    }
  }

  lemma {:induction false} DocsCount(docs: seq<Doc>, i: nat)
    ensures |DocsOf(docs, i)| == |docs|
    decreases |docs|
  {
    hide PrintDoc, DocOf;
    if docs != [] { DocsCount(docs[1..], i + |PrintDoc(docs[0])|); }
  }

  /**
   Reading a printed patch gives back all its files exactly when no document without a git header comes
   right after another such document or after a bare git header.
  */
  lemma DocsReadBack(docs: seq<Doc>)
    requires forall j | 0 <= j < |docs| :: DocOk(docs[j])
    ensures ParseFrom(PrintDocs(docs), 0, []) == Ok(DocsOf(docs, 0)) <==> Apart(docs)
  {
    hide ParseFrom, DocOf, PrintDoc, DocOk;
    DocsRead(docs);
    DocsCount(docs, 0);
    if docs != [] {
      KeptWhenApart(docs[0], 1, docs[1..], |PrintDoc(docs[0])|);
      assert [docs[0]] + docs[1..] == docs;
    }
  }

  lemma {:induction false} LastKept(d: Doc, line: nat, docs: seq<Doc>, i: nat)
    requires d.Plain? && forall j | 0 <= j < |docs| :: docs[j].Plain?
    ensures KeptFrom(d, line, docs, i)
         == if docs == [] then [DocOf(d, line)]
            else [DocOf(docs[|docs| - 1], i + |PrintDocs(docs[..|docs| - 1])| + 1)]
    decreases |docs|
  {
    hide DocOf, PrintDoc;
    if docs != [] {
      LastKept(docs[0], i + 1, docs[1..], i + |PrintDoc(docs[0])|);
      if |docs| > 1 {
        var fewer := docs[..|docs| - 1];
        assert fewer[0] == docs[0] && fewer[1..] == docs[1..][..|docs| - 2];
      } else {
        assert docs[..0] == [];
      }
    }
  }

  /** A patch without git headers is read as its last file, so as all of them only when it has no other. */
  lemma PlainPatchIsItsLastFile(docs: seq<Doc>)
    requires docs != [] && forall j | 0 <= j < |docs| :: DocOk(docs[j]) && docs[j].Plain?
    ensures ParseFrom(PrintDocs(docs), 0, [])
         == Ok([DocOf(docs[|docs| - 1], |PrintDocs(docs[..|docs| - 1])| + 1)])
    ensures ParseFrom(PrintDocs(docs), 0, []) == Ok(DocsOf(docs, 0)) <==> |docs| == 1
  {
    hide ParseFrom, DocOf, PrintDoc, DocOk;
    DocsRead(docs);
    DocsReadBack(docs);
    LastKept(docs[0], 1, docs[1..], |PrintDoc(docs[0])|);
    var fewer := docs[..|docs| - 1];
    if |docs| > 1 {
      assert fewer[0] == docs[0] && fewer[1..] == docs[1..][..|docs| - 2];
      assert docs[1..][|docs| - 2] == docs[|docs| - 1];
      assert Clash(docs[0], docs[1]);
    } else {
      assert fewer == [] && docs[1..] == [];
    }
  }

  const ONE_HUNK := HunkDoc(1, 1, "", [Removed("x"), Added("y")])

  /** A file without a git header in which `x` becomes `y`. */
  function Small(name: string): Doc {
    Plain(HeaderDoc(name, None), HeaderDoc(name, None), [ONE_HUNK])
  }

  lemma SmallIsOk(name: string)
    requires '\t' !in name && TrimEnd(name) == name
    ensures DocOk(Small(name)) && |PrintDoc(Small(name))| == 5
    ensures forall line :: DocOf(Small(name), line).oldName == Some(name)
                           && DocOf(Small(name), line).hunks == [Hunk(1, ["x"], ["y"])]
  {
    hide TrimEnd, HunkHeader;
    var body := ONE_HUNK.body;
    assert body[1..] == [Added("y")] && body[1..][1..] == [];
    var added: BodyLine := Added("y");
    assert OldSide([added]) == OldOf(added) + OldSide([added][1..]) && OldSide([added][1..]) == [];
    assert NewSide([added]) == NewOf(added) + NewSide([added][1..]) && NewSide([added][1..]) == [];
    assert OldSide(body) == ["x"] + [] && NewSide(body) == [] + (["y"] + []);
    assert [ONE_HUNK][1..] == [];
    assert PrintHunks([ONE_HUNK]) == [HunkHeader(ONE_HUNK)] + PrintBody(body) + [];
    assert HunksOf([ONE_HUNK]) == [HunkOf(ONE_HUNK)] + HunksOf([ONE_HUNK][1..]);
    assert HunkOf(ONE_HUNK) == Hunk(1, ["x"], ["y"]);
  }

  /** Two files, each with a hunk: the first one is lost. */
  lemma FirstOfTwoIsLost()
    ensures ParseFrom(PrintDocs([Small("a"), Small("b")]), 0, []) == Ok([DocOf(Small("b"), 6)])
    ensures DocOf(Small("b"), 6).oldName == Some("b") && DocOf(Small("b"), 6).hunks == [Hunk(1, ["x"], ["y"])]
  {
    hide ParseFrom, PrintDoc, DocOk, DocOf, Small;
    var docs := [Small("a"), Small("b")];
    SmallIsOk("a");
    SmallIsOk("b");
    assert docs[..1] == [Small("a")] && [Small("a")][1..] == [];
    assert Small("a").Plain? && Small("b").Plain? by { SmallIsPlain("a"); SmallIsPlain("b"); }
    PlainPatchIsItsLastFile(docs);
  }

  lemma SmallIsPlain(name: string)
    ensures Small(name).Plain?
  {
  }
}
