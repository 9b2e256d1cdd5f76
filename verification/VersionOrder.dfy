/** Parsing and ordering of versions piece by piece: which piece decides, and how. */
module VersionOrder {
  import opened Text
  import opened Versions
  import opened SemVer

  // ---------- Pieces ----------

  /** A piece of a version: not empty, and below 2^64 if it is a number. */
  predicate PieceOk(t: string) { t != "" && (IsNumeral(t, 10) ==> NumeralValue(t, 10) < U64_LIMIT) }

  /** The identifier of a piece: a number if it is all digits, and text otherwise. */
  predicate IsOfPiece(id: Identifier, t: string) {
    id.text == t && (id.Numeric? <==> IsNumeral(t, 10)) && (id.Numeric? ==> id.value == NumeralValue(t, 10))
  }

  predicate AreOfPieces(ids: seq<Identifier>, pieces: seq<string>) {
    |ids| == |pieces| && forall i | 0 <= i < |pieces| :: IsOfPiece(ids[i], pieces[i])
  }

  /** The pieces of the release, and then of the prerelease. */
  function Pieces(release: string, prerelease: Option<string>): seq<string> {
    Split(release, '.') + if prerelease.None? then [] else Split(prerelease.value, '.')
  }

  lemma {:induction false} PiecesParse(pieces: seq<string>)
    ensures var r := ParseIdentifiers(pieces);
            && (r.Ok? ==> (forall i | 0 <= i < |pieces| :: PieceOk(pieces[i])) && AreOfPieces(r.value, pieces))
            && (r.Err? ==> exists i: nat :: FirstBad(pieces, i, r.error))
    decreases |pieces|
  {
    if pieces != [] {
      PiecesParse(pieces[1..]);
      hide IsNumeral, NumeralValue;
      match ParseIdentifiers(pieces)
      case Ok(ids) =>
        assert forall i | 0 < i < |pieces| :: pieces[i] == pieces[1..][i - 1] && ids[i] == ids[1..][i - 1];
      case Err(e) =>
        if ParseIdentifier(pieces[0]).Err? {
          assert FirstBad(pieces, 0, e);
        } else {
          var i: nat :| FirstBad(pieces[1..], i, e);
          assert forall j | 0 < j < |pieces| :: pieces[j] == pieces[1..][j - 1];
          assert FirstBad(pieces, i + 1, e);
        }
    }
  }

  /** Piece `i` is the first that will not do, and the error says what is wrong with it. */
  predicate FirstBad(pieces: seq<string>, i: nat, e: ParseError) {
    && i < |pieces| && !PieceOk(pieces[i]) && (forall j | 0 <= j < i :: PieceOk(pieces[j]))
    && e == if pieces[i] == "" then EmptyIdentifier else SegmentTooLarge
  }

  /** A text that the expression matches is a version exactly when its pieces will do. */
  lemma ParseByPieces(s: string, release: string, prerelease: Option<string>, build: Option<string>)
    requires Matches(s, release, prerelease, build)
    ensures var pieces, r := Pieces(release, prerelease), ParseData(s);
            && (r.Ok? ==>
                  && (forall i | 0 <= i < |pieces| :: PieceOk(pieces[i]))
                  && AreOfPieces(r.value.release, Split(release, '.'))
                  && AreOfPieces(r.value.prerelease, if prerelease.None? then [] else Split(prerelease.value, '.'))
                  && r.value.normalized == release + Prefixed('-', prerelease))
            && (r.Err? ==> exists i: nat :: FirstBad(pieces, i, r.error))
  {
    var before, after := Split(release, '.'), if prerelease.None? then [] else Split(prerelease.value, '.');
    DataOfPieces(s, release, prerelease, build);
    PiecesParse(before);
    PiecesParse(after);
    PiecesTogether(before, after);
    hide ParseData, Split, ParseIdentifiers, Matches, FirstBad, PieceOk, AreOfPieces;
    assert Pieces(release, prerelease) == before + after;
    if ParseIdentifiers(before).Err? {
      var i: nat :| FirstBad(before, i, ParseIdentifiers(before).error);
      assert FirstBad(before + after, i, ParseIdentifiers(before).error);
    } else if ParseIdentifiers(after).Err? {
      var i: nat :| FirstBad(after, i, ParseIdentifiers(after).error);
      assert FirstBad(before + after, |before| + i, ParseIdentifiers(after).error);
    }
  }

  lemma DataOfPieces(s: string, release: string, prerelease: Option<string>, build: Option<string>)
    requires Matches(s, release, prerelease, build)
    ensures var after := if prerelease.None? then [] else Split(prerelease.value, '.');
            ParseData(s)
            == match ParseIdentifiers(Split(release, '.'))
               case Err(e) => Err(e)
               case Ok(r) =>
                 match ParseIdentifiers(after)
                 case Err(e) => Err(e)
                 case Ok(p) => Ok(VersionData(r, p, release + Prefixed('-', prerelease)))
  {
    CapturesIsTheExpression(s, release, prerelease);
    assert s != "";
    NothingParses();
    hide Captures, ParseIdentifiers, Matches, Split;
  }

  /** Only a text that the expression does not match is malformed. */
  lemma MalformedIsUnmatched(s: string)
    ensures ParseData(s) == Err(Malformed)
       <==> s != "" && forall release, prerelease, build :: !Matches(s, release, prerelease, build)
  {
    if release, prerelease, build :| Matches(s, release, prerelease, build) {
      ParseByPieces(s, release, prerelease, build);
    } else if s != "" {
      hide ParseIdentifiers, Matches;
      if Captures(s).Some? { CapturesIsTheExpression(s, Captures(s).value.0, Captures(s).value.1); }
    }
  }

  lemma NothingParses()
    ensures ParseIdentifiers([]) == Ok([])
  {
  }

  lemma PiecesTogether(before: seq<string>, after: seq<string>)
    ensures forall i: nat, e | FirstBad(before, i, e) :: FirstBad(before + after, i, e)
    ensures (forall i | 0 <= i < |before| :: PieceOk(before[i])) ==>
              forall i: nat, e | FirstBad(after, i, e) :: FirstBad(before + after, |before| + i, e)
    ensures (forall i | 0 <= i < |before| :: PieceOk(before[i])) && (forall i | 0 <= i < |after| :: PieceOk(after[i]))
        ==> forall i | 0 <= i < |before + after| :: PieceOk((before + after)[i])
  {
    hide PieceOk;
  }

  // ---------- Order ----------

  /** A number is below a text, numbers go by value and then by how they are written, texts by ASCII order. */
  ghost predicate IdBefore(a: Identifier, b: Identifier) {
    match (a, b)
    case (Numeric(m, s), Numeric(n, t)) => m < n || (m == n && AsciiBefore(s, t))
    case (Numeric(_, _), Textual(_)) => true
    case (Textual(_), Numeric(_, _)) => false
    case (Textual(s), Textual(t)) => AsciiBefore(s, t)
  }

  /** Up to `i` the lists are the same, and there the first is at its end or has the lower identifier. */
  ghost predicate LowerAt(a: seq<Identifier>, b: seq<Identifier>, i: nat) {
    && i <= |a| && i < |b| && a[..i] == b[..i]
    && (i == |a| || IdBefore(a[i], b[i]))
  }

  ghost predicate ListBefore(a: seq<Identifier>, b: seq<Identifier>) {
    exists i :: LowerAt(a, b, i)
  }

  /**
   The first release identifier that differs decides, or else the release that ends is the lower. For one
   release a prerelease is below none, and the first difference between two prereleases decides.
  */
  ghost predicate VersionBefore(a: Version, b: Version) {
    if a == EMPTY || b == EMPTY then a != EMPTY
    else
      || ListBefore(a.release, b.release)
      || (a.release == b.release && a.prerelease != [] && b.prerelease == [])
      || (a.release == b.release && a.prerelease != [] && b.prerelease != [] && ListBefore(a.prerelease, b.prerelease))
  }

  lemma IdBeforeIsLess(a: Identifier, b: Identifier)
    ensures CompareIdentifier(a, b) == Less <==> IdBefore(a, b)
  {
    CompareStringIsAscii(a.text, b.text);
    hide CompareString, AsciiBefore;
  }

  lemma {:induction false} ListBeforeIsLess(a: seq<Identifier>, b: seq<Identifier>)
    ensures CompareSeq(CompareIdentifier, a, b) == Less <==> ListBefore(a, b)
  {
    if a == [] || b == [] {
      if a == [] && b != [] { assert LowerAt(a, b, 0); }
    } else {
      IdBeforeIsLess(a[0], b[0]);
      IdentifierSame(a[0], b[0]);
      hide CompareIdentifier, IdBefore;
      if a[0] != b[0] {
        if IdBefore(a[0], b[0]) { assert LowerAt(a, b, 0); }
        forall i: nat | LowerAt(a, b, i) ensures IdBefore(a[0], b[0]) {
          if i > 0 { assert a[..i][0] == b[..i][0]; }
        }
      } else {
        ListBeforeIsLess(a[1..], b[1..]);
        forall i: nat | LowerAt(a[1..], b[1..], i) ensures ListBefore(a, b) {
          LowerAtMore(a, b, i);
        }
        forall i: nat | LowerAt(a, b, i) ensures ListBefore(a[1..], b[1..]) {
          LowerAtRest(a, b, i);
        }
      }
    }
  }

  lemma LowerAtMore(a: seq<Identifier>, b: seq<Identifier>, i: nat)
    requires a != [] && b != [] && a[0] == b[0] && LowerAt(a[1..], b[1..], i)
    ensures LowerAt(a, b, i + 1)
  {
    hide IdBefore;
    assert a[..i + 1] == [a[0]] + a[1..][..i] && b[..i + 1] == [b[0]] + b[1..][..i];
  }

  lemma LowerAtRest(a: seq<Identifier>, b: seq<Identifier>, i: nat)
    requires a != [] && b != [] && a[0] == b[0] && LowerAt(a, b, i)
    ensures 0 < i && LowerAt(a[1..], b[1..], i - 1)
  {
    NotBeforeItself(a[0]);
    hide IdBefore;
    var j := if i == 0 then 0 else i - 1;
    assert a[..i] == b[..i];
    forall h | 0 <= h < j ensures a[1..][h] == b[1..][h] {
      assert a[..i][h + 1] == b[..i][h + 1];
    }
  }

  lemma IdentifierSame(a: Identifier, b: Identifier)
    ensures CompareIdentifier(a, b) == Equal <==> a == b
  {
    CompareIdentifierLawful();
  }

  lemma NotBeforeItself(a: Identifier)
    ensures !IdBefore(a, a)
  {
    IdBeforeIsLess(a, a);
    IdentifierSame(a, a);
  }

  /** The order of versions, for all of them, by the first piece that differs. */
  lemma OrderByFirstDifference(a: Version, b: Version)
    ensures Compare(a, b) == Less <==> VersionBefore(a, b)
    ensures Compare(a, b) == Greater <==> VersionBefore(b, a)
  {
    LessIsBefore(a, b);
    LessIsBefore(b, a);
    CompareLaws(a, b);
    hide Compare, VersionBefore;
  }

  lemma LessIsBefore(a: Version, b: Version)
    ensures Compare(a, b) == Less <==> VersionBefore(a, b)
  {
    ListBeforeIsLess(a.release, b.release);
    ListBeforeIsLess(a.prerelease, b.prerelease);
    SpellingIsNormalized(a);
    SpellingIsNormalized(b);
    CompareIdentifierLawful();
    CompareSeqPair(CompareIdentifier, a.release, b.release);
    hide CompareSeq, ListBefore, CompareIdentifier;
  }

  // ---------- An example ----------

  lemma {:induction false} PiecesRead(pieces: seq<string>)
    requires pieces != [] && forall t <- pieces :: PieceOk(t) && forall c <- t :: IsAlphanumeric(c)
    ensures Parse(Join(pieces, '.')).Ok?
    ensures AreOfPieces(Parse(Join(pieces, '.')).value.release, pieces)
    ensures Parse(Join(pieces, '.')).value.prerelease == []
  {
    hide IsNumeral, NumeralValue, ParseData;
    var s := Join(pieces, '.');
    forall t <- pieces ensures All(ReleaseChar, t) && '.' !in t {
    }
    JoinChars(pieces, '.', ReleaseChar);
    SplitOfJoin(pieces, '.');
    assert s != "" by {
      assert PieceOk(pieces[0]);
      JoinNotEmpty(pieces);
    }
    assert Matches(s, s, None, None);
    ParseByPieces(s, s, None, None);
    assert Pieces(s, None) == pieces;
    forall i: nat, e ensures !FirstBad(pieces, i, e) {
      assert i < |pieces| ==> pieces[i] in pieces;
    }
  }

  lemma JoinNotEmpty(pieces: seq<string>)
    requires pieces != [] && pieces[0] != ""
    ensures Join(pieces, '.') != ""
  {
  }

  /** More identifiers do not make a version higher: 20230802.0.bcr.1 is below 20230802.1. */
  lemma LongerIsNotHigher(year: string)
    requires PieceOk(year) && forall c <- year :: IsAlphanumeric(c)
    ensures var long, short := Parse(Join([year, "0", "bcr", "1"], '.')), Parse(Join([year, "1"], '.'));
            long.Ok? && short.Ok? && Compare(long.value, short.value) == Less
  {
    assert IsNumeral("0", 10) && IsNumeral("1", 10) && !IsNumeral("bcr", 10) by { assert "bcr"[0] == 'b'; }
    assert "0"[..0] == "" && "1"[..0] == "" && NumeralValue("", 10) == 0;
    assert NumeralValue("0", 10) == 0 && NumeralValue("1", 10) == 1;
    var longer, shorter := [year, "0", "bcr", "1"], [year, "1"];
    hide IsNumeral, NumeralValue, Parse, Compare, Join;
    PiecesRead(longer);
    PiecesRead(shorter);
    var long, short := Parse(Join(longer, '.')).value, Parse(Join(shorter, '.')).value;
    assert IsOfPiece(long.release[0], longer[0]) && IsOfPiece(short.release[0], shorter[0]);
    assert IsOfPiece(long.release[1], longer[1]) && IsOfPiece(short.release[1], shorter[1]);
    assert long.release[0] == short.release[0];
    assert long.release[..1] == [long.release[0]] && short.release[..1] == [short.release[0]];
    assert LowerAt(long.release, short.release, 1);
    SpellingIsNormalized(long);
    SpellingIsNormalized(short);
    OrderByFirstDifference(long, short);
  }
}
