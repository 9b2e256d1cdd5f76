/** Module versions: parsing, the order on them, and what that order promises. */
module Versions {
  import opened Text

  // ---------- Three-way comparison ----------

  datatype Ordering = Less | Equal | Greater {
    function Flip(): Ordering {
      match this
      case Less => Greater
      case Equal => Equal
      case Greater => Less
    }

    /** `next` decides only when this comparison did not. */
    function Then(next: Ordering): Ordering {
      if Equal? then next else this
    }
  }

  function CompareInt(a: int, b: int): Ordering {
    if a < b then Less else if a == b then Equal else Greater
  }

  function CompareBool(a: bool, b: bool): Ordering {
    if a == b then Equal else if b then Less else Greater
  }

  /** Lexicographic comparison; a proper prefix is the smaller one. */
  function CompareSeq<T>(compare: (T, T) -> Ordering, a: seq<T>, b: seq<T>): Ordering {
    if a == [] then (if b == [] then Equal else Less)
    else if b == [] then Greater
    else compare(a[0], b[0]).Then(CompareSeq(compare, a[1..], b[1..]))
  }

  function CompareChar(a: char, b: char): Ordering { CompareInt(a as int, b as int) }

  function CompareString(a: string, b: string): Ordering { CompareSeq(CompareChar, a, b) }

  /** A comparison that is a strict total order, with `Equal` meaning identity. */
  ghost predicate Lawful<T(!new)>(compare: (T, T) -> Ordering) {
    && (forall a, b :: compare(a, b) == Equal <==> a == b)
    && (forall a, b :: compare(b, a) == compare(a, b).Flip())
    && (forall a, b, c :: compare(a, b) == Less && compare(b, c) == Less ==> compare(a, c) == Less)
  }

  lemma {:induction false} CompareSeqPair<T(!new)>(compare: (T, T) -> Ordering, a: seq<T>, b: seq<T>)
    requires Lawful(compare)
    ensures CompareSeq(compare, a, b) == Equal <==> a == b
    ensures CompareSeq(compare, b, a) == CompareSeq(compare, a, b).Flip()
  {
    if a != [] && b != [] {
      CompareSeqPair(compare, a[1..], b[1..]);
      assert a == [a[0]] + a[1..] && b == [b[0]] + b[1..];
    }
  }

  lemma {:induction false} CompareSeqTransitive<T(!new)>(
    compare: (T, T) -> Ordering, a: seq<T>, b: seq<T>, c: seq<T>)
    requires Lawful(compare)
    requires CompareSeq(compare, a, b) == Less && CompareSeq(compare, b, c) == Less
    ensures CompareSeq(compare, a, c) == Less
  {
    if a != [] && b != [] && c != [] && a[0] == b[0] == c[0] {
      CompareSeqTransitive(compare, a[1..], b[1..], c[1..]);
    }
  }

  /** Comparing lists element by element keeps the laws. */
  lemma CompareSeqLawful<T(!new)>(compare: (T, T) -> Ordering)
    requires Lawful(compare)
    ensures Lawful((a, b) => CompareSeq(compare, a, b))
  {
    var lifted := (a: seq<T>, b: seq<T>) => CompareSeq(compare, a, b);
    forall a, b ensures lifted(a, b) == Equal <==> a == b
            ensures lifted(b, a) == lifted(a, b).Flip()
    {
      CompareSeqPair(compare, a, b);
    }
    forall a, b, c | lifted(a, b) == Less && lifted(b, c) == Less ensures lifted(a, c) == Less {
      CompareSeqTransitive(compare, a, b, c);
    }
  }

  // ---------- Identifiers ----------

  const U64_LIMIT: nat := 0x1_0000_0000_0000_0000

  datatype Identifier =
    | Numeric(value: nat, text: string)
    | Textual(text: string)

  datatype ParseError = Malformed | EmptyIdentifier | SegmentTooLarge

  function CompareIdentifier(a: Identifier, b: Identifier): Ordering {
    match (a, b)
    case (Numeric(va, ta), Numeric(vb, tb)) => CompareInt(va, vb).Then(CompareString(ta, tb))
    case (Numeric(_, _), Textual(_)) => Less
    case (Textual(_), Numeric(_, _)) => Greater
    case (Textual(ta), Textual(tb)) => CompareString(ta, tb)
  }

  lemma CompareIdentifierLawful()
    ensures Lawful(CompareIdentifier)
  {
    CompareSeqLawful(CompareChar);
    var lifted := (a: string, b: string) => CompareSeq(CompareChar, a, b);
    assert forall a, b :: CompareString(a, b) == lifted(a, b);
  }

  function ParseIdentifier(s: string): Result<Identifier, ParseError> {
    if s == "" then Err(EmptyIdentifier)
    else if IsNumeral(s, 10) then
      if NumeralValue(s, 10) < U64_LIMIT then Ok(Numeric(NumeralValue(s, 10), s))
      else Err(SegmentTooLarge)
    else Ok(Textual(s))
  }

  /** All the pieces parsed, or the first piece's error. */
  function ParseIdentifiers(pieces: seq<string>): Result<seq<Identifier>, ParseError> {
    if pieces == [] then Ok([])
    else
      match ParseIdentifier(pieces[0])
      case Err(e) => Err(e)
      case Ok(first) =>
        match ParseIdentifiers(pieces[1..])
        case Err(e) => Err(e)
        case Ok(rest) => Ok([first] + rest)
  }

  function Texts(identifiers: seq<Identifier>): (r: seq<string>)
    ensures |r| == |identifiers|
    ensures forall i | 0 <= i < |r| :: r[i] == identifiers[i].text
  {
    seq(|identifiers|, i requires 0 <= i < |identifiers| => identifiers[i].text)
  }

  lemma {:induction false} ParseIdentifiersTexts(pieces: seq<string>)
    requires ParseIdentifiers(pieces).Ok?
    ensures Texts(ParseIdentifiers(pieces).value) == pieces
    ensures forall id <- ParseIdentifiers(pieces).value :: ParseIdentifier(id.text) == Ok(id)
  {
    if pieces != [] { ParseIdentifiersTexts(pieces[1..]); }
  }

  lemma {:induction false} ParseIdentifiersOfTexts(identifiers: seq<Identifier>)
    requires forall id <- identifiers :: ParseIdentifier(id.text) == Ok(id)
    ensures ParseIdentifiers(Texts(identifiers)) == Ok(identifiers)
  {
    if identifiers != [] {
      assert Texts(identifiers)[1..] == Texts(identifiers[1..]);
      assert Texts(identifiers)[0] == identifiers[0].text;
      ParseIdentifiersOfTexts(identifiers[1..]);
      assert [identifiers[0]] + identifiers[1..] == identifiers;
    }
  }

  // ---------- The version pattern ----------

  predicate ReleaseChar(c: char) { IsAlphanumeric(c) || c == '.' }

  predicate SuffixChar(c: char) { ReleaseChar(c) || c == '-' }

  function Prefixed(c: char, part: Option<string>): string {
    match part
    case None => ""
    case Some(text) => [c] + text
  }

  predicate SuffixOk(part: Option<string>) {
    part.Some? ==> part.value != "" && All(SuffixChar, part.value)
  }

  /** What the version regular expression says: RELEASE[-PRERELEASE][+BUILD]. */
  predicate Matches(s: string, release: string, prerelease: Option<string>, build: Option<string>) {
    && release != "" && All(ReleaseChar, release) && SuffixOk(prerelease) && SuffixOk(build)
    && s == release + Prefixed('-', prerelease) + Prefixed('+', build)
  }

  function Cut(s: string, c: char): (r: (string, Option<string>))
    ensures s == r.0 + Prefixed(c, r.1) && c !in r.0
  {
    match SplitOnce(s, c)
    case None => (s, None)
    case Some((before, after)) => (before, Some(after))
  }

  lemma CutUnique(before: string, c: char, after: Option<string>)
    requires c !in before
    ensures Cut(before + Prefixed(c, after), c) == (before, after)
  {
    if after.Some? {
      assert before + Prefixed(c, after) == before + [c] + after.value;
      SplitOnceFirst(before, c, after.value);
    } else {
      assert before + Prefixed(c, after) == before;
    }
  }

  /** The release and prerelease the expression captures; the build is not captured. */
  function Captures(s: string): Option<(string, Option<string>)> {
    var (main, build) := Cut(s, '+');
    var (release, prerelease) := Cut(main, '-');
    if release != "" && All(ReleaseChar, release) && SuffixOk(prerelease) && SuffixOk(build)
    then Some((release, prerelease)) else None
  }

  /** The cutting finds exactly the decompositions the expression allows, and there is only one. */
  lemma CapturesIsTheExpression(s: string, release: string, prerelease: Option<string>)
    ensures Captures(s) == Some((release, prerelease))
       <==> exists build :: Matches(s, release, prerelease, build)
  {
    if Captures(s) == Some((release, prerelease)) {
      assert Matches(s, release, prerelease, Cut(s, '+').1);
    }
    forall build | Matches(s, release, prerelease, build)
      ensures Captures(s) == Some((release, prerelease))
    {
      var main := release + Prefixed('-', prerelease);
      assert '+' !in main;
      CutUnique(main, '+', build);
      assert '-' !in release;
      CutUnique(release, '-', prerelease);
    }
  }

  // ---------- Versions ----------

  datatype VersionData = VersionData(
    release: seq<Identifier>, prerelease: seq<Identifier>, normalized: string)

  const EMPTY_DATA := VersionData([], [], "")

  function Render(release: string, prerelease: Option<string>): string {
    release + Prefixed('-', prerelease)
  }

  function ParseData(s: string): Result<VersionData, ParseError> {
    if s == "" then Ok(EMPTY_DATA)
    else
      match Captures(s)
      case None => Err(Malformed)
      case Some((release, prerelease)) =>
        match ParseIdentifiers(Split(release, '.'))
        case Err(e) => Err(e)
        case Ok(releaseIds) =>
          match if prerelease.None? then Ok([]) else ParseIdentifiers(Split(prerelease.value, '.'))
          case Err(e) => Err(e)
          case Ok(prereleaseIds) =>
            Ok(VersionData(releaseIds, prereleaseIds, Render(release, prerelease)))
  }

  predicate ReadsBack(v: VersionData) {
    ParseData(v.normalized) == Ok(v)
  }

  /**
   The versions there are: the text that is a version's normalized text reads as that version. Said of a
   text, it is looked up only in proofs that parse one.
  */
  predicate IsVersion(v: VersionData) {
    forall s | s == v.normalized :: ParseData(s) == Ok(v)
  }

  lemma VersionReadsBack(v: VersionData)
    ensures IsVersion(v) <==> ReadsBack(v)
  {
  }

  type Version = v: VersionData | IsVersion(v) witness EMPTY_DATA

  const EMPTY: Version := EMPTY_DATA

  /** Whatever parses is a version, so parsing a normalized text is a fixed point. */
  lemma NormalizedIsFixedPoint(s: string)
    requires ParseData(s).Ok?
    ensures ReadsBack(ParseData(s).value)
    ensures '+' !in ParseData(s).value.normalized
  {
    var v := ParseData(s).value;
    if s != "" {
      var (release, prerelease) := Captures(s).value;
      assert v.normalized == release + Prefixed('-', prerelease) + Prefixed('+', None);
      assert Matches(v.normalized, release, prerelease, None);
      CapturesIsTheExpression(v.normalized, release, prerelease);
    }
  }

  function Parse(s: string): Result<Version, ParseError> {
    NormalizedParse(s);
    ParseData(s)
  }

  lemma NormalizedParse(s: string)
    ensures ParseData(s).Ok? ==> IsVersion(ParseData(s).value)
  {
    if ParseData(s).Ok? {
      NormalizedIsFixedPoint(s);
      VersionReadsBack(ParseData(s).value);
    }
  }

  /** The text of a version as its identifiers spell it. */
  function Spelling(release: seq<Identifier>, prerelease: seq<Identifier>): string {
    Render(Join(Texts(release), '.'),
           if prerelease == [] then None else Some(Join(Texts(prerelease), '.')))
  }

  lemma SpellingIsNormalized(v: Version)
    ensures v.normalized == Spelling(v.release, v.prerelease)
    ensures v.release == [] <==> v == EMPTY
    ensures v.normalized == "" <==> v == EMPTY
  {
    VersionReadsBack(v);
    if v != EMPTY {
      var (release, prerelease) := Captures(v.normalized).value;
      ParseIdentifiersTexts(Split(release, '.'));
      JoinOfSplit(release, '.');
      if prerelease.Some? {
        ParseIdentifiersTexts(Split(prerelease.value, '.'));
        JoinOfSplit(prerelease.value, '.');
      }
    } else {
      assert Texts([]) == [];
    }
  }

  function Compare(a: Version, b: Version): Ordering {
    CompareBool(a.normalized == "", b.normalized == "")
    .Then(CompareSeq(CompareIdentifier, a.release, b.release))
    .Then(CompareBool(b.prerelease != [], a.prerelease != []))
    .Then(CompareSeq(CompareIdentifier, a.prerelease, b.prerelease))
  }

  predicate AtMost(a: Version, b: Version) { Compare(a, b) != Greater }

  /** The order is total, and it calls two versions equal exactly when their texts are. */
  lemma CompareLaws(a: Version, b: Version)
    ensures Compare(a, b) == Equal <==> a.normalized == b.normalized
    ensures Compare(a, b) == Equal <==> a == b
    ensures Compare(b, a) == Compare(a, b).Flip()
    ensures Compare(a, EMPTY) == if a == EMPTY then Equal else Less
  {
    CompareIdentifierLawful();
    CompareSeqPair(CompareIdentifier, a.release, b.release);
    CompareSeqPair(CompareIdentifier, a.prerelease, b.prerelease);
    VersionReadsBack(a);
    VersionReadsBack(b);
    SpellingIsNormalized(a);
    SpellingIsNormalized(b);
    SpellingIsNormalized(EMPTY);
  }

  lemma CompareTransitive(a: Version, b: Version, c: Version)
    requires AtMost(a, b) && AtMost(b, c)
    ensures AtMost(a, c)
    ensures a == c ==> a == b
  {
    CompareLaws(a, b);
    CompareLaws(b, c);
    CompareLaws(a, c);
    if a != b && b != c {
      CompareIdentifierLawful();
      CompareSeqPair(CompareIdentifier, a.release, b.release);
      CompareSeqPair(CompareIdentifier, b.release, c.release);
      CompareSeqPair(CompareIdentifier, a.prerelease, b.prerelease);
      CompareSeqPair(CompareIdentifier, b.prerelease, c.prerelease);
      if CompareSeq(CompareIdentifier, a.release, b.release) == Less
         && CompareSeq(CompareIdentifier, b.release, c.release) == Less {
        CompareSeqTransitive(CompareIdentifier, a.release, b.release, c.release);
      }
      if CompareSeq(CompareIdentifier, a.prerelease, b.prerelease) == Less
         && CompareSeq(CompareIdentifier, b.prerelease, c.prerelease) == Less {
        CompareSeqTransitive(CompareIdentifier, a.prerelease, b.prerelease, c.prerelease);
      }
    }
  }

  /** The order laws for all versions at once. */
  lemma AtMostOrder()
    ensures forall a: Version, b: Version :: AtMost(a, b) || AtMost(b, a)
    ensures forall a: Version, b: Version :: AtMost(a, b) && AtMost(b, a) ==> a == b
    ensures forall a: Version, b: Version, c: Version :: AtMost(a, b) && AtMost(b, c) ==> AtMost(a, c)
    ensures forall a: Version :: AtMost(a, EMPTY)
  {
    forall a: Version, b: Version
      ensures AtMost(a, b) || AtMost(b, a)
      ensures AtMost(a, b) && AtMost(b, a) ==> a == b
    {
      CompareLaws(a, b);
    }
    forall a: Version, b: Version, c: Version | AtMost(a, b) && AtMost(b, c) ensures AtMost(a, c) {
      CompareTransitive(a, b, c);
    }
    forall a: Version ensures AtMost(a, EMPTY) { CompareLaws(a, EMPTY); }
  }

  // ---------- Least and greatest of a set ----------

  predicate IsLeast(s: set<Version>, v: Version) { v in s && forall x <- s :: AtMost(v, x) }

  predicate IsGreatest(s: set<Version>, v: Version) { v in s && forall x <- s :: AtMost(x, v) }

  lemma {:induction false} LeastExists(s: set<Version>)
    requires s != {}
    ensures exists v :: IsLeast(s, v)
  {
    AtMostOrder();
    var x :| x in s;
    var rest := s - {x};
    if rest == {} {
      assert s == {x} && IsLeast(s, x);
    } else {
      LeastExists(rest);
      var y :| IsLeast(rest, y);
      assert IsLeast(s, if AtMost(x, y) then x else y);
    }
  }

  lemma {:induction false} GreatestExists(s: set<Version>)
    requires s != {}
    ensures exists v :: IsGreatest(s, v)
  {
    AtMostOrder();
    var x :| x in s;
    var rest := s - {x};
    if rest == {} {
      assert s == {x} && IsGreatest(s, x);
    } else {
      GreatestExists(rest);
      var y :| IsGreatest(rest, y);
      assert IsGreatest(s, if AtMost(y, x) then x else y);
    }
  }

  function Least(s: set<Version>): (v: Version)
    requires s != {}
    ensures IsLeast(s, v)
  {
    LeastExists(s);
    AtMostOrder();
    var v :| v in s && IsLeast(s, v);
    v
  }

  function Greatest(s: set<Version>): (v: Version)
    requires s != {}
    ensures IsGreatest(s, v)
  {
    GreatestExists(s);
    AtMostOrder();
    var v :| v in s && IsGreatest(s, v);
    v
  }

  lemma LeastUnique(s: set<Version>, v: Version)
    requires IsLeast(s, v)
    ensures Least(s) == v
  {
    CompareLaws(v, Least(s));
  }

  lemma LeastIn(s: set<Version>)
    requires s != {}
    ensures Least(s) in s
  {
  }

  lemma GreatestIn(s: set<Version>)
    requires s != {}
    ensures Greatest(s) in s
  {
  }

  /** Something above the least of a set does not change it. */
  lemma LeastOfMore(s: set<Version>, above: Version)
    requires s != {} && AtMost(Least(s), above)
    ensures Least(s + {above}) == Least(s)
  {
    LeastUnique(s + {above}, Least(s));
  }

  lemma GreatestUnique(s: set<Version>, v: Version)
    requires IsGreatest(s, v)
    ensures Greatest(s) == v
  {
    CompareLaws(v, Greatest(s));
  }

  /** Build metadata takes no part: a version with it is the version without it. */
  lemma BuildIsIgnored(s: string, build: string)
    requires s != "" && '+' !in s && build != "" && All(SuffixChar, build)
    ensures Parse(s + "+" + build) == Parse(s)
  {
    CutUnique(s, '+', Some(build));
    CutUnique(s, '+', None);
    assert s + Prefixed('+', Some(build)) == s + "+" + build;
    assert s + Prefixed('+', None) == s;
    var (release, prerelease) := Cut(s, '-');
  }
}
