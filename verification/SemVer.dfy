/** Semantic Versioning 2.0.0: its grammar and its precedence, and that module versions follow it. */
module SemVer {
  import opened Text
  import opened Versions

  datatype PrereleaseField = Number(n: nat) | Word(text: string)

  /** A Semantic Versioning version, as its grammar (section 2 and sections 9 and 10) builds it. */
  datatype Semantic = Semantic(
    major: nat, minor: nat, patch: nat, prerelease: seq<PrereleaseField>, build: seq<string>)

  predicate IsField(text: string) {
    text != "" && forall c <- text :: IsAlphanumeric(c) || c == '-'
  }

  /** A prerelease identifier: a number, or a field that is not all digits. */
  predicate FieldOk(f: PrereleaseField) {
    match f
    case Number(n) => n < U64_LIMIT
    case Word(text) => IsField(text) && !IsNumeral(text, 10)
  }

  predicate FieldsOk(fields: seq<PrereleaseField>) {
    forall i | 0 <= i < |fields| :: FieldOk(fields[i])
  }

  /** Well-formed, with every number in 64 bits. */
  predicate Valid(v: Semantic) {
    && v.major < U64_LIMIT && v.minor < U64_LIMIT && v.patch < U64_LIMIT
    && FieldsOk(v.prerelease)
    && (forall text <- v.build :: IsField(text))
  }

  function FieldText(f: PrereleaseField): string {
    match f
    case Number(n) => Numeral(n, 10)
    case Word(text) => text
  }

  function FieldTexts(fields: seq<PrereleaseField>): (r: seq<string>)
    ensures |r| == |fields| && forall i | 0 <= i < |r| :: r[i] == FieldText(fields[i])
  {
    seq(|fields|, i requires 0 <= i < |fields| => FieldText(fields[i]))
  }

  function ReleaseTexts(v: Semantic): seq<string> {
    [Numeral(v.major, 10), Numeral(v.minor, 10), Numeral(v.patch, 10)]
  }

  function Suffix(fields: seq<string>): Option<string> {
    if fields == [] then None else Some(Join(fields, '.'))
  }

  function Print(v: Semantic): string {
    Join(ReleaseTexts(v), '.') + Prefixed('-', Suffix(FieldTexts(v.prerelease)))
    + Prefixed('+', Suffix(v.build))
  }

  // ---------- Section 11 ----------

  /** Lexically before, in ASCII order: at the first difference, or as a proper prefix. */
  ghost predicate AsciiBefore(a: string, b: string) {
    exists i :: DiffersAt(a, b, i)
  }

  ghost predicate DiffersAt(a: string, b: string, i: nat) {
    && i <= |a| && i < |b| && a[..i] == b[..i]
    && (i == |a| || a[i] < b[i])
  }

  ghost function FieldPrecedence(a: PrereleaseField, b: PrereleaseField): Ordering {
    match (a, b)
    case (Number(m), Number(n)) => if m < n then Less else if m > n then Greater else Equal
    case (Number(_), Word(_)) => Less
    case (Word(_), Number(_)) => Greater
    case (Word(s), Word(t)) => if s == t then Equal else if AsciiBefore(s, t) then Less else Greater
  }

  /** Field by field from the left; when all before are equal the larger set is the higher. */
  ghost function FieldsPrecedence(a: seq<PrereleaseField>, b: seq<PrereleaseField>): Ordering {
    if a == [] && b == [] then Equal
    else if a == [] then Less
    else if b == [] then Greater
    else if FieldPrecedence(a[0], b[0]) != Equal then FieldPrecedence(a[0], b[0])
    else FieldsPrecedence(a[1..], b[1..])
  }

  /** The precedence of section 11; the build field has no part in it. */
  ghost function Precedence(a: Semantic, b: Semantic): Ordering {
    if a.major != b.major then (if a.major < b.major then Less else Greater)
    else if a.minor != b.minor then (if a.minor < b.minor then Less else Greater)
    else if a.patch != b.patch then (if a.patch < b.patch then Less else Greater)
    else if a.prerelease == [] && b.prerelease != [] then Greater
    else if a.prerelease != [] && b.prerelease == [] then Less
    else FieldsPrecedence(a.prerelease, b.prerelease)
  }

  // ---------- Parsing a printed version ----------

  function NumberId(n: nat): Identifier { Numeric(n, Numeral(n, 10)) }

  function FieldId(f: PrereleaseField): Identifier {
    match f
    case Number(n) => NumberId(n)
    case Word(text) => Textual(text)
  }

  function FieldIds(fields: seq<PrereleaseField>): (r: seq<Identifier>)
    ensures |r| == |fields| && forall i | 0 <= i < |r| :: r[i] == FieldId(fields[i])
  {
    seq(|fields|, i requires 0 <= i < |fields| => FieldId(fields[i]))
  }

  function ReleaseIds(v: Semantic): seq<Identifier> {
    [NumberId(v.major), NumberId(v.minor), NumberId(v.patch)]
  }

  lemma {:induction false} ParseFields(fields: seq<PrereleaseField>)
    requires FieldsOk(fields)
    ensures ParseIdentifiers(FieldTexts(fields)) == Ok(FieldIds(fields))
  {
    if fields != [] {
      assert FieldTexts(fields)[1..] == FieldTexts(fields[1..]);
      assert FieldIds(fields) == [FieldId(fields[0])] + FieldIds(fields[1..]);
      ParseFields(fields[1..]);
      match fields[0]
      case Number(n) => NumeralRoundTrip(n, 10);
      case Word(_) =>
    }
  }

  lemma SuffixSplits(fields: seq<string>)
    requires forall text <- fields :: IsField(text)
    ensures SuffixOk(Suffix(fields))
    ensures fields != [] ==> Split(Suffix(fields).value, '.') == fields
  {
    if fields != [] {
      SplitOfJoin(fields, '.');
      JoinChars(fields, '.', SuffixChar);
      assert IsField(fields[0]);
    }
  }

  lemma ReleaseSplits(v: Semantic)
    requires Valid(v)
    ensures All(ReleaseChar, Join(ReleaseTexts(v), '.')) && Join(ReleaseTexts(v), '.') != ""
    ensures ParseIdentifiers(Split(Join(ReleaseTexts(v), '.'), '.'))
         == Ok(ReleaseIds(v))
  {
    var numbers := [Number(v.major), Number(v.minor), Number(v.patch)];
    assert FieldTexts(numbers) == ReleaseTexts(v);
    assert FieldIds(numbers) == ReleaseIds(v);
    ParseFields(numbers);
    SplitOfJoin(ReleaseTexts(v), '.');
    JoinChars(ReleaseTexts(v), '.', ReleaseChar);
  }

  /** Every valid Semantic Versioning text is a module version, read field for field. */
  lemma ParsePrinted(v: Semantic)
    requires Valid(v)
    ensures Parse(Print(v)).Ok?
    ensures Parse(Print(v)).value.release == ReleaseIds(v)
    ensures Parse(Print(v)).value.prerelease == FieldIds(v.prerelease)
  {
    var release, prerelease := Join(ReleaseTexts(v), '.'), Suffix(FieldTexts(v.prerelease));
    ReleaseSplits(v);
    forall text <- FieldTexts(v.prerelease) ensures IsField(text) {
      var i :| 0 <= i < |v.prerelease| && FieldTexts(v.prerelease)[i] == text;
      assert FieldOk(v.prerelease[i]);
    }
    SuffixSplits(FieldTexts(v.prerelease));
    SuffixSplits(v.build);
    assert Matches(Print(v), release, prerelease, Suffix(v.build));
    CapturesIsTheExpression(Print(v), release, prerelease);
    ParseFields(v.prerelease);
    assert FieldIds([]) == [];
  }

  // ---------- The two orders agree ----------

  lemma {:induction false} CompareStringIsAscii(a: string, b: string)
    ensures CompareString(a, b) == Less <==> AsciiBefore(a, b)
  {
    if a == [] || b == [] {
      if b != [] { assert DiffersAt(a, b, 0); }
    } else if a[0] != b[0] {
      if a[0] < b[0] { assert DiffersAt(a, b, 0); }
      forall i: nat | DiffersAt(a, b, i) ensures a[0] < b[0] {
        if i > 0 { assert a[..i][0] == b[..i][0]; }
      }
    } else {
      CompareStringIsAscii(a[1..], b[1..]);
      forall i: nat | DiffersAt(a[1..], b[1..], i) ensures DiffersAt(a, b, i + 1) {
        assert a[..i + 1] == [a[0]] + a[1..][..i] && b[..i + 1] == [b[0]] + b[1..][..i];
      }
      forall i: nat | DiffersAt(a, b, i) ensures i > 0 && DiffersAt(a[1..], b[1..], i - 1) {
        assert a[1..][..i - 1] == a[..i][1..] && b[1..][..i - 1] == b[..i][1..];
      }
    }
  }

  lemma CompareFieldIds(a: PrereleaseField, b: PrereleaseField)
    ensures CompareIdentifier(FieldId(a), FieldId(b)) == FieldPrecedence(a, b)
  {
    var s, t := FieldText(a), FieldText(b);
    CompareSeqPair(CompareChar, s, t);
    CompareStringIsAscii(s, t);
    CompareStringIsAscii(t, s);
  }

  lemma {:induction false} CompareFieldsIds(a: seq<PrereleaseField>, b: seq<PrereleaseField>)
    ensures CompareSeq(CompareIdentifier, FieldIds(a), FieldIds(b)) == FieldsPrecedence(a, b)
  {
    if a != [] && b != [] {
      CompareFieldIds(a[0], b[0]);
      CompareFieldsIds(a[1..], b[1..]);
      assert FieldIds(a)[1..] == FieldIds(a[1..]) && FieldIds(b)[1..] == FieldIds(b[1..]);
    }
  }

  lemma ReleasePrecedence(a: Semantic, b: Semantic)
    ensures CompareSeq(CompareIdentifier, ReleaseIds(a), ReleaseIds(b))
         == CompareInt(a.major, b.major).Then(CompareInt(a.minor, b.minor))
                                        .Then(CompareInt(a.patch, b.patch))
  {
    var ra, rb := ReleaseIds(a), ReleaseIds(b);
    CompareFieldIds(Number(a.major), Number(b.major));
    CompareFieldIds(Number(a.minor), Number(b.minor));
    CompareFieldIds(Number(a.patch), Number(b.patch));
    CompareSeqStep(ra, rb);
    assert ra[1..] == [NumberId(a.minor), NumberId(a.patch)] && rb[1..] == [NumberId(b.minor), NumberId(b.patch)];
    CompareSeqStep(ra[1..], rb[1..]);
    assert ra[1..][1..] == [NumberId(a.patch)] && rb[1..][1..] == [NumberId(b.patch)];
    CompareSeqStep(ra[1..][1..], rb[1..][1..]);
  }

  lemma CompareSeqStep(a: seq<Identifier>, b: seq<Identifier>)
    requires a != [] && b != []
    ensures CompareSeq(CompareIdentifier, a, b)
         == CompareIdentifier(a[0], b[0]).Then(CompareSeq(CompareIdentifier, a[1..], b[1..]))
    ensures |a| == 1 && |b| == 1 ==>
              CompareSeq(CompareIdentifier, a, b) == CompareIdentifier(a[0], b[0])
  {
    if |a| == 1 && |b| == 1 {
      assert a[1..] == [] && b[1..] == [];
    }
  }

  lemma ReadPartsPrecedence(a: Semantic, b: Semantic, va: Version, vb: Version)
    requires va.release == ReleaseIds(a) && va.prerelease == FieldIds(a.prerelease)
    requires vb.release == ReleaseIds(b) && vb.prerelease == FieldIds(b.prerelease)
    ensures Compare(va, vb) == Precedence(a, b)
  {
    SpellingIsNormalized(va);
    SpellingIsNormalized(vb);
    ReleasePrecedence(a, b);
    CompareFieldsIds(a.prerelease, b.prerelease);
  }

  /** Module versions order every pair of Semantic Versioning texts as section 11 does. */
  lemma OrderIsPrecedence(a: Semantic, b: Semantic)
    requires Valid(a) && Valid(b)
    ensures Parse(Print(a)).Ok? && Parse(Print(b)).Ok?
    ensures Compare(Parse(Print(a)).value, Parse(Print(b)).value) == Precedence(a, b)
  {
    ParsePrinted(a);
    ParsePrinted(b);
    ReadPartsPrecedence(a, b, Parse(Print(a)).value, Parse(Print(b)).value);
  }

  /** Different patch levels are different versions, and none is the empty one. */
  lemma PatchLevelsDiffer(m: nat, n: nat)
    requires m < n < U64_LIMIT
    ensures var a, b := Semantic(1, 0, m, [], []), Semantic(1, 0, n, [], []);
            && Parse(Print(a)).Ok? && Parse(Print(b)).Ok?
            && Parse(Print(a)).value != Parse(Print(b)).value
            && EMPTY !in {Parse(Print(a)).value, Parse(Print(b)).value}
  {
    ParsePrinted(Semantic(1, 0, m, [], []));
    ParsePrinted(Semantic(1, 0, n, [], []));
    hide Parse, Print;
  }
}
