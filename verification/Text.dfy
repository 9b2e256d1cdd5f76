/** Small text helpers the models share: results, splitting, joining and numerals. */
module Text {

  datatype Option<+T> = None | Some(value: T)

  datatype Result<+T, +E> = Ok(value: T) | Err(error: E)

  /** Rust's `char::is_whitespace`: the Unicode White_Space property. */
  predicate IsWhitespace(c: char) {
    var n := c as int;
    || 0x9 <= n <= 0xd || n == 0x20 || n == 0x85 || n == 0xa0 || n == 0x1680
    || 0x2000 <= n <= 0x200a || n == 0x2028 || n == 0x2029 || n == 0x202f
    || n == 0x205f || n == 0x3000
  }

  predicate IsDigit(c: char) { '0' <= c <= '9' }

  predicate IsAlphanumeric(c: char) {
    IsDigit(c) || 'a' <= c <= 'z' || 'A' <= c <= 'Z'
  }

  lemma Assoc<T>(a: seq<T>, b: seq<T>, c: seq<T>)
    ensures a + b + c == a + (b + c)
  {
  }

  predicate All(p: char -> bool, s: string) {
    forall i | 0 <= i < |s| :: p(s[i])
  }

  /** The text before and after the first `c`, as `split_once` gives it. */
  function SplitOnce(s: string, c: char): (r: Option<(string, string)>)
    ensures r.None? <==> c !in s
    ensures r.Some? ==> s == r.value.0 + [c] + r.value.1 && c !in r.value.0
  {
    if s == [] then None
    else if s[0] == c then Some(("", s[1..]))
    else
      var rest := SplitOnce(s[1..], c);
      if rest.None? then None
      else
        assert s == [s[0]] + s[1..];
        Some(([s[0]] + rest.value.0, rest.value.1))
  }

  lemma {:induction false} SplitOnceFirst(before: string, c: char, after: string)
    requires c !in before
    ensures SplitOnce(before + [c] + after, c) == Some((before, after))
  {
    var s := before + [c] + after;
    if before == [] {
      assert s[1..] == after;
    } else {
      assert s[1..] == before[1..] + [c] + after;
      SplitOnceFirst(before[1..], c, after);
      assert [s[0]] + before[1..] == before;
    }
  }

  /** The pieces between the `c`s: always at least one. */
  function Split(s: string, c: char): (parts: seq<string>)
    ensures parts != []
    decreases |s|
  {
    match SplitOnce(s, c)
    case None => [s]
    case Some((before, after)) => [before] + Split(after, c)
  }

  function Join(parts: seq<string>, c: char): string {
    if parts == [] then ""
    else if |parts| == 1 then parts[0]
    else parts[0] + [c] + Join(parts[1..], c)
  }

  lemma {:induction false} JoinOfSplit(s: string, c: char)
    ensures Join(Split(s, c), c) == s
    ensures forall p <- Split(s, c) :: c !in p
    decreases |s|
  {
    match SplitOnce(s, c)
    case None =>
    case Some((before, after)) =>
      JoinOfSplit(after, c);
      assert Split(s, c)[1..] == Split(after, c);
  }

  lemma {:induction false} SplitOfJoin(parts: seq<string>, c: char)
    requires parts != [] && forall p <- parts :: c !in p
    ensures Split(Join(parts, c), c) == parts
  {
    if |parts| == 1 {
      assert parts == [parts[0]];
    } else {
      SplitOfJoin(parts[1..], c);
      SplitOnceFirst(parts[0], c, Join(parts[1..], c));
    }
  }

  lemma {:induction false} JoinChars(parts: seq<string>, c: char, p: char -> bool)
    requires p(c) && forall t <- parts :: All(p, t)
    ensures All(p, Join(parts, c))
  {
    if |parts| > 1 {
      JoinChars(parts[1..], c, p);
      assert All(p, parts[0]) && All(p, Join(parts[1..], c));
    } else if |parts| == 1 {
      assert All(p, parts[0]);
    }
  }

  // ---------- Numerals ----------

  predicate IsBase(base: nat) { base == 8 || base == 10 }

  predicate IsNumeral(s: string, base: nat) {
    forall i | 0 <= i < |s| :: '0' <= s[i] && s[i] as int - '0' as int < base
  }

  function NumeralValue(s: string, base: nat): nat
    requires IsNumeral(s, base)
  {
    if s == [] then 0
    else NumeralValue(s[..|s| - 1], base) * base + (s[|s| - 1] as int - '0' as int)
  }

  function Numeral(n: nat, base: nat): (s: string)
    requires IsBase(base)
    ensures s != [] && IsNumeral(s, base)
  {
    var digit := [('0' as int + n % base) as char];
    if n < base then digit else Numeral(n / base, base) + digit
  }

  lemma {:induction false} NumeralRoundTrip(n: nat, base: nat)
    requires IsBase(base)
    ensures NumeralValue(Numeral(n, base), base) == n
  {
    if n >= base {
      NumeralRoundTrip(n / base, base);
      assert Numeral(n, base)[..|Numeral(n, base)| - 1] == Numeral(n / base, base);
    } else {
      assert NumeralValue([], base) == 0;
      assert Numeral(n, base)[..0] == [];
    }
  }

  /** Rust's parsing of an unsigned integer below `limit`: an optional `+`, then digits. */
  function ParseUnsigned(s: string, base: nat, limit: nat): Option<nat> {
    var digits := if s != [] && s[0] == '+' then s[1..] else s;
    if digits == [] || !IsNumeral(digits, base) then None
    else if NumeralValue(digits, base) < limit then Some(NumeralValue(digits, base))
    else None
  }

  lemma ParseUnsignedNumeral(n: nat, base: nat, limit: nat)
    requires IsBase(base) && n < limit
    ensures ParseUnsigned(Numeral(n, base), base, limit) == Some(n)
  {
    NumeralRoundTrip(n, base);
  }

  /** A leading plus changes nothing, and a number that does not fit is refused. */
  lemma UnsignedByCases(n: nat, base: nat, limit: nat)
    requires IsBase(base)
    ensures ParseUnsigned(Numeral(n, base), base, limit) == if n < limit then Some(n) else None
    ensures ParseUnsigned(['+'] + Numeral(n, base), base, limit) == if n < limit then Some(n) else None
    ensures ParseUnsigned("", base, limit) == None && ParseUnsigned("+", base, limit) == None
  {
    NumeralRoundTrip(n, base);
    assert (['+'] + Numeral(n, base))[1..] == Numeral(n, base);
    assert "+"[1..] == "";
    hide Numeral, NumeralValue;
  }

  lemma {:induction false} LeadingZero(s: string, base: nat)
    requires IsBase(base) && IsNumeral(s, base)
    ensures IsNumeral(['0'] + s, base) && NumeralValue(['0'] + s, base) == NumeralValue(s, base)
    decreases |s|
  {
    var all := ['0'] + s;
    if s == [] {
      assert all[..0] == [];
    } else {
      LeadingZero(s[..|s| - 1], base);
      assert all[..|all| - 1] == ['0'] + s[..|s| - 1];
    }
  }
}
