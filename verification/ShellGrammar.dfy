/**
 What a command line is made of, and that splitting it says what it means: every text is whitespace and
 pieces of words, up to where a quotation or a backslash is left open.
*/
module ShellGrammar {
  import opened Text
  import opened ShellWords

  /** Inside double quotes: a character, a quote or backslash after a backslash, or a backslash that is kept. */
  datatype Inside = Itself(c: char) | Protected(c: char) | Kept(c: char)

  datatype Token =
    | Space(c: char)
    | Bare(c: char)
    | Backslashed(c: char)
    | Single(text: string)
    | Double(inside: seq<Inside>)

  /** How a line ends: with everything closed, in quotes, after a backslash in double quotes, or after one outside. */
  datatype Ending = Closed | InSingle(text: string) | InDouble(inside: seq<Inside>, backslash: bool) | AtBackslash

  predicate Special(c: char) { c == '"' || c == '\\' }

  predicate InsideOk(i: Inside) {
    match i
    case Itself(c) => !Special(c)
    case Protected(c) => Special(c)
    case Kept(c) => !Special(c)
  }

  predicate AllInside(inside: seq<Inside>) { forall i | 0 <= i < |inside| :: InsideOk(inside[i]) }

  predicate TokenOk(t: Token) {
    match t
    case Space(c) => IsWhitespace(c)
    case Bare(c) => !IsWhitespace(c) && c != '\'' && !Special(c)
    case Backslashed(_) => true
    case Single(text) => '\'' !in text
    case Double(inside) => AllInside(inside)
  }

  predicate EndingOk(e: Ending) {
    match e
    case Closed => true
    case InSingle(text) => '\'' !in text
    case InDouble(inside, _) => AllInside(inside)
    case AtBackslash => true
  }

  // ---------- Spelling ----------

  function SpellInside(inside: seq<Inside>): string {
    if inside == [] then ""
    else (if inside[0].Itself? then [inside[0].c] else ['\\', inside[0].c]) + SpellInside(inside[1..])
  }

  function Spell(t: Token): string {
    match t
    case Space(c) => [c]
    case Bare(c) => [c]
    case Backslashed(c) => ['\\', c]
    case Single(text) => ['\''] + text + ['\'']
    case Double(inside) => ['"'] + SpellInside(inside) + ['"']
  }

  function SpellAll(tokens: seq<Token>): string {
    if tokens == [] then "" else Spell(tokens[0]) + SpellAll(tokens[1..])
  }

  function SpellEnding(e: Ending): string {
    match e
    case Closed => ""
    case InSingle(text) => ['\''] + text
    case InDouble(inside, backslash) => ['"'] + SpellInside(inside) + if backslash then ['\\'] else []
    case AtBackslash => ['\\']
  }

  // ---------- Meaning ----------

  function MeanInside(inside: seq<Inside>): string {
    if inside == [] then ""
    else (if inside[0].Kept? then ['\\', inside[0].c] else [inside[0].c]) + MeanInside(inside[1..])
  }

  /** What a piece adds to its word. */
  function Mean(t: Token): string {
    match t
    case Space(_) => ""
    case Bare(c) => [c]
    case Backslashed(c) => [c]
    case Single(text) => text
    case Double(inside) => MeanInside(inside)
  }

  /** The words: the pieces between spaces, put together. `begun` is the word begun before, if any. */
  function WordsOf(tokens: seq<Token>, begun: Option<string>): seq<string> {
    if tokens == [] then if begun.Some? then [begun.value] else []
    else if tokens[0].Space? then (if begun.Some? then [begun.value] else []) + WordsOf(tokens[1..], None)
    else WordsOf(tokens[1..], Some((if begun.Some? then begun.value else "") + Mean(tokens[0])))
  }

  /** The words of a line that ends closed, and else what is left open. */
  function Meaning(tokens: seq<Token>, ending: Ending): Tokens {
    match ending
    case Closed => Ok(WordsOf(tokens, None))
    case InSingle(_) => Err(UnterminatedQuotation)
    case InDouble(_, _) => Err(UnterminatedQuotation)
    case AtBackslash => Err(BackslashAtEnd)
  }

  // ---------- Reading ----------

  lemma {:induction false} SingleReads(text: string, rest: string, word: string)
    requires '\'' !in text
    ensures Scan(text + rest, [], word, true, Some('\'')) == Scan(rest, [], word + text, true, Some('\''))
    decreases |text|
  {
    if text == "" {
      assert text + rest == rest && word + text == word;
    } else {
      assert (text + rest)[1..] == text[1..] + rest;
      SingleReads(text[1..], rest, word + [text[0]]);
      Assoc(word, [text[0]], text[1..]);
      assert [text[0]] + text[1..] == text;
    }
  }

  /** One item inside double quotes. */
  lemma ItemReads(i: Inside, rest: string, word: string)
    requires InsideOk(i)
    ensures Scan((if i.Itself? then [i.c] else ['\\', i.c]) + rest, [], word, true, Some('"'))
         == Scan(rest, [], word + (if i.Kept? then ['\\', i.c] else [i.c]), true, Some('"'))
  {
    var spelled := if i.Itself? then [i.c] else ['\\', i.c];
    var text := spelled + rest;
    assert text[0] == spelled[0] && text[|spelled|..] == rest && (!i.Itself? ==> text[1] == i.c);
  }

  lemma {:induction false} InsideReads(inside: seq<Inside>, rest: string, word: string)
    requires AllInside(inside)
    ensures Scan(SpellInside(inside) + rest, [], word, true, Some('"'))
         == Scan(rest, [], word + MeanInside(inside), true, Some('"'))
    decreases |inside|
  {
    hide Scan;
    if inside == [] {
      assert SpellInside(inside) + rest == rest && word + MeanInside(inside) == word;
    } else {
      var i := inside[0];
      var spelled, meant := if i.Itself? then [i.c] else ['\\', i.c], if i.Kept? then ['\\', i.c] else [i.c];
      Assoc(spelled, SpellInside(inside[1..]), rest);
      assert InsideOk(i);
      ItemReads(i, SpellInside(inside[1..]) + rest, word);
      InsideReads(inside[1..], rest, word + meant);
      Assoc(word, meant, MeanInside(inside[1..]));
    }
  }

  /** What opening or closing a quotation does. */
  lemma QuoteTurns(q: char, rest: string, word: string, inWord: bool)
    requires q == '\'' || q == '"'
    ensures Scan([q] + rest, [], word, inWord, None) == Scan(rest, [], word, true, Some(q))
    ensures Scan([q] + rest, [], word, inWord, Some(q)) == Scan(rest, [], word, inWord, None)
  {
    var text := [q] + rest;
    assert text[0] == q && text[1..] == rest;
  }

  lemma OneReads(t: Token, rest: string, word: string, inWord: bool)
    requires TokenOk(t) && (t.Bare? || t.Backslashed?)
    ensures Scan(Spell(t) + rest, [], word, inWord, None) == Scan(rest, [], word + [t.c], true, None)
  {
    var spelled := Spell(t);
    var text := spelled + rest;
    assert text[0] == spelled[0] && text[|spelled|..] == rest && (t.Backslashed? ==> text[1] == t.c);
  }

  /** A piece of a word, read where no quotation is open. */
  lemma PieceReads(t: Token, rest: string, word: string, inWord: bool)
    requires TokenOk(t) && !t.Space?
    ensures Scan(Spell(t) + rest, [], word, inWord, None) == Scan(rest, [], word + Mean(t), true, None)
  {
    hide Scan;
    match t
    case Bare(c) => OneReads(t, rest, word, inWord);
    case Backslashed(c) => OneReads(t, rest, word, inWord);
    case Single(inner) =>
      assert Spell(t) + rest == ['\''] + (inner + (['\''] + rest));
      QuoteTurns('\'', inner + (['\''] + rest), word, inWord);
      SingleReads(inner, ['\''] + rest, word);
      QuoteTurns('\'', rest, word + inner, true);
    case Double(inside) =>
      assert Spell(t) + rest == ['"'] + (SpellInside(inside) + (['"'] + rest));
      QuoteTurns('"', SpellInside(inside) + (['"'] + rest), word, inWord);
      InsideReads(inside, ['"'] + rest, word);
      QuoteTurns('"', rest, word + MeanInside(inside), true);
  }

  lemma EndingReads(e: Ending, word: string, inWord: bool)
    requires EndingOk(e)
    ensures Scan(SpellEnding(e), [], word, inWord, None)
         == match e
            case Closed => Ok(if inWord then [word] else [])
            case InSingle(_) => Err(UnterminatedQuotation)
            case InDouble(_, _) => Err(UnterminatedQuotation)
            case AtBackslash => Err(BackslashAtEnd)
  {
    var text := SpellEnding(e);
    match e
    case Closed => assert [] + [word] == [word];
    case InSingle(inner) =>
      assert text[1..] == inner + "";
      SingleReads(inner, "", word);
    case InDouble(inside, backslash) =>
      var tail := if backslash then ['\\'] else [];
      assert text[1..] == SpellInside(inside) + tail;
      InsideReads(inside, tail, word);
    case AtBackslash =>
  }

  lemma SpaceReads(c: char, rest: string, word: string, inWord: bool)
    requires IsWhitespace(c) && (inWord || word == "")
    ensures Scan([c] + rest, [], word, inWord, None) == Scan(rest, if inWord then [word] else [], "", false, None)
  {
    var text := [c] + rest;
    assert text[0] == c && text[1..] == rest && [] + [word] == [word];
  }

  lemma {:induction false} TokensRead(tokens: seq<Token>, ending: Ending, word: string, inWord: bool)
    requires (forall i | 0 <= i < |tokens| :: TokenOk(tokens[i])) && EndingOk(ending) && (inWord || word == "")
    ensures Scan(SpellAll(tokens) + SpellEnding(ending), [], word, inWord, None)
         == match Meaning([], ending)
            case Ok(_) => Ok(WordsOf(tokens, if inWord then Some(word) else None))
            case Err(e) => Err(e)
    decreases |tokens|
  {
    hide Scan;
    if tokens == [] {
      assert SpellAll(tokens) + SpellEnding(ending) == SpellEnding(ending);
      EndingReads(ending, word, inWord);
    } else {
      var t, rest := tokens[0], SpellAll(tokens[1..]) + SpellEnding(ending);
      Assoc(Spell(t), SpellAll(tokens[1..]), SpellEnding(ending));
      if t.Space? {
        SpaceReads(t.c, rest, word, inWord);
        TokensRead(tokens[1..], ending, "", false);
        ScanKeepsWords(rest, [word], [], "", false, None);
        assert [word] + [] == [word] && [] + [word] == [word];
        assert [] + WordsOf(tokens[1..], None) == WordsOf(tokens[1..], None);
      } else {
        PieceReads(t, rest, word, inWord);
        TokensRead(tokens[1..], ending, word + Mean(t), true);
      }
    }
  }

  // ---------- Every line ----------

  lemma NothingInside()
    ensures SpellInside([]) == ""
  {
  }

  lemma SpellMore(i: Inside, more: seq<Inside>)
    ensures SpellInside([i] + more) == (if i.Itself? then [i.c] else ['\\', i.c]) + SpellInside(more)
  {
    assert ([i] + more)[1..] == more;
  }

  /** What double quotes hold, up to the one that closes them or to the end. */
  lemma {:induction false} InsideOf(text: string) returns (inside: seq<Inside>, rest: Option<string>, backslash: bool)
    ensures AllInside(inside) && (rest.Some? ==> !backslash && |rest.value| < |text|)
    ensures text == SpellInside(inside) + if rest.Some? then ['"'] + rest.value else if backslash then ['\\'] else []
    decreases |text|
  {
    hide SpellInside;
    NothingInside();
    inside, rest, backslash := [], None, false;
    if text != "" {
      if text[0] == '"' {
        rest := Some(text[1..]);
      } else if text[0] == '\\' && |text| == 1 {
        backslash := true;
      } else {
        var i := if text[0] != '\\' then Itself(text[0]) else if Special(text[1]) then Protected(text[1]) else Kept(text[1]);
        var spelled := if text[0] != '\\' then [text[0]] else ['\\', text[1]];
        var more;
        more, rest, backslash := InsideOf(text[|spelled|..]);
        assert text == spelled + text[|spelled|..];
        inside := [i] + more;
        SpellMore(i, more);
        Assoc(spelled, SpellInside(more), if rest.Some? then ['"'] + rest.value else if backslash then ['\\'] else []);
      }
    }
  }

  /** A text that is not empty begins with a token, or is all ending. */
  lemma FirstToken(text: string) returns (t: Option<Token>, rest: string, ending: Ending)
    requires text != ""
    ensures if t.Some? then TokenOk(t.value) && text == Spell(t.value) + rest && |rest| < |text|
            else EndingOk(ending) && text == SpellEnding(ending)
  {
    var c, after := text[0], text[1..];
    assert text == [c] + after;
    t, rest, ending := None, "", Closed;
    if c == '\'' {
      match SplitOnce(after, '\'')
      case None => ending := InSingle(after);
      case Some((inner, more)) => t, rest := Some(Single(inner)), more;
    } else if c == '"' {
      var inside, more, backslash := InsideOf(after);
      if more.None? {
        ending := InDouble(inside, backslash);
      } else {
        t, rest := Some(Double(inside)), more.value;
      }
    } else if c == '\\' {
      if after == "" {
        ending := AtBackslash;
      } else {
        t, rest := Some(Backslashed(after[0])), after[1..];
      }
    } else {
      t, rest := Some(if IsWhitespace(c) then Space(c) else Bare(c)), after;
    }
  }

  /** Every text is tokens and an ending. */
  lemma {:induction false} EveryLine(text: string) returns (tokens: seq<Token>, ending: Ending)
    ensures (forall i | 0 <= i < |tokens| :: TokenOk(tokens[i])) && EndingOk(ending)
    ensures text == SpellAll(tokens) + SpellEnding(ending)
    decreases |text|
  {
    hide TokenOk, EndingOk, Spell;
    tokens, ending := [], Closed;
    if text == "" {
      NothingEnds();
    } else {
      var t, rest;
      t, rest, ending := FirstToken(text);
      if t.Some? {
        var more;
        more, ending := EveryLine(rest);
        tokens := [t.value] + more;
        assert tokens[1..] == more && forall i | 0 < i < |tokens| :: tokens[i] == more[i - 1];
        Assoc(Spell(t.value), SpellAll(more), SpellEnding(ending));
      } else {
        assert "" + SpellEnding(ending) == SpellEnding(ending);
      }
    }
  }

  lemma NothingEnds()
    ensures EndingOk(Closed) && SpellEnding(Closed) == ""
  {
  }

  /** Splitting any text gives the words it means, or the error of what it leaves open. */
  lemma EveryLineReads(text: string) returns (tokens: seq<Token>, ending: Ending)
    ensures (forall i | 0 <= i < |tokens| :: TokenOk(tokens[i])) && EndingOk(ending)
    ensures text == SpellAll(tokens) + SpellEnding(ending) && Words(text) == Meaning(tokens, ending)
  {
    tokens, ending := EveryLine(text);
    TokensRead(tokens, ending, "", false);
  }

  /** However a line is spelled, splitting it gives what it means. */
  lemma SpelledLineReads(tokens: seq<Token>, ending: Ending)
    requires (forall i | 0 <= i < |tokens| :: TokenOk(tokens[i])) && EndingOk(ending)
    ensures Words(SpellAll(tokens) + SpellEnding(ending)) == Meaning(tokens, ending)
  {
    TokensRead(tokens, ending, "", false);
  }

  /** A word is left as it is exactly when it is not empty and every character is a letter, a digit or harmless. */
  lemma EscapeLeavesSafe(word: string)
    ensures ShellEscape(word) == word
       <==> word != "" && forall c <- word ::
              'a' <= c <= 'z' || 'A' <= c <= 'Z' || '0' <= c <= '9'
              || c in {'_', '@', '%', '+', '=', ':', ',', '.', '/', '-'}
  {
    RequotedIsLonger(word);
    forall c ensures IsSafe(c) <==> 'a' <= c <= 'z' || 'A' <= c <= 'Z' || '0' <= c <= '9'
                                    || c in {'_', '@', '%', '+', '=', ':', ',', '.', '/', '-'}
    {
      assert c in "_@%+=:,./-" <==> c in {'_', '@', '%', '+', '=', ':', ',', '.', '/', '-'};
    }
    hide IsSafe;
    assert All(IsSafe, word) <==> forall i | 0 <= i < |word| :: IsSafe(word[i]);
    assert (forall i | 0 <= i < |word| :: IsSafe(word[i])) <==> forall c <- word :: IsSafe(c);
  }

  lemma {:induction false} RequotedIsLonger(word: string)
    ensures |Requoted(word)| >= |word|
  {
    if word != "" { RequotedIsLonger(word[1..]); }
  }
}
