/** Shell words: splitting a command line at unprotected whitespace, and escaping a word for it. */
module ShellWords {
  import opened Text

  datatype TokenError = UnterminatedQuotation | BackslashAtEnd

  type Tokens = Result<seq<string>, TokenError>

  /** What is made of `text` after `words`, a word begun (or not), and a quote open (or not). */
  function Scan(text: string, words: seq<string>, word: string, inWord: bool, quote: Option<char>): Tokens
    decreases |text|
  {
    if text == "" then
      if quote.Some? then Err(UnterminatedQuotation)
      else Ok(if inWord then words + [word] else words)
    else
      var c := text[0];
      match quote
      case Some(q) =>
        if c == q then Scan(text[1..], words, word, inWord, None)
        else if q == '"' && c == '\\' then
          if |text| == 1 then Err(UnterminatedQuotation)
          else if text[1] == '"' || text[1] == '\\' then Scan(text[2..], words, word + [text[1]], inWord, quote)
          else Scan(text[2..], words, word + ['\\', text[1]], inWord, quote)
        else Scan(text[1..], words, word + [c], inWord, quote)
      case None =>
        if c == '\'' || c == '"' then Scan(text[1..], words, word, true, Some(c))
        else if c == '\\' then
          if |text| == 1 then Err(BackslashAtEnd)
          else Scan(text[2..], words, word + [text[1]], true, None)
        else if IsWhitespace(c) then
          if inWord then Scan(text[1..], words + [word], "", false, None)
          else Scan(text[1..], words, word, false, None)
        else Scan(text[1..], words, word + [c], true, None)
  }

  function Words(text: string): Tokens { Scan(text, [], "", false, None) }

  method Tokenize(text: string) returns (r: Tokens)
    ensures r == Words(text)
  {
    var words: seq<string>, word := [], "";
    var inWord, quote: Option<char> := false, None;
    var i := 0;
    assert text[0..] == text;
    while i < |text|
      invariant 0 <= i <= |text|
      invariant Scan(text[i..], words, word, inWord, quote) == Words(text)
      decreases |text| - i
    {
      var c := text[i];
      ghost var rest := text[i..];
      assert rest[0] == c && rest[1..] == text[i + 1..];
      assert |rest| > 1 ==> rest[1] == text[i + 1] && rest[2..] == text[i + 2..];
      i := i + 1;
      if quote == Some(c) {
        quote := None;
      } else if quote == Some('"') && c == '\\' {
        if i == |text| {
          return Err(UnterminatedQuotation);
        }
        if text[i] == '"' || text[i] == '\\' {
          word := word + [text[i]];
        } else {
          word := word + ['\\', text[i]];
        }
        i := i + 1;
      } else if quote.Some? {
        word := word + [c];
      } else if c == '\'' || c == '"' {
        quote, inWord := Some(c), true;
      } else if c == '\\' {
        if i == |text| {
          return Err(BackslashAtEnd);
        }
        word, inWord := word + [text[i]], true;
        i := i + 1;
      } else if IsWhitespace(c) {
        if inWord {
          words, word, inWord := words + [word], "", false;
        }
      } else {
        word, inWord := word + [c], true;
      }
    }
    if quote.Some? {
      return Err(UnterminatedQuotation);
    }
    r := Ok(if inWord then words + [word] else words);
  }

  // ---------- Lines that follow one another ----------

  /** The words already found stay in front, whatever comes. */
  lemma {:induction false} ScanKeepsWords(
    text: string, words: seq<string>, more: seq<string>, word: string, inWord: bool, quote: Option<char>)
    ensures Scan(text, words + more, word, inWord, quote)
         == match Scan(text, more, word, inWord, quote)
            case Ok(found) => Ok(words + found)
            case Err(e) => Err(e)
    decreases |text|
  {
    if text == "" {
      Assoc(words, more, [word]);
    } else {
      var c := text[0];
      Assoc(words, more, [word]);
      ScanKeepsWords(text[1..], words, more, word, inWord, None);
      ScanKeepsWords(text[1..], words, more, word, false, None);
      ScanKeepsWords(text[1..], words, more, word, true, Some(c));
      ScanKeepsWords(text[1..], words, more, word + [c], inWord, quote);
      ScanKeepsWords(text[1..], words, more, word + [c], true, None);
      ScanKeepsWords(text[1..], words, more + [word], "", false, None);
      if |text| > 1 {
        ScanKeepsWords(text[2..], words, more, word + [text[1]], inWord, quote);
        ScanKeepsWords(text[2..], words, more, word + [text[1]], true, None);
        ScanKeepsWords(text[2..], words, more, word + ['\\', text[1]], inWord, quote);
      }
    }
  }

  /** After text that can stand alone, whitespace ends the word and everything starts over. */
  lemma {:induction false} ScanThenSpace(
    text: string, rest: string, words: seq<string>, word: string, inWord: bool, quote: Option<char>)
    requires rest != "" && IsWhitespace(rest[0])
    requires inWord || (word == "" && quote.None?)
    requires Scan(text, words, word, inWord, quote).Ok?
    ensures Scan(text + rest, words, word, inWord, quote)
         == Scan(rest[1..], Scan(text, words, word, inWord, quote).value, "", false, None)
    decreases |text|
  {
    if text == "" {
      assert text + rest == rest;
    } else {
      assert (text + rest)[1..] == text[1..] + rest;
      var c := text[0];
      if quote.Some? {
        if c == quote.value {
          ScanThenSpace(text[1..], rest, words, word, inWord, None);
        } else if quote.value == '"' && c == '\\' {
          assert (text + rest)[2..] == text[2..] + rest;
          if text[1] == '"' || text[1] == '\\' {
            ScanThenSpace(text[2..], rest, words, word + [text[1]], inWord, quote);
          } else {
            ScanThenSpace(text[2..], rest, words, word + ['\\', text[1]], inWord, quote);
          }
        } else {
          ScanThenSpace(text[1..], rest, words, word + [c], inWord, quote);
        }
      } else if c == '\'' || c == '"' {
        ScanThenSpace(text[1..], rest, words, word, true, Some(c));
      } else if c == '\\' {
        assert (text + rest)[2..] == text[2..] + rest;
        ScanThenSpace(text[2..], rest, words, word + [text[1]], true, None);
      } else if IsWhitespace(c) {
        if inWord {
          ScanThenSpace(text[1..], rest, words + [word], "", false, None);
        } else {
          ScanThenSpace(text[1..], rest, words, word, false, None);
        }
      } else {
        ScanThenSpace(text[1..], rest, words, word + [c], true, None);
      }
    }
  }

  /** Two lines with whitespace between them have the words of the first, then those of the second. */
  lemma WordsOfTwo(first: string, space: char, second: string)
    requires Words(first).Ok? && IsWhitespace(space)
    ensures Words(first + [space] + second)
         == match Words(second)
            case Ok(more) => Ok(Words(first).value + more)
            case Err(e) => Err(e)
  {
    var rest := [space] + second;
    assert first + [space] + second == first + rest && rest[1..] == second;
    ScanThenSpace(first, rest, [], "", false, None);
    ScanKeepsWords(second, Words(first).value, [], "", false, None);
    assert Words(first).value + [] == Words(first).value;
  }

  // ---------- Escaping ----------

  predicate IsSafe(c: char) { IsAlphanumeric(c) || c in "_@%+=:,./-" }

  /** The word with each single quote written `'\''`. */
  function Requoted(word: string): string {
    if word == "" then ""
    else (if word[0] == '\'' then "'\\''" else [word[0]]) + Requoted(word[1..])
  }

  function ShellEscape(word: string): string {
    if word != "" && All(IsSafe, word) then word else "'" + Requoted(word) + "'"
  }

  lemma {:induction false} SafeReads(word: string, before: string, inWord: bool)
    requires All(IsSafe, word) && (inWord || word != "")
    ensures Scan(word, [], before, inWord, None) == Ok([before + word])
    decreases |word|
  {
    if word == "" {
      assert before + word == before && [] + [before] == [before];
    } else {
      assert IsSafe(word[0]);
      Assoc(before, [word[0]], word[1..]);
      assert [word[0]] + word[1..] == word;
      SafeReads(word[1..], before + [word[0]], true);
    }
  }

  /** A quote inside quotes: out of them, one protected by a backslash, and back in. */
  lemma QuoteReads(before: string, rest: string)
    ensures Scan("'\\''" + rest, [], before, true, Some('\''))
         == Scan(rest, [], before + ['\''], true, Some('\''))
  {
    var text := "'\\''" + rest;
    assert text[1..] == "\\''" + rest;
    assert ("\\''" + rest)[2..] == "'" + rest;
    assert ("'" + rest)[1..] == rest;
    assert Scan(text, [], before, true, Some('\'')) == Scan("\\''" + rest, [], before, true, None);
    assert Scan("\\''" + rest, [], before, true, None) == Scan("'" + rest, [], before + ['\''], true, None);
  }

  lemma {:induction false} QuotedReads(word: string, before: string)
    ensures Scan(Requoted(word) + "'", [], before, true, Some('\'')) == Ok([before + word])
    decreases |word|
  {
    var text := Requoted(word) + "'";
    if word == "" {
      assert text == "'" && text[1..] == "" && before + word == before && [] + [before] == [before];
    } else {
      var rest := Requoted(word[1..]) + "'";
      Assoc(before, [word[0]], word[1..]);
      assert [word[0]] + word[1..] == word;
      QuotedReads(word[1..], before + [word[0]]);
      if word[0] == '\'' {
        assert text == "'\\''" + rest;
        QuoteReads(before, rest);
      } else {
        assert text == [word[0]] + rest;
      }
    }
  }

  /** An escaped word is one word: the word. */
  lemma EscapeReads(word: string)
    ensures Words(ShellEscape(word)) == Ok([word])
  {
    if word != "" && All(IsSafe, word) {
      SafeReads(word, "", false);
      assert "" + word == word;
    } else {
      assert ShellEscape(word) == "'" + (Requoted(word) + "'");
      assert ShellEscape(word)[1..] == Requoted(word) + "'";
      QuotedReads(word, "");
      assert "" + word == word;
    }
  }

  // ---------- Command lines ----------

  /** The escaped words with the gaps around them. */
  function CommandLine(words: seq<string>, gaps: seq<string>): string
    requires |gaps| == |words| + 1
  {
    if words == [] then gaps[0] else gaps[0] + (ShellEscape(words[0]) + CommandLine(words[1..], gaps[1..]))
  }

  /** Whitespace around the words, and some of it between every two. */
  predicate Spaces(gaps: seq<string>) {
    && (forall i | 0 <= i < |gaps| :: All(IsWhitespace, gaps[i]))
    && forall i | 0 < i < |gaps| - 1 :: gaps[i] != ""
  }

  lemma {:induction false} LeadingSpace(gap: string, text: string)
    requires All(IsWhitespace, gap)
    ensures Words(gap + text) == Words(text)
  {
    if gap == "" {
      assert gap + text == text;
    } else {
      assert IsWhitespace(gap[0]) && (gap + text)[1..] == gap[1..] + text;
      LeadingSpace(gap[1..], text);
    }
  }

  /** Splitting any escaped words, however spaced, gives back the words. */
  lemma {:induction false} CommandLineReads(words: seq<string>, gaps: seq<string>)
    requires |gaps| == |words| + 1 && Spaces(gaps)
    ensures Words(CommandLine(words, gaps)) == Ok(words)
    decreases |words|
  {
    hide Words, ShellEscape;
    NoWords();
    if words == [] {
      LeadingSpace(gaps[0], "");
      assert gaps[0] + "" == gaps[0];
    } else {
      var tail := CommandLine(words[1..], gaps[1..]);
      CommandLineReads(words[1..], gaps[1..]);
      LeadingSpace(gaps[0], ShellEscape(words[0]) + tail);
      EscapeReads(words[0]);
      assert words == [words[0]] + words[1..];
      if tail == "" {
        assert ShellEscape(words[0]) + tail == ShellEscape(words[0]);
        assert words[1..] == [];
        assert words == [words[0]];
      } else {
        FirstOfGap(words[1..], gaps[1..]);
        assert ShellEscape(words[0]) + tail == ShellEscape(words[0]) + [tail[0]] + tail[1..];
        WordsOfTwo(ShellEscape(words[0]), tail[0], tail[1..]);
        assert tail == [tail[0]] + tail[1..];
        LeadingSpace([tail[0]], tail[1..]);
      }
    }
  }

  lemma NoWords()
    ensures Words("") == Ok([])
  {
  }

  lemma FirstOfGap(words: seq<string>, gaps: seq<string>)
    requires |gaps| == |words| + 1 && All(IsWhitespace, gaps[0]) && (gaps[0] != "" || words == [])
    ensures CommandLine(words, gaps) != "" ==> IsWhitespace(CommandLine(words, gaps)[0])
  {
    if gaps[0] != "" { assert IsWhitespace(gaps[0][0]); }
  }

  // ---------- --run_under ----------

  datatype RunUnder = Command(line: string) | Target(name: string, options: seq<string>)

  datatype RunUnderError = NotACommandPrefix(why: TokenError) | EmptyCommand

  function ParseRunUnder(value: string): Result<RunUnder, RunUnderError> {
    match Words(value)
    case Err(e) => Err(NotACommandPrefix(e))
    case Ok(words) =>
      if words == [] then Err(EmptyCommand)
      else if "//" <= words[0] || "@" <= words[0] then Ok(Target(words[0], words[1..]))
      else Ok(Command(value))
  }

  /** A target and its options, escaped and spaced, are read back as that target and those options. */
  lemma RunUnderTargetReads(name: string, options: seq<string>, gaps: seq<string>)
    requires |gaps| == |options| + 2 && Spaces(gaps)
    ensures ParseRunUnder(CommandLine([name] + options, gaps))
         == if "//" <= name || "@" <= name then Ok(Target(name, options))
            else Ok(Command(CommandLine([name] + options, gaps)))
  {
    CommandLineReads([name] + options, gaps);
  }

  /** A prefix is refused when it does not split or has no words; it is a target when its first word looks like a label. */
  lemma RunUnderByCases(value: string)
    ensures match Words(value)
            case Err(e) => ParseRunUnder(value) == Err(NotACommandPrefix(e))
            case Ok(words) =>
              if words == [] then ParseRunUnder(value) == Err(EmptyCommand)
              else if exists rest :: words[0] == "//" + rest || words[0] == "@" + rest
              then ParseRunUnder(value) == Ok(Target(words[0], words[1..]))
              else ParseRunUnder(value) == Ok(Command(value))
  {
    hide Words;
    match Words(value)
    case Err(_) =>
    case Ok(words) =>
      if words != [] {
        var name := words[0];
        if "//" <= name { assert name == "//" + name[2..]; }
        if "@" <= name { assert name == "@" + name[1..]; }
      }
  }
}
