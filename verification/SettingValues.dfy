/** The values settings take from text, and the options of a configuration that have a field of their own. */
module SettingValues {
  import opened Text
  import opened Transitions

  // ---------- Text as a value ----------

  /** The two texts are the same but for the case of ASCII letters. */
  predicate SameButCase(s: string, t: string) {
    |s| == |t| && forall i | 0 <= i < |s| ::
      s[i] == t[i] || ('a' <= t[i] <= 'z' && s[i] as int == t[i] as int - 32)
  }

  /** The text is in lower case. */
  predicate IsLower(t: string) { forall i | 0 <= i < |t| :: !('A' <= t[i] <= 'Z') }

  lemma LowerIs(s: string, t: string)
    requires IsLower(t)
    ensures Lower(s) == t <==> SameButCase(s, t)
  {
    forall i | 0 <= i < |s| && i < |t|
      ensures LowerChar(s[i]) == t[i] <==> s[i] == t[i] || ('a' <= t[i] <= 'z' && s[i] as int == t[i] as int - 32)
    {
    }
    hide LowerChar;
    if Lower(s) == t {
      assert forall i | 0 <= i < |s| :: Lower(s)[i] == LowerChar(s[i]);
    } else if |s| == |t| {
      var i :| 0 <= i < |s| && Lower(s)[i] != t[i];
    }
  }

  /** A boolean is one of ten words, whatever their case; any other text is refused. */
  lemma BoolReads(s: string)
    ensures Typed(BoolKind, StrValue(s)) == Ok(BoolValue(true))
       <==> exists t <- {"true", "1", "yes", "t", "y"} :: SameButCase(s, t)
    ensures Typed(BoolKind, StrValue(s)) == Ok(BoolValue(false))
       <==> exists t <- {"false", "0", "no", "f", "n"} :: SameButCase(s, t)
    ensures Typed(BoolKind, StrValue(s)).Ok? ==> Typed(BoolKind, StrValue(s)).value.BoolValue?
    ensures Typed(BoolKind, StrValue(s)).Err? ==> Typed(BoolKind, StrValue(s)) == Err(BadText)
  {
    LowerIs(s, "true");
    LowerIs(s, "1");
    LowerIs(s, "yes");
    LowerIs(s, "t");
    LowerIs(s, "y");
    LowerIs(s, "false");
    LowerIs(s, "0");
    LowerIs(s, "no");
    LowerIs(s, "f");
    LowerIs(s, "n");
    hide SameButCase, Lower;
  }

  /** A number is read with or without a sign, and refused outside 64 bits. */
  lemma IntReads(n: nat)
    ensures Typed(IntKind, StrValue(Numeral(n, 10))) == if n < 0x8000_0000_0000_0000 then Ok(IntValue(n)) else Err(BadText)
    ensures Typed(IntKind, StrValue(['+'] + Numeral(n, 10)))
         == if n < 0x8000_0000_0000_0000 then Ok(IntValue(n)) else Err(BadText)
    ensures Typed(IntKind, StrValue(['-'] + Numeral(n, 10)))
         == if n <= 0x8000_0000_0000_0000 then Ok(IntValue(0 - n as int)) else Err(BadText)
  {
    IntParses(n);
    hide Numeral, ParseInt;
  }

  lemma IntParses(n: nat)
    ensures ParseInt(Numeral(n, 10)) == ParseInt(['+'] + Numeral(n, 10))
    ensures ParseInt(Numeral(n, 10)) == if n < 0x8000_0000_0000_0000 then Some(n) else None
    ensures ParseInt(['-'] + Numeral(n, 10)) == if n <= 0x8000_0000_0000_0000 then Some(0 - n as int) else None
  {
    NumeralRoundTrip(n, 10);
    var text := Numeral(n, 10);
    var plus, minus := ['+'] + text, ['-'] + text;
    assert minus[0] == '-' && minus[1..] == text && plus[0] == '+' && plus[1..] == text && text[0] != '-' && text[0] != '+';
    hide Numeral, NumeralValue;
  }

  /** A list is its items between commas, and a string is itself. */
  lemma ListReads(items: seq<string>)
    requires items != [] && forall item <- items :: ',' !in item
    ensures Typed(StringListKind, StrValue(Join(items, ','))) == Ok(ListValue(items))
    ensures Typed(StringSetKind, StrValue(Join(items, ','))) == Ok(ListValue(items))
    ensures Typed(StringKind, StrValue(Join(items, ','))) == Ok(StrValue(Join(items, ',')))
  {
    SplitOfJoin(items, ',');
    hide Split, Join;
  }

  /** What is not text is taken as it is. */
  lemma OtherValuesStay(kind: Kind, value: Value)
    requires !value.StrValue?
    ensures Typed(kind, value) == Ok(value)
  {
  }

  /** The options a transition may write, by what they are when nothing sets them. */
  lemma DefaultsAre(option: string)
    ensures NativeDefault(option) == Some(ListValue([]))
       <==> option == "extra_toolchains" || option == "copt" || option == "cxxopt" || option == "conlyopt"
            || option == "linkopt" || option == "host_copt" || option == "host_cxxopt" || option == "host_conlyopt"
            || option == "host_linkopt"
    ensures NativeDefault(option) == Some(BoolValue(false))
       <==> option == "stamp" || option == "legacy_external_runfiles"
            || option == "incompatible_default_to_explicit_init_py"
    ensures NativeDefault(option) == Some(BoolValue(true)) <==> option == "build_runfile_links" || option == "enable_runfiles"
    ensures NativeDefault(option).Some? ==>
              NativeDefault(option).value in {ListValue([]), BoolValue(false), BoolValue(true)}
  {
  }

  // ---------- Options with a field of their own ----------

  const MODE := "//command_line_option:compilation_mode"
  const CPU := "//command_line_option:cpu"
  const PLATFORMS := "//command_line_option:platforms"
  const DEFINE := "//command_line_option:define"

  /** The mode is read by name, can be set to one of three names, and setting it changes nothing else. */
  lemma ModeIsWritten(w: Workspace, c: Config, mode: string, repo: string)
    ensures var r := Written(w, c, MODE, StrValue(mode), repo);
            if mode in {"fastbuild", "dbg", "opt"} then
              && r.Ok? && Read(w, r.value, MODE, repo) == Ok(StrValue(mode))
              && r.value == c.(compilationMode := r.value.compilationMode)
              && (mode == "fastbuild" <==> r.value.compilationMode == Fastbuild)
              && (mode == "dbg" <==> r.value.compilationMode == Dbg)
            else r == Err(BadMode)
  {
    assert IsOption(MODE) && OptionName(MODE) == "compilation_mode";
    hide IsOption, OptionName;
  }

  /** The processor can be set to any text, and setting it changes nothing else. */
  lemma CpuIsWritten(w: Workspace, c: Config, cpu: string, repo: string)
    ensures Read(w, c, CPU, repo) == Ok(StrValue(c.cpu))
    ensures Written(w, c, CPU, StrValue(cpu), repo) == Ok(c.(cpu := cpu))
  {
    assert IsOption(CPU) && OptionName(CPU) == "cpu";
    hide IsOption, OptionName;
  }

  lemma NoDefaultOfTheirOwn()
    ensures NativeDefault("compilation_mode") == None && NativeDefault("cpu") == None
  {
  }

  /** Any other value for the two is refused. */
  lemma OnlyTextIsWritten(w: Workspace, c: Config, name: string, value: Value, repo: string)
    requires name in {MODE, CPU} && !value.StrValue?
    ensures Written(w, c, name, value, repo) == Err(Unsupported)
  {
    assert IsOption(MODE) && OptionName(MODE) == "compilation_mode" && IsOption(CPU) && OptionName(CPU) == "cpu";
    NoDefaultOfTheirOwn();
    hide IsOption, OptionName, NativeDefault, ParseMode;
  }

  /** Platforms are a list of one label, whose constraints the configuration takes; the host's, if never set. */
  lemma PlatformsAreWritten(w: Workspace, c: Config, value: Value, repo: string)
    ensures Read(w, c, PLATFORMS, repo)
         == Ok(if PLATFORMS in c.settings then c.settings[PLATFORMS] else ListValue(["@@bazel_tools//tools:host_platform"]))
    ensures var r := Written(w, c, PLATFORMS, value, repo);
            if Read(w, c, PLATFORMS, repo) == Ok(value) then r == Ok(c)
            else if !value.ListValue? || |value.items| != 1 then r == Err(BadPlatforms)
            else if w.settingLabel(value.items[0], "").None? then r == Err(BadLabel)
            else
              var platform := w.settingLabel(value.items[0], "").value;
              if w.platformConstraints(platform).Err? then r == Err(w.platformConstraints(platform).error)
              else
                && r.Ok? && r.value.platform == Some(platform) && Ok(r.value.constraints) == w.platformConstraints(platform)
                && Read(w, r.value, PLATFORMS, repo) == Ok(value)
                && r.value.compilationMode == c.compilationMode && r.value.cpu == c.cpu
  {
    assert IsOption(PLATFORMS) && OptionName(PLATFORMS) == "platforms";
    hide IsOption, OptionName;
  }

  /** `define` can be neither read nor written, and an option without a default only once it has been set. */
  lemma UnsupportedOptions(w: Workspace, c: Config, name: string, value: Value, repo: string)
    requires OPTION <= name && name !in {MODE, CPU, PLATFORMS}
    ensures name == DEFINE || (NativeDefault(name[|OPTION|..]).None? && name !in c.settings)
        ==> Read(w, c, name, repo) == Err(Unsupported) && Written(w, c, name, value, repo) == Err(Unsupported)
  {
    var option := OptionName(name);
    assert name == OPTION + option;
    assert MODE == OPTION + "compilation_mode" && CPU == OPTION + "cpu" && PLATFORMS == OPTION + "platforms"
           && DEFINE == OPTION + "define";
    assert OptionName(DEFINE) == "define";
    assert option != "compilation_mode" && option != "cpu" && option != "platforms";
    hide NativeDefault, OptionName, IsOption;
  }
}
