/**
 Configuration transitions: reading and writing the settings of a configuration, which keeps only the
 settings away from their defaults and, beside them, what each changed setting was before.
*/
module Transitions {
  import opened Text

  datatype Value =
    | BoolValue(b: bool)
    | IntValue(i: int)
    | StrValue(s: string)
    | ListValue(items: seq<string>)
    | LabelValue(target: string)
    | NoValue

  datatype Kind = BoolKind | IntKind | StringKind | StringListKind | StringSetKind

  /** A build setting's type and default. */
  datatype Setting = Setting(kind: Kind, default: Value)

  datatype SettingError =
    | BadLabel
    | NotABuildSetting
    | BadText
    | Unsupported
    | BadMode
    | BadPlatforms

  datatype CompilationMode = Fastbuild | Dbg | Opt

  datatype Config = Config(
    compilationMode: CompilationMode, cpu: string, platform: Option<string>, constraints: set<string>,
    settings: map<string, Value>, affected: map<string, Value>)

  /** What the packages say. Labels are known by their text. */
  datatype Workspace = Workspace(
    settingLabel: (string, string) -> Option<string>,
    followAliases: string -> string,
    setting: string -> Option<Setting>,
    platformConstraints: string -> Result<set<string>, SettingError>)

  const OPTION := "//command_line_option:"

  const HOST_PLATFORM := "@@bazel_tools//tools:host_platform"

  predicate IsOption(name: string) { OPTION <= name }

  function OptionName(name: string): string
    requires IsOption(name)
  {
    name[|OPTION|..]
  }

  function NativeDefault(option: string): Option<Value> {
    if option in {"extra_toolchains", "copt", "cxxopt", "conlyopt", "linkopt", "host_copt",
                  "host_cxxopt", "host_conlyopt", "host_linkopt"} then Some(ListValue([]))
    else if option in {"stamp", "legacy_external_runfiles", "incompatible_default_to_explicit_init_py"}
    then Some(BoolValue(false))
    else if option in {"build_runfile_links", "enable_runfiles"} then Some(BoolValue(true))
    else None
  }

  function ModeName(mode: CompilationMode): string {
    match mode
    case Fastbuild => "fastbuild"
    case Dbg => "dbg"
    case Opt => "opt"
  }

  function ParseMode(name: string): Option<CompilationMode> {
    if name == "fastbuild" then Some(Fastbuild)
    else if name == "dbg" then Some(Dbg)
    else if name == "opt" then Some(Opt)
    else None
  }

  // ---------- Typed values ----------

  function LowerChar(c: char): char {
    if 'A' <= c <= 'Z' then (c as int - 'A' as int + 'a' as int) as char else c
  }

  function Lower(s: string): (r: string)
    ensures |r| == |s|
  {
    seq(|s|, i requires 0 <= i < |s| => LowerChar(s[i]))
  }

  const I64_LIMIT: nat := 0x8000_0000_0000_0000

  /** Rust's parsing of an `i64`. */
  function ParseInt(s: string): Option<int> {
    if s != "" && s[0] == '-' then
      if s[1..] == "" || !IsNumeral(s[1..], 10) || NumeralValue(s[1..], 10) > I64_LIMIT then None
      else
        var n: int := NumeralValue(s[1..], 10);
        Some(-n)
    else
      match ParseUnsigned(s, 10, I64_LIMIT)
      case None => None
      case Some(n) => Some(n)
  }

  /** Text from the command line as the setting's type holds it; anything else is as it is. */
  function Typed(kind: Kind, value: Value): Result<Value, SettingError> {
    if !value.StrValue? then Ok(value)
    else
      match kind
      case StringKind => Ok(value)
      case BoolKind =>
        if Lower(value.s) in {"true", "1", "yes", "t", "y"} then Ok(BoolValue(true))
        else if Lower(value.s) in {"false", "0", "no", "f", "n"} then Ok(BoolValue(false))
        else Err(BadText)
      case IntKind =>
        (match ParseInt(value.s)
         case Some(i) => Ok(IntValue(i))
         case None => Err(BadText))
      case StringListKind => Ok(ListValue(Split(value.s, ',')))
      case StringSetKind => Ok(ListValue(Split(value.s, ',')))
  }

  // ---------- Reading ----------

  /** What the build setting `target` holds: what was set, else its default. */
  function SettingIn(w: Workspace, c: Config, target: string): Result<Value, SettingError> {
    var actual := w.followAliases(target);
    match w.setting(actual)
    case None => Err(NotABuildSetting)
    case Some(setting) =>
      if actual in c.settings then Typed(setting.kind, c.settings[actual]) else Ok(setting.default)
  }

  function Read(w: Workspace, c: Config, name: string, repo: string): Result<Value, SettingError> {
    if IsOption(name) then
      var option := OptionName(name);
      if option == "compilation_mode" then Ok(StrValue(ModeName(c.compilationMode)))
      else if option == "cpu" then Ok(StrValue(c.cpu))
      else if option == "platforms" then
        Ok(if name in c.settings then c.settings[name] else ListValue([HOST_PLATFORM]))
      else if option == "define" then Err(Unsupported)
      else if name in c.settings then Ok(c.settings[name])
      else
        match NativeDefault(option)
        case Some(default) => Ok(default)
        case None => Err(Unsupported)
    else
      match w.settingLabel(name, repo)
      case None => Err(BadLabel)
      case Some(target) => SettingIn(w, c, target)
  }

  // ---------- Writing ----------

  /** A setting is among the changed ones until it is back at what it was before the first change. */
  function Noted(c: Config, name: string, original: Value, value: Value): Config {
    c.(affected := if value == original then c.affected - {name} else c.affected[name := original])
  }

  /** `name` at `value`: present exactly when that is not the default. */
  function Stored(c: Config, name: string, default: Value, value: Value): Config {
    c.(settings := if value == default then c.settings - {name} else c.settings[name := value])
  }

  function WritePlatforms(w: Workspace, c: Config, name: string, value: Value, original: Value)
    : Result<Config, SettingError>
  {
    if !value.ListValue? || |value.items| != 1 then Err(BadPlatforms)
    else
      match w.settingLabel(value.items[0], "")
      case None => Err(BadLabel)
      case Some(target) =>
        match w.platformConstraints(target)
        case Err(e) => Err(e)
        case Ok(constraints) =>
          Ok(Noted(c.(constraints := constraints, platform := Some(target), settings := c.settings[name := value]),
                   name, original, value))
  }

  /** The configuration with `name` set to `value`. */
  function Written(w: Workspace, c: Config, name: string, value: Value, repo: string): Result<Config, SettingError> {
    match Read(w, c, name, repo)
    case Err(e) => Err(e)
    case Ok(before) =>
      if before == value then Ok(c)
      else
        var original := if name in c.affected then c.affected[name] else before;
        if IsOption(name) then
          var option := OptionName(name);
          if option == "compilation_mode" && value.StrValue? then
            match ParseMode(value.s)
            case None => Err(BadMode)
            case Some(mode) => Ok(c.(compilationMode := mode))
          else if option == "cpu" && value.StrValue? then Ok(c.(cpu := value.s))
          else if option == "platforms" then WritePlatforms(w, c, name, value, original)
          else
            match NativeDefault(option)
            case None => Err(Unsupported)
            case Some(default) => Ok(Noted(Stored(c, name, default, value), name, original, value))
        else
          match w.settingLabel(name, repo)
          case None => Err(BadLabel)
          case Some(target) =>
            match w.setting(target)
            case None => Err(NotABuildSetting)
            case Some(setting) => Ok(Noted(Stored(c, name, setting.default, value), name, original, value))
  }

  /** A configuration being changed. */
  class Configuration {
    var compilationMode: CompilationMode
    var cpu: string
    var platform: Option<string>
    var constraints: set<string>
    var settings: map<string, Value>
    var affected: map<string, Value>

    function Contents(): Config
      reads this
    {
      Config(compilationMode, cpu, platform, constraints, settings, affected)
    }

    /** A copy. */
    constructor (from: Config)
      ensures Contents() == from
    {
      compilationMode := from.compilationMode;
      cpu := from.cpu;
      platform := from.platform;
      constraints := from.constraints;
      settings := from.settings;
      affected := from.affected;
    }

    method Note(name: string, original: Value, value: Value)
      modifies this`affected
      ensures Contents() == Noted(old(Contents()), name, original, value)
    {
      if value == original {
        affected := affected - {name};
      } else {
        affected := affected[name := original];
      }
    }

    method Store(name: string, default: Value, value: Value)
      modifies this`settings
      ensures Contents() == Stored(old(Contents()), name, default, value)
    {
      if value == default {
        settings := settings - {name};
      } else {
        settings := settings[name := value];
      }
    }

    /** A refused write changes nothing. */
    method Write(w: Workspace, name: string, value: Value, repo: string) returns (error: Option<SettingError>)
      modifies this
      ensures match Written(w, old(Contents()), name, value, repo)
              case Ok(c) => error == None && Contents() == c
              case Err(e) => error == Some(e) && Contents() == old(Contents())
    {
      var before := Read(w, Contents(), name, repo);
      if before.Err? {
        return Some(before.error);
      }
      if before.value == value {
        return None;
      }
      var original := if name in affected then affected[name] else before.value;
      if IsOption(name) {
        var option := OptionName(name);
        if option == "compilation_mode" && value.StrValue? {
          var mode := ParseMode(value.s);
          if mode.None? {
            return Some(BadMode);
          }
          compilationMode := mode.value;
          return None;
        }
        if option == "cpu" && value.StrValue? {
          cpu := value.s;
          return None;
        }
        if option == "platforms" {
          error := WritePlatform(w, name, value, original);
          return;
        }
        var default := NativeDefault(option);
        if default.None? {
          return Some(Unsupported);
        }
        Store(name, default.value, value);
        Note(name, original, value);
        return None;
      }
      var target := w.settingLabel(name, repo);
      if target.None? {
        return Some(BadLabel);
      }
      var setting := w.setting(target.value);
      if setting.None? {
        return Some(NotABuildSetting);
      }
      Store(name, setting.value.default, value);
      Note(name, original, value);
      error := None;
    }

    method WritePlatform(w: Workspace, name: string, value: Value, original: Value)
      returns (error: Option<SettingError>)
      modifies this
      ensures match WritePlatforms(w, old(Contents()), name, value, original)
              case Ok(c) => error == None && Contents() == c
              case Err(e) => error == Some(e) && Contents() == old(Contents())
    {
      if !value.ListValue? || |value.items| != 1 {
        return Some(BadPlatforms);
      }
      var target := w.settingLabel(value.items[0], "");
      if target.None? {
        return Some(BadLabel);
      }
      var found := w.platformConstraints(target.value);
      if found.Err? {
        return Some(found.error);
      }
      constraints, platform := found.value, target;
      settings := settings[name := value];
      Note(name, original, value);
      error := None;
    }
  }

  // ---------- Plain settings ----------

  /** A list or boolean option, or a build setting named by its own label and no alias. */
  predicate Plain(w: Workspace, name: string, repo: string) {
    if IsOption(name) then NativeDefault(OptionName(name)).Some?
    else w.settingLabel(name, repo) == Some(name) && w.followAliases(name) == name && w.setting(name).Some?
  }

  function Default(w: Workspace, name: string, repo: string): Value
    requires Plain(w, name, repo)
  {
    if IsOption(name) then NativeDefault(OptionName(name)).value else w.setting(name).value.default
  }

  /** The value is of the setting's type, not text still to be read as one. */
  predicate IsTyped(w: Workspace, name: string, value: Value) {
    IsOption(name) || (w.setting(name).Some? && Typed(w.setting(name).value.kind, value) == Ok(value))
  }

  function Reading(w: Workspace, c: Config, name: string, repo: string): Value
    requires Plain(w, name, repo)
  {
    if name in c.settings then c.settings[name] else Default(w, name, repo)
  }

  /** What is stored is typed and not the default. */
  ghost predicate Tidy(w: Workspace, c: Config, repo: string) {
    forall name <- c.settings | Plain(w, name, repo) ::
      IsTyped(w, name, c.settings[name]) && c.settings[name] != Default(w, name, repo)
  }

  /** Where a transition starts. */
  ghost predicate IsBase(w: Workspace, base: Config, repo: string) {
    Tidy(w, base, repo) && base.affected == map[]
  }

  /**
   The canonical form: `settings` holds exactly the readings away from the default, `affected` exactly
   the readings away from the base's, with the base's; the rest is the base's.
  */
  ghost predicate Canonical(w: Workspace, base: Config, c: Config, repo: string) {
    && Tidy(w, c, repo)
    && c == base.(settings := c.settings, affected := c.affected)
    && (forall name | !Plain(w, name, repo) ::
          && name !in c.affected && (name in c.settings <==> name in base.settings)
          && (name in c.settings ==> c.settings[name] == base.settings[name]))
    && forall name | Plain(w, name, repo) ::
         && (name in c.affected <==> Reading(w, c, name, repo) != Reading(w, base, name, repo))
         && (name in c.affected ==> c.affected[name] == Reading(w, base, name, repo))
  }

  lemma ReadIsReading(w: Workspace, c: Config, name: string, repo: string)
    requires Plain(w, name, repo) && Tidy(w, c, repo)
    ensures Read(w, c, name, repo) == Ok(Reading(w, c, name, repo))
    ensures name in c.settings <==> Reading(w, c, name, repo) != Default(w, name, repo)
  {
    if IsOption(name) {
      var option := OptionName(name);
      assert option !in {"compilation_mode", "cpu", "platforms", "define"};
    }
  }

  lemma BaseIsCanonical(w: Workspace, base: Config, repo: string)
    requires IsBase(w, base, repo)
    ensures Canonical(w, base, base, repo)
  {
  }

  /** A write to a plain setting, without the special cases. */
  function PlainWritten(w: Workspace, c: Config, name: string, value: Value, repo: string): Config
    requires Plain(w, name, repo)
  {
    var before := Reading(w, c, name, repo);
    if before == value then c
    else Noted(Stored(c, name, Default(w, name, repo), value), name,
               if name in c.affected then c.affected[name] else before, value)
  }

  lemma PlainWriteIs(w: Workspace, c: Config, name: string, value: Value, repo: string)
    requires Plain(w, name, repo) && Tidy(w, c, repo)
    ensures Written(w, c, name, value, repo) == Ok(PlainWritten(w, c, name, value, repo))
  {
    hide Read, Tidy;
    ReadIsReading(w, c, name, repo);
    if IsOption(name) {
      assert OptionName(name) !in {"compilation_mode", "cpu", "platforms", "define"};
    }
  }

  lemma PlainReadings(w: Workspace, c: Config, name: string, value: Value, repo: string)
    requires Plain(w, name, repo) && IsTyped(w, name, value) && Tidy(w, c, repo)
    ensures var r := PlainWritten(w, c, name, value, repo);
            && Tidy(w, r, repo) && Reading(w, r, name, repo) == value
            && forall other | other != name && Plain(w, other, repo) ::
                 Reading(w, r, other, repo) == Reading(w, c, other, repo)
  {
    hide IsTyped, Plain;
  }

  /** A write goes through, is what is read afterwards, and touches nothing else. */
  lemma WriteIsRead(w: Workspace, c: Config, name: string, value: Value, repo: string)
    requires Plain(w, name, repo) && IsTyped(w, name, value) && Tidy(w, c, repo)
    ensures var r := Written(w, c, name, value, repo);
            && r.Ok? && Tidy(w, r.value, repo)
            && Read(w, r.value, name, repo) == Ok(value)
            && forall other | other != name && Plain(w, other, repo) ::
                 Read(w, r.value, other, repo) == Read(w, c, other, repo)
  {
    hide Read, Written, Tidy, Plain, Reading, IsTyped, PlainWritten;
    PlainWriteIs(w, c, name, value, repo);
    PlainReadings(w, c, name, value, repo);
    var r := PlainWritten(w, c, name, value, repo);
    ReadIsReading(w, r, name, repo);
    forall other | other != name && Plain(w, other, repo)
      ensures Read(w, r, other, repo) == Read(w, c, other, repo)
    {
      ReadIsReading(w, r, other, repo);
      ReadIsReading(w, c, other, repo);
    }
  }

  lemma WriteKeepsCanonical(w: Workspace, base: Config, c: Config, name: string, value: Value, repo: string)
    requires IsBase(w, base, repo) && Canonical(w, base, c, repo)
    requires Plain(w, name, repo) && IsTyped(w, name, value)
    ensures Written(w, c, name, value, repo).Ok?
    ensures Canonical(w, base, Written(w, c, name, value, repo).value, repo)
  {
    hide Written, Plain, IsTyped, Tidy, Default;
    PlainWriteIs(w, c, name, value, repo);
    PlainReadings(w, c, name, value, repo);
  }

  // ---------- Sequences of writes ----------

  datatype Change = Change(name: string, value: Value)

  /** The changes in turn; the first refusal ends them. */
  function WriteAll(w: Workspace, c: Config, changes: seq<Change>, repo: string): Result<Config, SettingError>
    decreases |changes|
  {
    if changes == [] then Ok(c)
    else
      match Written(w, c, changes[0].name, changes[0].value, repo)
      case Err(e) => Err(e)
      case Ok(c') => WriteAll(w, c', changes[1..], repo)
  }

  predicate PlainChanges(w: Workspace, changes: seq<Change>, repo: string) {
    forall i | 0 <= i < |changes| :: Plain(w, changes[i].name, repo) && IsTyped(w, changes[i].name, changes[i].value)
  }

  /** The last value a sequence gives a name. */
  function LastValue(changes: seq<Change>, name: string): Option<Value> {
    if changes == [] then None
    else if changes[|changes| - 1].name == name then Some(changes[|changes| - 1].value)
    else LastValue(changes[..|changes| - 1], name)
  }

  lemma {:induction false} WriteAllSnoc(w: Workspace, c: Config, changes: seq<Change>, last: Change, repo: string)
    ensures WriteAll(w, c, changes + [last], repo)
         == match WriteAll(w, c, changes, repo)
            case Err(e) => Err(e)
            case Ok(c') => Written(w, c', last.name, last.value, repo)
    decreases |changes|
  {
    hide Written;
    var all := changes + [last];
    if changes == [] {
      assert all == [last] && all[1..] == [];
    } else {
      assert all[0] == changes[0] && all[1..] == changes[1..] + [last];
      match Written(w, c, changes[0].name, changes[0].value, repo)
      case Err(_) =>
      case Ok(c') => WriteAllSnoc(w, c', changes[1..], last, repo);
    }
  }

  /** After any writes the configuration is canonical, and reads what each setting was last given. */
  lemma {:induction false} WritesAreCanonical(w: Workspace, base: Config, changes: seq<Change>, repo: string)
    requires IsBase(w, base, repo) && PlainChanges(w, changes, repo)
    ensures WriteAll(w, base, changes, repo).Ok?
    ensures Canonical(w, base, WriteAll(w, base, changes, repo).value, repo)
    ensures forall name | Plain(w, name, repo) ::
              Read(w, WriteAll(w, base, changes, repo).value, name, repo)
              == match LastValue(changes, name)
                 case Some(value) => Ok(value)
                 case None => Read(w, base, name, repo)
    decreases |changes|
  {
    hide Written, Read, Canonical, Plain, IsTyped;
    if changes == [] {
      BaseIsCanonical(w, base, repo);
    } else {
      var before, last := changes[..|changes| - 1], changes[|changes| - 1];
      assert changes == before + [last];
      WritesAreCanonical(w, base, before, repo);
      WriteAllSnoc(w, base, before, last, repo);
      var c := WriteAll(w, base, before, repo).value;
      WriteKeepsCanonical(w, base, c, last.name, last.value, repo);
      CanonicalIsTidy(w, base, c, repo);
      WriteIsRead(w, c, last.name, last.value, repo);
    }
  }

  lemma CanonicalIsTidy(w: Workspace, base: Config, c: Config, repo: string)
    requires Canonical(w, base, c, repo)
    ensures Tidy(w, c, repo)
  {
  }

  /** A canonical configuration is determined by its readings. */
  lemma CanonicalUnique(w: Workspace, base: Config, a: Config, b: Config, repo: string)
    requires Canonical(w, base, a, repo) && Canonical(w, base, b, repo)
    requires forall name | Plain(w, name, repo) :: Read(w, a, name, repo) == Read(w, b, name, repo)
    ensures a == b
  {
    forall name
      ensures name in a.settings <==> name in b.settings
      ensures name in a.settings ==> a.settings[name] == b.settings[name]
      ensures name in a.affected <==> name in b.affected
      ensures name in a.affected ==> a.affected[name] == b.affected[name]
    {
      if Plain(w, name, repo) {
        hide Read;
        ReadIsReading(w, a, name, repo);
        ReadIsReading(w, b, name, repo);
      }
    }
    assert a.settings == b.settings && a.affected == b.affected;
  }

  /** Only the last value given to each setting matters: not the order, nor what was written between. */
  lemma OnlyLastValuesMatter(w: Workspace, base: Config, first: seq<Change>, second: seq<Change>, repo: string)
    requires IsBase(w, base, repo) && PlainChanges(w, first, repo) && PlainChanges(w, second, repo)
    requires forall name :: LastValue(first, name) == LastValue(second, name)
    ensures WriteAll(w, base, first, repo) == WriteAll(w, base, second, repo)
  {
    hide Read, Canonical, WriteAll;
    WritesAreCanonical(w, base, first, repo);
    WritesAreCanonical(w, base, second, repo);
    var a, b := WriteAll(w, base, first, repo).value, WriteAll(w, base, second, repo).value;
    CanonicalUnique(w, base, a, b, repo);
  }

  /** Writing back what `affected` recorded, in any order, gives back the base. */
  lemma WritingBackRestores(w: Workspace, base: Config, changes: seq<Change>, back: seq<Change>, repo: string)
    requires IsBase(w, base, repo) && PlainChanges(w, changes, repo) && PlainChanges(w, back, repo)
    requires var c := WriteAll(w, base, changes, repo);
             c.Ok? && (forall name <- c.value.affected :: LastValue(back, name) == Some(c.value.affected[name]))
                   && forall name | name !in c.value.affected :: LastValue(back, name) == None
    ensures WriteAll(w, base, changes + back, repo) == Ok(base)
  {
    var c := WriteAll(w, base, changes, repo).value;
    WritesAreCanonical(w, base, changes, repo);
    assert PlainChanges(w, changes + back, repo);
    WritesAreCanonical(w, base, changes + back, repo);
    var r := WriteAll(w, base, changes + back, repo).value;
    BaseIsCanonical(w, base, repo);
    forall name | Plain(w, name, repo) ensures Read(w, r, name, repo) == Read(w, base, name, repo) {
      hide Read;
      LastOfTwo(changes, back, name);
      ReadIsReading(w, base, name, repo);
      ReadIsReading(w, c, name, repo);
    }
    hide Read;
    CanonicalUnique(w, base, r, base, repo);
  }

  lemma {:induction false} LastOfTwo(changes: seq<Change>, back: seq<Change>, name: string)
    ensures LastValue(changes + back, name)
         == if LastValue(back, name).Some? then LastValue(back, name) else LastValue(changes, name)
    decreases |back|
  {
    var all := changes + back;
    if back == [] {
      assert all == changes;
    } else {
      var fewer := back[..|back| - 1];
      assert all[..|all| - 1] == changes + fewer && all[|all| - 1] == back[|back| - 1];
      LastOfTwo(changes, fewer, name);
    }
  }

  // ---------- Where a write goes ----------

  /** Whether writing the name changes `settings`; two options have a field of their own. */
  predicate InSettings(name: string) {
    !IsOption(name) || OptionName(name) !in {"compilation_mode", "cpu"}
  }

  /** The text under which a name looks its value up: for a build setting, its label's, aliases followed. */
  function LookedUp(w: Workspace, name: string, repo: string): Option<string> {
    if IsOption(name) then if OptionName(name) in {"compilation_mode", "cpu", "define"} then None else Some(name)
    else
      match w.settingLabel(name, repo)
      case None => None
      case Some(target) => Some(w.followAliases(target))
  }

  function Lookup(c: Config, text: string): Option<Value> {
    if text in c.settings then Some(c.settings[text]) else None
  }

  /** What a name means when `stored` is what it finds under `text`. */
  function Meaning(w: Workspace, name: string, text: string, stored: Option<Value>): Result<Value, SettingError> {
    if IsOption(name) then
      match stored
      case Some(value) => Ok(value)
      case None =>
        if OptionName(name) == "platforms" then Ok(ListValue([HOST_PLATFORM]))
        else
          match NativeDefault(OptionName(name))
          case Some(default) => Ok(default)
          case None => Err(Unsupported)
    else
      match w.setting(text)
      case None => Err(NotABuildSetting)
      case Some(setting) =>
        match stored
        case Some(value) => Typed(setting.kind, value)
        case None => Ok(setting.default)
  }

  /** What a write of `value` leaves under the name as written: nothing, when it is the default. */
  function Left(w: Workspace, name: string, value: Value, repo: string): Option<Value> {
    if IsOption(name) then if NativeDefault(OptionName(name)) == Some(value) then None else Some(value)
    else
      match w.settingLabel(name, repo)
      case None => None
      case Some(target) =>
        if w.setting(target).Some? && w.setting(target).value.default == value then None else Some(value)
  }

  lemma ReadIsLookup(w: Workspace, c: Config, name: string, repo: string)
    requires LookedUp(w, name, repo).Some?
    ensures var text := LookedUp(w, name, repo).value;
            Read(w, c, name, repo) == Meaning(w, name, text, Lookup(c, text))
  {
    hide NativeDefault, Typed;
  }

  lemma PlatformsHasNoDefault()
    ensures NativeDefault("platforms") == None
  {
  }

  lemma WriteLeaves(w: Workspace, c: Config, name: string, value: Value, repo: string)
    requires InSettings(name) && Written(w, c, name, value, repo).Ok?
    ensures var r := Written(w, c, name, value, repo).value;
            if Read(w, c, name, repo) == Ok(value) then r == c
            else
              && Lookup(r, name) == Left(w, name, value, repo)
              && (forall text | text != name :: Lookup(r, text) == Lookup(c, text))
              && r.compilationMode == c.compilationMode && r.cpu == c.cpu
  {
    hide Read, NativeDefault, OptionName, Typed, ParseMode;
    if IsOption(name) && OptionName(name) == "platforms" {
      PlatformsHasNoDefault();
    }
  }

  /**
   A write stores under the name as written, a read looks under the followed label's text. So a write
   changes what `other` reads, in whatever repo, exactly when that text is the written name and what it
   finds there now means something else.
  */
  lemma WriteReaches(
    w: Workspace, c: Config, name: string, value: Value, repo: string, other: string, otherRepo: string)
    requires InSettings(name) && Written(w, c, name, value, repo).Ok?
    ensures var r := Written(w, c, name, value, repo).value;
            Read(w, r, other, otherRepo) != Read(w, c, other, otherRepo)
            <==>
            && Read(w, c, name, repo) != Ok(value)
            && LookedUp(w, other, otherRepo) == Some(name)
            && Meaning(w, other, name, Left(w, name, value, repo)) != Meaning(w, other, name, Lookup(c, name))
  {
    var r := Written(w, c, name, value, repo).value;
    WriteLeaves(w, c, name, value, repo);
    hide Written, Left, Meaning, Typed, NativeDefault;
    if LookedUp(w, other, otherRepo).Some? {
      ReadIsLookup(w, c, other, otherRepo);
      ReadIsLookup(w, r, other, otherRepo);
    }
  }

  /** Stored values that are typed and not the default mean the same only if they are the same. */
  lemma StoredValuesDiffer(w: Workspace, name: string, repo: string, a: Option<Value>, b: Option<Value>)
    requires Plain(w, name, repo)
    requires forall stored <- [a, b] | stored.Some? ::
               IsTyped(w, name, stored.value) && stored.value != Default(w, name, repo)
    ensures Meaning(w, name, name, a) == Meaning(w, name, name, b) <==> a == b
  {
    assert a in [a, b] && b in [a, b];
    PlatformsHasNoDefault();
    hide Typed, NativeDefault;
  }

  /** Only build settings have values of their own: an alias is none. */
  ghost predicate AliasesAreNoSettings(w: Workspace) {
    forall target :: w.followAliases(target) != target ==> w.setting(target).None?
  }

  /** The value is the setting's default, or a value of its type. */
  predicate Fitting(w: Workspace, name: string, value: Value) {
    IsOption(name) || IsTyped(w, name, value) || (w.setting(name).Some? && w.setting(name).value.default == value)
  }

  /** An accepted write is read back exactly when the value was there, or the name is where a read looks. */
  lemma WriteReadBack(w: Workspace, c: Config, name: string, value: Value, repo: string)
    requires AliasesAreNoSettings(w)
    requires InSettings(name) && Written(w, c, name, value, repo).Ok?
    ensures Read(w, Written(w, c, name, value, repo).value, name, repo) == Ok(value)
       <==> Read(w, c, name, repo) == Ok(value)
            || (LookedUp(w, name, repo) == Some(name) && Fitting(w, name, value))
  {
    WriteLeaves(w, c, name, value, repo);
    PlatformsHasNoDefault();
    hide Typed, NativeDefault;
    if LookedUp(w, name, repo).Some? {
      ReadIsLookup(w, c, name, repo);
      ReadIsLookup(w, Written(w, c, name, value, repo).value, name, repo);
    }
  }

  /** Through an alias a setting can be read, but only be written the value it has. */
  lemma AliasedWriteIsRefused(w: Workspace, c: Config, name: string, value: Value, repo: string)
    requires AliasesAreNoSettings(w) && !IsOption(name) && Read(w, c, name, repo).Ok?
    requires w.settingLabel(name, repo).Some? && w.followAliases(w.settingLabel(name, repo).value) != w.settingLabel(name, repo).value
    ensures Written(w, c, name, value, repo)
         == if Read(w, c, name, repo) == Ok(value) then Ok(c) else Err(NotABuildSetting)
  {
    hide Read;
  }

  /** `//p:q` in the repo `dep+` and in the main repo, each a boolean setting. */
  function TwoRepos(): Workspace {
    Workspace(
      (text: string, repo: string) => Some(if repo == "" || "@@" <= text then text else "@@" + repo + text),
      (target: string) => target,
      (target: string) => Some(Setting(BoolKind, BoolValue(false))),
      (target: string) => Ok({}))
  }

  /** Written in `dep+`, `//p:q` is lost to `dep+` and changes the main repo's `//p:q`. */
  lemma WriteReachesAnotherRepo(c: Config)
    requires c.settings == map[]
    ensures var written := Written(TwoRepos(), c, "//p:q", BoolValue(true), "dep+");
            && written.Ok?
            && Read(TwoRepos(), written.value, "//p:q", "dep+") == Ok(BoolValue(false))
            && Read(TwoRepos(), c, "//p:q", "") == Ok(BoolValue(false))
            && Read(TwoRepos(), written.value, "//p:q", "") == Ok(BoolValue(true))
  {
    var name := "//p:q";
    assert name[2] == 'p' && OPTION[2] == 'c' && !IsOption(name);
    assert "@@"[0] == '@' && !("@@" <= name);
    var full := "@@" + "dep+" + name;
    assert full[0] == '@' && full != name;
    assert name !in c.settings && full !in c.settings;
  }

  // ---------- Applying a transition ----------

  /** A part of a transition: from the readings of its inputs, a change list for each split key. */
  datatype Part = Part(inputs: seq<string>, run: map<string, Value> -> Result<seq<(string, seq<Change>)>, SettingError>)

  function JoinKey(key: string, split: string): string {
    if split == "" then key else if key == "" then split else key + "," + split
  }

  function ReadInputs(w: Workspace, c: Config, inputs: seq<string>, repo: string): Result<map<string, Value>, SettingError>
    decreases |inputs|
  {
    if inputs == [] then Ok(map[])
    else
      match ReadInputs(w, c, inputs[..|inputs| - 1], repo)
      case Err(e) => Err(e)
      case Ok(settings) =>
        match Read(w, c, inputs[|inputs| - 1], repo)
        case Err(e) => Err(e)
        case Ok(value) => Ok(settings[inputs[|inputs| - 1] := value])
  }

  type Made = seq<(string, Config)>

  /** Each outcome of a part on one configuration. */
  function Outcomes(w: Workspace, key: string, c: Config, outcomes: seq<(string, seq<Change>)>, repo: string)
    : Result<Made, SettingError>
    decreases |outcomes|
  {
    if outcomes == [] then Ok([])
    else
      match WriteAll(w, c, outcomes[0].1, repo)
      case Err(e) => Err(e)
      case Ok(c') =>
        match Outcomes(w, key, c, outcomes[1..], repo)
        case Err(e) => Err(e)
        case Ok(rest) => Ok([(JoinKey(key, outcomes[0].0), c')] + rest)
  }

  function RunPart(w: Workspace, part: Part, from: Made, repo: string): Result<Made, SettingError>
    decreases |from|
  {
    if from == [] then Ok([])
    else
      match ReadInputs(w, from[0].1, part.inputs, repo)
      case Err(e) => Err(e)
      case Ok(settings) =>
        match part.run(settings)
        case Err(e) => Err(e)
        case Ok(outcomes) =>
          match Outcomes(w, from[0].0, from[0].1, outcomes, repo)
          case Err(e) => Err(e)
          case Ok(made) =>
            match RunPart(w, part, from[1..], repo)
            case Err(e) => Err(e)
            case Ok(rest) => Ok(made + rest)
  }

  function RunParts(w: Workspace, parts: seq<Part>, from: Made, repo: string): Result<Made, SettingError>
    decreases |parts|
  {
    if parts == [] then Ok(from)
    else
      match RunPart(w, parts[0], from, repo)
      case Err(e) => Err(e)
      case Ok(made) => RunParts(w, parts[1..], made, repo)
  }

  ghost predicate AllCanonical(w: Workspace, base: Config, made: Made, repo: string) {
    forall i | 0 <= i < |made| :: Canonical(w, base, made[i].1, repo)
  }

  /** The part only changes plain settings, to typed values. */
  ghost predicate PlainPart(w: Workspace, part: Part, repo: string) {
    forall settings | part.run(settings).Ok? ::
      forall i | 0 <= i < |part.run(settings).value| :: PlainChanges(w, part.run(settings).value[i].1, repo)
  }

  lemma {:induction false} WritesKeepCanonical(w: Workspace, base: Config, c: Config, changes: seq<Change>, repo: string)
    requires IsBase(w, base, repo) && Canonical(w, base, c, repo) && PlainChanges(w, changes, repo)
    ensures WriteAll(w, c, changes, repo).Ok? && Canonical(w, base, WriteAll(w, c, changes, repo).value, repo)
    decreases |changes|
  {
    hide Written, Canonical, Plain, IsTyped;
    if changes != [] {
      WriteKeepsCanonical(w, base, c, changes[0].name, changes[0].value, repo);
      WritesKeepCanonical(w, base, Written(w, c, changes[0].name, changes[0].value, repo).value, changes[1..], repo);
    }
  }

  lemma {:induction false} OutcomesCanonical(
    w: Workspace, base: Config, key: string, c: Config, outcomes: seq<(string, seq<Change>)>, repo: string)
    requires IsBase(w, base, repo) && Canonical(w, base, c, repo)
    requires forall i | 0 <= i < |outcomes| :: PlainChanges(w, outcomes[i].1, repo)
    ensures Outcomes(w, key, c, outcomes, repo).Ok?
    ensures AllCanonical(w, base, Outcomes(w, key, c, outcomes, repo).value, repo)
    ensures |Outcomes(w, key, c, outcomes, repo).value| == |outcomes|
    decreases |outcomes|
  {
    hide Canonical, WriteAll, PlainChanges;
    if outcomes != [] {
      WritesKeepCanonical(w, base, c, outcomes[0].1, repo);
      OutcomesCanonical(w, base, key, c, outcomes[1..], repo);
    }
  }

  lemma {:induction false} PartCanonical(w: Workspace, base: Config, part: Part, from: Made, repo: string)
    requires IsBase(w, base, repo) && PlainPart(w, part, repo) && AllCanonical(w, base, from, repo)
    ensures RunPart(w, part, from, repo).Ok? ==> AllCanonical(w, base, RunPart(w, part, from, repo).value, repo)
    decreases |from|
  {
    hide Canonical, WriteAll, PlainChanges, ReadInputs;
    if from != [] {
      PartCanonical(w, base, part, from[1..], repo);
      var settings := ReadInputs(w, from[0].1, part.inputs, repo);
      if settings.Ok? && part.run(settings.value).Ok? {
        OutcomesCanonical(w, base, from[0].0, from[0].1, part.run(settings.value).value, repo);
      }
    }
  }

  /** Every configuration a composed or split transition makes is canonical over where it started. */
  lemma {:induction false} PartsCanonical(w: Workspace, base: Config, parts: seq<Part>, from: Made, repo: string)
    requires IsBase(w, base, repo) && AllCanonical(w, base, from, repo)
    requires forall i | 0 <= i < |parts| :: PlainPart(w, parts[i], repo)
    ensures RunParts(w, parts, from, repo).Ok? ==> AllCanonical(w, base, RunParts(w, parts, from, repo).value, repo)
    decreases |parts|
  {
    hide Canonical, PlainPart, RunPart;
    if parts != [] {
      PartCanonical(w, base, parts[0], from, repo);
      var made := RunPart(w, parts[0], from, repo);
      if made.Ok? { PartsCanonical(w, base, parts[1..], made.value, repo); }
    }
  }

  /** The transition of an edge: each part on every configuration the one before made. */
  method Apply(w: Workspace, from: Config, parts: seq<Part>, repo: string) returns (r: Result<Made, SettingError>)
    ensures r == RunParts(w, parts, [("", from)], repo)
  {
    var out: Made := [("", from)];
    assert parts[0..] == parts;
    for p := 0 to |parts|
      invariant RunParts(w, parts[p..], out, repo) == RunParts(w, parts, [("", from)], repo)
    {
      ghost var left := parts[p..];
      assert left[0] == parts[p] && left[1..] == parts[p + 1..];
      var next := ApplyPart(w, parts[p], out, repo);
      if next.Err? {
        return Err(next.error);
      }
      out := next.value;
    }
    r := Ok(out);
  }

  method ApplyPart(w: Workspace, part: Part, from: Made, repo: string) returns (r: Result<Made, SettingError>)
    ensures r == RunPart(w, part, from, repo)
  {
    hide ReadInputs, Outcomes;
    var next: Made := [];
    assert from[0..] == from;
    AfterNothing(RunPart(w, part, from, repo));
    for i := 0 to |from|
      invariant RunPart(w, part, from, repo) == After(next, RunPart(w, part, from[i..], repo))
    {
      ghost var left := from[i..];
      assert left[0] == from[i] && left[1..] == from[i + 1..];
      var (key, config) := from[i];
      var settings := ReadAll(w, config, part.inputs, repo);
      if settings.Err? {
        return Err(settings.error);
      }
      var outcomes := part.run(settings.value);
      if outcomes.Err? {
        return Err(outcomes.error);
      }
      var made := ApplyOutcomes(w, key, config, outcomes.value, repo);
      if made.Err? {
        return Err(made.error);
      }
      AfterAfter(next, made.value, RunPart(w, part, from[i + 1..], repo));
      next := next + made.value;
    }
    assert next + [] == next;
    r := Ok(next);
  }

  function After(made: Made, rest: Result<Made, SettingError>): Result<Made, SettingError> {
    match rest
    case Err(e) => Err(e)
    case Ok(more) => Ok(made + more)
  }

  lemma AfterNothing(rest: Result<Made, SettingError>)
    ensures After([], rest) == rest
  {
    if rest.Ok? { assert [] + rest.value == rest.value; }
  }

  lemma AfterAfter(a: Made, b: Made, rest: Result<Made, SettingError>)
    ensures After(a, After(b, rest)) == After(a + b, rest)
  {
    if rest.Ok? { Assoc(a, b, rest.value); }
  }

  method ReadAll(w: Workspace, c: Config, inputs: seq<string>, repo: string)
    returns (r: Result<map<string, Value>, SettingError>)
    ensures r == ReadInputs(w, c, inputs, repo)
  {
    hide Read;
    var settings: map<string, Value> := map[];
    for i := 0 to |inputs|
      invariant ReadInputs(w, c, inputs[..i], repo) == Ok(settings)
    {
      ghost var upTo := inputs[..i + 1];
      assert upTo[..i] == inputs[..i] && upTo[i] == inputs[i];
      var value := Read(w, c, inputs[i], repo);
      if value.Err? {
        FirstBadInput(w, c, inputs, i + 1, repo);
        return Err(value.error);
      }
      settings := settings[inputs[i] := value.value];
    }
    assert inputs[..|inputs|] == inputs;
    r := Ok(settings);
  }

  lemma {:induction false} FirstBadInput(w: Workspace, c: Config, inputs: seq<string>, i: nat, repo: string)
    requires i <= |inputs| && ReadInputs(w, c, inputs[..i], repo).Err?
    ensures ReadInputs(w, c, inputs, repo) == Err(ReadInputs(w, c, inputs[..i], repo).error)
    decreases |inputs|
  {
    hide Read;
    if i == |inputs| {
      assert inputs[..i] == inputs;
    } else {
      var fewer := inputs[..|inputs| - 1];
      assert fewer[..i] == inputs[..i];
      FirstBadInput(w, c, fewer, i, repo);
    }
  }

  method ApplyOutcomes(w: Workspace, key: string, c: Config, outcomes: seq<(string, seq<Change>)>, repo: string)
    returns (r: Result<Made, SettingError>)
    ensures r == Outcomes(w, key, c, outcomes, repo)
  {
    hide WriteAll;
    var next: Made := [];
    assert outcomes[0..] == outcomes;
    AfterNothing(Outcomes(w, key, c, outcomes, repo));
    for i := 0 to |outcomes|
      invariant Outcomes(w, key, c, outcomes, repo) == After(next, Outcomes(w, key, c, outcomes[i..], repo))
    {
      ghost var left := outcomes[i..];
      assert left[0] == outcomes[i] && left[1..] == outcomes[i + 1..];
      var made := ApplyChanges(w, c, outcomes[i].1, repo);
      if made.Err? {
        return Err(made.error);
      }
      var one := (JoinKey(key, outcomes[i].0), made.value);
      AfterAfter(next, [one], Outcomes(w, key, c, outcomes[i + 1..], repo));
      next := next + [one];
    }
    assert next + [] == next;
    r := Ok(next);
  }

  /** The writes on a copy. */
  method ApplyChanges(w: Workspace, c: Config, changes: seq<Change>, repo: string)
    returns (r: Result<Config, SettingError>)
    ensures r == WriteAll(w, c, changes, repo)
  {
    hide Written;
    var made := new Configuration(c);
    assert changes[0..] == changes;
    for i := 0 to |changes|
      invariant WriteAll(w, made.Contents(), changes[i..], repo) == WriteAll(w, c, changes, repo)
    {
      ghost var left := changes[i..];
      assert left[0] == changes[i] && left[1..] == changes[i + 1..];
      var error := made.Write(w, changes[i].name, changes[i].value, repo);
      if error.Some? {
        return Err(error.value);
      }
    }
    r := Ok(made.Contents());
  }
}
