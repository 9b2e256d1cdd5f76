/**
 Toolchain resolution: which registered toolchain serves a type, which execution platform a target
 runs on, and what the resolution trace says of it.
*/
module Toolchains {
  import opened Text

  datatype Label = Label(repo: string, package: string, name: string)

  /** What a `toolchain` target declares. */
  datatype Decl = Decl(
    toolchainType: Label, toolchain: Label,
    execCompatible: seq<Label>, targetCompatible: seq<Label>, targetSettings: seq<Label>)

  /** What analysis says of labels, in the target's configuration, and the target platform's constraints. */
  datatype Targets = Targets(
    decl: Label -> Option<Decl>,
    actual: Label -> Option<Label>,
    settingMatches: Label -> bool,
    constraintSetting: Label -> Option<Label>,
    defaultValue: Label -> Option<Label>,
    targetConstraints: set<Label>)

  // ---------- Aliases and constraints ----------

  const ALIAS_LIMIT := 16

  function FollowAliases(t: Targets, target: Label, left: nat): Label
    decreases left
  {
    if left == 0 || t.actual(target).None? then target else FollowAliases(t, t.actual(target).value, left - 1)
  }

  /** The value is its setting's default, and the platform names no value of that setting. */
  predicate IsUnnamedDefault(t: Targets, have: set<Label>, value: Label) {
    && t.constraintSetting(value).Some?
    && t.defaultValue(t.constraintSetting(value).value) == Some(value)
    && forall member <- have :: t.constraintSetting(member) != t.constraintSetting(value)
  }

  /** The constraints of a platform with the defaults it does not name. */
  function WithDefaultsFor(t: Targets, have: set<Label>, needed: seq<Label>): set<Label> {
    have + set value | value in needed && value !in have && IsUnnamedDefault(t, have, value)
  }

  /** Every needed constraint holds on the platform. */
  predicate Holds(t: Targets, have: set<Label>, needed: seq<Label>) {
    forall i | 0 <= i < |needed| :: needed[i] in WithDefaultsFor(t, have, needed)
  }

  predicate Matches(t: Targets, settings: seq<Label>) {
    forall i | 0 <= i < |settings| :: t.settingMatches(settings[i])
  }

  // ---------- The first toolchain ----------

  predicate IsOfType(t: Targets, d: Decl, wanted: Label) {
    d.toolchainType == wanted || FollowAliases(t, d.toolchainType, ALIAS_LIMIT) == wanted
  }

  predicate OfType(t: Targets, target: Label, wanted: Label) {
    t.decl(target).Some? && IsOfType(t, t.decl(target).value, wanted)
  }

  /** The toolchain runs on a platform with the `exec` constraints and suits the target. */
  predicate Suits(t: Targets, d: Decl, exec: set<Label>) {
    Holds(t, exec, d.execCompatible) && Holds(t, t.targetConstraints, d.targetCompatible) && Matches(t, d.targetSettings)
  }

  /** The first registered toolchain of the type that suits. */
  function FirstServing(t: Targets, registered: seq<Label>, wanted: Label, exec: set<Label>): Option<Decl> {
    if registered == [] then None
    else if OfType(t, registered[0], wanted) && Suits(t, t.decl(registered[0]).value, exec)
    then t.decl(registered[0])
    else FirstServing(t, registered[1..], wanted, exec)
  }

  function Serving(t: Targets, registered: seq<Label>, toolchainType: Label, exec: set<Label>): Option<Decl> {
    FirstServing(t, registered, FollowAliases(t, toolchainType, ALIAS_LIMIT), exec)
  }

  method Resolve(t: Targets, registered: seq<Label>, toolchainType: Label, exec: set<Label>)
    returns (r: Option<Decl>)
    ensures r == Serving(t, registered, toolchainType, exec)
  {
    var wanted := FollowAliases(t, toolchainType, ALIAS_LIMIT);
    assert registered[0..] == registered;
    for i := 0 to |registered|
      invariant FirstServing(t, registered[i..], wanted, exec) == FirstServing(t, registered, wanted, exec)
    {
      ghost var rest := registered[i..];
      assert rest[0] == registered[i] && rest[1..] == registered[i + 1..];
      var candidate := t.decl(registered[i]);
      if candidate.None? {
        continue;
      }
      var d := candidate.value;
      if d.toolchainType != wanted && FollowAliases(t, d.toolchainType, ALIAS_LIMIT) != wanted {
        continue;
      }
      if !Holds(t, exec, d.execCompatible) || !Holds(t, t.targetConstraints, d.targetCompatible) {
        continue;
      }
      var settingsMatch := true;
      for j := 0 to |d.targetSettings|
        invariant settingsMatch <==> forall l | 0 <= l < j :: t.settingMatches(d.targetSettings[l])
      {
        settingsMatch := settingsMatch && t.settingMatches(d.targetSettings[j]);
      }
      if settingsMatch {
        return candidate;
      }
    }
    r := None;
  }

  // ---------- The trace ----------

  /** A platform a target may run on; the target platform itself, when it stands in, has no label. */
  datatype Platform = Platform(labelled: Option<Label>, constraints: set<Label>)

  /** What the trace says, without its wording. */
  datatype Said =
    | MismatchingSettings(toolchain: Label, settings: seq<Label>)
    | MismatchingValues(toolchain: Label, values: seq<Label>)
    | SuitsTarget(toolchain: Label)
    | RunsOn(platform: Label)
    | DoesNotRunOn(platform: Label, values: seq<Label>)
    | AllAssigned
    | NoToolchain
    | Recap
    | Selected(toolchain: Label, platform: Label)

  function Toolchain(d: Option<Decl>): Option<Label> {
    if d.None? then None else Some(d.value.toolchain)
  }

  /** The implementation the resolution of a type comes to on a platform with a label. */
  function Assigned(t: Targets, registered: seq<Label>, toolchainType: Label, p: Platform): Option<Label> {
    if p.labelled.None? then None else Toolchain(Serving(t, registered, toolchainType, p.constraints))
  }

  /** The toolchains of the type, settings aside. */
  function Found(t: Targets, registered: seq<Label>, wanted: Label): seq<(Label, Decl)> {
    if registered == [] then []
    else
      (if OfType(t, registered[0], wanted) then [(registered[0], t.decl(registered[0]).value)] else [])
      + Found(t, registered[1..], wanted)
  }

  /** Those whose settings match. */
  function Remaining(t: Targets, found: seq<(Label, Decl)>): seq<(Label, Decl)> {
    if found == [] then []
    else (if Matches(t, found[0].1.targetSettings) then [found[0]] else []) + Remaining(t, found[1..])
  }

  /** The first of them that the target and the platform's constraints let through. */
  function FirstRunning(t: Targets, remaining: seq<(Label, Decl)>, exec: set<Label>): Option<Decl> {
    if remaining == [] then None
    else if Holds(t, t.targetConstraints, remaining[0].1.targetCompatible)
         && Holds(t, exec, remaining[0].1.execCompatible)
    then Some(remaining[0].1)
    else FirstRunning(t, remaining[1..], exec)
  }

  lemma {:induction false} FilteredFirst(t: Targets, registered: seq<Label>, wanted: Label, exec: set<Label>)
    ensures FirstRunning(t, Remaining(t, Found(t, registered, wanted)), exec) == FirstServing(t, registered, wanted, exec)
  {
    hide Holds, Matches, OfType;
    if registered != [] {
      FilteredFirst(t, registered[1..], wanted, exec);
      var rest := Found(t, registered[1..], wanted);
      if OfType(t, registered[0], wanted) {
        OfTypeDeclares(t, registered[0], wanted);
        var first := (registered[0], t.decl(registered[0]).value);
        assert Found(t, registered, wanted) == [first] + rest && ([first] + rest)[1..] == rest;
        if Matches(t, first.1.targetSettings) {
          var kept := Remaining(t, rest);
          assert Remaining(t, [first] + rest) == [first] + kept && ([first] + kept)[1..] == kept;
        } else {
          assert Remaining(t, [first] + rest) == [] + Remaining(t, rest) == Remaining(t, rest);
        }
      } else {
        assert Found(t, registered, wanted) == [] + rest == rest;
      }
    }
  }

  function Missing(needed: seq<Label>, held: set<Label>): (r: seq<Label>)
    ensures r == [] <==> forall i | 0 <= i < |needed| :: needed[i] in held
  {
    if needed == [] then []
    else (if needed[0] in held then [] else [needed[0]]) + Missing(needed[1..], held)
  }

  /** What is settled for each platform after some of the toolchains: an assignment, or the ones left. */
  ghost predicate Progress(
    t: Targets, remaining: seq<(Label, Decl)>, left: seq<(Label, Decl)>, candidates: seq<Platform>,
    chosen: seq<Option<Label>>)
  {
    && |chosen| == |candidates|
    && forall i | 0 <= i < |candidates| ::
         var final := FirstRunning(t, remaining, candidates[i].constraints);
         if candidates[i].labelled.None? then chosen[i] == None
         else if chosen[i].Some? then chosen[i] == Toolchain(final)
         else FirstRunning(t, left, candidates[i].constraints) == final
  }

  /** The toolchains of the type whose settings match, and what is said of the others. */
  method FindRemaining(t: Targets, registered: seq<Label>, wanted: Label)
    returns (remaining: seq<(Label, Decl)>, lines: seq<Said>)
    ensures remaining == Remaining(t, Found(t, registered, wanted))
    ensures forall said <- lines :: said.MismatchingSettings?
  {
    hide Matches, OfType;
    var found: seq<(Label, Decl)> := [];
    assert registered[0..] == registered;
    for i := 0 to |registered|
      invariant found + Found(t, registered[i..], wanted) == Found(t, registered, wanted)
    {
      ghost var rest := registered[i..];
      assert rest[0] == registered[i] && rest[1..] == registered[i + 1..];
      if OfType(t, registered[i], wanted) {
        OfTypeDeclares(t, registered[i], wanted);
        var next := (registered[i], t.decl(registered[i]).value);
        Assoc(found, [next], Found(t, registered[i + 1..], wanted));
        found := found + [next];
      } else {
        assert [] + Found(t, registered[i + 1..], wanted) == Found(t, registered[i + 1..], wanted);
      }
    }
    assert registered[|registered|..] == [] && found + [] == found;
    remaining, lines := [], [];
    assert found[0..] == found;
    for i := 0 to |found|
      invariant remaining + Remaining(t, found[i..]) == Remaining(t, found)
      invariant forall said <- lines :: said.MismatchingSettings?
    {
      ghost var rest := found[i..];
      assert rest[0] == found[i] && rest[1..] == found[i + 1..];
      var unmatched: seq<Label> := [];
      var settings := found[i].1.targetSettings;
      for j := 0 to |settings|
        invariant unmatched == [] <==> forall l | 0 <= l < j :: t.settingMatches(settings[l])
      {
        if !t.settingMatches(settings[j]) {
          unmatched := unmatched + [settings[j]];
        }
      }
      MatchesMeans(t, settings);
      if unmatched == [] {
        Assoc(remaining, [found[i]], Remaining(t, found[i + 1..]));
        remaining := remaining + [found[i]];
      } else {
        assert [] + Remaining(t, found[i + 1..]) == Remaining(t, found[i + 1..]);
        lines := lines + [MismatchingSettings(found[i].0, unmatched)];
      }
    }
    assert found[|found|..] == [] && remaining + [] == remaining;
  }

  lemma OfTypeDeclares(t: Targets, target: Label, wanted: Label)
    requires OfType(t, target, wanted)
    ensures t.decl(target).Some?
  {
  }

  lemma MatchesMeans(t: Targets, settings: seq<Label>)
    ensures Matches(t, settings) <==> forall l | 0 <= l < |settings| :: t.settingMatches(settings[l])
  {
  }

  /** One toolchain that suits the target, tried on every platform that has none yet. */
  method AssignOne(t: Targets, d: Decl, candidates: seq<Platform>, before: seq<Option<Label>>)
    returns (chosen: seq<Option<Label>>, lines: seq<Said>)
    requires |before| == |candidates|
    ensures |chosen| == |candidates|
    ensures forall i | 0 <= i < |candidates| ::
              chosen[i] == if before[i].None? && candidates[i].labelled.Some?
                                && Holds(t, candidates[i].constraints, d.execCompatible)
                             then Some(d.toolchain) else before[i]
    ensures forall said <- lines :: said.RunsOn? || said.DoesNotRunOn?
  {
    chosen, lines := before, [];
    for i := 0 to |candidates|
      invariant |chosen| == |candidates|
      invariant forall j | i <= j < |candidates| :: chosen[j] == before[j]
      invariant forall j | 0 <= j < i ::
          chosen[j] == if before[j].None? && candidates[j].labelled.Some?
                            && Holds(t, candidates[j].constraints, d.execCompatible)
                         then Some(d.toolchain) else before[j]
      invariant forall said <- lines :: said.RunsOn? || said.DoesNotRunOn?
    {
      if chosen[i].Some? || candidates[i].labelled.None? {
        continue;
      }
      var held := WithDefaultsFor(t, candidates[i].constraints, d.execCompatible);
      var missing := Missing(d.execCompatible, held);
      if missing == [] {
        lines := lines + [RunsOn(candidates[i].labelled.value)];
        chosen := chosen[i := Some(d.toolchain)];
      } else {
        lines := lines + [DoesNotRunOn(candidates[i].labelled.value, missing)];
      }
    }
  }

  /** The closing lines: what runs on each platform that got something. */
  function RecapLines(candidates: seq<Platform>, chosen: seq<Option<Label>>): seq<Said>
    requires |chosen| == |candidates|
  {
    if candidates == [] then []
    else
      (if candidates[0].labelled.Some? && chosen[0].Some?
       then [Selected(chosen[0].value, candidates[0].labelled.value)] else [])
      + RecapLines(candidates[1..], chosen[1..])
  }

  function Ending(candidates: seq<Platform>, chosen: seq<Option<Label>>): seq<Said>
    requires |chosen| == |candidates|
  {
    if NoneAssigned(chosen) then [NoToolchain] else [Recap] + RecapLines(candidates, chosen)
  }

  predicate NoneAssigned(chosen: seq<Option<Label>>) {
    forall i | 0 <= i < |chosen| :: chosen[i].None?
  }

  predicate EveryAssigned(chosen: seq<Option<Label>>) {
    forall i | 0 <= i < |chosen| :: chosen[i].Some?
  }

  /** Toolchain after toolchain, platform after platform, until every platform has one. */
  method AssignAll(t: Targets, remaining: seq<(Label, Decl)>, candidates: seq<Platform>)
    returns (chosen: seq<Option<Label>>, lines: seq<Said>)
    ensures |chosen| == |candidates|
    ensures forall i | 0 <= i < |candidates| ::
              chosen[i] == if candidates[i].labelled.None? then None
                             else Toolchain(FirstRunning(t, remaining, candidates[i].constraints))
    ensures forall said <- lines :: !said.Selected? && !said.Recap? && !said.NoToolchain?
  {
    hide Holds;
    chosen, lines := seq(|candidates|, i => None), [];
    assert remaining[0..] == remaining;
    for k := 0 to |remaining|
      invariant Progress(t, remaining, remaining[k..], candidates, chosen)
      invariant forall said <- lines :: !said.Selected? && !said.Recap? && !said.NoToolchain?
    {
      ghost var left := remaining[k..];
      assert left[0] == remaining[k] && left[1..] == remaining[k + 1..];
      var (target, d) := remaining[k];
      var missing := Missing(d.targetCompatible, WithDefaultsFor(t, t.targetConstraints, d.targetCompatible));
      HoldsMeans(t, t.targetConstraints, d.targetCompatible);
      if missing != [] {
        lines := lines + [MismatchingValues(target, missing)];
        continue;
      }
      lines := lines + [SuitsTarget(target)];
      var more;
      chosen, more := AssignOne(t, d, candidates, chosen);
      lines := lines + more;
      if EveryAssigned(chosen) {
        lines := lines + [AllAssigned];
        return;
      }
    }
    assert remaining[|remaining|..] == [];
  }

  lemma HoldsMeans(t: Targets, have: set<Label>, needed: seq<Label>)
    ensures Holds(t, have, needed) <==> Missing(needed, WithDefaultsFor(t, have, needed)) == []
  {
  }

  /**
   The trace of one type. It goes through the toolchains first and the platforms within, and stops
   early; each platform still gets what resolving the type on it gives.
  */
  method Explain(t: Targets, registered: seq<Label>, toolchainType: Label, candidates: seq<Platform>)
    returns (chosen: seq<Option<Label>>, lines: seq<Said>)
    ensures |chosen| == |candidates|
    ensures forall i | 0 <= i < |candidates| ::
              chosen[i] == Assigned(t, registered, toolchainType, candidates[i])
    ensures var ending := Ending(candidates, chosen);
            && |ending| <= |lines| && lines[|lines| - |ending|..] == ending
            && forall j | 0 <= j < |lines| - |ending| :: !lines[j].Selected?
  {
    var wanted := FollowAliases(t, toolchainType, ALIAS_LIMIT);
    var remaining;
    remaining, lines := FindRemaining(t, registered, wanted);
    var more;
    chosen, more := AssignAll(t, remaining, candidates);
    lines := lines + more;
    forall i | 0 <= i < |candidates|
      ensures chosen[i] == Assigned(t, registered, toolchainType, candidates[i])
    {
      FilteredFirst(t, registered, wanted, candidates[i].constraints);
    }
    ghost var trace := lines;
    forall j | 0 <= j < |trace| ensures !trace[j].Selected? {
      assert trace[j] in trace;
    }
    if NoneAssigned(chosen) {
      lines := lines + [NoToolchain];
      return;
    }
    var recap: seq<Said> := [];
    assert candidates[0..] == candidates && chosen[0..] == chosen;
    for i := 0 to |candidates|
      invariant recap + RecapLines(candidates[i..], chosen[i..]) == RecapLines(candidates, chosen)
    {
      ghost var restC, restA := candidates[i..], chosen[i..];
      assert restC[0] == candidates[i] && restC[1..] == candidates[i + 1..];
      assert restA[0] == chosen[i] && restA[1..] == chosen[i + 1..];
      ghost var tail := RecapLines(candidates[i + 1..], chosen[i + 1..]);
      if candidates[i].labelled.Some? && chosen[i].Some? {
        var said := Selected(chosen[i].value, candidates[i].labelled.value);
        Assoc(recap, [said], tail);
        recap := recap + [said];
      } else {
        assert [] + tail == tail;
      }
    }
    assert candidates[|candidates|..] == [] && recap + [] == recap;
    lines := lines + ([Recap] + recap);
  }

  // ---------- The execution platform ----------

  /** A toolchain type a target asks for. */
  datatype Wanted = Wanted(toolchainType: Label, mandatory: bool)

  datatype ResolveError =
    | NoMatch(types: seq<Label>)
    | NoExecutionPlatform(types: seq<Label>, tried: seq<Label>)

  /** The execution platform (the target's, if none), and each type's implementation. */
  datatype Resolution = Resolution(toolchains: seq<(Label, Option<Label>)>, platform: Option<Label>)

  /** The platforms that hold the target's own execution constraints. */
  function Candidates(t: Targets, platforms: seq<Platform>, exec: seq<Label>): seq<Platform> {
    if platforms == [] then []
    else
      (if Holds(t, platforms[0].constraints, exec) then [platforms[0]] else []) + Candidates(t, platforms[1..], exec)
  }

  /** With no execution platform named, the target platform is where it runs. */
  function OrTarget(t: Targets, platforms: seq<Platform>): seq<Platform> {
    if platforms == [] then [Platform(None, t.targetConstraints)] else platforms
  }

  /** Every mandatory type has a toolchain on the platform. */
  predicate ServesAll(t: Targets, registered: seq<Label>, types: seq<Wanted>, p: Platform) {
    forall i | 0 <= i < |types| && types[i].mandatory ::
      Serving(t, registered, types[i].toolchainType, p.constraints).Some?
  }

  function Implementations(t: Targets, registered: seq<Label>, types: seq<Wanted>, p: Platform)
    : (r: seq<(Label, Option<Label>)>)
    ensures |r| == |types|
  {
    seq(|types|, i requires 0 <= i < |types| =>
      (types[i].toolchainType, Toolchain(Serving(t, registered, types[i].toolchainType, p.constraints))))
  }

  /** The types that no platform at all has a toolchain for. */
  function Unserved(t: Targets, registered: seq<Label>, types: seq<Wanted>, candidates: seq<Platform>): seq<Label> {
    if types == [] then []
    else
      (if types[0].mandatory && !ServedBySome(t, registered, types[0].toolchainType, candidates)
       then [types[0].toolchainType] else [])
      + Unserved(t, registered, types[1..], candidates)
  }

  predicate ServedBySome(t: Targets, registered: seq<Label>, toolchainType: Label, candidates: seq<Platform>) {
    exists i | 0 <= i < |candidates| :: Serving(t, registered, toolchainType, candidates[i].constraints).Some?
  }

  function Names(candidates: seq<Platform>): seq<Label> {
    if candidates == [] then []
    else (if candidates[0].labelled.Some? then [candidates[0].labelled.value] else []) + Names(candidates[1..])
  }

  function TypesOf(types: seq<Wanted>): (r: seq<Label>)
    ensures |r| == |types| && forall i | 0 <= i < |r| :: r[i] == types[i].toolchainType
  {
    seq(|types|, i requires 0 <= i < |types| => types[i].toolchainType)
  }

  method FilterCandidates(t: Targets, platforms: seq<Platform>, exec: seq<Label>) returns (candidates: seq<Platform>)
    ensures candidates == Candidates(t, platforms, exec)
  {
    hide Holds;
    candidates := [];
    assert platforms[0..] == platforms;
    for i := 0 to |platforms|
      invariant candidates + Candidates(t, platforms[i..], exec) == Candidates(t, platforms, exec)
    {
      ghost var rest := platforms[i..];
      assert rest[0] == platforms[i] && rest[1..] == platforms[i + 1..];
      ghost var tail := Candidates(t, platforms[i + 1..], exec);
      if Holds(t, platforms[i].constraints, exec) {
        Assoc(candidates, [platforms[i]], tail);
        candidates := candidates + [platforms[i]];
      } else {
        assert [] + tail == tail;
      }
    }
    assert platforms[|platforms|..] == [] && candidates + [] == candidates;
  }

  /** Resolves every type on one platform. */
  method ResolveOn(t: Targets, registered: seq<Label>, types: seq<Wanted>, p: Platform, before: set<Label>)
    returns (toolchains: seq<(Label, Option<Label>)>, met: bool, served: set<Label>)
    ensures met <==> ServesAll(t, registered, types, p)
    ensures met ==> toolchains == Implementations(t, registered, types, p)
    ensures forall l :: l in served <==> l in before || exists i | 0 <= i < |types| ::
              types[i].toolchainType == l && Serving(t, registered, l, p.constraints).Some?
  {
    hide Serving;
    toolchains, met, served := [], true, before;
    for i := 0 to |types|
      invariant met <==> forall j | 0 <= j < i && types[j].mandatory ::
          Serving(t, registered, types[j].toolchainType, p.constraints).Some?
      invariant met ==> toolchains == Implementations(t, registered, types, p)[..i]
      invariant forall l :: l in served <==> l in before || exists j | 0 <= j < i ::
          types[j].toolchainType == l && Serving(t, registered, l, p.constraints).Some?
    {
      var d := Resolve(t, registered, types[i].toolchainType, p.constraints);
      if d.Some? {
        toolchains := toolchains + [(types[i].toolchainType, Some(d.value.toolchain))];
        served := served + {types[i].toolchainType};
      } else if types[i].mandatory {
        met := false;
      } else {
        toolchains := toolchains + [(types[i].toolchainType, None)];
      }
    }
  }

  /** Platform `i` is the first that serves every mandatory type, and `found` is what is found on it. */
  ghost predicate FoundAt(
    t: Targets, registered: seq<Label>, types: seq<Wanted>, candidates: seq<Platform>, found: Resolution, i: nat)
  {
    && i < |candidates| && ServesAll(t, registered, types, candidates[i])
    && (forall j | 0 <= j < i :: !ServesAll(t, registered, types, candidates[j]))
    && found == Resolution(Implementations(t, registered, types, candidates[i]), candidates[i].labelled)
  }

  /** The first candidate platform that serves every mandatory type, or why there is none. */
  ghost predicate IsResolution(
    t: Targets, registered: seq<Label>, types: seq<Wanted>, candidates: seq<Platform>,
    r: Result<Resolution, ResolveError>)
  {
    match r
    case Ok(found) => exists i: nat :: FoundAt(t, registered, types, candidates, found, i)
    case Err(e) =>
      && (forall i | 0 <= i < |candidates| :: !ServesAll(t, registered, types, candidates[i]))
      && var unserved := Unserved(t, registered, types, candidates);
         e == if unserved != [] then NoMatch(unserved)
              else NoExecutionPlatform(TypesOf(types), Names(candidates))
  }

  method ResolveToolchains(
    t: Targets, registered: seq<Label>, types: seq<Wanted>, exec: seq<Label>, named: seq<Platform>)
    returns (r: Result<Resolution, ResolveError>)
    ensures types == [] ==> r == Ok(Resolution([], None))
    ensures types != [] ==>
              IsResolution(t, registered, types, Candidates(t, OrTarget(t, named), exec), r)
  {
    hide ServesAll, Unserved, Implementations, IsServed, Candidates, Names;
    if types == [] {
      return Ok(Resolution([], None));
    }
    var candidates := FilterCandidates(t, OrTarget(t, named), exec);
    var served: set<Label> := {};
    NoneServed(t, registered, types);
    assert candidates[..0] == [];
    for i := 0 to |candidates|
      invariant forall j | 0 <= j < i :: !ServesAll(t, registered, types, candidates[j])
      invariant IsServed(t, registered, types, candidates[..i], served)
    {
      var toolchains, met;
      ghost var before := served;
      toolchains, met, served := ResolveOn(t, registered, types, candidates[i], served);
      if met {
        r := Ok(Resolution(toolchains, candidates[i].labelled));
        assert FoundAt(t, registered, types, candidates, r.value, i);
        return;
      }
      ServedGrows(t, registered, types, candidates, i, before, served);
    }
    assert candidates[..|candidates|] == candidates;
    var without := FindUnserved(t, registered, types, candidates, served);
    r := Err(if without != [] then NoMatch(without) else NoExecutionPlatform(TypesOf(types), Names(candidates)));
  }

  lemma NoneServed(t: Targets, registered: seq<Label>, types: seq<Wanted>)
    ensures IsServed(t, registered, types, [], {})
  {
  }

  /** `served` holds the types asked for that some of the platforms serve. */
  ghost predicate IsServed(
    t: Targets, registered: seq<Label>, types: seq<Wanted>, candidates: seq<Platform>, served: set<Label>)
  {
    forall l :: l in served <==> (l in TypesOf(types) && ServedBySome(t, registered, l, candidates))
  }

  method FindUnserved(
    t: Targets, registered: seq<Label>, types: seq<Wanted>, candidates: seq<Platform>, served: set<Label>)
    returns (without: seq<Label>)
    requires IsServed(t, registered, types, candidates, served)
    ensures without == Unserved(t, registered, types, candidates)
  {
    hide ServedBySome;
    without := [];
    assert types[0..] == types;
    for i := 0 to |types|
      invariant without + Unserved(t, registered, types[i..], candidates) == Unserved(t, registered, types, candidates)
    {
      ghost var rest := types[i..];
      assert rest[0] == types[i] && rest[1..] == types[i + 1..];
      ghost var tail := Unserved(t, registered, types[i + 1..], candidates);
      assert TypesOf(types)[i] == types[i].toolchainType;
      if types[i].mandatory && types[i].toolchainType !in served {
        Assoc(without, [types[i].toolchainType], tail);
        without := without + [types[i].toolchainType];
      } else {
        assert [] + tail == tail;
      }
    }
    assert types[|types|..] == [] && without + [] == without;
  }

  lemma ServedGrows(
    t: Targets, registered: seq<Label>, types: seq<Wanted>, candidates: seq<Platform>, i: nat,
    before: set<Label>, served: set<Label>)
    requires i < |candidates| && IsServed(t, registered, types, candidates[..i], before)
    requires forall l :: l in served <==> l in before || exists j | 0 <= j < |types| ::
               types[j].toolchainType == l && Serving(t, registered, l, candidates[i].constraints).Some?
    ensures IsServed(t, registered, types, candidates[..i + 1], served)
  {
    hide Serving;
    var less, more := candidates[..i], candidates[..i + 1];
    assert more[i] == candidates[i] && forall j | 0 <= j < i :: more[j] == less[j];
    forall l ensures l in served <==> (l in TypesOf(types) && ServedBySome(t, registered, l, more)) {
      assert l in TypesOf(types) <==> exists j | 0 <= j < |types| :: types[j].toolchainType == l;
      assert ServedBySome(t, registered, l, more)
        <==> ServedBySome(t, registered, l, less) || Serving(t, registered, l, candidates[i].constraints).Some?;
    }
  }

  /** No mandatory type is unserved exactly when each has a toolchain on some candidate. */
  lemma {:induction false} UnservedIsEmpty(
    t: Targets, registered: seq<Label>, types: seq<Wanted>, candidates: seq<Platform>)
    ensures Unserved(t, registered, types, candidates) == []
       <==> forall i | 0 <= i < |types| && types[i].mandatory ::
              ServedBySome(t, registered, types[i].toolchainType, candidates)
  {
    hide ServedBySome;
    if types != [] {
      UnservedIsEmpty(t, registered, types[1..], candidates);
      forall i | 0 < i < |types| ensures types[i] == types[1..][i - 1] {
      }
    }
  }

  // ---------- Resolution and trace together ----------

  /** The types to explain: the optional ones, then the mandatory ones, those asked about. */
  function Asked(types: seq<Wanted>, mandatory: bool, matches: Label -> bool): seq<Label> {
    if types == [] then []
    else
      (if types[0].mandatory == mandatory && matches(types[0].toolchainType) then [types[0].toolchainType] else [])
      + Asked(types[1..], mandatory, matches)
  }

  lemma {:induction false} AskedAre(types: seq<Wanted>, mandatory: bool, matches: Label -> bool, l: Label)
    ensures l in Asked(types, mandatory, matches)
       <==> matches(l) && exists i | 0 <= i < |types| :: types[i] == Wanted(l, mandatory)
    decreases |types|
  {
    if types != [] {
      AskedAre(types[1..], mandatory, matches, l);
      assert forall i | 0 < i < |types| :: types[i] == types[1..][i - 1];
      assert forall i | 0 <= i < |types| - 1 :: types[1..][i] == types[i + 1];
    }
  }

  /** What a trace says of one type: the assignments, and the lines. */
  datatype Explained = Explained(chosen: seq<Option<Label>>, lines: seq<Said>)

  /** The lines end with the recap of the assignments, and recap nothing before. */
  ghost predicate Recaps(e: Explained, candidates: seq<Platform>) {
    && |e.chosen| == |candidates|
    && var ending := Ending(candidates, e.chosen);
       && |ending| <= |e.lines| && e.lines[|e.lines| - |ending|..] == ending
       && forall j | 0 <= j < |e.lines| - |ending| :: !e.lines[j].Selected?
  }

  /** Each candidate is assigned what resolving the type on it gives. */
  ghost predicate Traced(
    t: Targets, registered: seq<Label>, toolchainType: Label, candidates: seq<Platform>, chosen: seq<Option<Label>>)
  {
    && |chosen| == |candidates|
    && forall i | 0 <= i < |candidates| :: chosen[i] == Assigned(t, registered, toolchainType, candidates[i])
  }

  /** Explains type after type. */
  method ExplainAll(t: Targets, registered: seq<Label>, asked: seq<Label>, candidates: seq<Platform>)
    returns (traces: map<Label, Explained>)
    ensures forall l :: l in traces <==> l in asked
    ensures forall l <- traces :: Recaps(traces[l], candidates) && Traced(t, registered, l, candidates, traces[l].chosen)
  {
    hide Recaps, Traced;
    traces := map[];
    for k := 0 to |asked|
      invariant forall l :: l in traces <==> l in asked[..k]
      invariant forall l <- traces ::
          Recaps(traces[l], candidates) && Traced(t, registered, l, candidates, traces[l].chosen)
    {
      assert asked[..k + 1] == asked[..k] + [asked[k]];
      var e := ExplainOne(t, registered, asked[k], candidates);
      traces := traces[asked[k] := e];
    }
    assert asked[..|asked|] == asked;
  }

  method ExplainOne(t: Targets, registered: seq<Label>, toolchainType: Label, candidates: seq<Platform>)
    returns (e: Explained)
    ensures Recaps(e, candidates) && Traced(t, registered, toolchainType, candidates, e.chosen)
  {
    hide Assigned, Ending;
    var chosen, lines := Explain(t, registered, toolchainType, candidates);
    e := Explained(chosen, lines);
  }

  /** Every mandatory type that is explained gets something on the platform. */
  ghost predicate AllTraced(types: seq<Wanted>, traces: map<Label, Explained>, i: nat) {
    forall j | 0 <= j < |types| && types[j].mandatory && types[j].toolchainType in traces ::
      i < |traces[types[j].toolchainType].chosen| && traces[types[j].toolchainType].chosen[i].Some?
  }

  /** The implementations found are those the traces assign. */
  ghost predicate FoundIsTraced(types: seq<Wanted>, traces: map<Label, Explained>, found: Resolution, i: nat) {
    && |found.toolchains| == |types|
    && forall j | 0 <= j < |types| && types[j].toolchainType in traces ::
         && i < |traces[types[j].toolchainType].chosen|
         && found.toolchains[j] == (types[j].toolchainType, traces[types[j].toolchainType].chosen[i])
  }

  /** The target is asked about, or else each type that is. */
  predicate IsExplained(targetAsked: bool, matches: Label -> bool, l: Label) { targetAsked || matches(l) }

  /**
   Resolution, then the trace of it over the same candidates. Where the platform found has a label, the
   traces assign on it exactly what was found. No labelled candidate before it, and none at all when
   resolution fails, gets every mandatory type in the traces, if they are all explained.
  */
  method ResolveAndTrace(
    t: Targets, registered: seq<Label>, types: seq<Wanted>, exec: seq<Label>, named: seq<Platform>,
    targetAsked: bool, matches: Label -> bool)
    returns (r: Result<Resolution, ResolveError>, candidates: seq<Platform>, traces: map<Label, Explained>)
    ensures types == [] ==> r == Ok(Resolution([], None)) && traces == map[]
    ensures types != [] ==> candidates == Candidates(t, OrTarget(t, named), exec)
    ensures forall l :: l in traces <==> l in TypesOf(types) && IsExplained(targetAsked, matches, l)
    ensures forall l <- traces :: Recaps(traces[l], candidates)
    ensures types != [] && r.Ok? ==> exists i: nat | i < |candidates| ::
              && r.value.platform == candidates[i].labelled
              && (candidates[i].labelled.Some? ==>
                    AllTraced(types, traces, i) && FoundIsTraced(types, traces, r.value, i))
              && (targetAsked ==> NoneTraced(types, candidates[..i], traces))
    ensures r.Err? && targetAsked ==> NoneTraced(types, candidates, traces)
  {
    hide Serving, Candidates, Unserved, Recaps, Traced, AllTraced, FoundIsTraced, ServesAll, NoneTraced, Implementations;
    r := ResolveToolchains(t, registered, types, exec, named);
    if types == [] {
      return r, [], map[];
    }
    candidates := FilterCandidates(t, OrTarget(t, named), exec);
    var explained := (l: Label) => IsExplained(targetAsked, matches, l);
    var asked := Asked(types, false, explained) + Asked(types, true, explained);
    forall l ensures l in asked <==> l in TypesOf(types) && IsExplained(targetAsked, matches, l) {
      AskedTypes(types, explained, l);
    }
    traces := ExplainAll(t, registered, asked, candidates);
    if r.Ok? {
      ghost var i: nat :| FoundAt(t, registered, types, candidates, r.value, i);
      if candidates[i].labelled.Some? { TracedFound(t, registered, types, candidates, traces, r.value, i); }
      if targetAsked { NoneServes(t, registered, types, candidates, traces, i); }
    } else if targetAsked {
      NoneServes(t, registered, types, candidates, traces, |candidates|);
      assert candidates[..|candidates|] == candidates;
    }
  }

  /** No labelled platform among the first ones gets every mandatory type in the traces. */
  ghost predicate NoneTraced(types: seq<Wanted>, candidates: seq<Platform>, traces: map<Label, Explained>) {
    forall i | 0 <= i < |candidates| && candidates[i].labelled.Some? :: !AllTraced(types, traces, i)
  }

  lemma AskedTypes(types: seq<Wanted>, matches: Label -> bool, l: Label)
    ensures l in Asked(types, false, matches) + Asked(types, true, matches) <==> l in TypesOf(types) && matches(l)
  {
    AskedAre(types, false, matches, l);
    AskedAre(types, true, matches, l);
    if l in TypesOf(types) {
      var i :| 0 <= i < |types| && TypesOf(types)[i] == l;
      assert types[i] == Wanted(l, types[i].mandatory);
    }
    assert forall i | 0 <= i < |types| :: TypesOf(types)[i] == types[i].toolchainType;
  }

  lemma NoneServes(
    t: Targets, registered: seq<Label>, types: seq<Wanted>, candidates: seq<Platform>,
    traces: map<Label, Explained>, n: nat)
    requires n <= |candidates| && forall i | 0 <= i < n :: !ServesAll(t, registered, types, candidates[i])
    requires forall l <- TypesOf(types) :: l in traces
    requires forall l <- traces :: Traced(t, registered, l, candidates, traces[l].chosen)
    ensures NoneTraced(types, candidates[..n], traces)
  {
    hide Serving;
    forall i | 0 <= i < n && candidates[i].labelled.Some? ensures !AllTraced(types, traces, i) {
      var j :| 0 <= j < |types| && types[j].mandatory
               && Serving(t, registered, types[j].toolchainType, candidates[i].constraints).None?;
      var l := types[j].toolchainType;
      assert TypesOf(types)[j] == l;
      assert Traced(t, registered, l, candidates, traces[l].chosen);
    }
  }

  lemma TracedFound(
    t: Targets, registered: seq<Label>, types: seq<Wanted>, candidates: seq<Platform>,
    traces: map<Label, Explained>, found: Resolution, i: nat)
    requires FoundAt(t, registered, types, candidates, found, i) && candidates[i].labelled.Some?
    requires forall l <- traces :: Traced(t, registered, l, candidates, traces[l].chosen)
    ensures AllTraced(types, traces, i) && FoundIsTraced(types, traces, found, i)
  {
    hide Serving;
    forall j | 0 <= j < |types| && types[j].toolchainType in traces
      ensures Traced(t, registered, types[j].toolchainType, candidates, traces[types[j].toolchainType].chosen)
    {
    }
  }

  // ---------- Whether the closing lines tell ----------

  predicate Served(t: Targets, registered: seq<Label>, toolchainType: Label, p: Platform) {
    Serving(t, registered, toolchainType, p.constraints).Some?
  }

  function ServedCount(t: Targets, registered: seq<Label>, toolchainType: Label, candidates: seq<Platform>): nat {
    if candidates == [] then 0
    else
      (if Served(t, registered, toolchainType, candidates[0]) then 1 else 0)
      + ServedCount(t, registered, toolchainType, candidates[1..])
  }

  /**
   The closing lines say what resolution does: that there is no toolchain exactly when no candidate has
   one, and else one selection for each candidate that has.
  */
  predicate Tells(t: Targets, registered: seq<Label>, toolchainType: Label, candidates: seq<Platform>, ending: seq<Said>) {
    if ServedCount(t, registered, toolchainType, candidates) == 0 then ending == [NoToolchain]
    else ending != [NoToolchain] && |ending| == 1 + ServedCount(t, registered, toolchainType, candidates)
  }

  lemma {:induction false} RecapCount(
    t: Targets, registered: seq<Label>, toolchainType: Label, candidates: seq<Platform>, chosen: seq<Option<Label>>)
    requires Traced(t, registered, toolchainType, candidates, chosen)
    ensures var served := ServedCount(t, registered, toolchainType, candidates);
            && |RecapLines(candidates, chosen)| <= served
            && (|RecapLines(candidates, chosen)| == served
                <==> forall i | 0 <= i < |candidates| && Served(t, registered, toolchainType, candidates[i]) ::
                       candidates[i].labelled.Some?)
            && (NoneAssigned(chosen) <==> RecapLines(candidates, chosen) == [])
    decreases |candidates|
  {
    hide Serving;
    if candidates != [] {
      forall i | 0 < i < |candidates|
        ensures candidates[i] == candidates[1..][i - 1] && chosen[i] == chosen[1..][i - 1]
      {
      }
      RecapCount(t, registered, toolchainType, candidates[1..], chosen[1..]);
    }
  }

  /** The trace of a type tells what resolution does exactly when every candidate that serves it has a label. */
  lemma TraceTells(
    t: Targets, registered: seq<Label>, toolchainType: Label, candidates: seq<Platform>, chosen: seq<Option<Label>>)
    requires Traced(t, registered, toolchainType, candidates, chosen)
    ensures Tells(t, registered, toolchainType, candidates, Ending(candidates, chosen))
       <==> forall i | 0 <= i < |candidates| && Served(t, registered, toolchainType, candidates[i]) ::
              candidates[i].labelled.Some?
  {
    hide Serving, Assigned;
    RecapCount(t, registered, toolchainType, candidates, chosen);
    var recap := RecapLines(candidates, chosen);
    assert |[Recap] + recap| == 1 + |recap| && ([Recap] + recap)[0] == Recap;
  }

  /** With no execution platform, what is served on the target platform is traced as not found. */
  lemma StandInIsNotTraced(t: Targets, registered: seq<Label>, toolchainType: Label)
    requires Serving(t, registered, toolchainType, t.targetConstraints).Some?
    ensures var candidates := Candidates(t, OrTarget(t, []), []);
            && |candidates| == 1 && ServesAll(t, registered, [Wanted(toolchainType, true)], candidates[0])
            && Ending(candidates, [Assigned(t, registered, toolchainType, candidates[0])]) == [NoToolchain]
  {
    hide Serving;
    var stand := Platform(None, t.targetConstraints);
    assert [stand][1..] == [] && Holds(t, stand.constraints, []);
    assert Candidates(t, [stand], []) == [stand] + Candidates(t, [stand][1..], []) == [stand];
  }

  /** One toolchain that asks for nothing, and no execution platform. */
  lemma ServedButTracedAsNotFound()
    ensures var wanted, impl := Label("", "p", "type"), Label("", "p", "impl");
            var t := Targets((l: Label) => Some(Decl(wanted, impl, [], [], [])), (l: Label) => None, (l: Label) => true,
                             (l: Label) => None, (l: Label) => None, {});
            var registered := [Label("", "p", "toolchain")];
            var candidates := Candidates(t, OrTarget(t, []), []);
            && |candidates| == 1 && ServesAll(t, registered, [Wanted(wanted, true)], candidates[0])
            && Ending(candidates, [Assigned(t, registered, wanted, candidates[0])]) == [NoToolchain]
  {
    var wanted, impl := Label("", "p", "type"), Label("", "p", "impl");
    var t := Targets((l: Label) => Some(Decl(wanted, impl, [], [], [])), (l: Label) => None, (l: Label) => true,
                     (l: Label) => None, (l: Label) => None, {});
    var registered := [Label("", "p", "toolchain")];
    assert FollowAliases(t, wanted, ALIAS_LIMIT) == wanted;
    assert OfType(t, registered[0], wanted) && Suits(t, t.decl(registered[0]).value, {});
    StandInIsNotTraced(t, registered, wanted);
  }

  // ---------- Case by case ----------

  /** A platform has the constraint, or it is a default and the platform names nothing else of its setting. */
  ghost predicate Has(t: Targets, have: set<Label>, value: Label) {
    || value in have
    || exists setting :: t.constraintSetting(value) == Some(setting) && t.defaultValue(setting) == Some(value)
                         && forall other <- have :: t.constraintSetting(other) != Some(setting)
  }

  lemma HoldsByCases(t: Targets, have: set<Label>, needed: seq<Label>)
    ensures Holds(t, have, needed) <==> forall i | 0 <= i < |needed| :: Has(t, have, needed[i])
  {
    forall i | 0 <= i < |needed|
      ensures needed[i] in WithDefaultsFor(t, have, needed) <==> Has(t, have, needed[i])
    {
      var value := needed[i];
      assert value in needed;
      if IsUnnamedDefault(t, have, value) {
        var setting := t.constraintSetting(value).value;
        assert t.constraintSetting(value) == Some(setting) && t.defaultValue(setting) == Some(value);
      }
    }
  }

  /** The candidates of two lists are those of the first, then those of the second. */
  lemma {:induction false} CandidatesAppend(t: Targets, a: seq<Platform>, b: seq<Platform>, exec: seq<Label>)
    ensures Candidates(t, a + b, exec) == Candidates(t, a, exec) + Candidates(t, b, exec)
  {
    hide Holds;
    if a == [] {
      assert a + b == b;
    } else {
      assert (a + b)[1..] == a[1..] + b;
      CandidatesAppend(t, a[1..], b, exec);
      Assoc(if Holds(t, a[0].constraints, exec) then [a[0]] else [], Candidates(t, a[1..], exec), Candidates(t, b, exec));
    }
  }

  /** Of the platforms, in order, those that have every execution constraint the target asks for are left. */
  lemma {:induction false} CandidatesAre(t: Targets, platforms: seq<Platform>, exec: seq<Label>)
    ensures forall p :: p in Candidates(t, platforms, exec)
                        <==> p in platforms && forall i | 0 <= i < |exec| :: Has(t, p.constraints, exec[i])
    ensures forall k | 0 <= k < |platforms| ::
              Candidates(t, platforms, exec)
              == Candidates(t, platforms[..k], exec)
                 + (if forall i | 0 <= i < |exec| :: Has(t, platforms[k].constraints, exec[i]) then [platforms[k]] else [])
                 + Candidates(t, platforms[k + 1..], exec)
  {
    forall p: Platform
      ensures Holds(t, p.constraints, exec) <==> forall i | 0 <= i < |exec| :: Has(t, p.constraints, exec[i])
    {
      HoldsByCases(t, p.constraints, exec);
    }
    hide Has, Holds;
    CandidatesHold(t, platforms, exec);
    forall k | 0 <= k < |platforms|
      ensures Candidates(t, platforms, exec)
              == Candidates(t, platforms[..k], exec)
                 + (if Holds(t, platforms[k].constraints, exec) then [platforms[k]] else [])
                 + Candidates(t, platforms[k + 1..], exec)
    {
      assert platforms == platforms[..k] + platforms[k..];
      CandidatesAppend(t, platforms[..k], platforms[k..], exec);
      assert platforms[k..][0] == platforms[k] && platforms[k..][1..] == platforms[k + 1..];
    }
  }

  lemma {:induction false} CandidatesHold(t: Targets, platforms: seq<Platform>, exec: seq<Label>)
    ensures forall p :: p in Candidates(t, platforms, exec) <==> p in platforms && Holds(t, p.constraints, exec)
  {
    hide Holds;
    if platforms != [] {
      CandidatesHold(t, platforms[1..], exec);
      assert platforms == [platforms[0]] + platforms[1..];
    }
  }

  /** Up to `n` aliases lead from one label to the other, which is no alias unless there were `n` of them. */
  ghost predicate LeadsTo(t: Targets, from: Label, n: nat, to: Label) {
    exists steps :: LeadsBy(t, from, n, to, steps)
  }

  ghost predicate LeadsBy(t: Targets, from: Label, n: nat, to: Label, steps: seq<Label>) {
    && 0 < |steps| <= n + 1 && steps[0] == from && steps[|steps| - 1] == to
    && (forall i, j | 0 <= i < j < |steps| && j == i + 1 :: t.actual(steps[i]) == Some(steps[j]))
    && (t.actual(to).None? || |steps| == n + 1)
  }

  lemma {:induction false} AliasesLead(t: Targets, from: Label, n: nat)
    ensures LeadsTo(t, from, n, FollowAliases(t, from, n))
    decreases n
  {
    var to := FollowAliases(t, from, n);
    if n == 0 || t.actual(from).None? {
      assert LeadsBy(t, from, n, to, [from]);
    } else {
      var next := t.actual(from).value;
      AliasesLead(t, next, n - 1);
      var steps :| LeadsBy(t, next, n - 1, to, steps);
      assert LeadsBy(t, from, n, to, [from] + steps);
    }
  }

  /** The toolchain is of the type, outright or by an alias, and everything it asks for holds. */
  ghost predicate Fits(t: Targets, d: Decl, wanted: Label, exec: set<Label>) {
    && (d.toolchainType == wanted || LeadsTo(t, d.toolchainType, 16, wanted))
    && (forall i | 0 <= i < |d.execCompatible| :: Has(t, exec, d.execCompatible[i]))
    && (forall i | 0 <= i < |d.targetCompatible| :: Has(t, t.targetConstraints, d.targetCompatible[i]))
    && forall i | 0 <= i < |d.targetSettings| :: t.settingMatches(d.targetSettings[i])
  }

  lemma LeadsOnce(t: Targets, from: Label, n: nat, a: Label, b: Label)
    requires LeadsTo(t, from, n, a) && LeadsTo(t, from, n, b)
    ensures a == b
  {
    var first: seq<Label> :| LeadsBy(t, from, n, a, first);
    var second: seq<Label> :| LeadsBy(t, from, n, b, second);
    hide LeadsBy;
    Ends(t, from, n, a, first);
    Ends(t, from, n, b, second);
    SameSteps(t, from, n, a, b, first, second, if |first| < |second| then |first| - 1 else |second| - 1);
    if |first| < |second| {
      Links(t, from, n, b, second, |first| - 1);
      assert false;
    } else if |second| < |first| {
      Links(t, from, n, a, first, |second| - 1);
      assert false;
    }
  }

  lemma Ends(t: Targets, from: Label, n: nat, to: Label, steps: seq<Label>)
    requires LeadsBy(t, from, n, to, steps)
    ensures 0 < |steps| <= n + 1 && steps[|steps| - 1] == to && (t.actual(to).None? || |steps| == n + 1)
  {
  }

  lemma Links(t: Targets, from: Label, n: nat, to: Label, steps: seq<Label>, i: nat)
    requires LeadsBy(t, from, n, to, steps) && i + 1 < |steps|
    ensures t.actual(steps[i]).Some?
  {
    assert t.actual(steps[i]) == Some(steps[i + 1]);
  }

  lemma {:induction false} SameSteps(
    t: Targets, from: Label, n: nat, a: Label, b: Label, first: seq<Label>, second: seq<Label>, i: nat)
    requires LeadsBy(t, from, n, a, first) && LeadsBy(t, from, n, b, second) && i < |first| && i < |second|
    ensures first[i] == second[i]
  {
    if i > 0 {
      SameSteps(t, from, n, a, b, first, second, i - 1);
      assert t.actual(first[i - 1]) == Some(first[i]) && t.actual(second[i - 1]) == Some(second[i]);
    }
  }

  lemma SuitsByCases(t: Targets, d: Decl, wanted: Label, exec: set<Label>)
    ensures IsOfType(t, d, wanted) && Suits(t, d, exec) <==> Fits(t, d, wanted, exec)
  {
    HoldsByCases(t, exec, d.execCompatible);
    HoldsByCases(t, t.targetConstraints, d.targetCompatible);
    AliasesLead(t, d.toolchainType, ALIAS_LIMIT);
    hide Has, Holds, FollowAliases, LeadsTo;
    if LeadsTo(t, d.toolchainType, 16, wanted) {
      LeadsOnce(t, d.toolchainType, 16, wanted, FollowAliases(t, d.toolchainType, ALIAS_LIMIT));
    }
  }

  /** Resolution gives the first registered toolchain that fits, and none only if none fits. */
  lemma {:induction false} FirstServingFits(t: Targets, registered: seq<Label>, wanted: Label, exec: set<Label>)
    ensures IsFirstFitting(t, registered, wanted, exec, FirstServing(t, registered, wanted, exec))
    decreases |registered|
  {
    hide Suits, IsOfType, Fits;
    if registered != [] {
      if t.decl(registered[0]).Some? { SuitsByCases(t, t.decl(registered[0]).value, wanted, exec); }
      FirstServingFits(t, registered[1..], wanted, exec);
      forall i: nat | 0 < i < |registered|
        ensures FitsAt(t, registered, wanted, exec, i) <==> FitsAt(t, registered[1..], wanted, exec, i - 1)
      {
      }
      var first := FirstServing(t, registered, wanted, exec);
      if FitsAt(t, registered, wanted, exec, 0) {
        assert FitsFirst(t, registered, wanted, exec, 0);
      } else if first.Some? {
        var i: nat :| FitsFirst(t, registered[1..], wanted, exec, i) && t.decl(registered[1..][i]) == first;
        var next: nat := i + 1;
        assert FitsFirst(t, registered, wanted, exec, next) && t.decl(registered[next]) == first;
      }
    }
  }

  /** The declaration of the first toolchain that fits, or none if none does. */
  ghost predicate IsFirstFitting(t: Targets, registered: seq<Label>, wanted: Label, exec: set<Label>, r: Option<Decl>) {
    && (r.Some? ==> exists i: nat :: FitsFirst(t, registered, wanted, exec, i) && t.decl(registered[i]) == r)
    && (r.None? ==> forall i | 0 <= i < |registered| :: !FitsAt(t, registered, wanted, exec, i))
  }

  ghost predicate FitsAt(t: Targets, registered: seq<Label>, wanted: Label, exec: set<Label>, i: int) {
    0 <= i < |registered| && t.decl(registered[i]).Some? && Fits(t, t.decl(registered[i]).value, wanted, exec)
  }

  ghost predicate FitsFirst(t: Targets, registered: seq<Label>, wanted: Label, exec: set<Label>, i: nat) {
    FitsAt(t, registered, wanted, exec, i) && forall j | 0 <= j < i :: !FitsAt(t, registered, wanted, exec, j)
  }

  /** Resolution of a type, which may itself be an alias, by registered toolchains in order. */
  lemma ServingByCases(t: Targets, registered: seq<Label>, toolchainType: Label, exec: set<Label>)
    ensures exists wanted :: LeadsTo(t, toolchainType, 16, wanted)
              && IsFirstFitting(t, registered, wanted, exec, Serving(t, registered, toolchainType, exec))
  {
    var wanted := FollowAliases(t, toolchainType, ALIAS_LIMIT);
    AliasesLead(t, toolchainType, ALIAS_LIMIT);
    FirstServingFits(t, registered, wanted, exec);
    hide FollowAliases, LeadsTo, IsFirstFitting, FirstServing;
  }

  // ---------- The errors and the closing lines ----------

  lemma {:induction false} UnservedAppend(
    t: Targets, registered: seq<Label>, a: seq<Wanted>, b: seq<Wanted>, candidates: seq<Platform>)
    ensures Unserved(t, registered, a + b, candidates)
         == Unserved(t, registered, a, candidates) + Unserved(t, registered, b, candidates)
  {
    hide ServedBySome;
    if a == [] {
      assert a + b == b;
    } else {
      assert (a + b)[1..] == a[1..] + b;
      UnservedAppend(t, registered, a[1..], b, candidates);
      Assoc(if a[0].mandatory && !ServedBySome(t, registered, a[0].toolchainType, candidates)
            then [a[0].toolchainType] else [],
            Unserved(t, registered, a[1..], candidates), Unserved(t, registered, b, candidates));
    }
  }

  lemma {:induction false} UnservedHold(
    t: Targets, registered: seq<Label>, types: seq<Wanted>, candidates: seq<Platform>)
    ensures forall l :: l in Unserved(t, registered, types, candidates)
                        <==> Wanted(l, true) in types && !ServedBySome(t, registered, l, candidates)
  {
    hide ServedBySome;
    if types != [] {
      UnservedHold(t, registered, types[1..], candidates);
      assert types == [types[0]] + types[1..];
    }
  }

  /** The types named in the error are the mandatory ones that no candidate serves, in the order asked for. */
  lemma UnservedAre(t: Targets, registered: seq<Label>, types: seq<Wanted>, candidates: seq<Platform>)
    ensures forall l :: l in Unserved(t, registered, types, candidates)
                        <==> Wanted(l, true) in types && !ServedBySome(t, registered, l, candidates)
    ensures forall k | 0 <= k < |types| ::
              Unserved(t, registered, types, candidates)
              == Unserved(t, registered, types[..k], candidates)
                 + (if types[k].mandatory && !ServedBySome(t, registered, types[k].toolchainType, candidates)
                    then [types[k].toolchainType] else [])
                 + Unserved(t, registered, types[k + 1..], candidates)
  {
    hide ServedBySome;
    UnservedHold(t, registered, types, candidates);
    forall k | 0 <= k < |types|
      ensures Unserved(t, registered, types, candidates)
              == Unserved(t, registered, types[..k], candidates)
                 + (if types[k].mandatory && !ServedBySome(t, registered, types[k].toolchainType, candidates)
                    then [types[k].toolchainType] else [])
                 + Unserved(t, registered, types[k + 1..], candidates)
    {
      assert types == types[..k] + types[k..];
      UnservedAppend(t, registered, types[..k], types[k..], candidates);
      assert types[k..][0] == types[k] && types[k..][1..] == types[k + 1..];
    }
  }

  /** The closing lines select, for each labelled candidate, the toolchain assigned to it. */
  lemma {:induction false} RecapSelects(candidates: seq<Platform>, chosen: seq<Option<Label>>)
    requires |chosen| == |candidates|
    ensures forall said :: said in RecapLines(candidates, chosen)
                           <==> exists i | 0 <= i < |candidates| :: Selects(candidates[i], chosen[i], said)
    decreases |candidates|
  {
    if candidates != [] {
      RecapSelects(candidates[1..], chosen[1..]);
      var rest := RecapLines(candidates[1..], chosen[1..]);
      var lines := RecapLines(candidates, chosen);
      assert forall said :: said in lines <==> Selects(candidates[0], chosen[0], said) || said in rest;
      hide RecapLines, Selects;
      assert forall i | 0 < i < |candidates| :: candidates[i] == candidates[1..][i - 1] && chosen[i] == chosen[1..][i - 1];
      assert forall i | 0 <= i < |candidates| - 1 :: candidates[1..][i] == candidates[i + 1] && chosen[1..][i] == chosen[i + 1];
    }
  }

  /** They do so candidate after candidate. */
  lemma {:induction false} RecapAppend(
    candidates: seq<Platform>, chosen: seq<Option<Label>>, more: seq<Platform>, chosenMore: seq<Option<Label>>)
    requires |chosen| == |candidates| && |chosenMore| == |more|
    ensures RecapLines(candidates + more, chosen + chosenMore)
         == RecapLines(candidates, chosen) + RecapLines(more, chosenMore)
    decreases |candidates|
  {
    if candidates == [] {
      assert candidates + more == more && chosen + chosenMore == chosenMore;
      assert [] + RecapLines(more, chosenMore) == RecapLines(more, chosenMore);
    } else {
      var first := if candidates[0].labelled.Some? && chosen[0].Some?
                   then [Said.Selected(chosen[0].value, candidates[0].labelled.value)] else [];
      var rest := RecapLines(candidates[1..], chosen[1..]);
      var all, allChosen := candidates + more, chosen + chosenMore;
      assert all[0] == candidates[0] && all[1..] == candidates[1..] + more;
      assert allChosen[0] == chosen[0] && allChosen[1..] == chosen[1..] + chosenMore;
      assert RecapLines(candidates, chosen) == first + rest;
      assert RecapLines(all, allChosen) == first + RecapLines(all[1..], allChosen[1..]);
      hide RecapLines;
      RecapAppend(candidates[1..], chosen[1..], more, chosenMore);
      Assoc(first, rest, RecapLines(more, chosenMore));
    }
  }

  predicate Selects(p: Platform, chosen: Option<Label>, said: Said) {
    && p.labelled.Some? && chosen.Some? && said.Selected?
    && said.toolchain == chosen.value && said.platform == p.labelled.value
  }

  /** The platforms tried, as the error names them: the labels there are. */
  lemma {:induction false} NamesAre(candidates: seq<Platform>)
    ensures forall l :: l in Names(candidates) <==> exists i | 0 <= i < |candidates| :: candidates[i].labelled == Some(l)
    decreases |candidates|
  {
    if candidates != [] {
      NamesAre(candidates[1..]);
      var names, rest := Names(candidates), Names(candidates[1..]);
      assert forall l :: l in names <==> candidates[0].labelled == Some(l) || l in rest;
      hide Names;
      assert forall i | 0 < i < |candidates| :: candidates[i] == candidates[1..][i - 1];
      assert forall i | 0 <= i < |candidates| - 1 :: candidates[1..][i] == candidates[i + 1];
    }
  }

  /** They are named candidate after candidate. */
  lemma {:induction false} NamesAppend(candidates: seq<Platform>, more: seq<Platform>)
    ensures Names(candidates + more) == Names(candidates) + Names(more)
    decreases |candidates|
  {
    if candidates == [] {
      assert candidates + more == more && [] + Names(more) == Names(more);
    } else {
      var all := candidates + more;
      assert all[0] == candidates[0] && all[1..] == candidates[1..] + more;
      NamesAppend(candidates[1..], more);
      Assoc(if candidates[0].labelled.Some? then [candidates[0].labelled.value] else [], Names(candidates[1..]), Names(more));
    }
  }

  /**
   A resolution from what was named and asked for: the platform is one of those named, or the target platform
   without a label if none was, it has every constraint the target asks for, and each type's implementation
   is the one that the first registered toolchain to fit there names.
  */
  lemma ResolutionByCases(
    t: Targets, registered: seq<Label>, types: seq<Wanted>, exec: seq<Label>, named: seq<Platform>, found: Resolution)
    requires IsResolution(t, registered, types, Candidates(t, OrTarget(t, named), exec), Ok(found))
    ensures exists p: Platform ::
              && found.platform == p.labelled
              && (if named == [] then p == Platform(None, t.targetConstraints) else p in named)
              && (forall i | 0 <= i < |exec| :: Has(t, p.constraints, exec[i]))
              && |found.toolchains| == |types|
              && forall j | 0 <= j < |types| ::
                   var (l, implementation) := found.toolchains[j];
                   && l == types[j].toolchainType
                   && var d := Serving(t, registered, l, p.constraints);
                      if d.Some? then implementation == Some(d.value.toolchain)
                      else implementation == None && !types[j].mandatory
  {
    var platforms := OrTarget(t, named);
    CandidatesAre(t, platforms, exec);
    hide Candidates, Serving, Has;
    var candidates := Candidates(t, platforms, exec);
    var i: nat :| FoundAt(t, registered, types, candidates, found, i);
    assert candidates[i] in candidates && candidates[i] in platforms;
  }
}
