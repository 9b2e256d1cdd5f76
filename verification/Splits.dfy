/**
 What a transition makes: one configuration for each outcome of each part on each configuration before,
 in order, each under its key.
*/
module Splits {
  import opened Text
  import opened Transitions

  // ---------- Reading and writing ----------

  /** `settings` holds what each input reads, and nothing else. */
  ghost predicate Reads(w: Workspace, c: Config, inputs: seq<string>, repo: string, settings: map<string, Value>) {
    && (forall name :: name in settings <==> name in inputs)
    && forall name <- inputs :: Read(w, c, name, repo) == Ok(settings[name])
  }

  /** The first input that cannot be read, and why. */
  ghost predicate FirstUnread(w: Workspace, c: Config, inputs: seq<string>, repo: string, i: nat, e: SettingError) {
    && i < |inputs| && Read(w, c, inputs[i], repo) == Err(e)
    && forall j | 0 <= j < i :: Read(w, c, inputs[j], repo).Ok?
  }

  lemma {:induction false} InputsAreRead(w: Workspace, c: Config, inputs: seq<string>, repo: string)
    ensures var r := ReadInputs(w, c, inputs, repo);
            && (r.Ok? ==> Reads(w, c, inputs, repo, r.value))
            && (r.Err? ==> exists i: nat :: FirstUnread(w, c, inputs, repo, i, r.error))
    decreases |inputs|
  {
    hide Read;
    if inputs != [] {
      var fewer, last := inputs[..|inputs| - 1], |inputs| - 1;
      InputsAreRead(w, c, fewer, repo);
      assert inputs == fewer + [inputs[last]];
      match ReadInputs(w, c, fewer, repo)
      case Err(e) =>
        var i: nat :| FirstUnread(w, c, fewer, repo, i, e);
        assert FirstUnread(w, c, inputs, repo, i, e);
      case Ok(settings) =>
        if Read(w, c, inputs[last], repo).Err? {
          forall j | 0 <= j < last ensures Read(w, c, inputs[j], repo).Ok? {
            assert inputs[j] == fewer[j] && fewer[j] in fewer;
          }
          assert FirstUnread(w, c, inputs, repo, last, Read(w, c, inputs[last], repo).error);
        }
    }
  }

  /** One write after another leads from `c` to `r`. */
  ghost predicate Wrote(w: Workspace, c: Config, changes: seq<Change>, repo: string, r: Config) {
    exists steps: seq<Config> :: WroteBy(w, c, changes, repo, r, steps)
  }

  ghost predicate WroteBy(w: Workspace, c: Config, changes: seq<Change>, repo: string, r: Config, steps: seq<Config>) {
    && |steps| == |changes| + 1 && steps[0] == c && steps[|changes|] == r
    && forall i | 0 <= i < |changes| :: StepWrote(w, changes[i], repo, steps, i)
  }

  ghost predicate StepWrote(w: Workspace, change: Change, repo: string, steps: seq<Config>, i: nat) {
    i + 1 < |steps| && Written(w, steps[i], change.name, change.value, repo) == Ok(steps[i + 1])
  }

  lemma {:induction false} ChangesAreWritten(w: Workspace, c: Config, changes: seq<Change>, repo: string)
    requires WriteAll(w, c, changes, repo).Ok?
    ensures Wrote(w, c, changes, repo, WriteAll(w, c, changes, repo).value)
    decreases |changes|
  {
    hide Written;
    var r := WriteAll(w, c, changes, repo).value;
    if changes == [] {
      assert WroteBy(w, c, changes, repo, r, [c]);
    } else {
      var next := Written(w, c, changes[0].name, changes[0].value, repo).value;
      ChangesAreWritten(w, next, changes[1..], repo);
      var rest: seq<Config> :| WroteBy(w, next, changes[1..], repo, r, rest);
      var steps := [c] + rest;
      forall i | 0 <= i < |changes| ensures StepWrote(w, changes[i], repo, steps, i) {
        if i > 0 {
          var j: nat := i - 1;
          assert changes[1..][j] == changes[i] && StepWrote(w, changes[1..][j], repo, rest, j);
        }
      }
      assert WroteBy(w, c, changes, repo, r, steps);
    }
  }

  // ---------- One part ----------

  type Changed = (string, seq<Change>)

  /** What the part says to do to a configuration, from what its inputs read there. */
  ghost predicate Says(w: Workspace, part: Part, c: Config, repo: string, outcomes: seq<Changed>) {
    exists settings :: Reads(w, c, part.inputs, repo, settings) && part.run(settings) == Ok(outcomes)
  }

  /** The key so far alone, the split's alone, or both with a comma between. */
  predicate Joins(key: string, split: string, joined: string) {
    && (split == "" ==> joined == key)
    && (split != "" && key == "" ==> joined == split)
    && (split != "" && key != "" ==> joined == key + [','] + split)
  }

  /** The outcome carried out: its changes written to the configuration, under the joined key. */
  ghost predicate IsOutcome(w: Workspace, from: (string, Config), outcome: Changed, repo: string, made: (string, Config)) {
    Joins(from.0, outcome.0, made.0) && Wrote(w, from.1, outcome.1, repo, made.1)
  }

  function Total(said: seq<seq<Changed>>): nat {
    if said == [] then 0 else |said[0]| + Total(said[1..])
  }

  /** Outcome `j` on configuration `i` is made, after all those of the configurations before. */
  ghost predicate MadeAt(
    w: Workspace, from: Made, said: seq<seq<Changed>>, repo: string, made: Made, i: nat, j: nat)
  {
    && i < |from| && i < |said| && j < |said[i]| && Total(said[..i]) + j < |made|
    && IsOutcome(w, from[i], said[i][j], repo, made[Total(said[..i]) + j])
  }

  /** What a part makes: one entry for each outcome on each configuration, in that order, and nothing else. */
  ghost predicate MadeBy(
    w: Workspace, part: Part, from: Made, repo: string, said: seq<seq<Changed>>, made: Made)
  {
    && |said| == |from| && |made| == Total(said)
    && (forall i | 0 <= i < |from| :: Says(w, part, from[i].1, repo, said[i]))
    && forall i: nat, j: nat | i < |from| && j < |said[i]| :: MadeAt(w, from, said, repo, made, i, j)
  }

  lemma {:induction false} OutcomesAreMade(
    w: Workspace, key: string, c: Config, outcomes: seq<Changed>, repo: string)
    requires Outcomes(w, key, c, outcomes, repo).Ok?
    ensures var made := Outcomes(w, key, c, outcomes, repo).value;
            && |made| == |outcomes|
            && forall j | 0 <= j < |outcomes| :: IsOutcome(w, (key, c), outcomes[j], repo, made[j])
    decreases |outcomes|
  {
    hide WriteAll, Wrote;
    if outcomes != [] {
      ChangesAreWritten(w, c, outcomes[0].1, repo);
      OutcomesAreMade(w, key, c, outcomes[1..], repo);
      assert forall j | 0 < j < |outcomes| :: outcomes[j] == outcomes[1..][j - 1];
    }
  }

  lemma MadeMore(
    w: Workspace, part: Part, from: Made, repo: string, outcomes: seq<Changed>, first: Made,
    said: seq<seq<Changed>>, rest: Made)
    requires from != [] && Says(w, part, from[0].1, repo, outcomes) && |first| == |outcomes|
    requires forall j | 0 <= j < |outcomes| :: IsOutcome(w, from[0], outcomes[j], repo, first[j])
    requires MadeBy(w, part, from[1..], repo, said, rest)
    ensures MadeBy(w, part, from, repo, [outcomes] + said, first + rest)
  {
    hide Says, IsOutcome;
    var all, made := [outcomes] + said, first + rest;
    assert all[1..] == said;
    forall i | 0 <= i < |from| ensures Says(w, part, from[i].1, repo, all[i]) {
      if i > 0 { assert from[i] == from[1..][i - 1] && all[i] == said[i - 1]; }
    }
    forall i: nat, j: nat | i < |from| && j < |all[i]| ensures MadeAt(w, from, all, repo, made, i, j) {
      if i > 0 {
        var h: nat := i - 1;
        assert from[1..][h] == from[i] && MadeAt(w, from[1..], said, repo, rest, h, j);
        assert all[..i] == [outcomes] + said[..h] && ([outcomes] + said[..h])[1..] == said[..h];
        assert Total(all[..i]) == |first| + Total(said[..h]);
      } else {
        assert all[..0] == [];
      }
    }
  }

  /** Running a part makes just what it says on each configuration, in order. */
  lemma {:induction false} PartMakes(w: Workspace, part: Part, from: Made, repo: string) returns (said: seq<seq<Changed>>)
    requires RunPart(w, part, from, repo).Ok?
    ensures MadeBy(w, part, from, repo, said, RunPart(w, part, from, repo).value)
    decreases |from|
  {
    hide ReadInputs, Outcomes, Reads, IsOutcome, MadeBy;
    if from == [] {
      said := [];
      NothingMade(w, part, repo);
    } else {
      var settings := ReadInputs(w, from[0].1, part.inputs, repo).value;
      var outcomes := part.run(settings).value;
      InputsAreRead(w, from[0].1, part.inputs, repo);
      OutcomesAreMade(w, from[0].0, from[0].1, outcomes, repo);
      var rest := PartMakes(w, part, from[1..], repo);
      assert from[0] == (from[0].0, from[0].1);
      MadeMore(w, part, from, repo, outcomes, Outcomes(w, from[0].0, from[0].1, outcomes, repo).value, rest,
               RunPart(w, part, from[1..], repo).value);
      said := [outcomes] + rest;
    }
  }

  lemma NothingMade(w: Workspace, part: Part, repo: string)
    ensures MadeBy(w, part, [], repo, [], [])
  {
  }

  /** The part goes through on a configuration. */
  ghost predicate Runs(w: Workspace, part: Part, c: Config, repo: string) {
    exists outcomes: seq<Changed> :: Says(w, part, c, repo, outcomes)
                                     && forall j | 0 <= j < |outcomes| :: WriteAll(w, c, outcomes[j].1, repo).Ok?
  }

  /** Outcome `j` is the first whose changes are refused, and why. */
  ghost predicate FirstRefused(w: Workspace, c: Config, outcomes: seq<Changed>, repo: string, j: nat, e: SettingError) {
    && j < |outcomes| && WriteAll(w, c, outcomes[j].1, repo) == Err(e)
    && forall i | 0 <= i < j :: WriteAll(w, c, outcomes[i].1, repo).Ok?
  }

  /** An input cannot be read, or the part itself fails, or one of its changes is refused. */
  ghost predicate Fails(w: Workspace, part: Part, c: Config, repo: string, e: SettingError) {
    || (exists i: nat :: FirstUnread(w, c, part.inputs, repo, i, e))
    || (exists settings :: Reads(w, c, part.inputs, repo, settings) && part.run(settings) == Err(e))
    || exists outcomes: seq<Changed>, j: nat :: Says(w, part, c, repo, outcomes) && FirstRefused(w, c, outcomes, repo, j, e)
  }

  lemma {:induction false} OutcomesFail(w: Workspace, key: string, c: Config, outcomes: seq<Changed>, repo: string)
    ensures var r := Outcomes(w, key, c, outcomes, repo);
            && (r.Ok? ==> forall j | 0 <= j < |outcomes| :: WriteAll(w, c, outcomes[j].1, repo).Ok?)
            && (r.Err? ==> exists j: nat :: FirstRefused(w, c, outcomes, repo, j, r.error))
    decreases |outcomes|
  {
    hide WriteAll;
    if outcomes != [] {
      OutcomesFail(w, key, c, outcomes[1..], repo);
      assert forall j | 0 < j < |outcomes| :: outcomes[j] == outcomes[1..][j - 1];
      if WriteAll(w, c, outcomes[0].1, repo).Err? {
        var first: nat, e := 0, WriteAll(w, c, outcomes[0].1, repo).error;
        assert Outcomes(w, key, c, outcomes, repo) == Err(e);
        assert FirstRefused(w, c, outcomes, repo, first, e);
      } else if Outcomes(w, key, c, outcomes[1..], repo).Err? {
        var e := Outcomes(w, key, c, outcomes[1..], repo).error;
        var j: nat :| FirstRefused(w, c, outcomes[1..], repo, j, e);
        var k: nat := j + 1;
        assert outcomes[k] == outcomes[1..][j] && Outcomes(w, key, c, outcomes, repo) == Err(e);
        assert FirstRefused(w, c, outcomes, repo, k, e);
      }
    }
  }

  lemma OneRuns(w: Workspace, part: Part, from: Made, repo: string)
    requires from != []
    ensures var (key, c) := from[0];
            || (Runs(w, part, c, repo) && RunPart(w, part, from, repo).Ok? == RunPart(w, part, from[1..], repo).Ok?
                && (RunPart(w, part, from, repo).Err? ==> RunPart(w, part, from, repo) == RunPart(w, part, from[1..], repo)))
            || (RunPart(w, part, from, repo).Err? && Fails(w, part, c, repo, RunPart(w, part, from, repo).error))
  {
    hide WriteAll, ReadInputs, Outcomes, Reads, FirstUnread, FirstRefused;
    var (key, c) := from[0];
    InputsAreRead(w, c, part.inputs, repo);
    var settings := ReadInputs(w, c, part.inputs, repo);
    if settings.Ok? && part.run(settings.value).Ok? {
      var outcomes := part.run(settings.value).value;
      OutcomesFail(w, key, c, outcomes, repo);
      assert Says(w, part, c, repo, outcomes);
    }
  }

  /** A part goes through when it does on every configuration; otherwise the error is that of the first it fails on. */
  lemma {:induction false} PartFails(w: Workspace, part: Part, from: Made, repo: string)
    ensures var r := RunPart(w, part, from, repo);
            && (r.Ok? ==> forall i | 0 <= i < |from| :: Runs(w, part, from[i].1, repo))
            && (r.Err? ==> exists i | 0 <= i < |from| ::
                  Fails(w, part, from[i].1, repo, r.error) && forall h | 0 <= h < i :: Runs(w, part, from[h].1, repo))
    decreases |from|
  {
    hide Runs, Fails;
    if from != [] {
      OneRuns(w, part, from, repo);
      PartFails(w, part, from[1..], repo);
      hide RunPart;
      assert forall i | 0 < i < |from| :: from[i] == from[1..][i - 1];
      var r := RunPart(w, part, from, repo);
      if r.Err? && !Fails(w, part, from[0].1, repo, r.error) {
        var i :| 0 <= i < |from[1..]| && Fails(w, part, from[1..][i].1, repo, r.error)
                 && forall h | 0 <= h < i :: Runs(w, part, from[1..][h].1, repo);
        assert Fails(w, part, from[i + 1].1, repo, r.error);
      }
    }
  }

  // ---------- Parts composed ----------

  /** Part after part on one configuration, each outcome followed to its end before the next. */
  ghost function Branches(w: Workspace, parts: seq<Part>, from: (string, Config), repo: string): Made
    decreases |parts|, 1, 0
  {
    if parts == [] then [from]
    else
      match ReadInputs(w, from.1, parts[0].inputs, repo)
      case Err(_) => []
      case Ok(settings) =>
        match parts[0].run(settings)
        case Err(_) => []
        case Ok(outcomes) => BranchesOf(w, parts, from, outcomes, repo)
  }

  ghost function BranchesOf(
    w: Workspace, parts: seq<Part>, from: (string, Config), outcomes: seq<Changed>, repo: string): Made
    requires parts != []
    decreases |parts|, 0, |outcomes|
  {
    if outcomes == [] || WriteAll(w, from.1, outcomes[0].1, repo).Err? then []
    else
      var (key, split) := (from.0, outcomes[0].0);
      var joined := if key == "" then split else if split == "" then key else key + [','] + split;
      Branches(w, parts[1..], (joined, WriteAll(w, from.1, outcomes[0].1, repo).value), repo)
      + BranchesOf(w, parts, from, outcomes[1..], repo)
  }

  ghost function AllBranches(w: Workspace, parts: seq<Part>, from: Made, repo: string): Made {
    if from == [] then [] else Branches(w, parts, from[0], repo) + AllBranches(w, parts, from[1..], repo)
  }

  lemma {:induction false} BranchesAppend(w: Workspace, parts: seq<Part>, a: Made, b: Made, repo: string)
    ensures AllBranches(w, parts, a + b, repo) == AllBranches(w, parts, a, repo) + AllBranches(w, parts, b, repo)
  {
    hide Branches;
    if a == [] {
      assert a + b == b;
    } else {
      assert (a + b)[1..] == a[1..] + b;
      BranchesAppend(w, parts, a[1..], b, repo);
      Assoc(Branches(w, parts, a[0], repo), AllBranches(w, parts, a[1..], repo), AllBranches(w, parts, b, repo));
    }
  }

  lemma {:induction false} OutcomesBranch(
    w: Workspace, parts: seq<Part>, from: (string, Config), outcomes: seq<Changed>, repo: string)
    requires parts != [] && Outcomes(w, from.0, from.1, outcomes, repo).Ok?
    ensures BranchesOf(w, parts, from, outcomes, repo)
         == AllBranches(w, parts[1..], Outcomes(w, from.0, from.1, outcomes, repo).value, repo)
    decreases |outcomes|
  {
    hide WriteAll, Branches;
    if outcomes != [] {
      var (key, split) := (from.0, outcomes[0].0);
      assert JoinKey(key, split) == if key == "" then split else if split == "" then key else key + [','] + split;
      OutcomesBranch(w, parts, from, outcomes[1..], repo);
      var made := Outcomes(w, from.0, from.1, outcomes, repo).value;
      assert made[1..] == Outcomes(w, from.0, from.1, outcomes[1..], repo).value;
    }
  }

  lemma {:induction false} PartBranches(w: Workspace, parts: seq<Part>, from: Made, repo: string)
    requires parts != [] && RunPart(w, parts[0], from, repo).Ok?
    ensures AllBranches(w, parts, from, repo) == AllBranches(w, parts[1..], RunPart(w, parts[0], from, repo).value, repo)
    decreases |from|
  {
    hide ReadInputs, Outcomes;
    if from != [] {
      var outcomes := parts[0].run(ReadInputs(w, from[0].1, parts[0].inputs, repo).value).value;
      OutcomesBranch(w, parts, from[0], outcomes, repo);
      PartBranches(w, parts, from[1..], repo);
      BranchesAppend(w, parts[1..], Outcomes(w, from[0].0, from[0].1, outcomes, repo).value,
                     RunPart(w, parts[0], from[1..], repo).value, repo);
    }
  }

  lemma {:induction false} NoParts(w: Workspace, from: Made, repo: string)
    ensures AllBranches(w, [], from, repo) == from
  {
    if from != [] {
      NoParts(w, from[1..], repo);
      assert [from[0]] + from[1..] == from;
    }
  }

  /**
   A composed transition, which takes all configurations through one part before the next part, makes what
   taking each configuration through all the parts makes.
  */
  lemma {:induction false} PartsAreBranches(w: Workspace, parts: seq<Part>, from: Made, repo: string)
    requires RunParts(w, parts, from, repo).Ok?
    ensures RunParts(w, parts, from, repo).value == AllBranches(w, parts, from, repo)
    decreases |parts|
  {
    hide RunPart, AllBranches;
    if parts == [] {
      NoParts(w, from, repo);
    } else {
      PartBranches(w, parts, from, repo);
      PartsAreBranches(w, parts[1..], RunPart(w, parts[0], from, repo).value, repo);
    }
  }

  /** A composed transition fails as the first of its parts that fails on what those before it made. */
  lemma {:induction false} PartsFail(w: Workspace, parts: seq<Part>, from: Made, repo: string) returns (k: nat, made: Made)
    requires RunParts(w, parts, from, repo).Err?
    ensures k < |parts| && RunParts(w, parts[..k], from, repo) == Ok(made)
    ensures RunPart(w, parts[k], made, repo) == Err(RunParts(w, parts, from, repo).error)
    decreases |parts|
  {
    hide RunPart;
    k, made := 0, from;
    var first := RunPart(w, parts[0], from, repo);
    if first.Ok? {
      k, made := PartsFail(w, parts[1..], first.value, repo);
      k := k + 1;
      assert parts[..k][0] == parts[0] && parts[..k][1..] == parts[1..][..k - 1];
    }
  }

  // ---------- A split after a split ----------

  /** A part that reads nothing, changes nothing, and splits in two. */
  function SplitInto(first: string, second: string): Part {
    Part([], (settings: map<string, Value>) => Ok([(first, []), (second, [])]))
  }

  lemma SplitOne(w: Workspace, first: string, second: string, key: string, c: Config, rest: Made, repo: string)
    ensures RunPart(w, SplitInto(first, second), [(key, c)] + rest, repo)
         == match RunPart(w, SplitInto(first, second), rest, repo)
            case Err(e) => Err(e)
            case Ok(made) => Ok([(JoinKey(key, first), c), (JoinKey(key, second), c)] + made)
  {
    var part := SplitInto(first, second);
    var from := [(key, c)] + rest;
    var outcomes: seq<Changed> := [(first, []), (second, [])];
    assert from[0] == (key, c) && from[1..] == rest;
    assert part.run(map[]) == Ok(outcomes);
    assert outcomes[1..] == [(second, [])] && outcomes[1..][1..] == [];
    assert WriteAll(w, c, [], repo) == Ok(c) && Outcomes(w, key, c, [], repo) == Ok([]);
    assert [(JoinKey(key, second), c)] + [] == [(JoinKey(key, second), c)];
    assert Outcomes(w, key, c, outcomes[1..], repo) == Ok([(JoinKey(key, second), c)]);
    assert [(JoinKey(key, first), c)] + [(JoinKey(key, second), c)] == [(JoinKey(key, first), c), (JoinKey(key, second), c)];
    assert Outcomes(w, key, c, outcomes, repo) == Ok([(JoinKey(key, first), c), (JoinKey(key, second), c)]);
  }

  /** Two splits in two make four configurations. */
  lemma TwoSplits(w: Workspace, c: Config, repo: string)
    ensures RunParts(w, [SplitInto("a", "b"), SplitInto("x", "y")], [("", c)], repo)
         == Ok([("a,x", c), ("a,y", c), ("b,x", c), ("b,y", c)])
  {
    var ab, xy := SplitInto("a", "b"), SplitInto("x", "y");
    hide RunPart;
    NoneSplit(w, ab, repo);
    NoneSplit(w, xy, repo);
    SplitOne(w, "a", "b", "", c, [], repo);
    assert [("", c)] + [] == [("", c)];
    assert [("a", c), ("b", c)] + [] == [("a", c)] + ([("b", c)] + []);
    SplitOne(w, "x", "y", "b", c, [], repo);
    SplitOne(w, "x", "y", "a", c, [("b", c)] + [], repo);
    assert [("a,x", c), ("a,y", c)] + ([("b,x", c), ("b,y", c)] + []) == [("a,x", c), ("a,y", c), ("b,x", c), ("b,y", c)];
    assert [ab, xy][1..] == [xy] && [xy][1..] == [];
    assert "a" + "," + "x" == "a,x" && "a" + "," + "y" == "a,y" && "b" + "," + "x" == "b,x" && "b" + "," + "y" == "b,y";
  }

  lemma NoneSplit(w: Workspace, part: Part, repo: string)
    ensures RunPart(w, part, [], repo) == Ok([])
  {
  }
}
