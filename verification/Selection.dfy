/**
 Minimal Version Selection: groups, the version each group keeps, the rewrite of every edge to it,
 and the two walks over the rewritten graph.
*/
module Selection {
  import opened Text
  import opened Versions
  import opened Modules
  import opened BreadthFirst

  datatype Group = Group(name: string, target: Version)

  datatype SelectionError =
    | AllowedMissing(key: ModuleKey)
    | NotInGraph(key: ModuleKey)
    | NotAllowed(key: ModuleKey)
    | Conflict(key: ModuleKey, other: ModuleKey)
    | DuplicateDep(key: ModuleKey)

  datatype Selected = Selected(resolved: seq<(ModuleKey, Module)>, unpruned: map<ModuleKey, Module>)

  // ---------- What selection should choose ----------

  predicate HasAllowed(overrides: Overrides, name: string) {
    name in overrides && overrides[name].MultipleVersion?
  }

  /** The versions a `multiple_version_override` names; none without one. */
  function AllowedVersions(overrides: Overrides, name: string): set<Version> {
    if HasAllowed(overrides, name) then set v | v in overrides[name].versions && v != EMPTY else {}
  }

  function VersionsOf(graph: DepGraph, name: string): set<Version> {
    set k | k in graph && k.name == name :: k.version
  }

  /** The allowed versions that are not below `v`. */
  function AllowedFrom(overrides: Overrides, name: string, v: Version): set<Version> {
    set a | a in AllowedVersions(overrides, name) && AtMost(v, a)
  }

  /** The discovered versions above every allowed one: all of them without an override. */
  function Uncapped(graph: DepGraph, overrides: Overrides, name: string): set<Version> {
    set v | v in VersionsOf(graph, name) && AllowedFrom(overrides, name, v) == {}
  }

  /**
   The version a dependency should get: the nearest allowed version not below the request; failing
   that, the highest discovered version above every allowed one; failing that, what it asked for.
  */
  function Wanted(graph: DepGraph, overrides: Overrides, dep: DepSpec): Version {
    if AllowedFrom(overrides, dep.name, dep.version) != {}
    then Least(AllowedFrom(overrides, dep.name, dep.version))
    else if Uncapped(graph, overrides, dep.name) != {}
    then Greatest(Uncapped(graph, overrides, dep.name))
    else dep.version
  }

  /** A module under an override, above every version it allows. */
  predicate TooHigh(overrides: Overrides, key: ModuleKey) {
    HasAllowed(overrides, key.name) && AllowedFrom(overrides, key.name, key.version) == {}
  }

  /** Every version an override allows was discovered. */
  predicate AllowedPresent(graph: DepGraph, overrides: Overrides) {
    forall name <- overrides :: NamePresent(graph, overrides, name)
  }

  predicate NamePresent(graph: DepGraph, overrides: Overrides, name: string) {
    HasAllowed(overrides, name) ==> forall v <- overrides[name].versions :: ModuleKey(name, v) in graph
  }

  predicate RepeatedDep(m: Module) {
    exists i, j | 0 <= i < j < |m.deps| :: m.deps[i].spec == m.deps[j].spec
  }

  // ---------- Groups and their selected versions ----------

  type AllowedSets = map<string, set<Version>>

  /** The allowed versions of each overridden name, with `EMPTY` as the catch-all. */
  ghost predicate IsAllowedSets(overrides: Overrides, sets: AllowedSets) {
    && (forall name :: name in sets <==> HasAllowed(overrides, name) && overrides[name].versions != [])
    && forall name <- sets :: sets[name] == AllowedVersions(overrides, name) + {EMPTY}
  }

  /** The set of one override's versions, or the first that was not discovered. */
  method ComputeAllowedVersions(name: string, versions: seq<Version>, graph: DepGraph)
    returns (r: Result<set<Version>, SelectionError>)
    ensures r.Ok? ==> forall v <- versions :: ModuleKey(name, v) in graph
    ensures r.Ok? ==> r.value == {EMPTY} + set v | v in versions
    ensures r.Err? ==> exists i | 0 <= i < |versions| ::
              && r.error == AllowedMissing(ModuleKey(name, versions[i])) && ModuleKey(name, versions[i]) !in graph
              && forall j | 0 <= j < i :: ModuleKey(name, versions[j]) in graph
  {
    var entry := {EMPTY};
    for i := 0 to |versions|
      invariant forall j | 0 <= j < i :: ModuleKey(name, versions[j]) in graph
      invariant entry == {EMPTY} + set j | 0 <= j < i :: versions[j]
    {
      var key := ModuleKey(name, versions[i]);
      if key !in graph {
        return Err(AllowedMissing(key));
      }
      entry := entry + {versions[i]};
    }
    r := Ok(entry);
  }

  /** The first allowed version that was not discovered: names in order, versions as the override has them. */
  ghost predicate FirstMissing(graph: DepGraph, overrides: Overrides, key: ModuleKey) {
    && FirstOfItsName(graph, overrides, key)
    && forall name <- overrides | CompareString(name, key.name) == Less ::
         NamePresent(graph, overrides, name)
  }

  ghost predicate FirstOfItsName(graph: DepGraph, overrides: Overrides, key: ModuleKey) {
    && HasAllowed(overrides, key.name) && key !in graph
    && exists i | 0 <= i < |overrides[key.name].versions| ::
         && overrides[key.name].versions[i] == key.version
         && forall j | 0 <= j < i :: ModuleKey(key.name, overrides[key.name].versions[j]) in graph
  }

  /** The allowed versions of a name, none without an override. */
  method AllowedOf(overrides: Overrides, name: string, graph: DepGraph) returns (r: Result<set<Version>, SelectionError>)
    requires name in overrides
    ensures r.Ok? <==> NamePresent(graph, overrides, name)
    ensures r.Ok? && HasAllowed(overrides, name) ==> r.value == {EMPTY} + set v | v in overrides[name].versions
    ensures r.Err? ==> r.error.AllowedMissing? && r.error.key.name == name && FirstOfItsName(graph, overrides, r.error.key)
  {
    if !overrides[name].MultipleVersion? {
      return Ok({});
    }
    r := ComputeAllowedVersions(name, overrides[name].versions, graph);
  }

  lemma {:induction false} FirstNameExists(names: set<string>)
    requires names != {}
    ensures exists name :: name in names && forall other <- names :: CompareString(other, name) != Less
  {
    var x :| x in names;
    var rest := names - {x};
    CompareStringLawful();
    if rest == {} {
      assert names == {x};
      assert forall other <- names :: CompareString(other, x) != Less;
    } else {
      FirstNameExists(rest);
      var y :| y in rest && forall other <- rest :: CompareString(other, y) != Less;
      var least := if CompareString(x, y) == Less then x else y;
      forall other <- names ensures CompareString(other, least) != Less {
        if least == x && other != x { assert CompareString(other, y) != Less; }
      }
    }
  }

  lemma CompareStringLawful()
    ensures Lawful(CompareString)
  {
    assert Lawful(CompareChar);
    CompareSeqLawful(CompareChar);
    var lifted := (a: string, b: string) => CompareSeq(CompareChar, a, b);
    assert Lawful(lifted);
    assert forall a: string, b: string :: CompareString(a, b) == lifted(a, b);
  }

  method FirstName(names: set<string>) returns (name: string)
    requires names != {}
    ensures name in names && forall other <- names :: CompareString(other, name) != Less
  {
    FirstNameExists(names);
    name :| name in names && forall other <- names :: CompareString(other, name) != Less;
  }

  lemma MissingIsFirst(graph: DepGraph, overrides: Overrides, left: set<string>, key: ModuleKey)
    requires forall name <- overrides | name !in left :: NamePresent(graph, overrides, name)
    requires forall other <- left :: CompareString(other, key.name) != Less
    requires FirstOfItsName(graph, overrides, key)
    ensures FirstMissing(graph, overrides, key)
  {
    hide CompareString, NamePresent, FirstOfItsName;
  }

  /** The sets of the names gone through, all but those in `left`. */
  ghost predicate SetsSoFar(overrides: Overrides, left: set<string>, sets: AllowedSets) {
    && (forall name :: name in sets <==> name !in left && HasAllowed(overrides, name) && overrides[name].versions != [])
    && forall name <- sets :: sets[name] == AllowedVersions(overrides, name) + {EMPTY}
  }

  lemma SetsStep(overrides: Overrides, left: set<string>, sets: AllowedSets, name: string, entry: set<Version>)
    requires SetsSoFar(overrides, left, sets) && name in left
    requires HasAllowed(overrides, name) ==> entry == {EMPTY} + set v | v in overrides[name].versions
    ensures SetsSoFar(overrides, left - {name},
                      if HasAllowed(overrides, name) && overrides[name].versions != [] then sets[name := entry] else sets)
  {
    if HasAllowed(overrides, name) { assert entry == AllowedVersions(overrides, name) + {EMPTY}; }
  }

  method ComputeAllowedVersionSets(overrides: Overrides, graph: DepGraph)
    returns (r: Result<AllowedSets, SelectionError>)
    ensures r.Ok? <==> AllowedPresent(graph, overrides)
    ensures r.Ok? ==> IsAllowedSets(overrides, r.value)
    ensures r.Err? ==> r.error.AllowedMissing? && FirstMissing(graph, overrides, r.error.key)
  {
    hide CompareString, NamePresent, FirstOfItsName, FirstMissing;
    var sets: AllowedSets := map[];
    var names := overrides.Keys;
    while names != {}
      invariant names <= overrides.Keys
      invariant SetsSoFar(overrides, names, sets)
      invariant forall name <- overrides | name !in names :: NamePresent(graph, overrides, name)
      decreases names
    {
      hide SetsSoFar, AllowedVersions, HasAllowed;
      var name := FirstName(names);
      var allowed := AllowedOf(overrides, name, graph);
      if allowed.Err? {
        MissingIsFirst(graph, overrides, names, allowed.error.key);
        return Err(allowed.error);
      }
      SetsStep(overrides, names, sets, name, allowed.value);
      if HasAllowed(overrides, name) && overrides[name].versions != [] {
        sets := sets[name := allowed.value];
      }
      names := names - {name};
    }
    r := Ok(sets);
  }

  /** The lowest allowed version not below this module's own; `EMPTY` when there is none. */
  function ComputeSelectionGroup(key: ModuleKey, sets: AllowedSets): Group {
    if key.name !in sets then Group(key.name, EMPTY)
    else
      var above := set a | a in sets[key.name] && AtMost(key.version, a);
      Group(key.name, if above == {} then EMPTY else Least(above))
  }

  /** The target of the group of `key`, in terms of the override. */
  lemma GroupTarget(overrides: Overrides, sets: AllowedSets, key: ModuleKey)
    requires IsAllowedSets(overrides, sets)
    ensures var from := AllowedFrom(overrides, key.name, key.version);
            ComputeSelectionGroup(key, sets) == Group(key.name, if from == {} then EMPTY else Least(from))
    ensures ComputeSelectionGroup(key, sets).target == EMPTY
       <==> AllowedFrom(overrides, key.name, key.version) == {}
  {
    var from := AllowedFrom(overrides, key.name, key.version);
    if key.name in sets {
      var above := set a | a in sets[key.name] && AtMost(key.version, a);
      CompareLaws(key.version, EMPTY);
      assert above == from + {EMPTY};
      if from == {} {
        assert above == {EMPTY};
      } else {
        CompareLaws(Least(from), EMPTY);
        LeastUnique(above, Least(from));
      }
    } else {
      assert from == {};
    }
  }

  type Groups = map<ModuleKey, Group>

  ghost predicate IsGroups(graph: DepGraph, sets: AllowedSets, groups: Groups) {
    groups.Keys == graph.Keys && forall k <- graph :: groups[k] == ComputeSelectionGroup(k, sets)
  }

  function Members(groups: Groups, group: Group): set<Version> {
    set k | k in groups && groups[k] == group :: k.version
  }

  /** Each group keeps the highest version anyone asked for. */
  ghost predicate IsSelectedVersions(groups: Groups, selected: map<Group, Version>) {
    && (forall g :: g in selected <==> g in groups.Values)
    && forall g <- selected :: IsGreatest(Members(groups, g), selected[g])
  }

  method SelectVersions(groups: Groups) returns (selected: map<Group, Version>)
    ensures IsSelectedVersions(groups, selected)
  {
    selected := map[];
    var todo := groups.Keys;
    ghost var done: Groups := map[];
    while todo != {}
      invariant todo <= groups.Keys
      invariant done == map k | k in groups.Keys - todo :: groups[k]
      invariant IsSelectedVersions(done, selected)
      decreases todo
    {
      var key :| key in todo;
      var group := groups[key];
      ghost var before := done;
      done := done[key := group];
      ExtendSelected(before, selected, key, group);
      if group !in selected || !AtMost(key.version, selected[group]) {
        selected := selected[group := key.version];
      }
      todo := todo - {key};
    }
    assert done == groups;
  }

  lemma ExtendSelected(done: Groups, selected: map<Group, Version>, key: ModuleKey, group: Group)
    requires IsSelectedVersions(done, selected) && key !in done
    ensures var keep := group in selected && AtMost(key.version, selected[group]);
            IsSelectedVersions(done[key := group], if keep then selected else selected[group := key.version])
  {
    AtMostOrder();
    ValuesPlus(done, key, group);
    var done' := done[key := group];
    var keep := group in selected && AtMost(key.version, selected[group]);
    var selected' := if keep then selected else selected[group := key.version];
    hide AtMost, Members;
    forall g <- selected' ensures IsGreatest(Members(done', g), selected'[g]) {
      MembersPlus(done, key, group, g);
    }
  }

  lemma ValuesPlus(done: Groups, key: ModuleKey, group: Group)
    requires key !in done
    ensures done[key := group].Values == done.Values + {group}
  {
    var done' := done[key := group];
    forall g <- done.Values ensures g in done'.Values {
      var k :| k in done && done[k] == g;
      assert done'[k] == g;
    }
    assert done'[key] == group;
  }

  lemma MembersPlus(done: Groups, key: ModuleKey, group: Group, g: Group)
    requires key !in done
    ensures Members(done[key := group], g)
         == if g == group then Members(done, g) + {key.version} else Members(done, g)
    ensures g !in done.Values ==> Members(done, g) == {}
  {
    assert forall k <- done :: done[key := group][k] == done[k];
    if g == group { assert key.version in Members(done[key := group], g); }
  }

  // ---------- Resolving one edge ----------

  /** What the groups whose target allows the request have selected. */
  function Eligible(dep: DepSpec, selected: map<Group, Version>): set<Version> {
    set g | g in selected && g.name == dep.name && AtMost(dep.version, g.target) :: selected[g]
  }

  /** The lowest eligible version. */
  function ResolveDep(dep: DepSpec, selected: map<Group, Version>): Option<Version> {
    var versions := Eligible(dep, selected);
    if versions == {} then None else Some(Least(versions))
  }

  /** Everything `Run` has computed before it resolves its first edge. */
  ghost predicate Prepared(
    graph: DepGraph, overrides: Overrides, sets: AllowedSets, groups: Groups, selected: map<Group, Version>)
  {
    && AllowedPresent(graph, overrides) && IsAllowedSets(overrides, sets)
    && IsGroups(graph, sets, groups) && IsSelectedVersions(groups, selected)
  }

  /** The group of an allowed version keeps exactly that version. */
  lemma AllowedGroup(
    graph: DepGraph, overrides: Overrides, sets: AllowedSets, groups: Groups, selected: map<Group, Version>,
    name: string, v: Version)
    requires Prepared(graph, overrides, sets, groups, selected)
    requires v in AllowedVersions(overrides, name)
    ensures Group(name, v) in selected && selected[Group(name, v)] == v
  {
    AtMostOrder();
    var key := ModuleKey(name, v);
    GroupTarget(overrides, sets, key);
    LeastUnique(AllowedFrom(overrides, name, v), v);
    var group := Group(name, v);
    assert groups[key] == group;
    assert v in Members(groups, group);
    forall k | k in groups && groups[k] == group ensures AtMost(k.version, v) {
      GroupTarget(overrides, sets, k);
    }
    GreatestUnique(Members(groups, group), v);
    GreatestUnique(Members(groups, group), selected[group]);
  }

  /** The catch-all group keeps the highest version above every allowed one. */
  lemma CatchAllGroup(
    graph: DepGraph, overrides: Overrides, sets: AllowedSets, groups: Groups, selected: map<Group, Version>,
    name: string)
    requires Prepared(graph, overrides, sets, groups, selected)
    ensures Group(name, EMPTY) in selected <==> Uncapped(graph, overrides, name) != {}
    ensures Group(name, EMPTY) in selected
        ==> selected[Group(name, EMPTY)] == Greatest(Uncapped(graph, overrides, name))
  {
    var group := Group(name, EMPTY);
    forall k <- graph
      ensures groups[k] == group <==> k.name == name && k.version in Uncapped(graph, overrides, name)
    {
      GroupTarget(overrides, sets, k);
    }
    forall v <- Uncapped(graph, overrides, name) ensures v in Members(groups, group) {
      assert groups[ModuleKey(name, v)] == group;
    }
    assert Members(groups, group) == Uncapped(graph, overrides, name);
    if group in selected { GreatestUnique(Members(groups, group), selected[group]); }
  }

  /** Every group of a name is that of an allowed version or the catch-all. */
  lemma GroupShape(
    graph: DepGraph, overrides: Overrides, sets: AllowedSets, groups: Groups, selected: map<Group, Version>,
    group: Group)
    requires Prepared(graph, overrides, sets, groups, selected) && group in selected
    ensures group.target == EMPTY || group.target in AllowedVersions(overrides, group.name)
  {
    var k :| k in groups && groups[k] == group;
    GroupTarget(overrides, sets, k);
  }

  /** The eligible groups keep the allowed versions not below the request, and the catch-all's. */
  lemma EligibleVersions(
    graph: DepGraph, overrides: Overrides, sets: AllowedSets, groups: Groups, selected: map<Group, Version>,
    dep: DepSpec)
    requires Prepared(graph, overrides, sets, groups, selected)
    ensures var uncapped := Uncapped(graph, overrides, dep.name);
            Eligible(dep, selected)
            == AllowedFrom(overrides, dep.name, dep.version) + if uncapped == {} then {} else {Greatest(uncapped)}
  {
    var from := AllowedFrom(overrides, dep.name, dep.version);
    var uncapped := Uncapped(graph, overrides, dep.name);
    var catchAll := Group(dep.name, EMPTY);
    CatchAllGroup(graph, overrides, sets, groups, selected, dep.name);
    CompareLaws(dep.version, EMPTY);
    hide Prepared, Uncapped;
    forall g | g in selected && g.name == dep.name && AtMost(dep.version, g.target)
      ensures selected[g] in from || g == catchAll
    {
      GroupShape(graph, overrides, sets, groups, selected, g);
      if g != catchAll { AllowedGroup(graph, overrides, sets, groups, selected, g.name, g.target); }
    }
    forall a <- from ensures a in Eligible(dep, selected) {
      AllowedGroup(graph, overrides, sets, groups, selected, dep.name, a);
    }
    assert uncapped != {} ==> selected[catchAll] in Eligible(dep, selected);
  }

  /**
   The lowest selected version among the eligible groups is the version the dependency should get,
   whatever the dependency asks for.
  */
  lemma ResolveDepIsWanted(
    graph: DepGraph, overrides: Overrides, sets: AllowedSets, groups: Groups, selected: map<Group, Version>,
    dep: DepSpec)
    requires Prepared(graph, overrides, sets, groups, selected)
    ensures (match ResolveDep(dep, selected) case Some(v) => v case None => dep.version)
         == Wanted(graph, overrides, dep)
  {
    var from := AllowedFrom(overrides, dep.name, dep.version);
    var uncapped := Uncapped(graph, overrides, dep.name);
    EligibleVersions(graph, overrides, sets, groups, selected, dep);
    hide Prepared, Eligible, AllowedFrom, Uncapped, IsLeast, IsGreatest, AtMost;
    if from != {} && uncapped != {} {
      assert Greatest(uncapped) in uncapped by { GreatestIn(uncapped); }
      UncappedIsAbove(graph, overrides, dep, Greatest(uncapped));
    }
    LeastEligible(from, uncapped, Eligible(dep, selected));
  }

  lemma LeastEligible(from: set<Version>, uncapped: set<Version>, eligible: set<Version>)
    requires eligible == from + if uncapped == {} then {} else {Greatest(uncapped)}
    requires from != {} && uncapped != {} ==> AtMost(Least(from), Greatest(uncapped))
    ensures eligible == {} <==> from == {} && uncapped == {}
    ensures from != {} ==> Least(eligible) == Least(from)
    ensures from == {} && uncapped != {} ==> Least(eligible) == Greatest(uncapped)
  {
    hide IsLeast, IsGreatest, AtMost;
    if from == {} {
      assert uncapped != {} ==> eligible == {Greatest(uncapped)};
      assert uncapped != {} ==> Least(eligible) in eligible by { if uncapped != {} { LeastIn(eligible); } }
    } else if uncapped == {} {
      assert eligible == from;
    } else {
      LeastOfMore(from, Greatest(uncapped));
    }
  }

  lemma UncappedIsAbove(graph: DepGraph, overrides: Overrides, dep: DepSpec, v: Version)
    requires v in Uncapped(graph, overrides, dep.name)
    requires AllowedFrom(overrides, dep.name, dep.version) != {}
    ensures AtMost(Least(AllowedFrom(overrides, dep.name, dep.version)), v)
  {
    var a := Least(AllowedFrom(overrides, dep.name, dep.version));
    CompareLaws(a, v);
    assert a !in AllowedFrom(overrides, dep.name, v);
  }

  /** A dependency whose key was discovered gets its own group's version, never below its request. */
  lemma DiscoveredDepGetsItsGroup(
    graph: DepGraph, overrides: Overrides, sets: AllowedSets, groups: Groups, selected: map<Group, Version>,
    dep: DepSpec)
    requires Prepared(graph, overrides, sets, groups, selected) && dep.ToKey() in graph
    ensures ResolveDep(dep, selected) == Some(selected[groups[dep.ToKey()]])
    ensures AtMost(dep.version, Wanted(graph, overrides, dep))
  {
    var key := dep.ToKey();
    var from := AllowedFrom(overrides, dep.name, dep.version);
    GroupTarget(overrides, sets, key);
    ResolveDepIsWanted(graph, overrides, sets, groups, selected, dep);
    assert groups[key] in groups.Values;
    if from != {} {
      AllowedGroup(graph, overrides, sets, groups, selected, dep.name, Least(from));
    } else {
      CatchAllGroup(graph, overrides, sets, groups, selected, dep.name);
      assert dep.version in Uncapped(graph, overrides, dep.name);
    }
    assert dep.version in Members(groups, groups[key]);
    assert AtMost(dep.version, groups[key].target) by { CompareLaws(dep.version, EMPTY); }
    assert selected[groups[key]] in Eligible(dep, selected);
  }

  // ---------- The rewritten graph ----------

  function Rewritten(m: Module, resolve: DepSpec -> Version): Module {
    m.WithDepsTransformed((dep: DepSpec) => dep.WithVersion(resolve(dep)))
  }

  /** A module with every edge at the version it should get. */
  function Final(graph: DepGraph, overrides: Overrides, m: Module): Module {
    Rewritten(m, (dep: DepSpec) => Wanted(graph, overrides, dep))
  }

  lemma RewrittenAgree(m: Module, f: DepSpec -> Version, g: DepSpec -> Version)
    requires forall dep :: f(dep) == g(dep)
    ensures Rewritten(m, f) == Rewritten(m, g)
  {
    var a, b := Rewritten(m, f), Rewritten(m, g);
    forall i | 0 <= i < |m.deps| ensures a.deps[i] == b.deps[i] {
      assert f(m.deps[i].spec) == g(m.deps[i].spec);
    }
    forall i | 0 <= i < |m.nodepDeps| ensures a.nodepDeps[i] == b.nodepDeps[i] {
      assert f(m.nodepDeps[i]) == g(m.nodepDeps[i]);
    }
    assert a.deps == b.deps && a.nodepDeps == b.nodepDeps;
  }

  /** Where a walk goes from a module: its deps, then its nodep edges unless those are ignored. */
  function EdgeKeys(m: Module, ignoreNodeps: bool): seq<ModuleKey> {
    seq(|m.deps|, i requires 0 <= i < |m.deps| => m.deps[i].spec.ToKey())
    + if ignoreNodeps then [] else seq(|m.nodepDeps|, i requires 0 <= i < |m.nodepDeps| => m.nodepDeps[i].ToKey())
  }

  ghost function Next(graph: DepGraph, overrides: Overrides, ignoreNodeps: bool): ModuleKey -> seq<ModuleKey> {
    k => if k in graph then EdgeKeys(Final(graph, overrides, graph[k]), ignoreNodeps) else []
  }

  function Keys(list: seq<(ModuleKey, Module)>): (r: seq<ModuleKey>)
    ensures |r| == |list| && forall i | 0 <= i < |r| :: r[i] == list[i].0
  {
    seq(|list|, i requires 0 <= i < |list| => list[i].0)
  }

  // ---------- The walk ----------

  /** What makes `visit` refuse a module that the walk reaches. */
  predicate Refused(overrides: Overrides, groups: Groups, key: ModuleKey) {
    HasAllowed(overrides, key.name) && key in groups && groups[key].target == EMPTY
  }

  type Names = map<string, ModuleKey>

  /** The checks on one reached module. */
  method Visit(key: ModuleKey, m: Module, overrides: Overrides, groups: Groups, moduleByName: Names)
    returns (error: Option<SelectionError>, byName: Names)
    ensures byName == if HasAllowed(overrides, key.name) then moduleByName else moduleByName[m.name := key]
    ensures error.None? <==>
            && !Refused(overrides, groups, key) && !RepeatedDep(m)
            && (HasAllowed(overrides, key.name) || m.name !in moduleByName || moduleByName[m.name] == key)
    ensures error == Some(NotAllowed(key)) ==> Refused(overrides, groups, key)
    ensures error == Some(DuplicateDep(key)) ==> RepeatedDep(m)
    ensures error.Some? && error.value.Conflict? ==>
            && !HasAllowed(overrides, key.name) && m.name in moduleByName && moduleByName[m.name] != key
            && error.value == Conflict(key, moduleByName[m.name])
    ensures error.Some? ==> error.value.Conflict? || error.value in {NotAllowed(key), DuplicateDep(key)}
  {
    byName := moduleByName;
    if HasAllowed(overrides, key.name) {
      if key in groups && groups[key].target == EMPTY {
        return Some(NotAllowed(key)), byName;
      }
    } else {
      byName := byName[m.name := key];
      if m.name in moduleByName && moduleByName[m.name] != key {
        return Some(Conflict(key, moduleByName[m.name])), byName;
      }
    }
    var seen: set<ModuleKey> := {};
    for i := 0 to |m.deps|
      invariant forall k :: k in seen <==> exists j | 0 <= j < i :: m.deps[j].spec.ToKey() == k
      invariant forall j, l | 0 <= j < l < i :: m.deps[j].spec != m.deps[l].spec
    {
      var depKey := m.deps[i].spec.ToKey();
      if depKey in seen {
        return Some(DuplicateDep(key)), byName;
      }
      seen := seen + {depKey};
    }
    error := None;
  }

  /** What is true of a list of modules a walk has accepted. */
  ghost predicate Accepted(
    graph: DepGraph, overrides: Overrides, groups: Groups, resolve: DepSpec -> Version,
    list: seq<(ModuleKey, Module)>)
  {
    && (forall i | 0 <= i < |list| ::
          && list[i].0 in graph && list[i].1 == Rewritten(graph[list[i].0], resolve)
          && !Refused(overrides, groups, list[i].0) && !RepeatedDep(list[i].1))
    && forall i, j | 0 <= i < |list| && 0 <= j < |list| && list[i].1.name == list[j].1.name ::
         HasAllowed(overrides, list[i].0.name) || HasAllowed(overrides, list[j].0.name)
         || list[i].0 == list[j].0
  }

  ghost predicate ByName(overrides: Overrides, list: seq<(ModuleKey, Module)>, byName: Names) {
    && (forall i | 0 <= i < |list| && !HasAllowed(overrides, list[i].0.name) ::
          list[i].1.name in byName && byName[list[i].1.name] == list[i].0)
    && forall name <- byName ::
         exists i | 0 <= i < |list| ::
           list[i].1.name == name && list[i].0 == byName[name] && !HasAllowed(overrides, list[i].0.name)
  }

  /** Why a walk over `next` may stop. */
  ghost predicate Blamed(
    graph: DepGraph, overrides: Overrides, groups: Groups, resolve: DepSpec -> Version,
    next: ModuleKey -> seq<ModuleKey>, e: SelectionError)
  {
    match e
    case AllowedMissing(_) => false
    case NotInGraph(k) => Reachable(next, ROOT, k) && k !in graph
    case NotAllowed(k) => Reachable(next, ROOT, k) && k in graph && Refused(overrides, groups, k)
    case DuplicateDep(k) =>
      Reachable(next, ROOT, k) && k in graph && RepeatedDep(Rewritten(graph[k], resolve))
    case Conflict(k, o) =>
      && Reachable(next, ROOT, k) && Reachable(next, ROOT, o) && k in graph && o in graph && k != o
      && graph[k].name == graph[o].name
      && !HasAllowed(overrides, k.name) && !HasAllowed(overrides, o.name)
  }

  ghost predicate Walks(
    graph: DepGraph, resolve: DepSpec -> Version, ignoreNodeps: bool, next: ModuleKey -> seq<ModuleKey>)
  {
    forall k :: next(k) == if k in graph then EdgeKeys(Rewritten(graph[k], resolve), ignoreNodeps) else []
  }

  /** Queues the targets of one visited module. */
  method QueueTargets(
    edges: seq<ModuleKey>, known: set<ModuleKey>, toVisit: seq<ModuleKey>,
    ghost next: ModuleKey -> seq<ModuleKey>, ghost order: seq<ModuleKey>, ghost parent: seq<nat>,
    ghost via: seq<nat>, ghost done: nat)
    returns (known': set<ModuleKey>, toVisit': seq<ModuleKey>,
             ghost order': seq<ModuleKey>, ghost parent': seq<nat>, ghost via': seq<nat>)
    requires Searching(next, ROOT, order, parent, via, done, 0)
    requires done < |order| && next(order[done]) == edges
    requires order[done + 1..] == toVisit && known == set k | k in order
    ensures order <= order' && Searching(next, ROOT, order', parent', via', done + 1, 0)
    ensures order'[done + 1..] == toVisit' && known' == set k | k in order'
    ensures toVisit <= toVisit' && known' == known + set k | k in edges
  {
    hide Searching;
    known', toVisit', order', parent', via' := known, toVisit, order, parent, via;
    for e := 0 to |edges|
      invariant order <= order' && Searching(next, ROOT, order', parent', via', done, e)
      invariant order'[done + 1..] == toVisit' && known' == set k | k in order'
      invariant toVisit <= toVisit' && known' == known + set k | k in edges[..e]
    {
      assert edges[..e + 1] == edges[..e] + [edges[e]];
      SearchEdge(next, ROOT, order', parent', via', done, e);
      if edges[e] !in known' {
        known' := known' + {edges[e]};
        toVisit' := toVisit' + [edges[e]];
        order', parent', via' := order' + [edges[e]], parent' + [done], via' + [e];
      }
    }
    assert edges[..|edges|] == edges;
    SearchNext(next, ROOT, order', parent', via', done);
  }

  /** A clash of names is between two reachable modules. */
  lemma ConflictBlamed(
    graph: DepGraph, overrides: Overrides, groups: Groups, resolve: DepSpec -> Version,
    next: ModuleKey -> seq<ModuleKey>, list: seq<(ModuleKey, Module)>, byName: Names,
    order: seq<ModuleKey>, parent: seq<nat>, via: seq<nat>)
    requires Searching(next, ROOT, order, parent, via, |list|, 0) && |list| < |order| && Keys(list) <= order
    requires Accepted(graph, overrides, groups, resolve, list) && ByName(overrides, list, byName)
    requires order[|list|] in graph && !HasAllowed(overrides, order[|list|].name)
    requires graph[order[|list|]].name in byName && byName[graph[order[|list|]].name] != order[|list|]
    ensures Blamed(graph, overrides, groups, resolve, next,
                   Conflict(order[|list|], byName[graph[order[|list|]].name]))
  {
    var key := order[|list|];
    var name := graph[key].name;
    var i :| 0 <= i < |list| && list[i].1.name == name && list[i].0 == byName[name]
             && !HasAllowed(overrides, list[i].0.name);
    assert Keys(list)[i] == order[i] == list[i].0;
    QueuedReachable(next, ROOT, order, parent, via, |list|, 0, i);
    QueuedReachable(next, ROOT, order, parent, via, |list|, 0, |list|);
  }

  /** Checks the module at the front of the queue. */
  method WalkFront(
    graph: DepGraph, overrides: Overrides, groups: Groups, resolve: DepSpec -> Version,
    list: seq<(ModuleKey, Module)>, moduleByName: Names, key: ModuleKey,
    ghost next: ModuleKey -> seq<ModuleKey>, ghost order: seq<ModuleKey>, ghost parent: seq<nat>,
    ghost via: seq<nat>)
    returns (r: Result<seq<(ModuleKey, Module)>, SelectionError>, byName: Names)
    requires Searching(next, ROOT, order, parent, via, |list|, 0) && |list| < |order| && Keys(list) <= order
    requires order[|list|] == key
    requires Accepted(graph, overrides, groups, resolve, list) && ByName(overrides, list, moduleByName)
    ensures r.Err? ==> Blamed(graph, overrides, groups, resolve, next, r.error)
    ensures r.Ok? ==> key in graph && r.value == list + [(key, Rewritten(graph[key], resolve))]
    ensures r.Ok? ==> Accepted(graph, overrides, groups, resolve, r.value) && ByName(overrides, r.value, byName)
  {
    byName := moduleByName;
    QueuedReachable(next, ROOT, order, parent, via, |list|, 0, |list|);
    if key !in graph {
      return Err(NotInGraph(key)), byName;
    }
    var m := Rewritten(graph[key], resolve);
    var error;
    error, byName := Visit(key, m, overrides, groups, moduleByName);
    if error.Some? {
      if error.value.Conflict? {
        ConflictBlamed(graph, overrides, groups, resolve, next, list, moduleByName, order, parent, via);
      }
      return Err(error.value), byName;
    }
    AcceptOne(graph, overrides, groups, resolve, list, moduleByName, key, m);
    NameOne(overrides, list, moduleByName, key, m);
    r := Ok(list + [(key, m)]);
  }

  /** Breadth-first from the root over the rewritten edges, checking what it reaches. */
  method Walk(
    graph: DepGraph, overrides: Overrides, groups: Groups, resolve: DepSpec -> Version, ignoreNodeps: bool,
    ghost next: ModuleKey -> seq<ModuleKey>)
    returns (r: Result<seq<(ModuleKey, Module)>, SelectionError>)
    requires Walks(graph, resolve, ignoreNodeps, next)
    ensures r.Ok? ==> BreadthFirstList(next, ROOT, Keys(r.value))
    ensures r.Ok? ==> Accepted(graph, overrides, groups, resolve, r.value)
    ensures r.Err? ==> Blamed(graph, overrides, groups, resolve, next, r.error)
  {
    hide Blamed, ByName, Accepted, BreadthFirstList, Rewritten, EdgeKeys, Searching, Distinct;
    var result: seq<(ModuleKey, Module)> := [];
    var moduleByName: Names := map[];
    StartNames(graph, overrides, groups, resolve);
    var known := {ROOT};
    var toVisit := [ROOT];
    ghost var order, parent: seq<nat>, via: seq<nat>, visited: set<ModuleKey> := [ROOT], [0], [0], {};
    StartSearch(next, ROOT);
    while toVisit != []
      invariant Searching(next, ROOT, order, parent, via, |result|, 0)
      invariant order == Keys(result) + toVisit && known == set k | k in order
      invariant Accepted(graph, overrides, groups, resolve, result)
      invariant ByName(overrides, result, moduleByName)
      invariant forall k <- visited :: k in Keys(result)
      decreases graph.Keys - visited
    {
      var key := toVisit[0];
      ghost var before, done := order, |result|;
      assert order[done] == key && order[done + 1..] == toVisit[1..] && order[..done] == Keys(result);
      var front, byName := WalkFront(graph, overrides, groups, resolve, result, moduleByName, key, next, order, parent,
        via);
      if front.Err? {
        return Err(front.error);
      }
      var m := Rewritten(graph[key], resolve);
      known, toVisit, order, parent, via :=
        QueueTargets(EdgeKeys(m, ignoreNodeps), known, toVisit[1..], next, order, parent, via, done);
      SearchingDistinct(next, ROOT, order, parent, via, done + 1, 0);
      MoveOne(result, before, order, toVisit, key, m);
      assert key !in visited;
      visited := visited + {key};
      result := front.value;
      moduleByName := byName;
      assert |result| == done + 1;
    }
    assert order == Keys(result);
    SearchFinished(next, ROOT, order, parent, via);
    r := Ok(result);
  }

  /** The front of the queue becomes the end of the result. */
  lemma MoveOne(
    list: seq<(ModuleKey, Module)>, before: seq<ModuleKey>, order: seq<ModuleKey>, toVisit: seq<ModuleKey>,
    key: ModuleKey, m: Module)
    requires |list| < |before| && before[..|list|] == Keys(list) && before[|list|] == key
    requires before <= order && order[|list| + 1..] == toVisit && Distinct(order)
    ensures order == Keys(list + [(key, m)]) + toVisit
    ensures key !in Keys(list) && key in Keys(list + [(key, m)])
    ensures forall k <- Keys(list) :: k in Keys(list + [(key, m)])
  {
    assert Keys(list + [(key, m)]) == Keys(list) + [key];
    assert order[..|list|] == Keys(list) && order[|list|] == key;
    assert order == order[..|list|] + [order[|list|]] + order[|list| + 1..];
    forall i | 0 <= i < |list| ensures Keys(list)[i] != key {
      assert order[i] == Keys(list)[i];
    }
  }

  lemma AcceptOne(
    graph: DepGraph, overrides: Overrides, groups: Groups, resolve: DepSpec -> Version,
    list: seq<(ModuleKey, Module)>, byName: Names, key: ModuleKey, m: Module)
    requires Accepted(graph, overrides, groups, resolve, list) && ByName(overrides, list, byName)
    requires key in graph && m == Rewritten(graph[key], resolve)
    requires !Refused(overrides, groups, key) && !RepeatedDep(m)
    requires HasAllowed(overrides, key.name) || m.name !in byName || byName[m.name] == key
    ensures Accepted(graph, overrides, groups, resolve, list + [(key, m)])
  {
    hide Refused, RepeatedDep, HasAllowed, Rewritten;
  }

  lemma StartNames(graph: DepGraph, overrides: Overrides, groups: Groups, resolve: DepSpec -> Version)
    ensures Accepted(graph, overrides, groups, resolve, []) && ByName(overrides, [], map[])
  {
  }

  lemma NameOne(overrides: Overrides, list: seq<(ModuleKey, Module)>, byName: Names, key: ModuleKey, m: Module)
    requires ByName(overrides, list, byName)
    requires HasAllowed(overrides, key.name) || m.name !in byName || byName[m.name] == key
    ensures ByName(overrides, list + [(key, m)],
                   if HasAllowed(overrides, key.name) then byName else byName[m.name := key])
  {
    hide HasAllowed;
    var list' := list + [(key, m)];
    var byName' := if HasAllowed(overrides, key.name) then byName else byName[m.name := key];
    forall name <- byName'
      ensures exists i | 0 <= i < |list'| ::
          list'[i].1.name == name && list'[i].0 == byName'[name] && !HasAllowed(overrides, list'[i].0.name)
    {
      if name == m.name && !HasAllowed(overrides, key.name) {
        assert list'[|list|] == (key, m);
      } else {
        var i :| 0 <= i < |list| && list[i].1.name == name && list[i].0 == byName[name]
                 && !HasAllowed(overrides, list[i].0.name);
        assert list'[i] == list[i];
      }
    }
  }

  // ---------- The run ----------

  /** Everything that can be wrong with a graph, in terms of the graph and the overrides alone. */
  ghost predicate Defect(graph: DepGraph, overrides: Overrides, e: SelectionError) {
    var reached := k => Reachable(Next(graph, overrides, false), ROOT, k);
    match e
    case AllowedMissing(k) =>
      HasAllowed(overrides, k.name) && k.version in overrides[k.name].versions && k !in graph
    case NotInGraph(k) => reached(k) && k !in graph
    case NotAllowed(k) => reached(k) && k in graph && TooHigh(overrides, k)
    case DuplicateDep(k) => reached(k) && k in graph && RepeatedDep(Final(graph, overrides, graph[k]))
    case Conflict(k, o) =>
      && reached(k) && reached(o) && k in graph && o in graph && k != o && graph[k].name == graph[o].name
      && !HasAllowed(overrides, k.name) && !HasAllowed(overrides, o.name)
  }

  /** The selection: breadth-first over the regular edges, every edge at the version it should get. */
  ghost predicate IsSelection(graph: DepGraph, overrides: Overrides, s: Selected) {
    && BreadthFirstList(Next(graph, overrides, true), ROOT, Keys(s.resolved))
    && (forall i | 0 <= i < |s.resolved| ::
          s.resolved[i].0 in graph && s.resolved[i].1 == Final(graph, overrides, graph[s.resolved[i].0]))
    && s.unpruned.Keys == graph.Keys
    && forall k <- graph :: s.unpruned[k] == Final(graph, overrides, graph[k])
  }

  lemma {:induction false} WithinMore(graph: DepGraph, overrides: Overrides, n: nat)
    ensures Within(Next(graph, overrides, true), ROOT, n) <= Within(Next(graph, overrides, false), ROOT, n)
  {
    hide Final;
    if n > 0 {
      WithinMore(graph, overrides, n - 1);
      var regular, all := Next(graph, overrides, true), Next(graph, overrides, false);
      forall k, i | k in Within(regular, ROOT, n - 1) && 0 <= i < |regular(k)|
        ensures regular(k)[i] in Within(all, ROOT, n)
      {
        assert regular(k) <= all(k);
        assert all(k)[i] == regular(k)[i];
      }
    }
  }

  /** What the walk over regular edges reaches, the walk over all edges reaches. */
  lemma ReachableMore(graph: DepGraph, overrides: Overrides, k: ModuleKey)
    requires Reachable(Next(graph, overrides, true), ROOT, k)
    ensures Reachable(Next(graph, overrides, false), ROOT, k)
  {
    var n: nat :| k in Within(Next(graph, overrides, true), ROOT, n);
    WithinMore(graph, overrides, n);
  }

  lemma ResolveWalks(
    graph: DepGraph, overrides: Overrides, sets: AllowedSets, groups: Groups, selected: map<Group, Version>,
    resolve: DepSpec -> Version, ignoreNodeps: bool)
    requires Prepared(graph, overrides, sets, groups, selected)
    requires forall dep :: resolve(dep) == match ResolveDep(dep, selected) case Some(v) => v case None => dep.version
    ensures Walks(graph, resolve, ignoreNodeps, Next(graph, overrides, ignoreNodeps))
    ensures forall k <- graph :: Rewritten(graph[k], resolve) == Final(graph, overrides, graph[k])
    ensures forall k <- graph :: Refused(overrides, groups, k) <==> TooHigh(overrides, k)
  {
    forall dep: DepSpec ensures resolve(dep) == Wanted(graph, overrides, dep) {
      ResolveDepIsWanted(graph, overrides, sets, groups, selected, dep);
    }
    forall k <- graph
      ensures Rewritten(graph[k], resolve) == Final(graph, overrides, graph[k])
      ensures Refused(overrides, groups, k) <==> TooHigh(overrides, k)
    {
      RewrittenAgree(graph[k], resolve, (dep: DepSpec) => Wanted(graph, overrides, dep));
      GroupTarget(overrides, sets, k);
    }
  }

  /** A walk that accepted everything leaves nothing to blame, on it or on the walk over fewer edges. */
  lemma AcceptedIsFlawless(
    graph: DepGraph, overrides: Overrides, groups: Groups, resolve: DepSpec -> Version,
    list: seq<(ModuleKey, Module)>, e: SelectionError)
    requires AllowedPresent(graph, overrides)
    requires Accepted(graph, overrides, groups, resolve, list)
    requires BreadthFirstList(Next(graph, overrides, false), ROOT, Keys(list))
    requires forall k <- graph :: Rewritten(graph[k], resolve) == Final(graph, overrides, graph[k])
    requires forall k <- graph :: Refused(overrides, groups, k) <==> TooHigh(overrides, k)
    ensures !Defect(graph, overrides, e)
    ensures !Blamed(graph, overrides, groups, resolve, Next(graph, overrides, true), e)
  {
    var next := Next(graph, overrides, false);
    forall k | Reachable(next, ROOT, k) ensures exists i | 0 <= i < |list| :: list[i].0 == k {
      assert k in Keys(list);
    }
    match e
    case AllowedMissing(k) =>
      assert HasAllowed(overrides, k.name) && k.version in overrides[k.name].versions ==> k in graph;
    case NotInGraph(k) => if Reachable(Next(graph, overrides, true), ROOT, k) { ReachableMore(graph, overrides, k); }
    case NotAllowed(k) => if Reachable(Next(graph, overrides, true), ROOT, k) { ReachableMore(graph, overrides, k); }
    case DuplicateDep(k) => if Reachable(Next(graph, overrides, true), ROOT, k) { ReachableMore(graph, overrides, k); }
    case Conflict(k, o) =>
      if Reachable(Next(graph, overrides, true), ROOT, k) { ReachableMore(graph, overrides, k); }
      if Reachable(Next(graph, overrides, true), ROOT, o) { ReachableMore(graph, overrides, o); }
  }

  lemma BlamedIsDefect(
    graph: DepGraph, overrides: Overrides, groups: Groups, resolve: DepSpec -> Version, e: SelectionError)
    requires Blamed(graph, overrides, groups, resolve, Next(graph, overrides, false), e)
    requires forall k <- graph :: Rewritten(graph[k], resolve) == Final(graph, overrides, graph[k])
    requires forall k <- graph :: Refused(overrides, groups, k) <==> TooHigh(overrides, k)
    ensures Defect(graph, overrides, e)
  {
  }

  /** The two walks: one over every edge, for its checks, and one over the regular edges. */
  method WalkTwice(graph: DepGraph, overrides: Overrides, groups: Groups, resolve: DepSpec -> Version)
    returns (r: Result<seq<(ModuleKey, Module)>, SelectionError>)
    requires AllowedPresent(graph, overrides)
    requires Walks(graph, resolve, false, Next(graph, overrides, false))
    requires Walks(graph, resolve, true, Next(graph, overrides, true))
    requires forall k <- graph :: Rewritten(graph[k], resolve) == Final(graph, overrides, graph[k])
    requires forall k <- graph :: Refused(overrides, groups, k) <==> TooHigh(overrides, k)
    ensures r.Ok? ==> BreadthFirstList(Next(graph, overrides, true), ROOT, Keys(r.value))
    ensures r.Ok? ==> Accepted(graph, overrides, groups, resolve, r.value)
    ensures r.Ok? ==> forall e :: !Defect(graph, overrides, e)
    ensures r.Err? ==> Defect(graph, overrides, r.error) && !r.error.AllowedMissing?
  {
    var all := Walk(graph, overrides, groups, resolve, false, Next(graph, overrides, false));
    if all.Err? {
      BlamedIsDefect(graph, overrides, groups, resolve, all.error);
      return Err(all.error);
    }
    forall e
      ensures !Defect(graph, overrides, e)
      ensures !Blamed(graph, overrides, groups, resolve, Next(graph, overrides, true), e)
    {
      AcceptedIsFlawless(graph, overrides, groups, resolve, all.value, e);
    }
    r := Walk(graph, overrides, groups, resolve, true, Next(graph, overrides, true));
    // The second walk cannot fail once the first has succeeded.
    assert r.Ok?;
  }

  /** Version selection: it succeeds exactly on a graph without defect, and a refusal names one. */
  method Run(graph: DepGraph, overrides: Overrides) returns (r: Result<Selected, SelectionError>)
    ensures r.Ok? ==> IsSelection(graph, overrides, r.value)
    ensures r.Ok? ==> forall e :: !Defect(graph, overrides, e)
    ensures r.Err? ==> Defect(graph, overrides, r.error)
    ensures r.Err? ==> if r.error.AllowedMissing? then FirstMissing(graph, overrides, r.error.key)
                       else AllowedPresent(graph, overrides)
  {
    hide IsAllowedSets, IsSelectedVersions, ComputeSelectionGroup, ResolveDep, Walks, Next, BreadthFirstList, Refused,
      AllowedPresent, Wanted, Rewritten, Final;
    var allowed := ComputeAllowedVersionSets(overrides, graph);
    if allowed.Err? {
      return Err(allowed.error);
    }
    var sets := allowed.value;
    var groups := map k | k in graph :: ComputeSelectionGroup(k, sets);
    var selected := SelectVersions(groups);
    var resolve := (dep: DepSpec) =>
      match ResolveDep(dep, selected) case Some(v) => v case None => dep.version;
    ResolveWalks(graph, overrides, sets, groups, selected, resolve, false);
    ResolveWalks(graph, overrides, sets, groups, selected, resolve, true);
    var resolved := WalkTwice(graph, overrides, groups, resolve);
    if resolved.Err? {
      return Err(resolved.error);
    }
    r := Ok(Selected(resolved.value, map k | k in graph :: Rewritten(graph[k], resolve)));
  }
}
