/** Discovery and selection together, and the repository names of what was selected. */
module Resolve {
  import opened Text
  import opened Versions
  import opened Modules
  import opened BreadthFirst
  import Discovery
  import Selection
  import SemVer

  type Workspace = Discovery.Workspace

  /** A module name as module files may write one: not empty, and without a `+`. */
  predicate ValidName(name: string) { name != "" && '+' !in name }

  predicate ValidEdges(m: Module) {
    && (forall i | 0 <= i < |m.deps| :: ValidName(m.deps[i].spec.name))
    && forall i | 0 <= i < |m.nodepDeps| :: ValidName(m.nodepDeps[i].name)
  }

  /** What evaluating the module files has checked: every name in them is a module name. */
  predicate ValidFiles(w: Workspace) {
    && "" !in w.overrides && (w.root.name == "" || ValidName(w.root.name)) && ValidEdges(w.root)
    && forall k <- w.registry :: ValidEdges(w.registry[k])
  }

  // ---------- Discovered graphs ----------

  /** The root, or a key whose name is a module name other than the root's. */
  predicate ProperKey(w: Workspace, k: ModuleKey) {
    k == ROOT || (ValidName(k.name) && k.name != w.root.name)
  }

  lemma EdgesAreProper(w: Workspace, k: ModuleKey)
    requires ValidFiles(w)
    ensures var m := Discovery.ModuleAt(w, k);
            && (forall i | 0 <= i < |m.deps| :: ProperKey(w, m.deps[i].spec.ToKey()))
            && (forall i | 0 <= i < |m.nodepDeps| :: ProperKey(w, m.nodepDeps[i].ToKey()))
  {
    forall spec: DepSpec | ValidName(spec.name)
      ensures ProperKey(w, Discovery.ApplyOverrides(spec, w).ToKey())
    {
    }
    assert k == ROOT ==> ValidEdges(w.root);
    assert k in w.registry ==> ValidEdges(w.registry[k]);
  }

  /** Only proper keys are discovered: the proper ones alone are already closed. */
  lemma DiscoveredKeysAreProper(w: Workspace, graph: DepGraph)
    requires ValidFiles(w) && Discovery.Discovered(w, graph)
    ensures forall k <- graph :: ProperKey(w, k)
  {
    var keys := set k | k in graph && ProperKey(w, k);
    Discovery.NamesMonotone(w, keys, graph.Keys);
    forall k <- keys ensures Discovery.EdgesInside(Discovery.ModuleAt(w, k), Discovery.Names(w, keys), keys) {
      assert Discovery.EdgesInside(Discovery.ModuleAt(w, k), Discovery.Names(w, graph.Keys), graph.Keys);
      EdgesAreProper(w, k);
    }
    assert Discovery.Closed(w, keys);
  }

  /** What selection relies on: edges stay in the graph, and no two names clash with the root's. */
  ghost predicate SoundGraph(graph: DepGraph, overrides: Overrides) {
    && ROOT in graph && "" !in overrides
    && (forall k <- graph :: forall i | 0 <= i < |graph[k].deps| :: graph[k].deps[i].spec.ToKey() in graph)
    && (forall k <- graph :: forall i | 0 <= i < |graph[k].nodepDeps| :: graph[k].nodepDeps[i].ToKey() in graph)
    && (forall k <- graph | k != ROOT :: ValidName(k.name) && graph[k].name == k.name && graph[ROOT].name != k.name)
  }

  lemma DiscoveredIsSound(w: Workspace, graph: DepGraph)
    requires ValidFiles(w) && Discovery.Discovered(w, graph)
    ensures SoundGraph(graph, w.overrides)
  {
    DiscoveredKeysAreProper(w, graph);
    forall k <- graph
      ensures forall i | 0 <= i < |graph[k].deps| :: graph[k].deps[i].spec.ToKey() in graph
      ensures forall i | 0 <= i < |graph[k].nodepDeps| :: graph[k].nodepDeps[i].ToKey() in graph
      ensures graph[k].name == Discovery.NameAt(w, k)
    {
      assert Discovery.EdgesInside(Discovery.ModuleAt(w, k), Discovery.Names(w, graph.Keys), graph.Keys);
      assert Discovery.Readable(w, k);
      forall i | 0 <= i < |graph[k].nodepDeps| ensures graph[k].nodepDeps[i].ToKey() in graph {
        assert graph[k].nodepDeps[i] in graph[k].nodepDeps;
      }
    }
  }

  // ---------- Selection on a discovered graph ----------

  /** The version a discovered dependency should get was discovered. */
  lemma WantedIsDiscovered(graph: DepGraph, overrides: Overrides, dep: DepSpec)
    requires Selection.AllowedPresent(graph, overrides) && dep.ToKey() in graph
    ensures dep.WithVersion(Selection.Wanted(graph, overrides, dep)).ToKey() in graph
    ensures !Selection.HasAllowed(overrides, dep.name)
        ==> IsGreatest(Selection.VersionsOf(graph, dep.name), Selection.Wanted(graph, overrides, dep))
  {
    assert dep.version in Selection.VersionsOf(graph, dep.name);
    var from := Selection.AllowedFrom(overrides, dep.name, dep.version);
    if from != {} {
      assert Least(from) in overrides[dep.name].versions;
    } else {
      var uncapped := Selection.Uncapped(graph, overrides, dep.name);
      assert dep.version in uncapped;
      var k :| k in graph && k.name == dep.name && k.version == Greatest(uncapped);
      assert k == ModuleKey(dep.name, Greatest(uncapped));
      if !Selection.HasAllowed(overrides, dep.name) {
        assert uncapped == Selection.VersionsOf(graph, dep.name);
      }
    }
  }

  /** The root, or a discovered key at the version its name was selected at. */
  ghost predicate Settled(graph: DepGraph, overrides: Overrides, k: ModuleKey) {
    && k in graph
    && (Selection.HasAllowed(overrides, k.name) || IsGreatest(Selection.VersionsOf(graph, k.name), k.version))
  }

  lemma NextIsSettled(graph: DepGraph, overrides: Overrides, k: ModuleKey, i: nat)
    requires SoundGraph(graph, overrides) && Selection.AllowedPresent(graph, overrides)
    requires Settled(graph, overrides, k) && i < |Selection.Next(graph, overrides, false)(k)|
    ensures Settled(graph, overrides, Selection.Next(graph, overrides, false)(k)[i])
  {
    hide Selection.Wanted, Selection.AllowedPresent, Selection.HasAllowed, ValidName, IsGreatest;
    var m := graph[k];
    var dep := if i < |m.deps| then m.deps[i].spec else m.nodepDeps[i - |m.deps|];
    assert dep.ToKey() in graph;
    WantedIsDiscovered(graph, overrides, dep);
    assert Selection.Next(graph, overrides, false)(k)[i]
        == dep.WithVersion(Selection.Wanted(graph, overrides, dep)).ToKey();
  }

  lemma RootIsSettled(graph: DepGraph, overrides: Overrides)
    requires SoundGraph(graph, overrides)
    ensures Settled(graph, overrides, ROOT)
  {
    CompareLaws(EMPTY, EMPTY);
    forall v <- Selection.VersionsOf(graph, "") ensures v == EMPTY {
      var k :| k in graph && k.name == "" && k.version == v;
    }
    assert ROOT.version in Selection.VersionsOf(graph, "");
  }

  lemma {:induction false} WithinIsSettled(graph: DepGraph, overrides: Overrides, n: nat)
    requires SoundGraph(graph, overrides) && Selection.AllowedPresent(graph, overrides)
    ensures forall k <- Within(Selection.Next(graph, overrides, false), ROOT, n) :: Settled(graph, overrides, k)
  {
    hide Selection.Next, Selection.AllowedPresent, SoundGraph, Settled;
    var next := Selection.Next(graph, overrides, false);
    if n == 0 {
      RootIsSettled(graph, overrides);
    } else {
      WithinIsSettled(graph, overrides, n - 1);
      forall k, i | k in Within(next, ROOT, n - 1) && 0 <= i < |next(k)| ensures Settled(graph, overrides, next(k)[i]) {
        NextIsSettled(graph, overrides, k, i);
      }
    }
  }

  lemma ReachableIsSettled(graph: DepGraph, overrides: Overrides, k: ModuleKey)
    requires SoundGraph(graph, overrides) && Selection.AllowedPresent(graph, overrides)
    requires Reachable(Selection.Next(graph, overrides, false), ROOT, k)
    ensures Settled(graph, overrides, k)
  {
    var n: nat :| k in Within(Selection.Next(graph, overrides, false), ROOT, n);
    WithinIsSettled(graph, overrides, n);
  }

  lemma ConflictIsNamesake(graph: DepGraph, overrides: Overrides, k: ModuleKey, o: ModuleKey)
    requires SoundGraph(graph, overrides) && k in graph && o in graph && graph[k].name == graph[o].name
    requires !Selection.HasAllowed(overrides, k.name) && !Selection.HasAllowed(overrides, o.name)
    requires Settled(graph, overrides, k) && Settled(graph, overrides, o)
    ensures k == o
  {
    if k.name == o.name { CompareLaws(k.version, o.version); }
  }

  /** On a discovered graph a walk never leaves the graph and never meets two versions of a name. */
  lemma UnreachableErrors(w: Workspace, graph: DepGraph, e: Selection.SelectionError)
    requires ValidFiles(w) && Discovery.Discovered(w, graph)
    ensures Selection.AllowedPresent(graph, w.overrides) && Selection.Defect(graph, w.overrides, e)
        ==> e.NotAllowed? || e.DuplicateDep?
  {
    DiscoveredIsSound(w, graph);
    if !Selection.AllowedPresent(graph, w.overrides) || !Selection.Defect(graph, w.overrides, e) { return; }
    match e
    case AllowedMissing(_) =>
    case NotInGraph(k) => ReachableIsSettled(graph, w.overrides, k);
    case NotAllowed(_) =>
    case DuplicateDep(_) =>
    case Conflict(k, o) =>
      ReachableIsSettled(graph, w.overrides, k);
      ReachableIsSettled(graph, w.overrides, o);
      ConflictIsNamesake(graph, w.overrides, k, o);
  }

  /** Every regular edge of a selected module lands on a selected module. */
  lemma EdgesLand(graph: DepGraph, overrides: Overrides, s: Selection.Selected)
    requires Selection.IsSelection(graph, overrides, s)
    ensures forall i, d | 0 <= i < |s.resolved| && 0 <= d < |s.resolved[i].1.deps| ::
              s.resolved[i].1.deps[d].spec.ToKey() in Selection.Keys(s.resolved)
  {
    var next := Selection.Next(graph, overrides, true);
    forall i, d | 0 <= i < |s.resolved| && 0 <= d < |s.resolved[i].1.deps|
      ensures s.resolved[i].1.deps[d].spec.ToKey() in Selection.Keys(s.resolved)
    {
      var k := s.resolved[i].0;
      assert k == Selection.Keys(s.resolved)[i];
      assert next(k)[d] == s.resolved[i].1.deps[d].spec.ToKey();
      ReachableStep(next, ROOT, k, d);
    }
  }

  lemma SelectedIsSettled(graph: DepGraph, overrides: Overrides, s: Selection.Selected, i: nat)
    requires SoundGraph(graph, overrides) && Selection.AllowedPresent(graph, overrides)
    requires Selection.IsSelection(graph, overrides, s) && i < |s.resolved|
    ensures Settled(graph, overrides, s.resolved[i].0)
  {
    var k := s.resolved[i].0;
    assert k == Selection.Keys(s.resolved)[i];
    Selection.ReachableMore(graph, overrides, k);
    ReachableIsSettled(graph, overrides, k);
  }

  /** Without a `multiple_version_override` a name is selected in one version: the highest discovered. */
  lemma OneVersionPerName(w: Workspace, graph: DepGraph, s: Selection.Selected, i: nat, j: nat)
    requires ValidFiles(w) && Discovery.Discovered(w, graph)
    requires Selection.AllowedPresent(graph, w.overrides) && Selection.IsSelection(graph, w.overrides, s)
    requires i < |s.resolved| && j < |s.resolved| && s.resolved[i].0.name == s.resolved[j].0.name
    requires !Selection.HasAllowed(w.overrides, s.resolved[i].0.name)
    ensures IsGreatest(Selection.VersionsOf(graph, s.resolved[i].0.name), s.resolved[i].0.version)
    ensures i == j
  {
    DiscoveredIsSound(w, graph);
    SelectedIsSettled(graph, w.overrides, s, i);
    SelectedIsSettled(graph, w.overrides, s, j);
    CompareLaws(s.resolved[i].0.version, s.resolved[j].0.version);
    assert Selection.Keys(s.resolved)[i] == Selection.Keys(s.resolved)[j];
  }

  // ---------- Resolving a workspace ----------

  datatype ResolveError =
    | Undiscovered(discovery: Discovery.DiscoverError)
    | Unselected(selection: Selection.SelectionError)

  /** Module files in, selected graph out. */
  method ResolveWorkspace(w: Workspace) returns (r: Result<Selection.Selected, ResolveError>)
    requires ValidFiles(w)
    ensures r.Ok? ==> exists graph ::
              && Discovery.Discovered(w, graph) && Selection.IsSelection(graph, w.overrides, r.value)
              && forall e :: !Selection.Defect(graph, w.overrides, e)
    ensures r.Err? && r.error.Undiscovered? ==>
              Discovery.ReadModule(w, r.error.discovery.key) == Err(r.error.discovery)
              && forall keys | Discovery.Closed(w, keys) :: r.error.discovery.key in keys
    ensures r.Err? && r.error.Unselected? ==>
              && !r.error.selection.NotInGraph? && !r.error.selection.Conflict?
              && exists graph ::
                   && Discovery.Discovered(w, graph) && Selection.Defect(graph, w.overrides, r.error.selection)
                   && (r.error.selection.AllowedMissing? ==>
                         Selection.FirstMissing(graph, w.overrides, r.error.selection.key))
  {
    var graph := Discovery.Discover(w);
    if graph.Err? {
      return Err(Undiscovered(graph.error));
    }
    var s := Selection.Run(graph.value, w.overrides);
    if s.Err? {
      if !s.error.AllowedMissing? { UnreachableErrors(w, graph.value, s.error); }
      return Err(Unselected(s.error));
    }
    r := Ok(s.value);
  }

  // ---------- Canonical repository names ----------

  predicate WellKnown(name: string) { name == "bazel_tools" || name == "platforms" }

  function CanonicalRepoName(k: ModuleKey): string {
    if WellKnown(k.name) then k.name
    else if k == ROOT then ""
    else k.name + "+"
  }

  function CanonicalRepoNameWithVersion(k: ModuleKey): Option<string> {
    if WellKnown(k.name) then Some(k.name)
    else if k.version == EMPTY then None
    else Some(k.name + "+" + k.version.normalized)
  }

  /** Whether more than one version of a name was selected. */
  predicate Several(keys: seq<ModuleKey>, name: string) {
    exists i, j | 0 <= i < j < |keys| :: keys[i].name == name && keys[j].name == name
  }

  /** The name alone, or with the version when the name alone would not tell versions apart. */
  function CanonicalNameOf(keys: seq<ModuleKey>, k: ModuleKey): string {
    match CanonicalRepoNameWithVersion(k)
    case Some(text) => if Several(keys, k.name) then text else CanonicalRepoName(k)
    case None => CanonicalRepoName(k)
  }

  /**
   The canonical names: a well-known module's own name, nothing for the root, and else the name and `+`, with
   the version after it when several versions are selected and this one has a text.
  */
  lemma CanonicalNameByCases(keys: seq<ModuleKey>, k: ModuleKey)
    ensures CanonicalNameOf(keys, k)
         == if k.name == "bazel_tools" || k.name == "platforms" then k.name
            else if k.name == "" && k.version == EMPTY then ""
            else if (exists i, j | 0 <= i < j < |keys| :: keys[i].name == k.name && keys[j].name == k.name)
            then k.name + ['+'] + k.version.normalized
            else k.name + ['+']
  {
    SpellingIsNormalized(k.version);
    assert k.name + "+" == k.name + ['+'];
    assert k.version == EMPTY ==> k.name + ['+'] + k.version.normalized == k.name + ['+'];
    assert k.name + "+" + k.version.normalized == k.name + ['+'] + k.version.normalized;
  }

  lemma CanonicalNameShape(keys: seq<ModuleKey>, k: ModuleKey)
    requires k == ROOT || ValidName(k.name)
    ensures k != ROOT && !WellKnown(k.name) ==>
              CanonicalNameOf(keys, k)
              == k.name + ['+'] + if Several(keys, k.name) then k.version.normalized else ""
  {
    SpellingIsNormalized(k.version);
    assert k.name + "+" == k.name + ['+'] + "";
    assert k.name + "+" + k.version.normalized == k.name + ['+'] + k.version.normalized;
  }

  /** Two selected modules share a canonical name exactly when they are versions of a well-known one. */
  lemma CanonicalNamesClash(keys: seq<ModuleKey>, i: nat, j: nat)
    requires Distinct(keys) && forall k <- keys :: k == ROOT || ValidName(k.name)
    requires i < j < |keys|
    ensures CanonicalNameOf(keys, keys[i]) == CanonicalNameOf(keys, keys[j])
       <==> keys[i].name == keys[j].name && WellKnown(keys[i].name)
  {
    var a, b := keys[i], keys[j];
    CanonicalNameShape(keys, a);
    CanonicalNameShape(keys, b);
    var suffix := (k: ModuleKey) => if Several(keys, k.name) then k.version.normalized else "";
    if a != ROOT && b != ROOT && !WellKnown(a.name) && !WellKnown(b.name) {
      SplitOnceFirst(a.name, '+', suffix(a));
      SplitOnceFirst(b.name, '+', suffix(b));
      CompareLaws(a.version, b.version);
    } else {
      var text := (k: ModuleKey) => CanonicalNameOf(keys, k);
      assert !WellKnown(a.name) && a != ROOT ==> text(a)[|a.name|] == '+' && '+' in text(a);
      assert !WellKnown(b.name) && b != ROOT ==> text(b)[|b.name|] == '+' && '+' in text(b);
    }
  }

  /** The same of the modules a selection gives: only a well-known module with several versions allowed clashes. */
  lemma SelectedNamesClash(w: Workspace, graph: DepGraph, s: Selection.Selected, i: nat, j: nat)
    requires ValidFiles(w) && Discovery.Discovered(w, graph)
    requires Selection.AllowedPresent(graph, w.overrides) && Selection.IsSelection(graph, w.overrides, s)
    requires i < j < |s.resolved|
    ensures var keys := Selection.Keys(s.resolved);
            CanonicalNameOf(keys, keys[i]) == CanonicalNameOf(keys, keys[j])
            <==> keys[i].name == keys[j].name && WellKnown(keys[i].name)
    ensures var keys := Selection.Keys(s.resolved);
            CanonicalNameOf(keys, keys[i]) == CanonicalNameOf(keys, keys[j])
            ==> Selection.HasAllowed(w.overrides, keys[i].name)
  {
    var keys := Selection.Keys(s.resolved);
    DiscoveredIsSound(w, graph);
    forall k <- keys ensures k == ROOT || ValidName(k.name) {
      var n: nat :| n < |keys| && keys[n] == k;
      assert s.resolved[n].0 == k && k in graph;
    }
    CanonicalNamesClash(keys, i, j);
    if keys[i].name == keys[j].name && !Selection.HasAllowed(w.overrides, keys[i].name) {
      OneVersionPerName(w, graph, s, i, j);
    }
  }

  // ---------- Two versions of a well-known module ----------

  /** The main module asks for two versions of `platforms`, both allowed. */
  function TwoPlatforms(v1: Version, v2: Version): Workspace {
    var asks := [Dep("old", DepSpec("platforms", v1)), Dep("new", DepSpec("platforms", v2))];
    Discovery.Workspace(
      Module("main", EMPTY, "main", asks, []),
      map["platforms" := MultipleVersion([v1, v2])],
      map[ModuleKey("platforms", v1) := Module("platforms", v1, "platforms", [], []),
          ModuleKey("platforms", v2) := Module("platforms", v2, "platforms", [], [])])
  }

  /** What discovery finds there. */
  function TwoPlatformsGraph(v1: Version, v2: Version): DepGraph {
    var w := TwoPlatforms(v1, v2);
    map[ROOT := w.root] + w.registry
  }

  lemma Unchanged(w: Workspace, m: Module)
    requires forall i | 0 <= i < |m.deps| :: Discovery.ApplyOverrides(m.deps[i].spec, w) == m.deps[i].spec
    requires m.nodepDeps == []
    ensures Discovery.Overridden(w, m) == m
  {
    hide Discovery.ApplyOverrides;
    var n := Discovery.Overridden(w, m);
    assert n.deps == m.deps && n.nodepDeps == m.nodepDeps;
  }

  lemma TwoPlatformsModules(v1: Version, v2: Version, k: ModuleKey)
    requires k in TwoPlatformsGraph(v1, v2)
    ensures Discovery.Readable(TwoPlatforms(v1, v2), k)
    ensures Discovery.ModuleAt(TwoPlatforms(v1, v2), k) == TwoPlatformsGraph(v1, v2)[k]
  {
    hide Discovery.Overridden;
    var w := TwoPlatforms(v1, v2);
    Unchanged(w, TwoPlatformsGraph(v1, v2)[k]);
  }

  lemma TwoPlatformsClosed(v1: Version, v2: Version)
    ensures Discovery.Closed(TwoPlatforms(v1, v2), TwoPlatformsGraph(v1, v2).Keys)
    ensures Discovery.GraphOf(TwoPlatforms(v1, v2), TwoPlatformsGraph(v1, v2))
  {
    var w, graph := TwoPlatforms(v1, v2), TwoPlatformsGraph(v1, v2);
    forall k <- graph
      ensures Discovery.Readable(w, k) && graph[k] == Discovery.Retained(Discovery.ModuleAt(w, k), graph.Keys)
      ensures Discovery.EdgesInside(Discovery.ModuleAt(w, k), Discovery.Names(w, graph.Keys), graph.Keys)
    {
      TwoPlatformsModules(v1, v2, k);
      hide Discovery.ModuleAt, Discovery.Readable, Discovery.Names;
    }
    hide Discovery.ModuleAt, Discovery.Readable, Discovery.EdgesInside, Discovery.Retained;
  }

  lemma ClosedHasBoth(v1: Version, v2: Version, keys: set<ModuleKey>)
    requires Discovery.Closed(TwoPlatforms(v1, v2), keys)
    ensures ROOT in keys && ModuleKey("platforms", v1) in keys && ModuleKey("platforms", v2) in keys
  {
    hide Discovery.ModuleAt, Discovery.Names;
    var w := TwoPlatforms(v1, v2);
    TwoPlatformsModules(v1, v2, ROOT);
    assert Discovery.EdgesInside(w.root, Discovery.Names(w, keys), keys);
    assert w.root.deps[0].spec.ToKey() in keys && w.root.deps[1].spec.ToKey() in keys;
  }

  /** Both versions are discovered. */
  lemma TwoPlatformsDiscovered(v1: Version, v2: Version)
    ensures Discovery.Discovered(TwoPlatforms(v1, v2), TwoPlatformsGraph(v1, v2))
  {
    hide Discovery.GraphOf, Discovery.Closed;
    TwoPlatformsClosed(v1, v2);
    forall keys | Discovery.Closed(TwoPlatforms(v1, v2), keys) ensures TwoPlatformsGraph(v1, v2).Keys <= keys {
      ClosedHasBoth(v1, v2, keys);
    }
  }

  lemma BothWanted(v1: Version, v2: Version, v: Version)
    requires v == v1 || v == v2
    ensures v != EMPTY ==>
              Selection.Wanted(TwoPlatformsGraph(v1, v2), TwoPlatforms(v1, v2).overrides, DepSpec("platforms", v)) == v
  {
    if v != EMPTY {
      AtMostOrder();
      var from := Selection.AllowedFrom(TwoPlatforms(v1, v2).overrides, "platforms", v);
      assert v in from;
      LeastUnique(from, v);
    }
  }

  lemma NothingChanges(v1: Version, v2: Version, k: ModuleKey)
    requires v1 != EMPTY && v2 != EMPTY && k in TwoPlatformsGraph(v1, v2)
    ensures var graph := TwoPlatformsGraph(v1, v2);
            Selection.Final(graph, TwoPlatforms(v1, v2).overrides, graph[k]) == graph[k]
  {
    hide Selection.Wanted;
    var graph, overrides := TwoPlatformsGraph(v1, v2), TwoPlatforms(v1, v2).overrides;
    BothWanted(v1, v2, v1);
    BothWanted(v1, v2, v2);
    var final := Selection.Final(graph, overrides, graph[k]);
    forall i | 0 <= i < |graph[k].deps| ensures final.deps[i] == graph[k].deps[i] {
      var spec := graph[k].deps[i].spec;
      assert k == ROOT && spec in {DepSpec("platforms", v1), DepSpec("platforms", v2)};
      assert spec.WithVersion(Selection.Wanted(graph, overrides, spec)) == spec;
    }
    assert final.deps == graph[k].deps && final.nodepDeps == graph[k].nodepDeps;
  }

  /** What is selected there: the main module and both versions. */
  function BothSelected(v1: Version, v2: Version): Selection.Selected {
    var graph := TwoPlatformsGraph(v1, v2);
    var k1, k2 := ModuleKey("platforms", v1), ModuleKey("platforms", v2);
    Selection.Selected([(ROOT, graph[ROOT]), (k1, graph[k1]), (k2, graph[k2])], graph)
  }

  /** The walk from the main module, which finds the two in the order they are asked for. */
  lemma BothReached(v1: Version, v2: Version, next: ModuleKey -> seq<ModuleKey>)
    requires v1 != v2 && v1 != EMPTY && v2 != EMPTY
    requires next(ROOT) == [ModuleKey("platforms", v1), ModuleKey("platforms", v2)]
    requires next(ModuleKey("platforms", v1)) == [] && next(ModuleKey("platforms", v2)) == []
    ensures BreadthFirstList(next, ROOT, [ROOT, ModuleKey("platforms", v1), ModuleKey("platforms", v2)])
  {
    hide BreadthFirstList;
    var order := [ROOT, ModuleKey("platforms", v1), ModuleKey("platforms", v2)];
    forall j | 0 < j < 3 ensures Queued(next, order, [0, 0, 0], [0, 0, 1], 3, 0, j) {
      assert Mentions(next, order, 0, j - 1, order[j]);
    }
    SearchFinished(next, ROOT, order, [0, 0, 0], [0, 0, 1]);
  }

  lemma BothAreSelected(v1: Version, v2: Version)
    requires v1 != v2 && v1 != EMPTY && v2 != EMPTY
    ensures Selection.IsSelection(TwoPlatformsGraph(v1, v2), TwoPlatforms(v1, v2).overrides, BothSelected(v1, v2))
  {
    var graph, overrides := TwoPlatformsGraph(v1, v2), TwoPlatforms(v1, v2).overrides;
    var next := Selection.Next(graph, overrides, true);
    var k1, k2 := ModuleKey("platforms", v1), ModuleKey("platforms", v2);
    hide Selection.Final, BreadthFirstList;
    forall k <- graph ensures Selection.Final(graph, overrides, graph[k]) == graph[k] {
      NothingChanges(v1, v2, k);
    }
    assert next(ROOT) == [k1, k2] && next(k1) == [] && next(k2) == [];
    BothReached(v1, v2, next);
    assert Selection.Keys(BothSelected(v1, v2).resolved) == [ROOT, k1, k2];
  }

  /** Two selected modules with one canonical name: two versions of `platforms`. */
  lemma TwoPlatformsShareAName(v1: Version, v2: Version)
    requires v1 != v2 && v1 != EMPTY && v2 != EMPTY
    ensures ValidFiles(TwoPlatforms(v1, v2))
    ensures Discovery.Discovered(TwoPlatforms(v1, v2), TwoPlatformsGraph(v1, v2))
    ensures Selection.IsSelection(TwoPlatformsGraph(v1, v2), TwoPlatforms(v1, v2).overrides, BothSelected(v1, v2))
    ensures var keys := Selection.Keys(BothSelected(v1, v2).resolved);
            keys[1] != keys[2] && CanonicalNameOf(keys, keys[1]) == CanonicalNameOf(keys, keys[2]) == "platforms"
  {
    hide Selection.IsSelection, Discovery.Discovered, ValidFiles, CanonicalNameOf, TwoPlatformsGraph, TwoPlatforms;
    TwoPlatformsAreValid(v1, v2);
    TwoPlatformsDiscovered(v1, v2);
    BothAreSelected(v1, v2);
    WellKnownName(Selection.Keys(BothSelected(v1, v2).resolved), ModuleKey("platforms", v1));
    WellKnownName(Selection.Keys(BothSelected(v1, v2).resolved), ModuleKey("platforms", v2));
  }

  lemma TwoPlatformsAreValid(v1: Version, v2: Version)
    ensures ValidFiles(TwoPlatforms(v1, v2))
  {
    assert ValidName("platforms") && ValidName("main");
  }

  lemma WellKnownName(keys: seq<ModuleKey>, k: ModuleKey)
    requires WellKnown(k.name)
    ensures CanonicalNameOf(keys, k) == k.name
  {
  }

  ghost predicate SelectionClashes(w: Workspace, graph: DepGraph, s: Selection.Selected) {
    && ValidFiles(w) && Discovery.Discovered(w, graph) && Selection.IsSelection(graph, w.overrides, s)
    && var keys := Selection.Keys(s.resolved);
       exists i, j | 0 <= i < j < |keys| :: CanonicalNameOf(keys, keys[i]) == CanonicalNameOf(keys, keys[j])
  }

  /** There are such versions: 1.0.1 and 1.0.2 will do. */
  lemma SomeSelectionClashes()
    ensures exists w, graph, s :: SelectionClashes(w, graph, s)
  {
    SemVer.PatchLevelsDiffer(1, 2);
    var v1 := Parse(SemVer.Print(SemVer.Semantic(1, 0, 1, [], []))).value;
    var v2 := Parse(SemVer.Print(SemVer.Semantic(1, 0, 2, [], []))).value;
    hide Parse, SemVer.Print, CanonicalNameOf, ValidFiles, Discovery.Discovered, Selection.IsSelection;
    TwoPlatformsShareAName(v1, v2);
    var keys := Selection.Keys(BothSelected(v1, v2).resolved);
    assert CanonicalNameOf(keys, keys[1]) == CanonicalNameOf(keys, keys[2]);
    assert SelectionClashes(TwoPlatforms(v1, v2), TwoPlatformsGraph(v1, v2), BothSelected(v1, v2));
  }
}
