/**
 Module discovery: reading module files outward from the root. A nodep edge counts only once a
 module of its name is known, so the search runs in rounds.
*/
module Discovery {
  import opened Text
  import opened Versions
  import opened Modules

  /** Everything discovery reads: the root module, its overrides, and the files the registry has. */
  datatype Workspace = Workspace(root: Module, overrides: Overrides, registry: map<ModuleKey, Module>)

  datatype DiscoverError =
    | NotFound(key: ModuleKey)
    | BadModule(key: ModuleKey)

  // ---------- Overrides and reading ----------

  function ApplyOverrides(dep: DepSpec, w: Workspace): DepSpec {
    if w.root.name != "" && dep.name == w.root.name then DepSpec("", EMPTY)
    else if dep.name in w.overrides then
      match w.overrides[dep.name]
      case NonRegistry => dep.WithVersion(EMPTY)
      case SingleVersion(v) => if v != EMPTY then dep.WithVersion(v) else dep
      case MultipleVersion(_) => dep
    else dep
  }

  function Overridden(w: Workspace, m: Module): Module {
    m.WithDepsTransformed(dep => ApplyOverrides(dep, w))
  }

  /** The module file of a key, refused when it declares another name or version. */
  function ReadModule(w: Workspace, key: ModuleKey): Result<Module, DiscoverError> {
    if key !in w.registry then Err(NotFound(key))
    else
      var m := w.registry[key];
      if key != ROOT && (m.name != key.name || (key.version != EMPTY && m.version != key.version))
      then Err(BadModule(key))
      else Ok(Overridden(w, m))
  }

  predicate Readable(w: Workspace, key: ModuleKey) {
    key == ROOT || ReadModule(w, key).Ok?
  }

  /** The module at a key, its edges overridden; one that cannot be read has no edges. */
  function ModuleAt(w: Workspace, key: ModuleKey): Module {
    if key == ROOT then Overridden(w, w.root)
    else
      match ReadModule(w, key)
      case Ok(m) => m
      case Err(_) => Module(key.name, key.version, key.name, [], [])
  }

  function NameAt(w: Workspace, key: ModuleKey): string {
    if key == ROOT then w.root.name else key.name
  }

  function Names(w: Workspace, keys: set<ModuleKey>): set<string> {
    set k | k in keys :: NameAt(w, k)
  }

  // ---------- What discovery should find ----------

  /** The edges of a module that count, when `names` are the known names, stay inside `keys`. */
  ghost predicate EdgesInside(m: Module, names: set<string>, keys: set<ModuleKey>) {
    && (forall i | 0 <= i < |m.deps| :: m.deps[i].spec.ToKey() in keys)
    && (forall i | 0 <= i < |m.nodepDeps| && m.nodepDeps[i].name in names ::
          m.nodepDeps[i].ToKey() in keys)
  }

  /** Closed for one round, in which exactly the nodep edges to `names` count. */
  ghost predicate RoundClosed(w: Workspace, names: set<string>, keys: set<ModuleKey>) {
    ROOT in keys && forall k <- keys :: EdgesInside(ModuleAt(w, k), names, keys)
  }

  /** Closed under every edge, a nodep edge counting when its name occurs in the set itself. */
  ghost predicate Closed(w: Workspace, keys: set<ModuleKey>) {
    RoundClosed(w, Names(w, keys), keys)
  }

  ghost predicate AllReadable(w: Workspace, keys: set<ModuleKey>) {
    forall k <- keys :: Readable(w, k)
  }

  /** A module with the nodep edges to absent keys dropped. */
  function Retained(m: Module, present: set<ModuleKey>): Module {
    m.(nodepDeps := KeepPresent(m.nodepDeps, present))
  }

  function KeepPresent(specs: seq<DepSpec>, present: set<ModuleKey>): (r: seq<DepSpec>)
    ensures forall spec :: spec in r <==> spec in specs && spec.ToKey() in present
  {
    if specs == [] then []
    else if specs[0].ToKey() in present then [specs[0]] + KeepPresent(specs[1..], present)
    else KeepPresent(specs[1..], present)
  }

  /** The graph holds, at each of its keys, the overridden module without its unfulfilled edges. */
  ghost predicate GraphOf(w: Workspace, graph: DepGraph) {
    forall k <- graph :: Readable(w, k) && graph[k] == Retained(ModuleAt(w, k), graph.Keys)
  }

  /** The graph over the least closed set of keys. */
  ghost predicate Discovered(w: Workspace, graph: DepGraph) {
    && GraphOf(w, graph)
    && Closed(w, graph.Keys)
    && forall keys | Closed(w, keys) :: graph.Keys <= keys
  }

  // ---------- One round ----------

  datatype Round = Round(graph: DepGraph, unfulfilled: set<string>)

  /** Every edge of `m` leads into `keys`, or is a nodep edge noted as unfulfilled. */
  ghost predicate Expanded(m: Module, keys: set<ModuleKey>, unfulfilled: set<string>) {
    && (forall i | 0 <= i < |m.deps| :: m.deps[i].spec.ToKey() in keys)
    && (forall i | 0 <= i < |m.nodepDeps| ::
          m.nodepDeps[i].ToKey() in keys || m.nodepDeps[i].name in unfulfilled)
  }

  /** What a round gives: the least round-closed set, and the names of the edges left out. */
  ghost predicate IsRound(w: Workspace, names: set<string>, round: Round) {
    && GraphOf(w, round.graph)
    && RoundClosed(w, names, round.graph.Keys)
    && (forall keys | RoundClosed(w, names, keys) :: round.graph.Keys <= keys)
    && round.unfulfilled !! names
    && forall k <- round.graph :: Expanded(ModuleAt(w, k), round.graph.Keys, round.unfulfilled)
  }

  /** `key` is the target of an edge of `m` that counts. */
  ghost predicate Counted(m: Module, names: set<string>, key: ModuleKey) {
    || (exists i | 0 <= i < |m.deps| :: m.deps[i].spec.ToKey() == key)
    || (exists i | 0 <= i < |m.nodepDeps| && m.nodepDeps[i].name in names :: m.nodepDeps[i].ToKey() == key)
  }

  /** `key` is in the least round-closed set. */
  ghost predicate InEvery(w: Workspace, names: set<string>, key: ModuleKey) {
    forall keys | RoundClosed(w, names, keys) :: key in keys
  }

  lemma InEveryStep(w: Workspace, names: set<string>, from: ModuleKey, key: ModuleKey)
    requires InEvery(w, names, from) && Counted(ModuleAt(w, from), names, key)
    ensures InEvery(w, names, key)
  {
    forall keys | RoundClosed(w, names, keys) ensures key in keys {
      assert EdgesInside(ModuleAt(w, from), names, keys);
    }
  }

  /** Queues the targets of one module's edges that count and are not known yet. */
  method QueueEdges(
    m: Module, graph: DepGraph, names: set<string>, queued: seq<ModuleKey>, noted: set<string>)
    returns (nextKeys: seq<ModuleKey>, unfulfilled: set<string>)
    ensures queued <= nextKeys
    ensures noted <= unfulfilled && unfulfilled - noted !! names
    ensures Expanded(m, graph.Keys + (set k | k in nextKeys), unfulfilled)
    ensures forall k <- nextKeys :: k in queued || (k !in graph && Counted(m, names, k))
  {
    nextKeys, unfulfilled := queued, noted;
    for i := 0 to |m.deps|
      invariant unfulfilled == noted
      invariant queued <= nextKeys
      invariant forall j | 0 <= j < i :: m.deps[j].spec.ToKey() in graph || m.deps[j].spec.ToKey() in nextKeys
      invariant forall k <- nextKeys :: k in queued || (k !in graph && Counted(m, names, k))
    {
      var depKey := m.deps[i].spec.ToKey();
      if depKey !in graph && depKey !in nextKeys {
        nextKeys := nextKeys + [depKey];
      }
    }
    for i := 0 to |m.nodepDeps|
      invariant noted <= unfulfilled && unfulfilled - noted !! names
      invariant queued <= nextKeys
      invariant forall j | 0 <= j < |m.deps| :: m.deps[j].spec.ToKey() in graph || m.deps[j].spec.ToKey() in nextKeys
      invariant forall j | 0 <= j < i ::
          || m.nodepDeps[j].ToKey() in graph || m.nodepDeps[j].ToKey() in nextKeys
          || m.nodepDeps[j].name in unfulfilled
      invariant forall k <- nextKeys :: k in queued || (k !in graph && Counted(m, names, k))
    {
      var depKey := m.nodepDeps[i].ToKey();
      if depKey in graph || depKey in nextKeys {
        continue;
      }
      if m.nodepDeps[i].name !in names {
        unfulfilled := unfulfilled + {m.nodepDeps[i].name};
        continue;
      }
      nextKeys := nextKeys + [depKey];
    }
  }

  /** One breadth-first layer: what the modules of `horizon` lead to. */
  method QueueHorizon(
    w: Workspace, names: set<string>, graph: DepGraph, horizon: seq<ModuleKey>, noted: set<string>)
    returns (nextKeys: seq<ModuleKey>, unfulfilled: set<string>)
    requires forall k <- horizon :: k in graph && graph[k] == ModuleAt(w, k) && InEvery(w, names, k)
    requires noted !! names
    ensures noted <= unfulfilled && unfulfilled !! names
    ensures forall k <- nextKeys :: k !in graph && InEvery(w, names, k)
    ensures forall k <- horizon :: Expanded(ModuleAt(w, k), graph.Keys + (set n | n in nextKeys), unfulfilled)
  {
    nextKeys, unfulfilled := [], noted;
    for i := 0 to |horizon|
      invariant noted <= unfulfilled && unfulfilled !! names
      invariant forall k <- nextKeys :: k !in graph && InEvery(w, names, k)
      invariant forall j | 0 <= j < i ::
          Expanded(ModuleAt(w, horizon[j]), graph.Keys + (set n | n in nextKeys), unfulfilled)
    {
      ghost var queued := nextKeys;
      nextKeys, unfulfilled := QueueEdges(graph[horizon[i]], graph, names, nextKeys, unfulfilled);
      forall k <- nextKeys | k !in queued ensures InEvery(w, names, k) {
        InEveryStep(w, names, horizon[i], k);
      }
    }
  }

  /** Reads a layer's module files, in order, stopping at the first that fails. */
  method ReadLayer(w: Workspace, graph: DepGraph, keys: seq<ModuleKey>)
    returns (r: Result<DepGraph, DiscoverError>)
    requires forall k <- keys :: k !in graph
    requires ROOT in graph
    ensures r.Ok? <==> forall k <- keys :: ReadModule(w, k).Ok?
    ensures r.Ok? ==> r.value.Keys == graph.Keys + (set k | k in keys)
    ensures r.Ok? ==> forall k <- r.value :: r.value[k] == if k in graph then graph[k] else ModuleAt(w, k)
    ensures r.Err? ==> exists i | 0 <= i < |keys| ::
              ReadModule(w, keys[i]) == Err(r.error) && forall j | 0 <= j < i :: ReadModule(w, keys[j]).Ok?
  {
    var out := graph;
    for i := 0 to |keys|
      invariant forall j | 0 <= j < i :: ReadModule(w, keys[j]).Ok?
      invariant out.Keys == graph.Keys + (set k | k in keys[..i])
      invariant forall k <- out :: out[k] == if k in graph then graph[k] else ModuleAt(w, k)
    {
      var m := ReadModule(w, keys[i]);
      if m.Err? {
        assert ReadModule(w, keys[i]) == Err(m.error);
        return Err(m.error);
      }
      out := out[keys[i] := m.value];
      assert keys[..i + 1] == keys[..i] + [keys[i]];
    }
    assert keys[..|keys|] == keys;
    r := Ok(out);
  }

  /** What the search keeps: the graph read so far is part of the least round-closed set. */
  ghost predicate Searched(w: Workspace, names: set<string>, graph: DepGraph) {
    && ROOT in graph && graph.Keys <= {ROOT} + w.registry.Keys
    && forall k <- graph :: Readable(w, k) && graph[k] == ModuleAt(w, k) && InEvery(w, names, k)
  }

  /** Every module but those of `horizon` has been expanded. */
  ghost predicate ExpandedBut(w: Workspace, graph: DepGraph, horizon: seq<ModuleKey>, unfulfilled: set<string>) {
    forall k <- graph :: k in horizon || Expanded(ModuleAt(w, k), graph.Keys, unfulfilled)
  }

  /** One turn of the search: expand the horizon and read what it leads to. */
  method DiscoverLayer(
    w: Workspace, names: set<string>, graph: DepGraph, horizon: seq<ModuleKey>, noted: set<string>)
    returns (r: Result<(DepGraph, seq<ModuleKey>), DiscoverError>, unfulfilled: set<string>)
    requires Searched(w, names, graph) && ExpandedBut(w, graph, horizon, noted) && noted !! names
    requires forall k <- horizon :: k in graph
    ensures unfulfilled !! names
    ensures r.Ok? ==> Searched(w, names, r.value.0) && (forall k <- r.value.1 :: k in r.value.0)
    ensures r.Ok? ==> ExpandedBut(w, r.value.0, r.value.1, unfulfilled)
    ensures r.Ok? ==> if r.value.1 == [] then r.value.0 == graph
                      else w.registry.Keys - r.value.0.Keys < w.registry.Keys - graph.Keys
    ensures r.Err? ==> ReadModule(w, r.error.key) == Err(r.error) && r.error.key != ROOT
    ensures r.Err? ==> InEvery(w, names, r.error.key)
  {
    var nextKeys;
    nextKeys, unfulfilled := QueueHorizon(w, names, graph, horizon, noted);
    var layer := ReadLayer(w, graph, nextKeys);
    if layer.Err? {
      return Err(layer.error), unfulfilled;
    }
    r := Ok((layer.value, nextKeys));
    if nextKeys != [] {
      assert nextKeys[0] in layer.value && nextKeys[0] !in graph && nextKeys[0] in w.registry;
    } else {
      assert layer.value == graph;
    }
  }

  /** A breadth-first search in which the nodep edges to `names` count. */
  method DiscoverRound(w: Workspace, names: set<string>) returns (r: Result<Round, DiscoverError>)
    ensures r.Ok? ==> IsRound(w, names, r.value)
    ensures r.Err? ==> ReadModule(w, r.error.key) == Err(r.error) && r.error.key != ROOT
    ensures r.Err? ==> InEvery(w, names, r.error.key)
  {
    var graph: DepGraph := map[ROOT := Overridden(w, w.root)];
    var unfulfilled: set<string> := {};
    var horizon := [ROOT];
    while horizon != []
      invariant Searched(w, names, graph) && unfulfilled !! names
      invariant ExpandedBut(w, graph, horizon, unfulfilled)
      invariant forall k <- horizon :: k in graph
      decreases w.registry.Keys - graph.Keys, |horizon|
    {
      var layer;
      layer, unfulfilled := DiscoverLayer(w, names, graph, horizon, unfulfilled);
      if layer.Err? {
        return Err(layer.error);
      }
      graph, horizon := layer.value.0, layer.value.1;
    }
    var round := Round(map k | k in graph :: Retained(graph[k], graph.Keys), unfulfilled);
    assert round.graph.Keys == graph.Keys;
    FinishedRound(w, names, round);
    r := Ok(round);
  }

  lemma FinishedRound(w: Workspace, names: set<string>, round: Round)
    requires ROOT in round.graph && GraphOf(w, round.graph) && round.unfulfilled !! names
    requires forall k <- round.graph :: InEvery(w, names, k)
    requires forall k <- round.graph :: Expanded(ModuleAt(w, k), round.graph.Keys, round.unfulfilled)
    ensures IsRound(w, names, round)
  {
    var keys := round.graph.Keys;
    forall k <- keys ensures EdgesInside(ModuleAt(w, k), names, keys) {
      assert Expanded(ModuleAt(w, k), keys, round.unfulfilled);
    }
  }

  // ---------- The rounds ----------

  lemma ClosedIsRoundClosed(w: Workspace, names: set<string>, keys: set<ModuleKey>)
    requires Closed(w, keys) && names <= Names(w, keys)
    ensures RoundClosed(w, names, keys)
  {
    forall k <- keys ensures EdgesInside(ModuleAt(w, k), names, keys) {
      assert EdgesInside(ModuleAt(w, k), Names(w, keys), keys);
    }
  }

  lemma RoundClosedAntitone(w: Workspace, fewer: set<string>, names: set<string>, keys: set<ModuleKey>)
    requires fewer <= names && RoundClosed(w, names, keys)
    ensures RoundClosed(w, fewer, keys)
  {
    forall k <- keys ensures EdgesInside(ModuleAt(w, k), fewer, keys) {
      assert EdgesInside(ModuleAt(w, k), names, keys);
    }
  }

  lemma NamesMonotone(w: Workspace, few: set<ModuleKey>, keys: set<ModuleKey>)
    requires few <= keys
    ensures Names(w, few) <= Names(w, keys)
  {
  }

  /** A round whose unfulfilled names are all absent has found a set closed outright. */
  lemma QuietRoundIsClosed(w: Workspace, names: set<string>, round: Round)
    requires IsRound(w, names, round)
    requires round.unfulfilled !! Names(w, round.graph.Keys)
    ensures Closed(w, round.graph.Keys)
  {
    var keys := round.graph.Keys;
    forall k <- keys ensures EdgesInside(ModuleAt(w, k), Names(w, keys), keys) {
      assert Expanded(ModuleAt(w, k), keys, round.unfulfilled);
    }
  }

  /** Knowing more names never loses a module, which is why the names only grow from round to round. */
  lemma RoundMonotone(w: Workspace, fewer: set<string>, names: set<string>, a: Round, b: Round)
    requires fewer <= names && IsRound(w, fewer, a) && IsRound(w, names, b)
    ensures a.graph.Keys <= b.graph.Keys
  {
    RoundClosedAntitone(w, fewer, names, b.graph.Keys);
  }

  lemma RegistryNames(w: Workspace, graph: DepGraph)
    requires GraphOf(w, graph)
    ensures Names(w, graph.Keys) <= {w.root.name} + Names(w, w.registry.Keys)
  {
    hide Retained, ModuleAt;
    forall k <- graph ensures NameAt(w, k) in {w.root.name} + Names(w, w.registry.Keys) {
      assert Readable(w, k);
    }
  }

  lemma DeclaredName(w: Workspace, graph: DepGraph, k: ModuleKey)
    requires GraphOf(w, graph) && k in graph
    ensures graph[k].name == NameAt(w, k)
  {
    hide KeepPresent, ApplyOverrides;
    assert Readable(w, k);
  }

  /** The names of a graph are the names its modules declare. */
  lemma DeclaredNames(w: Workspace, graph: DepGraph)
    requires GraphOf(w, graph)
    ensures (set k | k in graph :: graph[k].name) == Names(w, graph.Keys)
  {
    hide GraphOf, NameAt;
    var declared := set k | k in graph :: graph[k].name;
    var names := Names(w, graph.Keys);
    forall name ensures name in declared <==> name in names {
      if name in declared {
        var k :| k in graph && graph[k].name == name;
        DeclaredName(w, graph, k);
      }
      if name in names {
        var k :| k in graph.Keys && NameAt(w, k) == name;
        DeclaredName(w, graph, k);
      }
    }
  }

  lemma RootIsNamed(w: Workspace, keys: set<ModuleKey>)
    requires ROOT in keys
    ensures w.root.name in Names(w, keys)
  {
    assert NameAt(w, ROOT) == w.root.name;
  }

  /**
   The whole dependency graph: the least set that holds the root and is closed under the edges that
   count. It is found exactly when all of that set can be read.
  */
  method Discover(w: Workspace) returns (r: Result<DepGraph, DiscoverError>)
    ensures r.Ok? ==> Discovered(w, r.value)
    ensures r.Err? ==> ReadModule(w, r.error.key) == Err(r.error)
    ensures r.Err? ==> forall keys | Closed(w, keys) :: r.error.key in keys
    ensures r.Ok? <==> exists keys :: Closed(w, keys) && AllReadable(w, keys)
  {
    hide ReadModule, ModuleAt, Expanded, Counted, Retained, EdgesInside, NameAt;
    var previousNames := {w.root.name};
    forall keys: set<ModuleKey> | ROOT in keys ensures previousNames <= Names(w, keys) {
      RootIsNamed(w, keys);
    }
    while true
      invariant previousNames <= {w.root.name} + Names(w, w.registry.Keys)
      invariant forall keys | RoundClosed(w, previousNames, keys) :: previousNames <= Names(w, keys)
      invariant forall keys | Closed(w, keys) :: previousNames <= Names(w, keys)
      decreases {w.root.name} + Names(w, w.registry.Keys) - previousNames
    {
      var round := DiscoverRound(w, previousNames);
      forall keys | Closed(w, keys) ensures RoundClosed(w, previousNames, keys) {
        ClosedIsRoundClosed(w, previousNames, keys);
      }
      if round.Err? {
        return Err(round.error);
      }
      var graph := round.value.graph;
      var names := set k | k in graph :: graph[k].name;
      DeclaredNames(w, graph);
      RegistryNames(w, graph);
      var progressed := exists name <- round.value.unfulfilled :: name in names;
      assert previousNames <= names;
      if !progressed {
        QuietRoundIsClosed(w, previousNames, round.value);
        return Ok(graph);
      }
      forall keys | RoundClosed(w, names, keys) ensures names <= Names(w, keys) {
        RoundClosedAntitone(w, previousNames, names, keys);
        NamesMonotone(w, graph.Keys, keys);
      }
      forall keys | Closed(w, keys) ensures names <= Names(w, keys) {
        NamesMonotone(w, graph.Keys, keys);
      }
      previousNames := names;
    }
  }

  /** An edge is dropped from a discovered graph only when nothing of its name is there. */
  lemma DroppedOnlyWhenAbsent(w: Workspace, graph: DepGraph, key: ModuleKey, i: nat)
    requires Discovered(w, graph) && key in graph && i < |ModuleAt(w, key).nodepDeps|
    ensures ModuleAt(w, key).nodepDeps[i] !in graph[key].nodepDeps
       <==> ModuleAt(w, key).nodepDeps[i].ToKey() !in graph
    ensures ModuleAt(w, key).nodepDeps[i] !in graph[key].nodepDeps
        ==> ModuleAt(w, key).nodepDeps[i].name !in Names(w, graph.Keys)
  {
    assert EdgesInside(ModuleAt(w, key), Names(w, graph.Keys), graph.Keys);
  }

  /** Discovery has one answer. */
  lemma DiscoveredUnique(w: Workspace, a: DepGraph, b: DepGraph)
    requires Discovered(w, a) && Discovered(w, b)
    ensures a == b
  {
    assert a.Keys == b.Keys;
  }
}
