/** The selection in terms of the graph's own deps and nodep edges, each at the version it should get. */
module SelectedGraph {
  import opened Text
  import opened Versions
  import opened Modules
  import opened BreadthFirst
  import opened Selection

  /** `to` is the dependency, at the version it should get. */
  predicate Leads(graph: DepGraph, overrides: Overrides, dep: DepSpec, to: ModuleKey) {
    to.name == dep.name && to.version == Wanted(graph, overrides, dep)
  }

  predicate RegularEdge(graph: DepGraph, overrides: Overrides, k: ModuleKey, to: ModuleKey) {
    k in graph && exists d | 0 <= d < |graph[k].deps| :: Leads(graph, overrides, graph[k].deps[d].spec, to)
  }

  predicate NodepEdge(graph: DepGraph, overrides: Overrides, k: ModuleKey, to: ModuleKey) {
    k in graph && exists d | 0 <= d < |graph[k].nodepDeps| :: Leads(graph, overrides, graph[k].nodepDeps[d], to)
  }

  /** The edges that select. */
  function Regular(graph: DepGraph, overrides: Overrides): (ModuleKey, ModuleKey) -> bool {
    (k, to) => RegularEdge(graph, overrides, k, to)
  }

  /** The edges that are checked. */
  function Every(graph: DepGraph, overrides: Overrides): (ModuleKey, ModuleKey) -> bool {
    (k, to) => RegularEdge(graph, overrides, k, to) || NodepEdge(graph, overrides, k, to)
  }

  // ---------- Modules ----------

  /** The module with each edge at the version it should get, and nothing else changed. */
  predicate IsRewritten(graph: DepGraph, overrides: Overrides, m: Module, r: Module) {
    && r.name == m.name && r.version == m.version && r.repoName == m.repoName
    && |r.deps| == |m.deps| && |r.nodepDeps| == |m.nodepDeps|
    && (forall d | 0 <= d < |m.deps| ::
          && r.deps[d].repoName == m.deps[d].repoName
          && Leads(graph, overrides, m.deps[d].spec, r.deps[d].spec.ToKey()))
    && forall d | 0 <= d < |m.nodepDeps| :: Leads(graph, overrides, m.nodepDeps[d], r.nodepDeps[d].ToKey())
  }

  lemma FinalIsRewritten(graph: DepGraph, overrides: Overrides, m: Module)
    ensures IsRewritten(graph, overrides, m, Final(graph, overrides, m))
  {
    hide Wanted;
    var r := Final(graph, overrides, m);
    forall d | 0 <= d < |m.deps|
      ensures r.deps[d].repoName == m.deps[d].repoName
      ensures Leads(graph, overrides, m.deps[d].spec, r.deps[d].spec.ToKey())
    {
      var dep := m.deps[d].spec;
      assert r.deps[d].spec == dep.WithVersion(Wanted(graph, overrides, dep));
    }
    forall d | 0 <= d < |m.nodepDeps| ensures Leads(graph, overrides, m.nodepDeps[d], r.nodepDeps[d].ToKey()) {
      var dep := m.nodepDeps[d];
      assert r.nodepDeps[d] == dep.WithVersion(Wanted(graph, overrides, dep));
    }
  }

  /** Every selected module, and every one of the unpruned graph, is the discovered one with its edges rewritten. */
  lemma SelectedModules(graph: DepGraph, overrides: Overrides, s: Selected)
    requires IsSelection(graph, overrides, s)
    ensures forall i | 0 <= i < |s.resolved| ::
              s.resolved[i].0 in graph && IsRewritten(graph, overrides, graph[s.resolved[i].0], s.resolved[i].1)
    ensures s.unpruned.Keys == graph.Keys
    ensures forall k <- graph :: IsRewritten(graph, overrides, graph[k], s.unpruned[k])
  {
    hide IsRewritten, Final;
    forall k <- graph ensures IsRewritten(graph, overrides, graph[k], Final(graph, overrides, graph[k])) {
      FinalIsRewritten(graph, overrides, graph[k]);
    }
  }

  // ---------- Which modules ----------

  lemma NextAre(graph: DepGraph, overrides: Overrides, k: ModuleKey, to: ModuleKey)
    ensures to in Next(graph, overrides, true)(k) <==> RegularEdge(graph, overrides, k, to)
    ensures to in Next(graph, overrides, false)(k)
       <==> RegularEdge(graph, overrides, k, to) || NodepEdge(graph, overrides, k, to)
  {
    if k in graph {
      var m, final := graph[k], Final(graph, overrides, graph[k]);
      FinalIsRewritten(graph, overrides, m);
      hide Wanted, Final, Next;
      NextIs(graph, overrides, k);
      forall d | 0 <= d < |m.deps|
        ensures final.deps[d].spec.ToKey() == to <==> Leads(graph, overrides, m.deps[d].spec, to)
      {
      }
      forall d | 0 <= d < |m.nodepDeps|
        ensures final.nodepDeps[d].ToKey() == to <==> Leads(graph, overrides, m.nodepDeps[d], to)
      {
      }
      EdgeKeysAre(final, to);
    }
  }

  lemma NextIs(graph: DepGraph, overrides: Overrides, k: ModuleKey)
    requires k in graph
    ensures Next(graph, overrides, true)(k) == EdgeKeys(Final(graph, overrides, graph[k]), true)
    ensures Next(graph, overrides, false)(k) == EdgeKeys(Final(graph, overrides, graph[k]), false)
  {
    hide Final, EdgeKeys;
  }

  lemma EdgeKeysAre(m: Module, to: ModuleKey)
    ensures to in EdgeKeys(m, true) <==> exists d | 0 <= d < |m.deps| :: m.deps[d].spec.ToKey() == to
    ensures to in EdgeKeys(m, false)
       <==> (exists d | 0 <= d < |m.deps| :: m.deps[d].spec.ToKey() == to)
            || exists d | 0 <= d < |m.nodepDeps| :: m.nodepDeps[d].ToKey() == to
  {
    var regular, all := EdgeKeys(m, true), EdgeKeys(m, false);
    forall d | 0 <= d < |m.deps| ensures regular[d] == all[d] == m.deps[d].spec.ToKey() {
    }
    forall d | 0 <= d < |m.nodepDeps| ensures all[|m.deps| + d] == m.nodepDeps[d].ToKey() {
    }
  }

  /** The walk that selects goes from dep to dep, and the walk that checks goes along nodep edges too. */
  lemma ReachedByChains(graph: DepGraph, overrides: Overrides, n: nat, k: ModuleKey)
    ensures k in Within(Next(graph, overrides, true), ROOT, n) <==> Chained(Regular(graph, overrides), ROOT, n, k)
    ensures k in Within(Next(graph, overrides, false), ROOT, n) <==> Chained(Every(graph, overrides), ROOT, n, k)
  {
    var regular, all := Next(graph, overrides, true), Next(graph, overrides, false);
    forall a, b ensures Regular(graph, overrides)(a, b) <==> b in regular(a)
                ensures Every(graph, overrides)(a, b) <==> b in all(a)
    {
      NextAre(graph, overrides, a, b);
    }
    hide Next, RegularEdge, NodepEdge, Regular, Every;
    WithinIsChained(regular, Regular(graph, overrides), ROOT, n, k);
    WithinIsChained(all, Every(graph, overrides), ROOT, n, k);
  }

  /** A key is selected exactly when a chain of deps leads to it, and one that takes fewer deps comes first. */
  lemma SelectedByChains(graph: DepGraph, overrides: Overrides, s: Selected)
    requires IsSelection(graph, overrides, s)
    ensures forall k :: k in Keys(s.resolved) <==> exists n: nat :: Chained(Regular(graph, overrides), ROOT, n, k)
    ensures forall n: nat, i, j | 0 <= i < j < |s.resolved|
                               && Chained(Regular(graph, overrides), ROOT, n, s.resolved[j].0) ::
              Chained(Regular(graph, overrides), ROOT, n, s.resolved[i].0)
  {
    var next, edge, keys := Next(graph, overrides, true), Regular(graph, overrides), Keys(s.resolved);
    hide Next, Regular, Chained, Keys, InOrderOfMention;
    forall n: nat, k ensures k in Within(next, ROOT, n) <==> Chained(edge, ROOT, n, k) {
      ReachedByChains(graph, overrides, n, k);
    }
    assert BreadthFirstList(next, ROOT, keys);
    forall k ensures k in keys <==> exists n: nat :: Chained(edge, ROOT, n, k) {
      assert k in keys <==> Reachable(next, ROOT, k);
    }
    forall n: nat, i, j | 0 <= i < j < |s.resolved| && Chained(edge, ROOT, n, s.resolved[j].0)
      ensures Chained(edge, ROOT, n, s.resolved[i].0)
    {
      KeyAt(s.resolved, i);
      KeyAt(s.resolved, j);
      assert keys[j] in Within(next, ROOT, n);
    }
  }

  lemma KeyAt(list: seq<(ModuleKey, Module)>, i: nat)
    requires i < |list|
    ensures |Keys(list)| == |list| && Keys(list)[i] == list[i].0
  {
  }

  /** Dep `d` of the `p`th selected module leads to `k`. */
  predicate DependedOn(graph: DepGraph, overrides: Overrides, s: Selected, p: nat, d: nat, k: ModuleKey) {
    && p < |s.resolved| && s.resolved[p].0 in graph && d < |graph[s.resolved[p].0].deps|
    && Leads(graph, overrides, graph[s.resolved[p].0].deps[d].spec, k)
  }

  lemma MentionedIsDependedOn(graph: DepGraph, overrides: Overrides, s: Selected, p: nat, d: nat, k: ModuleKey)
    requires IsSelection(graph, overrides, s)
    ensures Mentions(Next(graph, overrides, true), Keys(s.resolved), p, d, k)
       <==> DependedOn(graph, overrides, s, p, d, k)
  {
    if p < |s.resolved| {
      var from := s.resolved[p].0;
      KeyAt(s.resolved, p);
      assert from in graph;
      FinalIsRewritten(graph, overrides, graph[from]);
      NextIs(graph, overrides, from);
      hide Wanted, Final, Next, BreadthFirstList, Keys;
    }
  }

  /** `k` is depended on earlier than by dep `d` of the `p`th selected module. */
  ghost predicate DependedOnBefore(graph: DepGraph, overrides: Overrides, s: Selected, p: nat, d: nat, k: ModuleKey) {
    exists q: nat, e: nat :: Before(q, e, p, d) && DependedOn(graph, overrides, s, q, e, k)
  }

  /** The root is selected first; then modules come in the order in which selected modules first depend on them. */
  lemma SelectedInOrderOfDeps(graph: DepGraph, overrides: Overrides, s: Selected)
    requires IsSelection(graph, overrides, s)
    ensures s.resolved != [] && s.resolved[0].0 == ROOT
    ensures forall i, j | 0 <= i < j < |s.resolved| :: s.resolved[i].0 != s.resolved[j].0
    ensures forall i, j, p: nat, d: nat
              | 0 < i < j < |s.resolved| && DependedOn(graph, overrides, s, p, d, s.resolved[j].0) ::
              DependedOnBefore(graph, overrides, s, p, d, s.resolved[i].0)
  {
    var next, keys := Next(graph, overrides, true), Keys(s.resolved);
    assert BreadthFirstList(next, ROOT, keys);
    KeyAt(s.resolved, 0);
    forall p: nat, d: nat, k ensures Mentions(next, keys, p, d, k) <==> DependedOn(graph, overrides, s, p, d, k) {
      MentionedIsDependedOn(graph, overrides, s, p, d, k);
    }
    hide Next, Mentions, DependedOn, ByDistance;
    forall i, j | 0 <= i < j < |s.resolved| ensures s.resolved[i].0 != s.resolved[j].0 {
      KeyAt(s.resolved, i);
      KeyAt(s.resolved, j);
    }
    forall i, j, p: nat, d: nat | 0 < i < j < |s.resolved| && DependedOn(graph, overrides, s, p, d, s.resolved[j].0)
      ensures DependedOnBefore(graph, overrides, s, p, d, s.resolved[i].0)
    {
      KeyAt(s.resolved, i);
      KeyAt(s.resolved, j);
      assert MentionedBefore(next, keys, p, d, keys[i]);
    }
  }

  // ---------- A module behind a nodep edge ----------

  /** The main module has one nodep edge, to a module that is there. */
  function NodepOnly(v: Version): DepGraph {
    map[ROOT := Module("main", EMPTY, "main", [], [DepSpec("a", v)]),
        ModuleKey("a", v) := Module("a", v, "a", [], [])]
  }

  /** Whatever is selected there is the main module alone, though the walk that checks goes on to the other. */
  lemma NodepOnlyIsNotSelected(v: Version, s: Selected)
    requires IsSelection(NodepOnly(v), map[], s)
    ensures |s.resolved| == 1 && s.resolved[0].0 == ROOT
    ensures Chained(Every(NodepOnly(v), map[]), ROOT, 1, ModuleKey("a", v))
  {
    var edge := Regular(NodepOnly(v), map[]);
    SelectedByChains(NodepOnly(v), map[], s);
    SelectedInOrderOfDeps(NodepOnly(v), map[], s);
    hide IsSelection;
    if |s.resolved| > 1 {
      var k := s.resolved[1].0;
      KeyAt(s.resolved, 1);
      assert k in Keys(s.resolved);
      var n: nat :| Chained(edge, ROOT, n, k);
      OnlyRootIsChained(v, n, k);
      assert false;
    }
    NodepIsChained(v);
  }

  lemma OnlyRootIsChained(v: Version, n: nat, k: ModuleKey)
    requires Chained(Regular(NodepOnly(v), map[]), ROOT, n, k)
    ensures k == ROOT
  {
    var edge := Regular(NodepOnly(v), map[]);
    var path :| |path| <= n + 1 && Chain(edge, ROOT, path) && path[|path| - 1] == k;
    if |path| > 1 {
      ChainStarts(edge, ROOT, path);
      assert false;
    }
  }

  lemma NodepIsChained(v: Version)
    ensures Chained(Every(NodepOnly(v), map[]), ROOT, 1, ModuleKey("a", v))
  {
    var graph, k := NodepOnly(v), ModuleKey("a", v);
    OnlyVersionIsWanted(v);
    hide Wanted;
    assert Leads(graph, map[], graph[ROOT].nodepDeps[0], k);
    assert NodepEdge(graph, map[], ROOT, k);
    assert Chain(Every(graph, map[]), ROOT, [ROOT, k]);
  }

  lemma OnlyVersionIsWanted(v: Version)
    ensures Wanted(NodepOnly(v), map[], DepSpec("a", v)) == v
  {
    CompareLaws(v, v);
    var uncapped := Uncapped(NodepOnly(v), map[], "a");
    assert ModuleKey("a", v) in NodepOnly(v);
    assert v in VersionsOf(NodepOnly(v), "a");
    forall u <- uncapped ensures u == v {
      var k :| k in NodepOnly(v) && k.name == "a" && k.version == u;
    }
    GreatestUnique(uncapped, v);
  }
}
