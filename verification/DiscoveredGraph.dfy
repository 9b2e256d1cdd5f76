/** The discovered graph in terms of the module files and overrides as they are written. */
module DiscoveredGraph {
  import opened Text
  import opened Versions
  import opened Modules
  import opened Discovery

  // ---------- Files and edges as written ----------

  /** The module file of a key, if there is one and it declares the key's name and version. */
  function FileAt(w: Workspace, k: ModuleKey): Option<Module> {
    if k == ROOT then Some(w.root)
    else if k !in w.registry then None
    else if w.registry[k].name == k.name && (k.version == EMPTY || w.registry[k].version == k.version)
    then Some(w.registry[k])
    else None
  }

  predicate NamesRoot(w: Workspace, dep: DepSpec) { w.root.name != "" && dep.name == w.root.name }

  /** An override says that the name comes in this version, whatever is asked for. */
  predicate Pinned(w: Workspace, name: string, v: Version) {
    && name in w.overrides
    && match w.overrides[name]
       case SingleVersion(single) => single != EMPTY && v == single
       case NonRegistry => v == EMPTY
       case MultipleVersion(_) => false
  }

  /** Where a dependency as written leads: to the root if it names it, else to its name in the version that counts. */
  ghost predicate Leads(w: Workspace, dep: DepSpec, to: ModuleKey) {
    if NamesRoot(w, dep) then to == ROOT
    else
      && to.name == dep.name
      && (Pinned(w, dep.name, to.version) || (to.version == dep.version && forall v :: !Pinned(w, dep.name, v)))
  }

  /** A module of the set has the name: the root the one it declares, any other its key's. */
  ghost predicate Named(w: Workspace, keys: set<ModuleKey>, name: string) {
    (ROOT in keys && w.root.name == name) || exists k <- keys :: k != ROOT && k.name == name
  }

  /** The deps of a file lead into the set, and so do its nodep edges to names that are there. */
  ghost predicate LeadsInside(w: Workspace, m: Module, keys: set<ModuleKey>) {
    && (forall d, to | 0 <= d < |m.deps| && Leads(w, m.deps[d].spec, to) :: to in keys)
    && forall d, to | 0 <= d < |m.nodepDeps| && Leads(w, m.nodepDeps[d], to) && Named(w, keys, to.name) :: to in keys
  }

  ghost predicate FilesClosed(w: Workspace, keys: set<ModuleKey>) {
    ROOT in keys && forall k <- keys | FileAt(w, k).Some? :: LeadsInside(w, FileAt(w, k).value, keys)
  }

  // ---------- What the overrides do ----------

  lemma LeadsWhereApplied(w: Workspace, dep: DepSpec, to: ModuleKey)
    ensures Leads(w, dep, to) <==> to == ApplyOverrides(dep, w).ToKey()
  {
    if dep.name in w.overrides {
      match w.overrides[dep.name]
      case SingleVersion(single) => assert single != EMPTY ==> Pinned(w, dep.name, single);
      case NonRegistry => assert Pinned(w, dep.name, EMPTY);
      case MultipleVersion(_) =>
    }
  }

  lemma ReadIsFile(w: Workspace, k: ModuleKey)
    ensures Readable(w, k) <==> FileAt(w, k).Some?
    ensures FileAt(w, k).Some? ==> ModuleAt(w, k) == Overridden(w, FileAt(w, k).value)
    ensures FileAt(w, k).None? ==> ModuleAt(w, k).deps == [] && ModuleAt(w, k).nodepDeps == []
    ensures k != ROOT && FileAt(w, k).None? ==>
              ReadModule(w, k) == Err(if k in w.registry then BadModule(k) else NotFound(k))
  {
    hide Overridden;
  }

  lemma NamedIsName(w: Workspace, keys: set<ModuleKey>, name: string)
    ensures Named(w, keys, name) <==> name in Names(w, keys)
  {
    if name in Names(w, keys) {
      var k :| k in keys && NameAt(w, k) == name;
    }
    if ROOT in keys && w.root.name == name { assert NameAt(w, ROOT) == name; }
    if k :| k in keys && k != ROOT && k.name == name { assert NameAt(w, k) == name; }
  }

  lemma OverriddenEdges(w: Workspace, m: Module)
    ensures var o := Overridden(w, m);
            && o.name == m.name && o.version == m.version && o.repoName == m.repoName
            && |o.deps| == |m.deps| && |o.nodepDeps| == |m.nodepDeps|
            && (forall d | 0 <= d < |m.deps| ::
                  o.deps[d] == Dep(m.deps[d].repoName, ApplyOverrides(m.deps[d].spec, w)))
            && forall d | 0 <= d < |m.nodepDeps| :: o.nodepDeps[d] == ApplyOverrides(m.nodepDeps[d], w)
  {
    hide ApplyOverrides;
  }

  lemma InsideIsLeadsInside(w: Workspace, m: Module, keys: set<ModuleKey>)
    requires ROOT in keys
    ensures EdgesInside(Overridden(w, m), Names(w, keys), keys) <==> LeadsInside(w, m, keys)
  {
    OverriddenEdges(w, m);
    var o := Overridden(w, m);
    hide Overridden, ApplyOverrides, Leads, Named, Names;
    forall dep: DepSpec, to ensures Leads(w, dep, to) <==> to == ApplyOverrides(dep, w).ToKey() {
      LeadsWhereApplied(w, dep, to);
    }
    forall name ensures Named(w, keys, name) <==> name in Names(w, keys) {
      NamedIsName(w, keys, name);
    }
    forall d | 0 <= d < |m.deps| ensures Leads(w, m.deps[d].spec, o.deps[d].spec.ToKey()) {
    }
    forall d | 0 <= d < |m.nodepDeps| ensures Leads(w, m.nodepDeps[d], o.nodepDeps[d].ToKey()) {
    }
  }

  lemma ClosedIsFilesClosed(w: Workspace, keys: set<ModuleKey>)
    ensures Closed(w, keys) <==> FilesClosed(w, keys)
  {
    if ROOT in keys {
      forall k <- keys
        ensures EdgesInside(ModuleAt(w, k), Names(w, keys), keys)
           <==> (FileAt(w, k).Some? ==> LeadsInside(w, FileAt(w, k).value, keys))
      {
        ReadIsFile(w, k);
        if FileAt(w, k).Some? { InsideIsLeadsInside(w, FileAt(w, k).value, keys); }
        hide Overridden, ModuleAt, Names, LeadsInside, FileAt;
      }
    }
    hide ModuleAt, Names, LeadsInside, FileAt, EdgesInside;
  }

  // ---------- The discovered graph ----------

  /** The module of a key: its file with every edge led where it leads, and nodep edges out of the graph left out. */
  ghost predicate IsDiscoveredModule(w: Workspace, keys: set<ModuleKey>, m: Module, r: Module) {
    && r.name == m.name && r.version == m.version && r.repoName == m.repoName
    && |r.deps| == |m.deps|
    && (forall d | 0 <= d < |m.deps| ::
          r.deps[d].repoName == m.deps[d].repoName && Leads(w, m.deps[d].spec, r.deps[d].spec.ToKey()))
    && Kept(w, keys, m.nodepDeps, r.nodepDeps)
  }

  ghost predicate LeadsInto(w: Workspace, keys: set<ModuleKey>, dep: DepSpec) {
    exists to :: Leads(w, dep, to) && to in keys
  }

  /** How many of the first `d` edges lead into the set. */
  ghost function Rank(w: Workspace, keys: set<ModuleKey>, edges: seq<DepSpec>, d: nat): nat
    requires d <= |edges|
    decreases d
  {
    if d == 0 then 0 else (if LeadsInto(w, keys, edges[0]) then 1 else 0) + Rank(w, keys, edges[1..], d - 1)
  }

  /** `kept` are the edges that lead into the set, where they lead, in order. */
  ghost predicate Kept(w: Workspace, keys: set<ModuleKey>, edges: seq<DepSpec>, kept: seq<DepSpec>) {
    && |kept| == Rank(w, keys, edges, |edges|)
    && forall d: nat | d < |edges| && LeadsInto(w, keys, edges[d]) :: KeptAt(w, edges[d], kept, Rank(w, keys, edges, d))
  }

  ghost predicate KeptAt(w: Workspace, dep: DepSpec, kept: seq<DepSpec>, i: nat) {
    i < |kept| && Leads(w, dep, kept[i].ToKey())
  }

  lemma KeptMore(w: Workspace, keys: set<ModuleKey>, edges: seq<DepSpec>, less: seq<DepSpec>, first: DepSpec)
    requires edges != [] && Kept(w, keys, edges[1..], less)
    requires Leads(w, edges[0], first.ToKey())
    ensures Kept(w, keys, edges, if LeadsInto(w, keys, edges[0]) then [first] + less else less)
  {
    hide Leads, LeadsInto;
    var kept := if LeadsInto(w, keys, edges[0]) then [first] + less else less;
    forall d: nat | d < |edges| && LeadsInto(w, keys, edges[d])
      ensures KeptAt(w, edges[d], kept, Rank(w, keys, edges, d))
    {
      if d > 0 {
        var e: nat := d - 1;
        assert edges[1..][e] == edges[d];
        assert KeptAt(w, edges[1..][e], less, Rank(w, keys, edges[1..], e));
      }
    }
  }

  lemma {:induction false} KeepsPresent(w: Workspace, keys: set<ModuleKey>, edges: seq<DepSpec>, applied: seq<DepSpec>)
    requires |applied| == |edges| && forall d | 0 <= d < |edges| :: applied[d] == ApplyOverrides(edges[d], w)
    ensures Kept(w, keys, edges, KeepPresent(applied, keys))
    decreases |edges|
  {
    hide ApplyOverrides, Leads, LeadsInto, Rank, KeptAt;
    if edges != [] {
      KeepsPresent(w, keys, edges[1..], applied[1..]);
      LeadsOnlyThere(w, keys, edges[0], applied[0]);
      hide Kept;
      KeptMore(w, keys, edges, KeepPresent(applied[1..], keys), applied[0]);
    } else {
      NoneKept(w, keys);
    }
  }

  lemma NoneKept(w: Workspace, keys: set<ModuleKey>)
    ensures Kept(w, keys, [], [])
  {
  }

  lemma LeadsOnlyThere(w: Workspace, keys: set<ModuleKey>, dep: DepSpec, applied: DepSpec)
    requires applied == ApplyOverrides(dep, w)
    ensures LeadsInto(w, keys, dep) <==> applied.ToKey() in keys
    ensures Leads(w, dep, applied.ToKey())
  {
    hide ApplyOverrides, Leads;
    forall to ensures Leads(w, dep, to) <==> to == applied.ToKey() {
      LeadsWhereApplied(w, dep, to);
    }
  }

  /**
   Discovery in terms of files and overrides as written: the least set of keys that holds the root and to
   which the files' edges lead, with every module as its file has it but for where its edges lead.
  */
  lemma DiscoveredFromFiles(w: Workspace, graph: DepGraph)
    requires Discovered(w, graph)
    ensures FilesClosed(w, graph.Keys)
    ensures forall keys | FilesClosed(w, keys) :: graph.Keys <= keys
    ensures forall k <- graph :: FileAt(w, k).Some? && IsDiscoveredModule(w, graph.Keys, FileAt(w, k).value, graph[k])
  {
    ClosedIsFilesClosed(w, graph.Keys);
    forall keys | FilesClosed(w, keys) ensures graph.Keys <= keys {
      ClosedIsFilesClosed(w, keys);
    }
    forall k <- graph
      ensures FileAt(w, k).Some? && IsDiscoveredModule(w, graph.Keys, FileAt(w, k).value, graph[k])
    {
      assert Readable(w, k) && graph[k] == Retained(ModuleAt(w, k), graph.Keys);
      ReadIsFile(w, k);
      RetainedIsDiscovered(w, graph.Keys, FileAt(w, k).value);
    }
  }

  lemma RetainedIsDiscovered(w: Workspace, keys: set<ModuleKey>, m: Module)
    ensures IsDiscoveredModule(w, keys, m, Retained(Overridden(w, m), keys))
  {
    var o := Overridden(w, m);
    OverriddenEdges(w, m);
    hide Overridden, ApplyOverrides, Leads, KeepPresent, Kept;
    KeepsPresent(w, keys, m.nodepDeps, o.nodepDeps);
    forall d | 0 <= d < |m.deps| ensures Leads(w, m.deps[d].spec, o.deps[d].spec.ToKey()) {
      LeadsWhereApplied(w, m.deps[d].spec, o.deps[d].spec.ToKey());
    }
  }

  /** The versions of a name with an override are the one it pins, in every discovered graph. */
  lemma OverriddenVersions(w: Workspace, graph: DepGraph, k: ModuleKey)
    requires Discovered(w, graph) && k in graph && k != ROOT && k.name in w.overrides
    ensures w.overrides[k.name].SingleVersion? && w.overrides[k.name].version != EMPTY
        ==> k.version == w.overrides[k.name].version
    ensures w.overrides[k.name].NonRegistry? ==> k.version == EMPTY
  {
    DiscoveredFromFiles(w, graph);
    hide Discovered, Proper, LeadsInside, IsDiscoveredModule;
    var keys := set q | q in graph && Proper(w, q);
    forall q <- keys | FileAt(w, q).Some? ensures LeadsInside(w, FileAt(w, q).value, keys) {
      ProperInside(w, FileAt(w, q).value, graph.Keys, keys);
    }
    RootIsProper(w);
    assert FilesClosed(w, keys);
    assert k in keys;
    ProperIsPinned(w, k);
  }

  lemma RootIsProper(w: Workspace)
    ensures Proper(w, ROOT)
  {
  }

  lemma ProperIsPinned(w: Workspace, k: ModuleKey)
    requires Proper(w, k) && k != ROOT && k.name in w.overrides
    ensures w.overrides[k.name].SingleVersion? && w.overrides[k.name].version != EMPTY
        ==> k.version == w.overrides[k.name].version
    ensures w.overrides[k.name].NonRegistry? ==> k.version == EMPTY
  {
    if w.overrides[k.name].SingleVersion? && w.overrides[k.name].version != EMPTY {
      assert Pinned(w, k.name, w.overrides[k.name].version);
    }
    if w.overrides[k.name].NonRegistry? { assert Pinned(w, k.name, EMPTY); }
  }

  lemma ProperInside(w: Workspace, m: Module, all: set<ModuleKey>, keys: set<ModuleKey>)
    requires LeadsInside(w, m, all) && keys == set q | q in all && Proper(w, q)
    ensures LeadsInside(w, m, keys)
  {
    forall dep: DepSpec, to | Leads(w, dep, to) ensures Proper(w, to) {
      LeadsProperly(w, dep, to);
    }
    hide Leads, Proper;
    forall name | Named(w, keys, name) ensures Named(w, all, name) {
    }
    hide Named;
  }

  /** No override says that the key should have another version. */
  ghost predicate Proper(w: Workspace, k: ModuleKey) {
    k == ROOT || forall v | Pinned(w, k.name, v) :: k.version == v
  }

  lemma LeadsProperly(w: Workspace, dep: DepSpec, to: ModuleKey)
    requires Leads(w, dep, to)
    ensures Proper(w, to)
  {
  }

  /** A dep on an overridden name is discovered in the version the override says, and not in the one asked for. */
  lemma OverrideIsFollowed(w: Workspace, graph: DepGraph, d: nat, v: Version)
    requires Discovered(w, graph) && d < |w.root.deps| && !NamesRoot(w, w.root.deps[d].spec)
    requires w.root.deps[d].spec.name in w.overrides && w.overrides[w.root.deps[d].spec.name] == SingleVersion(v)
    requires v != EMPTY && w.root.deps[d].spec.name != ""
    ensures ModuleKey(w.root.deps[d].spec.name, v) in graph
    ensures v != w.root.deps[d].spec.version ==> w.root.deps[d].spec.ToKey() !in graph
  {
    var dep := w.root.deps[d].spec;
    DiscoveredFromFiles(w, graph);
    hide Discovered, IsDiscoveredModule;
    assert Leads(w, dep, ModuleKey(dep.name, v));
    assert FileAt(w, ROOT) == Some(w.root);
    if dep.ToKey() in graph { OverriddenVersions(w, graph, dep.ToKey()); }
  }
}
