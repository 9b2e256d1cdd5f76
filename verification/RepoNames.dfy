/**
 The repo names a module file claims while it is evaluated, and the repo mapping made of them: an
 apparent name never means two repositories.
*/
module RepoNames {
  import opened Text
  import opened Versions
  import opened Modules
  import opened BreadthFirst
  import Resolve

  datatype EvalError =
    | ModuleTwice
    | ModuleLate
    | BadName
    | NameTaken(name: string)
    | BuiltinTaken(name: string)
    | IsolateUnavailable
    | WrongName
    | WrongVersion

  /** The `repo_name` argument of `bazel_dep`: left out, `None`, or text. */
  datatype RepoNameArg = Omitted | NoRepo | Named(text: string)

  /** An import of an extension's repo: the local name and the exported one. */
  type Import = (string, string)

  /** Which extension a usage is of, and what sets it apart from others of that extension. */
  datatype UsageId = UsageId(bzlFile: string, extensionName: string, isolate: bool, devDependency: bool)

  /** An evaluated file; `imports` has one list for each extension usage. */
  datatype ModuleFile = ModuleFile(
    key: ModuleKey, name: string, version: Version, repoName: string,
    deps: seq<Dep>, nodepDeps: seq<DepSpec>, imports: seq<seq<Import>>)

  // ---------- The names claimed ----------

  function DepNames(deps: seq<Dep>): multiset<string> {
    if deps == [] then multiset{} else multiset{deps[0].repoName} + DepNames(deps[1..])
  }

  function LocalNames(imports: seq<Import>): multiset<string> {
    if imports == [] then multiset{} else multiset{imports[0].0} + LocalNames(imports[1..])
  }

  function ImportNames(usages: seq<seq<Import>>): multiset<string> {
    if usages == [] then multiset{} else LocalNames(usages[0]) + ImportNames(usages[1..])
  }

  lemma {:induction false} DepNamesAppend(a: seq<Dep>, b: seq<Dep>)
    ensures DepNames(a + b) == DepNames(a) + DepNames(b)
  {
    if a == [] {
      assert a + b == b;
    } else {
      assert (a + b)[1..] == a[1..] + b;
      DepNamesAppend(a[1..], b);
    }
  }

  lemma {:induction false} LocalNamesAppend(a: seq<Import>, b: seq<Import>)
    ensures LocalNames(a + b) == LocalNames(a) + LocalNames(b)
  {
    if a == [] {
      assert a + b == b;
    } else {
      assert (a + b)[1..] == a[1..] + b;
      LocalNamesAppend(a[1..], b);
    }
  }

  /** Imports added to one usage are added to them all. */
  lemma {:induction false} ImportNamesExtend(usages: seq<seq<Import>>, at: nat, more: seq<Import>)
    requires at < |usages|
    ensures ImportNames(usages[at := usages[at] + more]) == ImportNames(usages) + LocalNames(more)
  {
    var longer := usages[at := usages[at] + more];
    if at == 0 {
      LocalNamesAppend(usages[0], more);
      assert longer[1..] == usages[1..];
    } else {
      assert longer[1..] == usages[1..][at - 1 := usages[1..][at - 1] + more];
      ImportNamesExtend(usages[1..], at - 1, more);
    }
  }

  lemma {:induction false} ImportNamesNew(usages: seq<seq<Import>>)
    ensures ImportNames(usages + [[]]) == ImportNames(usages)
  {
    var longer := usages + [[]];
    if usages == [] {
      assert longer[0] == [] && longer[1..] == [];
    } else {
      assert longer[1..] == usages[1..] + [[]];
      ImportNamesNew(usages[1..]);
    }
  }

  /** What a file's own `module` call claims, if it made one. */
  function OwnNames(own: Option<string>): multiset<string> {
    if own.None? then multiset{} else multiset{own.value}
  }

  /** Each name given to something has a usage of its own, and no name is used twice. */
  ghost predicate Backed(own: Option<string>, deps: seq<Dep>, imports: seq<seq<Import>>, usages: seq<string>) {
    && Distinct(usages)
    && OwnNames(own) + DepNames(deps) + ImportNames(imports) <= multiset(usages)
    && "" !in DepNames(deps) && "" !in ImportNames(imports)
  }

  lemma NothingBacked()
    ensures Backed(None, [], [], [])
  {
  }

  lemma BackedOwn(deps: seq<Dep>, imports: seq<seq<Import>>, usages: seq<string>, own: string)
    requires Backed(None, deps, imports, usages) && own !in usages
    ensures Backed(Some(own), deps, imports, usages + [own])
  {
  }

  /** A usage, with or without the dep it is for. */
  lemma BackedDep(own: Option<string>, deps: seq<Dep>, imports: seq<seq<Import>>, usages: seq<string>, dep: Dep)
    requires Backed(own, deps, imports, usages) && dep.repoName !in usages && dep.repoName != ""
    ensures Backed(own, deps + [dep], imports, usages + [dep.repoName])
    ensures Backed(own, deps, imports, usages + [dep.repoName])
  {
    DepNamesAppend(deps, [dep]);
  }

  lemma BackedNewUsage(own: Option<string>, deps: seq<Dep>, imports: seq<seq<Import>>, usages: seq<string>)
    requires Backed(own, deps, imports, usages)
    ensures Backed(own, deps, imports + [[]], usages)
  {
    ImportNamesNew(imports);
  }

  lemma BackedImports(
    own: Option<string>, deps: seq<Dep>, imports: seq<seq<Import>>, usages: seq<string>,
    at: nat, added: seq<Import>)
    requires Backed(own, deps, imports, usages) && at < |imports|
    requires "" !in Locals(added) && Distinct(usages + Locals(added))
    ensures Backed(own, deps, imports[at := imports[at] + added], usages + Locals(added))
  {
    ImportNamesExtend(imports, at, added);
    LocalNamesAre(added);
  }

  /** The local names of imports, in order. */
  function Locals(added: seq<Import>): (r: seq<string>)
    ensures |r| == |added| && forall i | 0 <= i < |r| :: r[i] == added[i].0
  {
    seq(|added|, i requires 0 <= i < |added| => added[i].0)
  }

  lemma {:induction false} LocalNamesAre(added: seq<Import>)
    ensures LocalNames(added) == multiset(Locals(added))
  {
    if added != [] {
      LocalNamesAre(added[1..]);
      assert Locals(added) == [added[0].0] + Locals(added[1..]);
    }
  }

  // ---------- Extension usages ----------

  const INNATE := "//:MODULE.bazel"

  predicate IsIdentifier(s: string) {
    && s != "" && (IsAlphabetic(s[0]) || s[0] == '_')
    && forall i | 0 <= i < |s| :: IsAlphanumeric(s[i]) || s[i] == '_'
  }

  predicate IsAlphabetic(c: char) { IsAlphanumeric(c) && !IsDigit(c) }

  /** A usage that a call for the extension shares; `dev` is `None` where it does not matter. */
  predicate Shares(id: UsageId, bzlFile: string, extensionName: string, dev: Option<bool>) {
    && id.bzlFile == bzlFile && id.extensionName == extensionName && !id.isolate
    && (dev.Some? ==> id.devDependency == dev.value)
  }

  /** The first such usage. */
  function FirstShared(ids: seq<UsageId>, bzlFile: string, extensionName: string, dev: Option<bool>): (r: Option<nat>)
    ensures r.None? ==> forall i | 0 <= i < |ids| :: !Shares(ids[i], bzlFile, extensionName, dev)
    ensures r.Some? ==> r.value < |ids| && Shares(ids[r.value], bzlFile, extensionName, dev)
    ensures r.Some? ==> forall i | 0 <= i < r.value :: !Shares(ids[i], bzlFile, extensionName, dev)
  {
    if ids == [] then None
    else if Shares(ids[0], bzlFile, extensionName, dev) then Some(0)
    else
      match FirstShared(ids[1..], bzlFile, extensionName, dev)
      case None => None
      case Some(i) =>
        assert ids[1..][i] == ids[i + 1];
        Some(i + 1)
  }

  /** Usages that are not isolated are of different extensions, or one is for development only. */
  ghost predicate Unshared(ids: seq<UsageId>) {
    forall i, j | 0 <= i < j < |ids| && !ids[i].isolate && !ids[j].isolate :: ids[i] != ids[j]
  }

  /** Rust's `replace`: every occurrence from the left, none overlapping. */
  function Replace(s: string, what: string, put: string): string
    requires what != ""
    decreases |s|
  {
    if s == "" then ""
    else if what <= s then put + Replace(s[|what|..], what, put)
    else [s[0]] + Replace(s[1..], what, put)
  }

  /** What `use_repo` imports: names as they are, then renamed ones, which may name the importing module. */
  function Imported(args: seq<string>, kwargs: seq<(string, string)>, name: string, version: Version): seq<Import> {
    seq(|args|, i requires 0 <= i < |args| => (args[i], args[i]))
    + seq(|kwargs|, i requires 0 <= i < |kwargs| =>
        (kwargs[i].0, Replace(Replace(kwargs[i].1, "{name}", name), "{version}", version.normalized)))
  }

  /** Every local name is a name, new, and there once. */
  ghost predicate Claimable(usages: seq<string>, added: seq<Import>) {
    Distinct(Locals(added)) && forall name <- Locals(added) :: name != "" && name !in usages
  }

  /** What stands in the way of the last import, when nothing does for those before it. */
  ghost predicate RefusedAt(usages: seq<string>, added: seq<Import>, i: nat, e: EvalError) {
    && i < |added| && Claimable(usages, added[..i]) && !Claimable(usages, added[..i + 1])
    && e == if added[i].0 == "" then BadName else NameTaken(added[i].0)
  }

  /** The built-in modules whose names nobody claimed; one's own name is left out. */
  ghost predicate Unclaimed(key: ModuleKey, builtins: seq<string>, usages: seq<string>) {
    forall j | 0 <= j < |builtins| && builtins[j] != key.name :: builtins[j] !in usages
  }

  // ---------- Evaluation ----------

  /** What the directives of a module file record. */
  class ModuleContext {
    const key: ModuleKey
    const ignoreDevDeps: bool
    const isolatedUsages: bool
    var moduleCalled: bool
    var hadNonModuleCall: bool
    var name: string
    var version: Version
    var repoName: Option<string>
    var deps: seq<Dep>
    var nodepDeps: seq<DepSpec>
    var usageIds: seq<UsageId>
    var imports: seq<seq<Import>>
    var repoNameUsages: seq<string>

    function OwnName(): string
      reads this
    {
      if repoName.Some? then repoName.value else name
    }

    ghost predicate Valid()
      reads this
    {
      && Backed(if moduleCalled then Some(OwnName()) else None, deps, imports, repoNameUsages)
      && (!moduleCalled ==> name == "" && repoName == None)
      && |usageIds| == |imports| && Unshared(usageIds)
    }

    constructor (key: ModuleKey, ignoreDevDeps: bool, isolatedUsages: bool)
      ensures this.key == key && this.ignoreDevDeps == ignoreDevDeps && this.isolatedUsages == isolatedUsages
      ensures Valid() && deps == [] && nodepDeps == [] && usageIds == [] && imports == [] && repoNameUsages == []
      ensures !moduleCalled && !hadNonModuleCall && version == key.version
    {
      this.key := key;
      this.ignoreDevDeps := ignoreDevDeps;
      this.isolatedUsages := isolatedUsages;
      moduleCalled, hadNonModuleCall, name, version, repoName := false, false, "", key.version, None;
      deps, nodepDeps, usageIds, imports, repoNameUsages := [], [], [], [], [];
      new;
      NothingBacked();
    }

    method AddRepoNameUsage(claimed: string) returns (error: Option<EvalError>)
      modifies this`repoNameUsages
      ensures error == if claimed in old(repoNameUsages) then Some(NameTaken(claimed)) else None
      ensures repoNameUsages == old(repoNameUsages) + if error.None? then [claimed] else []
    {
      if claimed in repoNameUsages {
        return Some(NameTaken(claimed));
      }
      repoNameUsages := repoNameUsages + [claimed];
      error := None;
    }

    /** `module(name, version, repo_name)`. */
    method Module(name: string, version: Version, repoName: string) returns (error: Option<EvalError>)
      requires Valid()
      modifies this`moduleCalled, this`name, this`version, this`repoName, this`repoNameUsages
      ensures var own := if repoName == "" then name else repoName;
              && error == (if old(moduleCalled) then Some(ModuleTwice)
                           else if hadNonModuleCall then Some(ModuleLate)
                           else if own in old(repoNameUsages) then Some(NameTaken(own)) else None)
              && (error.None? ==>
                    && Valid() && moduleCalled && this.name == name && this.version == version && OwnName() == own
                    && repoNameUsages == old(repoNameUsages) + [own])
    {
      hide Backed;
      if moduleCalled {
        return Some(ModuleTwice);
      }
      if hadNonModuleCall {
        return Some(ModuleLate);
      }
      var own := if repoName == "" then name else repoName;
      ghost var before := repoNameUsages;
      error := AddRepoNameUsage(own);
      if error.Some? {
        return;
      }
      BackedOwn(deps, imports, before, own);
      moduleCalled, this.name, this.version := true, name, version;
      this.repoName := if repoName == "" then None else Some(repoName);
    }

    /** `bazel_dep`. A dev dependency that is ignored still claims its name. */
    method BazelDep(name: string, version: Version, repoName: RepoNameArg, devDependency: bool)
      returns (error: Option<EvalError>)
      requires Valid()
      modifies this`hadNonModuleCall, this`deps, this`nodepDeps, this`repoNameUsages
      ensures hadNonModuleCall
      ensures var own := if repoName.Named? && repoName.text != "" then repoName.text else name;
              var kept := !(ignoreDevDeps && devDependency);
              && error == (if name == "" then Some(BadName)
                           else if !repoName.NoRepo? && own in old(repoNameUsages) then Some(NameTaken(own))
                           else None)
              && (error.None? ==>
                    && Valid()
                    && deps == old(deps) + (if kept && !repoName.NoRepo? then [Dep(own, DepSpec(name, version))] else [])
                    && nodepDeps == old(nodepDeps) + (if kept && repoName.NoRepo? then [DepSpec(name, version)] else [])
                    && repoNameUsages == old(repoNameUsages) + (if repoName.NoRepo? then [] else [own]))
    {
      hide Backed;
      hadNonModuleCall := true;
      if name == "" {
        return Some(BadName);
      }
      var spec := DepSpec(name, version);
      var own := if repoName.Named? && repoName.text != "" then repoName.text else name;
      ghost var before, had := repoNameUsages, deps;
      if !(ignoreDevDeps && devDependency) {
        if repoName.NoRepo? {
          nodepDeps := nodepDeps + [spec];
        } else {
          deps := deps + [Dep(own, spec)];
        }
      }
      if repoName.NoRepo? {
        return None;
      }
      error := AddRepoNameUsage(own);
      if error.None? {
        BackedDep(if moduleCalled then Some(OwnName()) else None, had, imports, before, Dep(own, spec));
      }
    }

    /** A new usage, which imports nothing yet. */
    method AddUsage(id: UsageId) returns (usage: nat)
      requires Valid() && Unshared(usageIds + [id])
      modifies this`usageIds, this`imports
      ensures Valid()
      ensures usage == |old(imports)| && imports == old(imports) + [[]] && usageIds == old(usageIds) + [id]
    {
      hide Backed;
      usage := |imports|;
      BackedNewUsage(if moduleCalled then Some(OwnName()) else None, deps, imports, repoNameUsages);
      imports, usageIds := imports + [[]], usageIds + [id];
    }

    /** `use_extension`. A call shares the usage of an earlier one like it; an ignored one has no usage. */
    method UseExtension(bzlFile: string, extensionName: string, devDependency: bool, isolate: bool)
      returns (r: Result<Option<nat>, EvalError>)
      requires Valid()
      modifies this`hadNonModuleCall, this`usageIds, this`imports
      ensures Valid() && hadNonModuleCall
      ensures r == if isolate && !isolatedUsages then Err(IsolateUnavailable)
                   else if !IsIdentifier(extensionName) then Err(BadName)
                   else if ignoreDevDeps && devDependency then Ok(None)
                   else
                     var shared := FirstShared(old(usageIds), bzlFile, extensionName, Some(devDependency));
                     if !isolate && shared.Some? then Ok(shared) else Ok(Some(|old(imports)|))
      ensures if r.Ok? && r.value == Some(|old(imports)|)
              then imports == old(imports) + [[]]
                   && usageIds == old(usageIds) + [UsageId(bzlFile, extensionName, isolate, devDependency)]
              else imports == old(imports) && usageIds == old(usageIds)
    {
      hide Backed;
      hadNonModuleCall := true;
      if isolate && !isolatedUsages {
        return Err(IsolateUnavailable);
      }
      if !IsIdentifier(extensionName) {
        return Err(BadName);
      }
      if ignoreDevDeps && devDependency {
        return Ok(None);
      }
      if !isolate {
        var shared := FirstShared(usageIds, bzlFile, extensionName, Some(devDependency));
        if shared.Some? {
          return Ok(shared);
        }
      }
      var usage := AddUsage(UsageId(bzlFile, extensionName, isolate, devDependency));
      r := Ok(Some(usage));
    }

    /** `use_repo_rule`: a usage of the extension that the rule itself stands for. */
    method UseRepoRule(bzlFile: string, ruleName: string) returns (usage: nat)
      requires Valid()
      modifies this`hadNonModuleCall, this`usageIds, this`imports
      ensures Valid() && hadNonModuleCall
      ensures var shared := FirstShared(old(usageIds), INNATE, bzlFile + " " + ruleName, None);
              if shared.Some? then usage == shared.value && imports == old(imports) && usageIds == old(usageIds)
              else
                && usage == |old(imports)| && imports == old(imports) + [[]]
                && usageIds == old(usageIds) + [UsageId(INNATE, bzlFile + " " + ruleName, false, false)]
    {
      hide Backed;
      hadNonModuleCall := true;
      var shared := FirstShared(usageIds, INNATE, bzlFile + " " + ruleName, None);
      if shared.Some? {
        return shared.value;
      }
      usage := AddUsage(UsageId(INNATE, bzlFile + " " + ruleName, false, false));
    }

    /** `use_repo` on a usage: each import claims its local name, in turn; on an ignored usage, nothing. */
    method UseRepo(usage: Option<nat>, args: seq<string>, kwargs: seq<(string, string)>)
      returns (error: Option<EvalError>)
      requires Valid() && (usage.Some? ==> usage.value < |imports|)
      modifies this`hadNonModuleCall, this`imports, this`repoNameUsages
      ensures hadNonModuleCall
      ensures var added := Imported(args, kwargs, name, version);
              if usage.None? then
                error.None? && Valid() && imports == old(imports) && repoNameUsages == old(repoNameUsages)
              else if Claimable(old(repoNameUsages), added) then
                && error.None? && Valid() && repoNameUsages == old(repoNameUsages) + Locals(added)
                && imports == old(imports)[usage.value := old(imports)[usage.value] + added]
              else
                && imports == old(imports)
                && exists i :: error.Some? && RefusedAt(old(repoNameUsages), added, i, error.value)
    {
      hide Backed, Imported;
      hadNonModuleCall := true;
      if usage.None? {
        return None;
      }
      var added := Imported(args, kwargs, name, version);
      error := ClaimAll(added);
      if error.Some? {
        return;
      }
      ghost var before := old(repoNameUsages);
      MoreDistinct(if moduleCalled then Some(OwnName()) else None, deps, imports, before, Locals(added));
      BackedImports(if moduleCalled then Some(OwnName()) else None, deps, imports, before, usage.value, added);
      imports := imports[usage.value := imports[usage.value] + added];
    }

    /** Claims the local names, up to the first that cannot be. */
    method ClaimAll(added: seq<Import>) returns (error: Option<EvalError>)
      modifies this`repoNameUsages
      ensures if Claimable(old(repoNameUsages), added)
              then error.None? && repoNameUsages == old(repoNameUsages) + Locals(added)
              else exists i :: error.Some? && RefusedAt(old(repoNameUsages), added, i, error.value)
    {
      hide Claimable;
      ghost var before := repoNameUsages;
      NothingClaimed(before, added);
      for i := 0 to |added|
        invariant repoNameUsages == before + Locals(added[..i]) && Claimable(before, added[..i])
      {
        ClaimStep(before, added, i);
        if added[i].0 == "" {
          error := Some(BadName);
          assert RefusedAt(before, added, i, error.value);
          return;
        }
        ghost var taken := Locals(added[..i]);
        error := AddRepoNameUsage(added[i].0);
        if error.Some? {
          assert RefusedAt(before, added, i, error.value);
          return;
        }
        Assoc(before, taken, [added[i].0]);
      }
      assert added[..|added|] == added;
      error := None;
    }

    /** A call of what `use_repo_rule` returned, which defines one repo. */
    method InvokeRepoRule(usage: nat, repo: string, devDependency: bool) returns (error: Option<EvalError>)
      requires Valid() && usage < |imports|
      modifies this`hadNonModuleCall, this`imports, this`repoNameUsages
      ensures error == if repo == "" then Some(BadName)
                       else if !(ignoreDevDeps && devDependency) && repo in old(repoNameUsages) then Some(NameTaken(repo))
                       else None
      ensures error.None? ==> Valid() && hadNonModuleCall
      ensures if error.None? && !(ignoreDevDeps && devDependency)
              then imports == old(imports)[usage := old(imports)[usage] + [(repo, repo)]]
                   && repoNameUsages == old(repoNameUsages) + [repo]
              else imports == old(imports) && repoNameUsages == old(repoNameUsages)
    {
      hide Backed;
      if repo == "" {
        return Some(BadName);
      }
      hadNonModuleCall := true;
      if ignoreDevDeps && devDependency {
        return None;
      }
      ghost var before := repoNameUsages;
      error := AddRepoNameUsage(repo);
      if error.Some? {
        return;
      }
      var added: seq<Import> := [(repo, repo)];
      assert Locals(added) == [repo];
      MoreDistinct(if moduleCalled then Some(OwnName()) else None, deps, imports, before, [repo]);
      BackedImports(if moduleCalled then Some(OwnName()) else None, deps, imports, before, usage, added);
      imports := imports[usage := imports[usage] + added];
    }

    /** The finished file: built-in modules added, and name and version checked against the key. */
    method Finish(builtins: seq<string>) returns (r: Result<ModuleFile, EvalError>)
      requires Valid() && Distinct(builtins) && "" !in builtins
      modifies this`deps
      ensures r.Ok? <==>
                && Unclaimed(key, builtins, repoNameUsages)
                && (key != ROOT ==> name == key.name && (key.version == EMPTY || version == key.version))
      ensures r.Ok? ==> UniqueNames(r.value)
      ensures r.Ok? ==> r.value == ModuleFile(key, name, version, OwnName(), old(deps) + BuiltinDeps(key, builtins),
                                              nodepDeps, imports)
      ensures r.Err? && Unclaimed(key, builtins, repoNameUsages) ==>
                r.error == if name != key.name then WrongName else WrongVersion
      ensures r.Err? && !Unclaimed(key, builtins, repoNameUsages) ==> exists i | 0 <= i < |builtins| ::
                && r.error == BuiltinTaken(builtins[i]) && builtins[i] != key.name && builtins[i] in repoNameUsages
                && Unclaimed(key, builtins[..i], repoNameUsages)
    {
      hide Backed, UniqueNames;
      for i := 0 to |builtins|
        invariant deps == old(deps) + BuiltinDeps(key, builtins[..i])
        invariant Unclaimed(key, builtins[..i], repoNameUsages)
      {
        ghost var upTo := builtins[..i + 1];
        assert upTo[..i] == builtins[..i] && upTo[i] == builtins[i];
        if builtins[i] == key.name {
          assert BuiltinDeps(key, builtins[..i]) + [] == BuiltinDeps(key, builtins[..i]);
          continue;
        }
        if builtins[i] in repoNameUsages {
          return Err(BuiltinTaken(builtins[i]));
        }
        var dep := Dep(builtins[i], DepSpec(builtins[i], EMPTY));
        Assoc(old(deps), BuiltinDeps(key, builtins[..i]), [dep]);
        deps := deps + [dep];
      }
      assert builtins[..|builtins|] == builtins;
      if key != ROOT {
        if name != key.name {
          return Err(WrongName);
        }
        if key.version != EMPTY && version != key.version {
          return Err(WrongVersion);
        }
      }
      r := Ok(ModuleFile(key, name, version, OwnName(), deps, nodepDeps, imports));
      FinishedNames(if moduleCalled then Some(OwnName()) else None, old(deps), repoNameUsages, builtins, r.value);
    }
  }

  lemma NothingClaimed(usages: seq<string>, added: seq<Import>)
    ensures Claimable(usages, added[..0]) && Locals(added[..0]) == []
  {
  }

  /** Whether one more import can be claimed, when those before it can. */
  lemma ClaimStep(usages: seq<string>, added: seq<Import>, i: nat)
    requires i < |added| && Claimable(usages, added[..i])
    ensures Locals(added[..i + 1]) == Locals(added[..i]) + [added[i].0]
    ensures Claimable(usages, added[..i + 1])
       <==> added[i].0 != "" && added[i].0 !in usages + Locals(added[..i])
    ensures !Claimable(usages, added[..i + 1]) ==> !Claimable(usages, added)
  {
    var some, one, all := Locals(added[..i]), Locals(added[..i + 1]), Locals(added);
    assert forall j | 0 <= j < |one| :: one[j] == all[j];
    if Claimable(usages, added[..i + 1]) {
      assert one[i] in one;
      assert forall j | 0 <= j < i :: one[j] == some[j];
    } else {
      assert Claimable(usages, added) ==> forall name <- one :: name in all;
    }
  }

  lemma MoreDistinct(
    own: Option<string>, deps: seq<Dep>, imports: seq<seq<Import>>, usages: seq<string>, more: seq<string>)
    requires Backed(own, deps, imports, usages)
    requires forall i | 0 <= i < |more| :: more[i] !in usages
    requires Distinct(more)
    ensures Distinct(usages + more)
  {
  }

  /** With the built-in deps added, no apparent name is there twice. */
  lemma FinishedNames(
    own: Option<string>, deps: seq<Dep>, usages: seq<string>, builtins: seq<string>, f: ModuleFile)
    requires Backed(own, deps, f.imports, usages) && Distinct(builtins) && "" !in builtins
    requires f.deps == deps + BuiltinDeps(f.key, builtins)
    requires f.repoName == if own.Some? then own.value else ""
    requires Unclaimed(f.key, builtins, usages)
    ensures UniqueNames(f)
  {
    DepNamesAppend(deps, BuiltinDeps(f.key, builtins));
    DistinctOnce(usages);
    DistinctOnce(builtins);
    var built := DepNames(BuiltinDeps(f.key, builtins));
    forall name <- built ensures name != "" && name in builtins && name != f.key.name {
      BuiltinNames(f.key, builtins, name);
    }
    forall name ensures AllNames(f)[name] <= 1 {
      BuiltinNames(f.key, builtins, name);
      assert (OwnNames(own) + DepNames(deps) + ImportNames(f.imports))[name] <= multiset(usages)[name];
      assert name in usages <==> multiset(usages)[name] >= 1;
    }
  }

  function BuiltinDeps(key: ModuleKey, builtins: seq<string>): seq<Dep> {
    if builtins == [] then []
    else
      var last := builtins[|builtins| - 1];
      BuiltinDeps(key, builtins[..|builtins| - 1])
      + if last == key.name then [] else [Dep(last, DepSpec(last, EMPTY))]
  }

  lemma {:induction false} BuiltinNames(key: ModuleKey, builtins: seq<string>, name: string)
    ensures DepNames(BuiltinDeps(key, builtins))[name] == if name == key.name then 0 else multiset(builtins)[name]
    decreases |builtins|
  {
    if builtins != [] {
      var fewer, last := builtins[..|builtins| - 1], builtins[|builtins| - 1];
      BuiltinNames(key, fewer, name);
      var added := if last == key.name then [] else [Dep(last, DepSpec(last, EMPTY))];
      assert BuiltinDeps(key, builtins) == BuiltinDeps(key, fewer) + added;
      DepNamesAppend(BuiltinDeps(key, fewer), added);
      assert DepNames(added) == if last == key.name then multiset{} else multiset{last};
      hide BuiltinDeps, DepNames;
      LastCounts(builtins, name);
    }
  }

  lemma LastCounts(s: seq<string>, name: string)
    requires s != []
    ensures multiset(s)[name] == multiset(s[..|s| - 1])[name] + if s[|s| - 1] == name then 1 else 0
  {
    assert s == s[..|s| - 1] + [s[|s| - 1]];
  }

  lemma {:induction false} DistinctOnce(s: seq<string>)
    requires Distinct(s)
    ensures forall x :: multiset(s)[x] <= 1
    decreases |s|
  {
    if s != [] {
      var fewer := s[..|s| - 1];
      DistinctOnce(fewer);
      assert s == fewer + [s[|s| - 1]];
      assert s[|s| - 1] !in fewer;
    }
  }

  // ---------- The mapping ----------

  /** Every apparent name of a module: its own, its deps' and its imports'. */
  function AllNames(f: ModuleFile): multiset<string> {
    multiset{f.repoName} + DepNames(f.deps) + ImportNames(f.imports)
  }

  /** No apparent name is there twice, and only the module itself may have none. */
  ghost predicate UniqueNames(f: ModuleFile) {
    && (forall name :: AllNames(f)[name] <= 1)
    && "" !in DepNames(f.deps) && "" !in ImportNames(f.imports)
  }

  /** An apparent name and the canonical name it means. */
  type Row = (string, string)

  function ImportRows(imports: seq<Import>, repo: string -> string): seq<Row> {
    if imports == [] then [] else [(imports[0].0, repo(imports[0].1))] + ImportRows(imports[1..], repo)
  }

  /** The rows of every usage whose extension is known, in the order written. */
  function UsageRows(usages: seq<seq<Import>>, at: nat, repoOf: nat -> Option<string -> string>): seq<Row>
    decreases |usages|
  {
    if usages == [] then []
    else
      (match repoOf(at)
       case None => []
       case Some(repo) => ImportRows(usages[0], repo))
      + UsageRows(usages[1..], at + 1, repoOf)
  }

  function DepRows(deps: seq<Dep>, keys: seq<ModuleKey>): seq<Row> {
    if deps == [] then []
    else [(deps[0].repoName, Resolve.CanonicalNameOf(keys, deps[0].spec.ToKey()))] + DepRows(deps[1..], keys)
  }

  /** A module's own name, the main repo's empty one for the root, and its deps. */
  function BaseRows(f: ModuleFile, keys: seq<ModuleKey>): seq<Row> {
    var own := Resolve.CanonicalNameOf(keys, f.key);
    (if f.key == ROOT then [("", own)] else []) + [(f.repoName, own)] + DepRows(f.deps, keys)
  }

  function ModuleMapping(f: ModuleFile, keys: seq<ModuleKey>, repoOf: nat -> Option<string -> string>): seq<Row> {
    UsageRows(f.imports, 0, repoOf) + BaseRows(f, keys)
  }

  function RowNames(rows: seq<Row>): multiset<string> {
    if rows == [] then multiset{} else multiset{rows[0].0} + RowNames(rows[1..])
  }

  lemma {:induction false} RowNamesAppend(a: seq<Row>, b: seq<Row>)
    ensures RowNames(a + b) == RowNames(a) + RowNames(b)
  {
    if a == [] {
      assert a + b == b;
    } else {
      assert (a + b)[1..] == a[1..] + b;
      RowNamesAppend(a[1..], b);
    }
  }

  lemma {:induction false} ImportRowNames(imports: seq<Import>, repo: string -> string)
    ensures RowNames(ImportRows(imports, repo)) == LocalNames(imports)
  {
    if imports != [] {
      ImportRowNames(imports[1..], repo);
      assert ImportRows(imports, repo)[1..] == ImportRows(imports[1..], repo);
    }
  }

  lemma {:induction false} UsageRowNames(usages: seq<seq<Import>>, at: nat, repoOf: nat -> Option<string -> string>)
    ensures RowNames(UsageRows(usages, at, repoOf)) <= ImportNames(usages)
    decreases |usages|
  {
    if usages != [] {
      UsageRowNames(usages[1..], at + 1, repoOf);
      var first := match repoOf(at) case None => [] case Some(repo) => ImportRows(usages[0], repo);
      if repoOf(at).Some? { ImportRowNames(usages[0], repoOf(at).value); }
      RowNamesAppend(first, UsageRows(usages[1..], at + 1, repoOf));
    }
  }

  lemma {:induction false} DepRowNames(deps: seq<Dep>, keys: seq<ModuleKey>)
    ensures RowNames(DepRows(deps, keys)) == DepNames(deps)
  {
    hide Resolve.CanonicalNameOf;
    if deps != [] {
      DepRowNames(deps[1..], keys);
      assert DepRows(deps, keys)[1..] == DepRows(deps[1..], keys);
    }
  }

  lemma {:induction false} RowOnce(rows: seq<Row>, i: nat, j: nat)
    requires i < j < |rows| && rows[i].0 == rows[j].0
    ensures RowNames(rows)[rows[i].0] >= 2
  {
    if i == 0 {
      RowCounts(rows[1..], j - 1);
    } else {
      RowOnce(rows[1..], i - 1, j - 1);
    }
  }

  lemma {:induction false} RowCounts(rows: seq<Row>, i: nat)
    requires i < |rows|
    ensures RowNames(rows)[rows[i].0] >= 1
  {
    if i > 0 { RowCounts(rows[1..], i - 1); }
  }

  /** Beside the names of the file, a mapping holds only the main repo's empty one. */
  lemma MappingNames(f: ModuleFile, keys: seq<ModuleKey>, repoOf: nat -> Option<string -> string>)
    ensures RowNames(ModuleMapping(f, keys, repoOf)) <= AllNames(f) + if f.key == ROOT then multiset{""} else multiset{}
  {
    hide Resolve.CanonicalNameOf, UsageRows, DepRows, DepNames, ImportNames;
    var own := Resolve.CanonicalNameOf(keys, f.key);
    var main: seq<Row> := if f.key == ROOT then [("", own)] else [];
    var named: seq<Row> := [(f.repoName, own)];
    UsageRowNames(f.imports, 0, repoOf);
    DepRowNames(f.deps, keys);
    RowNamesAppend(UsageRows(f.imports, 0, repoOf), main + named + DepRows(f.deps, keys));
    RowNamesAppend(main + named, DepRows(f.deps, keys));
    RowNamesAppend(main, named);
  }

  /** In the mapping of an evaluated file an apparent name never means two repositories. */
  lemma ApparentNamesMeanOneRepo(
    f: ModuleFile, keys: seq<ModuleKey>, repoOf: nat -> Option<string -> string>, i: nat, j: nat)
    requires UniqueNames(f)
    requires i < j < |ModuleMapping(f, keys, repoOf)|
    requires ModuleMapping(f, keys, repoOf)[i].0 == ModuleMapping(f, keys, repoOf)[j].0
    ensures ModuleMapping(f, keys, repoOf)[i] == ModuleMapping(f, keys, repoOf)[j]
    ensures f.key == ROOT && f.repoName == "" && ModuleMapping(f, keys, repoOf)[i].0 == ""
  {
    var rows := ModuleMapping(f, keys, repoOf);
    assert f.key == ROOT && rows[i].0 == "" by {
      hide ModuleMapping, AllNames, RowNames;
      MappingNames(f, keys, repoOf);
      RowOnce(rows, i, j);
      assert RowNames(rows)[rows[i].0] <= AllNames(f)[rows[i].0] + if f.key == ROOT && rows[i].0 == "" then 1 else 0;
    }
    hide UsageRows, DepRows, RowNames, DepNames, ImportNames, Resolve.CanonicalNameOf;
    var usages, deps, own := UsageRows(f.imports, 0, repoOf), DepRows(f.deps, keys), Resolve.CanonicalNameOf(keys, ROOT);
    UsageRowNames(f.imports, 0, repoOf);
    DepRowNames(f.deps, keys);
    EmptyRows(usages, [("", own)] + [(f.repoName, own)] + deps, deps, i, j, own, f.repoName);
  }

  /** The rows without a name are the main repo's and the module's own. */
  lemma EmptyRows(
    usages: seq<Row>, base: seq<Row>, deps: seq<Row>, i: nat, j: nat, own: string, repoName: string)
    requires "" !in RowNames(usages) && "" !in RowNames(deps)
    requires base == [("", own)] + [(repoName, own)] + deps
    requires i < j < |usages + base| && (usages + base)[i].0 == "" && (usages + base)[j].0 == ""
    ensures (usages + base)[i] == (usages + base)[j] && repoName == ""
  {
    hide RowNames;
    if i < |usages| {
      RowCounts(usages, i);
    } else if j >= |usages| + 2 {
      assert (usages + base)[j] == deps[j - |usages| - 2];
      RowCounts(deps, j - |usages| - 2);
    } else {
      assert (usages + base)[i] == base[0] && (usages + base)[j] == base[1];
    }
  }

  // ---------- Built-in deps and renamed imports ----------

  /** A built-in dep: under its own name, at the empty version, and not of itself. */
  predicate IsBuiltinDep(key: ModuleKey, name: string, dep: Dep) {
    dep == Dep(name, DepSpec(name, EMPTY)) && name != key.name
  }

  /** The built-in deps are those of the built-in modules but oneself, in their order. */
  lemma {:induction false} BuiltinDepsAre(key: ModuleKey, builtins: seq<string>)
    ensures forall dep :: dep in BuiltinDeps(key, builtins) <==> exists name <- builtins :: IsBuiltinDep(key, name, dep)
    ensures builtins != [] ==>
              var last := |builtins| - 1;
              if builtins[last] == key.name then BuiltinDeps(key, builtins) == BuiltinDeps(key, builtins[..last])
              else
                var deps := BuiltinDeps(key, builtins);
                && deps != [] && deps[..|deps| - 1] == BuiltinDeps(key, builtins[..last])
                && IsBuiltinDep(key, builtins[last], deps[|deps| - 1])
    decreases |builtins|
  {
    if builtins != [] {
      var last := |builtins| - 1;
      BuiltinDepsAre(key, builtins[..last]);
      assert builtins == builtins[..last] + [builtins[last]];
      var added := if builtins[last] == key.name then [] else [Dep(builtins[last], DepSpec(builtins[last], EMPTY))];
      assert BuiltinDeps(key, builtins) == BuiltinDeps(key, builtins[..last]) + added;
      var fewer, deps := builtins[..last], BuiltinDeps(key, builtins);
      assert forall name :: name in builtins <==> name in fewer || name == builtins[last];
      hide BuiltinDeps;
      forall dep ensures dep in deps <==> exists name <- builtins :: IsBuiltinDep(key, name, dep) {
        assert dep in added <==> IsBuiltinDep(key, builtins[last], dep);
      }
    }
  }

  /** `what` does not begin anywhere in `before`, with `after` following. */
  predicate NotWithin(before: string, after: string, what: string) {
    forall i | 0 <= i < |before| :: !(what <= (before + after)[i..])
  }

  /** A text without the template stays. */
  lemma {:induction false} NothingReplaced(s: string, what: string, put: string)
    requires what != "" && NotWithin(s, "", what)
    ensures Replace(s, what, put) == s
    decreases |s|
  {
    hide NotWithin;
    if s != "" {
      ReplaceStep(s, "", what, put);
      NothingReplaced(s[1..], what, put);
      assert s + "" == s && s[1..] + "" == s[1..] && [s[0]] + s[1..] == s;
    }
  }

  /** What is before the first occurrence stays, and replacing goes on after it. */
  lemma {:induction false} FirstReplaced(before: string, rest: string, what: string, put: string)
    requires what != "" && NotWithin(before, what + rest, what)
    ensures Replace(before + (what + rest), what, put) == before + (put + Replace(rest, what, put))
    decreases |before|
  {
    var all, tail := what + rest, put + Replace(rest, what, put);
    if before == "" {
      assert before + all == all && all[|what|..] == rest && before + tail == tail;
    } else {
      hide NotWithin, Replace;
      ReplaceStep(before, all, what, put);
      FirstReplaced(before[1..], rest, what, put);
      Assoc([before[0]], before[1..], tail);
      assert [before[0]] + before[1..] == before;
    }
  }

  lemma ReplaceStep(before: string, after: string, what: string, put: string)
    requires what != "" && before != ""
    ensures NotWithin(before, after, what) ==>
              NotWithin(before[1..], after, what)
              && Replace(before + after, what, put) == [before[0]] + Replace(before[1..] + after, what, put)
  {
    var all := before + after;
    assert all[1..] == before[1..] + after && all[0..] == all;
    if NotWithin(before, after, what) {
      forall i | 0 <= i < |before[1..]| ensures !(what <= (before[1..] + after)[i..]) {
        assert (before[1..] + after)[i..] == all[i + 1..];
      }
      assert !(what <= all[0..]);
    }
  }

  /** `use_repo` imports positional names as they are, then renamed ones under the name given to them. */
  lemma ImportedAre(args: seq<string>, kwargs: seq<(string, string)>, name: string, version: Version)
    ensures var added := Imported(args, kwargs, name, version);
            && |added| == |args| + |kwargs|
            && (forall i | 0 <= i < |args| :: added[i].0 == args[i] && added[i].1 == args[i])
            && forall i | 0 <= i < |kwargs| ::
                 && added[|args| + i].0 == kwargs[i].0
                 && added[|args| + i].1 == Replace(Replace(kwargs[i].1, "{name}", name), "{version}", version.normalized)
  {
    hide Replace;
  }

  // ---------- What the rows mean ----------

  lemma {:induction false} DepRowsAre(deps: seq<Dep>, keys: seq<ModuleKey>)
    ensures |DepRows(deps, keys)| == |deps|
    ensures forall d | 0 <= d < |deps| ::
              DepRows(deps, keys)[d] == (deps[d].repoName, Resolve.CanonicalNameOf(keys, deps[d].spec.ToKey()))
  {
    hide Resolve.CanonicalNameOf;
    if deps != [] {
      DepRowsAre(deps[1..], keys);
      assert forall d | 0 < d < |deps| :: deps[d] == deps[1..][d - 1];
    }
  }

  lemma {:induction false} ImportRowsAre(imports: seq<Import>, repo: string -> string)
    ensures |ImportRows(imports, repo)| == |imports|
    ensures forall i | 0 <= i < |imports| :: ImportRows(imports, repo)[i] == (imports[i].0, repo(imports[i].1))
  {
    if imports != [] {
      ImportRowsAre(imports[1..], repo);
      assert forall i | 0 < i < |imports| :: imports[i] == imports[1..][i - 1];
    }
  }

  /** Every import of every usage whose extension is known has its row. */
  lemma {:induction false} UsageRowsHold(
    usages: seq<seq<Import>>, at: nat, repoOf: nat -> Option<string -> string>, u: nat, i: nat)
    requires u < |usages| && i < |usages[u]| && repoOf(at + u).Some?
    ensures (usages[u][i].0, repoOf(at + u).value(usages[u][i].1)) in UsageRows(usages, at, repoOf)
    decreases u
  {
    if u == 0 {
      ImportRowsAre(usages[0], repoOf(at).value);
      var rows := ImportRows(usages[0], repoOf(at).value);
      assert rows[i] in rows;
    } else {
      assert usages[u] == usages[1..][u - 1];
      UsageRowsHold(usages[1..], at + 1, repoOf, u - 1, i);
    }
  }

  /** Usages one after another give their rows one after another. */
  lemma {:induction false} UsageRowsAppend(
    a: seq<seq<Import>>, b: seq<seq<Import>>, at: nat, repoOf: nat -> Option<string -> string>)
    ensures UsageRows(a + b, at, repoOf) == UsageRows(a, at, repoOf) + UsageRows(b, at + |a|, repoOf)
    decreases |a|
  {
    hide ImportRows;
    var rest := UsageRows(b, at + |a|, repoOf);
    if a == [] {
      assert a + b == b && [] + rest == rest;
    } else {
      var all := a + b;
      var first := match repoOf(at) case None => [] case Some(repo) => ImportRows(a[0], repo);
      assert all[0] == a[0] && all[1..] == a[1..] + b;
      assert UsageRows(a, at, repoOf) == first + UsageRows(a[1..], at + 1, repoOf);
      assert UsageRows(all, at, repoOf) == first + UsageRows(all[1..], at + 1, repoOf);
      hide UsageRows;
      UsageRowsAppend(a[1..], b, at + 1, repoOf);
      Assoc(first, UsageRows(a[1..], at + 1, repoOf), rest);
    }
  }

  /** One usage gives the rows of its imports, in order, or none if its extension is not known. */
  lemma OneUsageRows(imports: seq<Import>, at: nat, repoOf: nat -> Option<string -> string>)
    ensures var rows := UsageRows([imports], at, repoOf);
            if repoOf(at).None? then rows == []
            else
              && |rows| == |imports|
              && forall i | 0 <= i < |imports| :: rows[i] == (imports[i].0, repoOf(at).value(imports[i].1))
  {
    assert [imports][1..] == [];
    if repoOf(at).Some? {
      ImportRowsAre(imports, repoOf(at).value);
      assert UsageRows([imports], at, repoOf) == ImportRows(imports, repoOf(at).value) + [];
    }
  }

  /** The imports come first, then the root's empty name, the module's own name, and its deps in order. */
  lemma MappingInOrder(f: ModuleFile, keys: seq<ModuleKey>, repoOf: nat -> Option<string -> string>)
    ensures var rows, own := ModuleMapping(f, keys, repoOf), Resolve.CanonicalNameOf(keys, f.key);
            var n := |UsageRows(f.imports, 0, repoOf)| + if f.key == ROOT then 1 else 0;
            && |rows| == n + 1 + |f.deps|
            && rows[..|UsageRows(f.imports, 0, repoOf)|] == UsageRows(f.imports, 0, repoOf)
            && (f.key == ROOT ==> rows[n - 1] == ("", own)) && rows[n] == (f.repoName, own)
            && forall d | 0 <= d < |f.deps| ::
                 rows[n + 1 + d] == (f.deps[d].repoName, Resolve.CanonicalNameOf(keys, f.deps[d].spec.ToKey()))
  {
    hide Resolve.CanonicalNameOf, UsageRows, DepRows;
    DepRowsAre(f.deps, keys);
  }

  /** A row is there, and no other row is for its name. */
  ghost predicate Maps(rows: seq<Row>, name: string, canonical: string) {
    (name, canonical) in rows && forall i | 0 <= i < |rows| && rows[i].0 == name :: rows[i].1 == canonical
  }

  lemma OneRowMaps(f: ModuleFile, keys: seq<ModuleKey>, repoOf: nat -> Option<string -> string>, row: Row)
    requires UniqueNames(f) && row in ModuleMapping(f, keys, repoOf)
    ensures Maps(ModuleMapping(f, keys, repoOf), row.0, row.1)
  {
    hide ModuleMapping, UniqueNames;
    var rows := ModuleMapping(f, keys, repoOf);
    var k :| 0 <= k < |rows| && rows[k] == row;
    forall i | 0 <= i < |rows| && rows[i].0 == row.0 ensures rows[i].1 == row.1 {
      if i < k { ApparentNamesMeanOneRepo(f, keys, repoOf, i, k); }
      if k < i { ApparentNamesMeanOneRepo(f, keys, repoOf, k, i); }
    }
  }

  /**
   In a finished file the name of a dep means the dep's module and nothing else, an imported name the repo
   that its extension gives the exported one, the file's own name the module, and the root's empty name the
   main repo.
  */
  lemma NamesMeanWhatTheyName(f: ModuleFile, keys: seq<ModuleKey>, repoOf: nat -> Option<string -> string>)
    requires UniqueNames(f)
    ensures var rows := ModuleMapping(f, keys, repoOf);
            && (forall d | 0 <= d < |f.deps| ::
                  Maps(rows, f.deps[d].repoName, Resolve.CanonicalNameOf(keys, f.deps[d].spec.ToKey())))
            && (forall u: nat, i: nat | u < |f.imports| && i < |f.imports[u]| && repoOf(u).Some? ::
                  Maps(rows, f.imports[u][i].0, repoOf(u).value(f.imports[u][i].1)))
            && Maps(rows, f.repoName, Resolve.CanonicalNameOf(keys, f.key))
            && (f.key == ROOT ==> Maps(rows, "", Resolve.CanonicalNameOf(keys, ROOT)))
  {
    hide UniqueNames, Resolve.CanonicalNameOf, DepRows, UsageRows, Maps;
    var rows, own := ModuleMapping(f, keys, repoOf), Resolve.CanonicalNameOf(keys, f.key);
    forall row | row in rows ensures Maps(rows, row.0, row.1) {
      OneRowMaps(f, keys, repoOf, row);
    }
    forall d | 0 <= d < |f.deps|
      ensures Maps(rows, f.deps[d].repoName, Resolve.CanonicalNameOf(keys, f.deps[d].spec.ToKey()))
    {
      DepRowsAre(f.deps, keys);
      var row := DepRows(f.deps, keys)[d];
      assert row in DepRows(f.deps, keys) && row in BaseRows(f, keys) && row in rows;
    }
    forall u: nat, i: nat | u < |f.imports| && i < |f.imports[u]| && repoOf(u).Some?
      ensures Maps(rows, f.imports[u][i].0, repoOf(u).value(f.imports[u][i].1))
    {
      UsageRowsHold(f.imports, 0, repoOf, u, i);
      var row := (f.imports[u][i].0, repoOf(u).value(f.imports[u][i].1));
      assert row in UsageRows(f.imports, 0, repoOf) && row in rows;
    }
    OwnRows(f, keys);
    assert (f.repoName, own) in rows;
    assert f.key == ROOT ==> ("", own) in rows;
  }

  lemma OwnRows(f: ModuleFile, keys: seq<ModuleKey>)
    ensures (f.repoName, Resolve.CanonicalNameOf(keys, f.key)) in BaseRows(f, keys)
    ensures f.key == ROOT ==> ("", Resolve.CanonicalNameOf(keys, ROOT)) in BaseRows(f, keys)
  {
    hide Resolve.CanonicalNameOf, DepRows;
    var own := Resolve.CanonicalNameOf(keys, f.key);
    var main: seq<Row> := if f.key == ROOT then [("", own)] else [];
    assert BaseRows(f, keys) == main + [(f.repoName, own)] + DepRows(f.deps, keys);
    assert (main + [(f.repoName, own)])[|main|] == (f.repoName, own);
    assert f.key == ROOT ==> BaseRows(f, keys)[0] == ("", own);
  }

  /** The rows, usage after usage and import after import, then the base rows. */
  method MapModule(f: ModuleFile, keys: seq<ModuleKey>, repoOf: nat -> Option<string -> string>)
    returns (rows: seq<Row>)
    ensures rows == ModuleMapping(f, keys, repoOf)
  {
    hide Resolve.CanonicalNameOf;
    rows := [];
    assert f.imports[0..] == f.imports;
    for u := 0 to |f.imports|
      invariant rows + UsageRows(f.imports[u..], u, repoOf) == UsageRows(f.imports, 0, repoOf)
    {
      ghost var left, before := f.imports[u..], rows;
      assert left[0] == f.imports[u] && left[1..] == f.imports[u + 1..];
      ghost var tail := UsageRows(f.imports[u + 1..], u + 1, repoOf);
      var repo := repoOf(u);
      if repo.None? {
        assert [] + tail == tail;
        continue;
      }
      var imports := f.imports[u];
      assert imports[0..] == imports;
      for i := 0 to |imports|
        invariant rows + ImportRows(imports[i..], repo.value) == before + ImportRows(imports, repo.value)
      {
        ghost var some := imports[i..];
        assert some[0] == imports[i] && some[1..] == imports[i + 1..];
        Assoc(rows, [(imports[i].0, repo.value(imports[i].1))], ImportRows(imports[i + 1..], repo.value));
        rows := rows + [(imports[i].0, repo.value(imports[i].1))];
      }
      assert rows + [] == rows;
      Assoc(before, ImportRows(imports, repo.value), tail);
    }
    assert rows + [] == rows;
    var base := MapBase(f, keys);
    rows := rows + base;
  }

  method MapBase(f: ModuleFile, keys: seq<ModuleKey>) returns (rows: seq<Row>)
    ensures rows == BaseRows(f, keys)
  {
    hide Resolve.CanonicalNameOf;
    var own := Resolve.CanonicalNameOf(keys, f.key);
    rows := if f.key == ROOT then [("", own)] else [];
    rows := rows + [(f.repoName, own)];
    ghost var before := rows;
    assert f.deps[0..] == f.deps;
    for d := 0 to |f.deps|
      invariant rows + DepRows(f.deps[d..], keys) == before + DepRows(f.deps, keys)
    {
      ghost var left := f.deps[d..];
      assert left[0] == f.deps[d] && left[1..] == f.deps[d + 1..];
      var row := (f.deps[d].repoName, Resolve.CanonicalNameOf(keys, f.deps[d].spec.ToKey()));
      Assoc(rows, [row], DepRows(f.deps[d + 1..], keys));
      rows := rows + [row];
    }
    assert rows + [] == rows;
  }
}
