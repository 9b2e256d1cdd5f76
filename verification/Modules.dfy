/** The module graph's data: keys, dependency specs, modules and overrides. */
module Modules {
  import opened Versions

  /** The identity of a node in the module graph. */
  datatype ModuleKey = ModuleKey(name: string, version: Version)

  const ROOT: ModuleKey := ModuleKey("", EMPTY)

  /** A requested dependency. */
  datatype DepSpec = DepSpec(name: string, version: Version) {
    function ToKey(): ModuleKey { ModuleKey(name, version) }

    function WithVersion(v: Version): DepSpec { DepSpec(name, v) }
  }

  /** One `bazel_dep`, under the repo name the depending module sees. */
  datatype Dep = Dep(repoName: string, spec: DepSpec)

  /** An evaluated module file: `deps` are its edges, `nodepDeps` its conditional ones. */
  datatype Module = Module(
    name: string, version: Version, repoName: string, deps: seq<Dep>, nodepDeps: seq<DepSpec>)
  {
    /** The module with every edge rewritten. */
    function WithDepsTransformed(f: DepSpec -> DepSpec): Module {
      this.(deps := seq(|deps|, i requires 0 <= i < |deps| => Dep(deps[i].repoName, f(deps[i].spec))),
            nodepDeps := seq(|nodepDeps|, i requires 0 <= i < |nodepDeps| => f(nodepDeps[i])))
    }
  }

  datatype ModuleOverride =
    | SingleVersion(version: Version)
    | MultipleVersion(versions: seq<Version>)
    | NonRegistry

  type Overrides = map<string, ModuleOverride>

  type DepGraph = map<ModuleKey, Module>
}
