# A verified model of the module resolver and its neighbours

The model covers six parts of the repository.

**Module resolution.** Module files are read from the root outwards, in rounds: a nodep edge counts
only once a module of its name is known, and a round that brings such a module in starts another.
`Discovery` proves that the result is the least closed set, that the rounds end, and when they fail.
`Selection` chooses a version for every edge (Minimal Version Selection with override groups), checks
the graph on a walk over all its edges and lists it on a walk over the regular ones; `BreadthFirst`
has the theory of those walks. `DiscoveredGraph` and `SelectedGraph` say what both come to in terms of the
module files, the overrides and the edges as they are written. `Resolve` puts both together: which errors cannot arise on a discovered
graph, that edges land, one version for each name, and distinct canonical repository names.
`Versions`, `VersionOrder` and `SemVer` are the order underneath, and `RepoNames` follows the apparent names of a
module file from the directives that claim them to the mapping that gives each one meaning.

**Patches.** `PatchApply` is the hunk applier (drift, outward search, splices), `PatchParse` the parser
of unified diffs, `PatchPrint` a printer of git-style patches that the parser undoes, and `PlainPatches` says
what the parser keeps of a patch in which git headers are missing. `PatchCases` has what does not go smoothly.

**The lockfile session.** `Lockfile` is the protocol of recorded hashes, the content cache and the four
modes, over whole runs with several fetchers.

**Toolchains.** `Toolchains` is resolution and its explanation, which nest their loops the opposite way,
and the choice of an execution platform. `ExpandAll` repeats an expansion until no package is missing.

**Transitions.** `Transitions` is the reading and writing of settings in a configuration, `SettingValues` the
values of settings and the options with a field of their own, and `Splits` what a transition makes.

**Shell words.** `ShellWords` is the tokenizer and the escaper it undoes, and `ShellGrammar` what every command
line means.

Code that updates state in place is modelled by classes and by methods with loops; each is proved to
compute a function, or to satisfy a predicate, and the theorems are about that. `Text` has the text
functions they share, `Modules` the data of the module graph. The registry is a finite map from keys to
module files, where a key it lacks stands for a failed fetch; the network, the hash function and the
questions a pattern asks are functions.

## Where the code does less than it might be taken to promise

- A search for a hunk is complete only for an expected line within the file
  (`PatchApply.FindIsComplete`; `PatchApply.FindMissesPastTheEnd` is an input it misses).
- A hunk without old lines goes before the line it names (`PatchApply.InsertionsGoBefore` says when that
  makes no difference; `PatchApply.InsertionIsMisplaced` is a patch where it does).
- Of neighbouring files without git headers only the last is read (`PlainPatches.DocsReadBack` says when
  nothing is lost; `PlainPatches.FirstOfTwoIsLost` is a patch that loses a file).
- A run can be replayed exactly when the cache did not contradict what was fetched unchecked
  (`Lockfile.Replay`); `Lockfile.DamagedCacheStopsReplay` is a run that cannot be.
- Two selected versions of a well-known module share one canonical repository name
  (`Resolve.SelectedNamesClash`; `Resolve.TwoPlatformsShareAName` has two).
- A write is stored under the name as written, a read looks under the label's own text
  (`Transitions.WriteReaches`, `Transitions.WriteReadBack`). A name that is not that text is not read back,
  and may be another repo's setting: `Transitions.WriteReachesAnotherRepo` is such a write.
- A trace says that there is no toolchain when only the unlabelled target platform has one
  (`Toolchains.TraceTells`; `Toolchains.ServedButTracedAsNotFound` is such a target).

## Model

| member | source | states |
|---|---|---|
| Discovery.Discover | crates/fjfj-bzlmod/src/discovery.rs:236-263 | the rounds end on any finite registry; the graph found is the least set of keys that holds the root and is closed under overridden deps and under nodep edges whose module name occurs in the set; one is found exactly when some closed set can be read whole, and a failure names a key that every closed set contains |
| Discovery.DiscoverRound | crates/fjfj-bzlmod/src/discovery.rs:270-350 | one round finds the least set closed under deps and under nodep edges to the names known before it, notes the names of the edges left out, and fails only for a module the round has to read |
| Discovery.DiscoverLayer | crates/fjfj-bzlmod/src/discovery.rs:282-335 | one turn of the search reads exactly what the horizon newly leads to, and either ends the search or leaves fewer keys undiscovered |
| Discovery.QueueHorizon | crates/fjfj-bzlmod/src/discovery.rs:283-311 | after a layer every edge of the horizon leads to a known or queued key or is a nodep edge whose name is noted; nothing known is queued again, and everything queued belongs to the least set |
| Discovery.QueueEdges | crates/fjfj-bzlmod/src/discovery.rs:284-310 | the same for the edges of one module: each counts, is known, or is noted |
| Discovery.ReadLayer | crates/fjfj-bzlmod/src/discovery.rs:312-335 | a layer is read whole, or the error is that of the first of its keys that cannot be read |
| Discovery.RoundMonotone | crates/fjfj-bzlmod/src/discovery.rs:241-262 | a round that knows more names finds every module that a round knowing fewer finds, which is why the names only grow |
| Discovery.QuietRoundIsClosed | crates/fjfj-bzlmod/src/discovery.rs:250-258 | a round none of whose noted names is present has found a set closed outright |
| Discovery.DroppedOnlyWhenAbsent | crates/fjfj-bzlmod/src/discovery.rs:337-344 | a nodep edge is missing from a discovered module exactly when its key is not in the graph, and then no module of its name is |
| Discovery.DiscoveredUnique | crates/fjfj-bzlmod/src/discovery.rs:236-263 | discovery has one answer: the order in which keys are met does not show |
| DiscoveredGraph.DiscoveredFromFiles | crates/fjfj-bzlmod/src/discovery.rs:236-263 | the same in terms of the module files and overrides as written: the least set of keys that holds the root and to which the files' edges lead (to the root by its name, else to the overridden version or the one asked for); every file declares its key's name and version; each module keeps its name, its repo names and the order of its edges, and only nodep edges that lead out of the set are missing |
| DiscoveredGraph.OverriddenVersions | crates/fjfj-bzlmod/src/discovery.rs:403-419 | a discovered key whose name has a `single_version_override` with a version has that version, and one with a non-registry override has the empty version |
| DiscoveredGraph.OverrideIsFollowed | crates/fjfj-bzlmod/src/discovery.rs:403-419 | a dep of the root on an overridden name is discovered in the overriding version and not in the one asked for |
| DiscoveredGraph.ReadIsFile | crates/fjfj-bzlmod/src/discovery.rs:352-366 | a module is read exactly when there is a file that declares its key's name and version; otherwise the error tells a missing file from one that declares something else |
| Resolve.DiscoveredKeysAreProper | crates/fjfj-bzlmod/src/discovery.rs:403-419 | no key but the root's own bears the root's name, because edges naming the root are folded to the root key |
| Resolve.DiscoveredIsSound | crates/fjfj-bzlmod/src/discovery.rs:337-366 | in a discovered graph every kept edge stays in the graph and every module but the root bears its key's name |
| Selection.ComputeAllowedVersionSets | crates/fjfj-bzlmod/src/selection.rs:136-159 | it succeeds exactly when every allowed version was discovered, with the allowed versions of each overridden name and the empty version; otherwise the error is the first allowed key that was not discovered, names in order and versions as listed |
| Selection.GroupTarget | crates/fjfj-bzlmod/src/selection.rs:161-178 | a module's group targets the least allowed version not below its own, and the catch-all exactly when there is none |
| Selection.SelectVersions | crates/fjfj-bzlmod/src/selection.rs:92-104 | every group keeps the highest version among its members |
| Selection.EligibleVersions | crates/fjfj-bzlmod/src/selection.rs:184-195 | what the eligible groups have selected is the allowed versions not below the request, and, if there is one, the highest version above every allowed one |
| Selection.ResolveDepIsWanted | crates/fjfj-bzlmod/src/selection.rs:184-195 | for every dependency, discovered or not, the minimum over the eligible groups is the nearest allowed version not below the request; failing that the highest discovered version above every allowed one (the highest of all without an override); failing that the request itself |
| Selection.DiscoveredDepGetsItsGroup | crates/fjfj-bzlmod/src/selection.rs:184-195 | a dependency whose key was discovered gets its own group's version, never below its request |
| Selection.Visit | crates/fjfj-bzlmod/src/selection.rs:248-313 | a reached module is accepted exactly when it is not above every allowed version, no dependency key occurs twice and no other key has its name; each error says which of the three it was |
| Selection.QueueTargets | crates/fjfj-bzlmod/src/selection.rs:226-243 | queueing one module's targets continues a breadth-first search, keeps what was queued in front, and makes exactly those targets known |
| Selection.Walk | crates/fjfj-bzlmod/src/selection.rs:199-246 | an accepted walk lists exactly the reachable keys, each once, in non-decreasing distance, all of them passing the checks; a refused one names a reachable module that fails one |
| Selection.AcceptedIsFlawless | crates/fjfj-bzlmod/src/selection.rs:110-116 | once the walk over all edges has accepted, nothing on the graph is at fault, for it or for the walk over regular edges |
| Selection.WalkTwice | crates/fjfj-bzlmod/src/selection.rs:110-116 | the second walk cannot fail once the first has succeeded |
| Selection.Run | crates/fjfj-bzlmod/src/selection.rs:81-129 | selection succeeds exactly on graphs without a defect (one stated on the graph and the overrides alone) and a refusal names a defect; the selected modules are the keys reachable over the rewritten regular edges, each once and nearest first, with the unpruned graph rewritten throughout |
| SelectedGraph.SelectedModules | crates/fjfj-bzlmod/src/module.rs:254-267 | every selected module, and every one of the unpruned graph, is the discovered one with each edge at the version it should get, under its repo name and in its place |
| SelectedGraph.SelectedByChains | crates/fjfj-bzlmod/src/selection.rs:110-129 | a key is selected exactly when a chain of deps, each at the version it should get, leads to it from the root, and what takes fewer deps comes no later |
| SelectedGraph.SelectedInOrderOfDeps | crates/fjfj-bzlmod/src/selection.rs:199-246 | the root comes first, and then modules come in the order in which the deps of selected modules, taken in order, first lead to them |
| SelectedGraph.ReachedByChains | crates/fjfj-bzlmod/src/selection.rs:226-243 | the walk that selects reaches in `n` steps what a chain of `n` deps leads to; the walk that checks goes along nodep edges too |
| SelectedGraph.NodepOnlyIsNotSelected | crates/fjfj-bzlmod/src/selection.rs:110-116 | where a module is there behind a nodep edge only, nothing but the root is selected, though the checking walk goes on to it |
| BreadthFirst.EarlierIsNearer | crates/fjfj-bzlmod/src/selection.rs:199-246 | in a finished first-in first-out search whatever was queued before something near is as near |
| BreadthFirst.SearchFinished | crates/fjfj-bzlmod/src/selection.rs:199-246 | a finished search has listed exactly what is reachable, each once, nearest first, and in the order in which edges first lead there |
| BreadthFirst.WithinIsChained | crates/fjfj-bzlmod/src/selection.rs:199-246 | what is within `n` steps of the root is what ends a chain of at most `n` edges |
| Resolve.WantedIsDiscovered | crates/fjfj-bzlmod/src/selection.rs:184-195 | the version a discovered dependency gets was itself discovered, and without an override it is the highest discovered version of the name |
| Resolve.UnreachableErrors | crates/fjfj-bzlmod/src/selection.rs:215-220 | on a discovered graph neither "not in the dependency graph" nor a clash of two versions of a name (the compatibility level error) can arise: only a version above every allowed one and deps collapsing onto one key remain |
| Resolve.EdgesLand | crates/fjfj-bzlmod/src/selection.rs:110-129 | every regular edge of a selected module lands on a selected module |
| Resolve.OneVersionPerName | crates/fjfj-bzlmod/src/selection.rs:110-129 | without a `multiple_version_override` a name is selected once, at the highest discovered version |
| Resolve.ResolveWorkspace | crates/fjfj-bzlmod/src/resolve.rs:333-334 | discovery and selection composed, for given overrides: success is the selection of the discovered graph without defect; the only selection errors are the first missing allowed version, a version above every allowed one and colliding deps |
| Resolve.CanonicalNamesClash | crates/fjfj-bzlmod/src/resolve.rs:210-218 | of distinct keys two share a canonical repository name exactly when they are versions of `bazel_tools` or `platforms`; for all other modules the names are distinct |
| Resolve.CanonicalNameByCases | crates/fjfj-bzlmod/src/module.rs:58-100 | the canonical name in each case: a well-known module's own, nothing for the root, else the name and `+`, with the version after it when several versions are selected |
| Resolve.SelectedNamesClash | crates/fjfj-bzlmod/src/resolve.rs:210-218 | so two modules selected on a discovered graph share a name exactly in that case, and then the name has a `multiple_version_override` |
| Resolve.TwoPlatformsShareAName | crates/fjfj-bzlmod/src/module.rs:58-100 | a workspace with any two versions of `platforms` allowed and asked for: what is discovered, what is selected, and the name both share |
| Resolve.SomeSelectionClashes | crates/fjfj-bzlmod/src/resolve.rs:210-218 | there are such versions, so there is a selection in which two modules share a canonical name |
| Versions.CapturesIsTheExpression | crates/fjfj-bzlmod/src/version.rs:137-150 | cutting the text at its first `+` and `-` finds exactly the decompositions the regular expression allows, and never two |
| VersionOrder.ParseByPieces | crates/fjfj-bzlmod/src/version.rs:84-166 | a text that the expression matches is a version exactly when no piece between dots is empty or a number beyond 64 bits, and its identifiers are those pieces; otherwise the error is that of the first such piece, release first |
| VersionOrder.MalformedIsUnmatched | crates/fjfj-bzlmod/src/version.rs:133-166 | a text is malformed exactly when the expression does not match it |
| Versions.NormalizedIsFixedPoint | crates/fjfj-bzlmod/src/version.rs:133-166 | parsing the normalized text of anything that parses gives the same version back |
| Versions.SpellingIsNormalized | crates/fjfj-bzlmod/src/version.rs:153-165 | the normalized text is the spelling of the identifiers, and empty exactly for the empty version |
| Versions.BuildIsIgnored | crates/fjfj-bzlmod/src/version.rs:133-166 | a version followed by build metadata parses as the version alone |
| Versions.CompareLaws | crates/fjfj-bzlmod/src/version.rs:195-221 | two versions compare equal exactly when their normalized texts are equal, swapping them flips the result, and the empty version is above every other |
| Versions.CompareTransitive | crates/fjfj-bzlmod/src/version.rs:209-221 | the order is transitive, and two versions with a third between them are equal only if all three are |
| VersionOrder.OrderByFirstDifference | crates/fjfj-bzlmod/src/version.rs:209-221 | for all versions, by index: the first release identifier that differs decides, or else the release that ends is lower; for one release a prerelease is below none; between two prereleases the first difference decides |
| VersionOrder.LongerIsNotHigher | crates/fjfj-bzlmod/src/version.rs:209-221 | `20230802.0.bcr.1` is below `20230802.1`, and so for any first piece |
| Versions.CompareSeqLawful | crates/fjfj-bzlmod/src/version.rs:209-221 | comparing lists of identifiers element by element, a proper prefix first, is lawful whenever comparing the elements is |
| Versions.CompareIdentifierLawful | crates/fjfj-bzlmod/src/version.rs:61-76 | identifiers are totally ordered, numeric ones by value and below all others, the rest by text |
| VersionOrder.IdBeforeIsLess | crates/fjfj-bzlmod/src/version.rs:61-76 | a number is below a text, numbers go by value and then by how they are written, texts by ASCII order |
| SemVer.ParsePrinted | crates/fjfj-bzlmod/src/version.rs:133-166 | every valid Semantic Versioning 2.0.0 text whose numbers fit in 64 bits is a module version, read field for field |
| SemVer.CompareStringIsAscii | crates/fjfj-bzlmod/src/version.rs:61-76 | text identifiers compare as section 11.4.2 of Semantic Versioning 2.0.0 asks: by the first character that differs, a proper prefix below |
| SemVer.OrderIsPrecedence | crates/fjfj-bzlmod/src/version.rs:209-221 | on such texts the order is the precedence of section 11 of Semantic Versioning 2.0.0, build metadata ignored |
| RepoNames.ModuleContext.AddRepoNameUsage | crates/fjfj-bzlmod/src/eval.rs:319-340 | a repo name is recorded unless it already was, in which case nothing is |
| RepoNames.ModuleContext.Module | crates/fjfj-bzlmod/src/eval.rs:751-806 | accepted exactly when it is the first call, nothing came before and its name is free; the name is then claimed |
| RepoNames.ModuleContext.BazelDep | crates/fjfj-bzlmod/src/eval.rs:809-864 | records a dep, or a nodep edge under `None`; claims the name even for an ignored dev dependency; and every name given out stays backed by a claim of its own |
| RepoNames.ModuleContext.UseExtension | crates/fjfj-bzlmod/src/eval.rs:900-964 | the refusals in order; an ignored dev call has no usage; a call that is not isolated shares the first usage like it (same extension, not isolated, as much for development), and otherwise there is a new one that imports nothing yet |
| RepoNames.ModuleContext.UseRepoRule | crates/fjfj-bzlmod/src/eval.rs:1036-1050 | a repo rule shares the usage of an earlier call for the same rule, or gets a new one |
| RepoNames.ModuleContext.UseRepo | crates/fjfj-bzlmod/src/eval.rs:967-1007 | accepted exactly when no local name is empty, claimed before or repeated in the call; then each is claimed, in order, and imported, with the importing module's name and version put in; otherwise the error is that of the first name that cannot be claimed; an ignored usage imports nothing |
| RepoNames.ImportedAre | crates/fjfj-bzlmod/src/eval.rs:984-997 | positional imports keep their names, renamed ones come after, with the module's name and version put into the exported name |
| RepoNames.FirstReplaced | crates/fjfj-bzlmod/src/eval.rs:989-996 | putting in goes on after the first occurrence of the template, and what is before it stays |
| RepoNames.ModuleContext.InvokeRepoRule | crates/fjfj-bzlmod/src/eval.rs:656-706 | defines one repo under a name that was free, does nothing for an ignored dev dependency, and refuses an empty or taken name |
| RepoNames.ModuleContext.Finish | crates/fjfj-bzlmod/src/eval.rs:380-449 | it succeeds exactly when nobody claimed the name of a built-in module and name and version are the key's, and each refusal is the first that applies; the finished file has no apparent name twice |
| RepoNames.FinishedNames | crates/fjfj-bzlmod/src/eval.rs:380-402 | adding the built-in modules to claimed names that are all distinct leaves every apparent name used once |
| RepoNames.BuiltinDepsAre | crates/fjfj-bzlmod/src/eval.rs:380-402 | the built-in deps are those of the built-in modules but oneself, in order, under their names at the empty version |
| RepoNames.MappingNames | crates/fjfj-bzlmod/src/resolve.rs:270-311 | counting repeats, a mapping holds no apparent name beyond those of the file and the main repo's empty one |
| RepoNames.ApparentNamesMeanOneRepo | crates/fjfj-bzlmod/src/resolve.rs:270-311 | in the mapping of a finished file two rows with one apparent name are the same row, and the only such pair is that of an unnamed root |
| RepoNames.NamesMeanWhatTheyName | crates/fjfj-bzlmod/src/resolve.rs:270-311 | in a finished file a dep's name means the canonical name of the dep's module and nothing else, an imported name what its extension calls the exported one, the file's own name the module, and the root's empty name the main repo |
| RepoNames.MappingInOrder | crates/fjfj-bzlmod/src/resolve.rs:270-311 | the imports come first, then the root's empty name, the module's own name, and its deps in order |
| RepoNames.OneUsageRows | crates/fjfj-bzlmod/src/resolve.rs:277-294 | a usage gives the rows of its imports, in order, or none when its extension is not known |
| RepoNames.MapModule | crates/fjfj-bzlmod/src/resolve.rs:270-296 | the rows, in order: the imports of every usage whose extension is known, then the base rows |
| RepoNames.MapBase | crates/fjfj-bzlmod/src/resolve.rs:299-311 | the base rows, in order: the main repo's empty name for the root, the module itself, its deps |
| PatchApply.FindIsNearest | crates/fjfj-archive/src/patch.rs:200-209 | a place is found exactly when it is a match nearest to the expected line, the later of two at one distance, within the search window |
| PatchApply.FindIsComplete | crates/fjfj-archive/src/patch.rs:200-209 | the search finds whatever old side there is to find exactly when the expected line is within the file |
| PatchApply.FindMissesPastTheEnd | crates/fjfj-archive/src/patch.rs:200-209 | a matching one-line file in which the search, told to look at the sixth line, finds nothing |
| PatchApply.ApplyHunks | crates/fjfj-archive/src/patch.rs:192-218 | the loop over hunks, with its splices and its drift, computes the recursive form the theorems are about, and names the hunk that fails |
| PatchApply.ApplyPlaced | crates/fjfj-archive/src/patch.rs:192-218 | ordered, disjoint hunks that match the file where they say replace all their ranges of the original at once, empty sides included when an insertion is taken to stand before the line it names: drift is always the sum of the earlier size changes |
| PatchApply.ApplyPlacedFrom | crates/fjfj-archive/src/patch.rs:192-218 | the invariant behind it: with the text before a point rewritten, the drift is what that rewriting added |
| PatchApply.ApplyDisplaced | crates/fjfj-archive/src/patch.rs:192-218 | hunks that all match a fixed distance from where they say, the first being found there, replace their ranges there all at once: a displacement carries over through the drift |
| PatchCases.FirstHunkFound | crates/fjfj-archive/src/patch.rs:194-216 | a hunk replaces its nearest match and nothing else, counted from where it says moved by the drift but not before the file, and leaves the drift its displacement and the lines it adds |
| PatchCases.FirstHunkRefused | crates/fjfj-archive/src/patch.rs:200-209 | a hunk without a match in the window is refused with the line it states |
| PatchApply.UndoPlaced | crates/fjfj-archive/src/patch.rs:192-218 | for all such hunks, empty sides included, the swapped hunks with shifted starts restore the original |
| PatchApply.InsertionsGoBefore | crates/fjfj-archive/src/patch.rs:192-218 | for every list of hunks placed both as the code and as the diff places them, the result is what the diff means exactly when each hunk without old lines inserts only copies of the line it names, or goes before the whole file |
| PatchApply.InsertionIsMisplaced | crates/fjfj-archive/src/patch.rs:195-199 | a line inserted after the first of two comes out before it |
| PatchParse.ParseBody | crates/fjfj-archive/src/patch.rs:133-169 | one hunk body, line by line, until the counted old and new lines are consumed |
| PatchParse.Parse | crates/fjfj-archive/src/patch.rs:61-174 | the loop over lines computes the recursive form the theorems are about |
| PatchCases.PassedOver | crates/fjfj-archive/src/patch.rs:61-174 | lines that begin nothing, `---` lines without `+++`, and hunk headers without a file or without ranges are passed over; a body that does not fit its counts is refused |
| PatchPrint.BodyReads | crates/fjfj-archive/src/patch.rs:133-169 | the counts delimit the body whatever its lines look like and whatever follows |
| PatchCases.BodyTaken | crates/fjfj-archive/src/patch.rs:133-169 | a body that is accepted is made of body lines whose two sides have just the counted lines |
| PatchCases.BodyRefused | crates/fjfj-archive/src/patch.rs:133-169 | a body is refused at the first line that no body line with room left for it says, or at the end of the text |
| PatchPrint.HunkHeaderReads | crates/fjfj-archive/src/patch.rs:52-59 | a printed range line is read as its numbers, for all numbers that fit |
| PatchCases.RangeByCases | crates/fjfj-archive/src/patch.rs:52-59 | a range is a start and a count after a comma, or one line, after any signs; numbers that do not fit are refused |
| PatchCases.HeaderNameEnds | crates/fjfj-archive/src/patch.rs:44-50 | a header's name ends at a tab or at trailing whitespace |
| PatchCases.ModeReads | crates/fjfj-archive/src/patch.rs:88-95 | a mode is read in base eight between any whitespace, and one beyond 32 bits is none |
| PatchPrint.FileReads | crates/fjfj-archive/src/patch.rs:61-174 | one printed file is read whole, wherever it stands |
| PatchPrint.PatchReads | crates/fjfj-archive/src/patch.rs:61-174 | parsing a printed git-style patch gives back its files, with body lines that may look like any header |
| PatchPrint.ParseKeepsApart | crates/fjfj-archive/src/patch.rs:101-116 | whatever the text, no two neighbouring files are left that both lack a git header |
| PatchPrint.PlainPatchIsOneFile | crates/fjfj-archive/src/patch.rs:101-116 | whatever the text, without a git header at most one file is read |
| PlainPatches.DocsRead | crates/fjfj-archive/src/patch.rs:61-174 | reading a printed patch, with git headers and without in any order, gives exactly what is kept: of neighbours without git headers the last, and under a bare git header what follows it |
| PlainPatches.DocsReadBack | crates/fjfj-archive/src/patch.rs:95-117 | every file is read back exactly when no document without a git header comes right after another or after a bare git header |
| PlainPatches.PlainPatchIsItsLastFile | crates/fjfj-archive/src/patch.rs:101-116 | a printed patch without git headers is read as its last file, so it is read back exactly when it has one file |
| PlainPatches.FirstOfTwoIsLost | crates/fjfj-archive/src/patch.rs:101-116 | two files with a hunk each, of which only the second is read |
| ShellWords.Tokenize | crates/fjfj-bazel-compat/src/run_flags.rs:90-138 | the loop over characters computes the recursive scanner the theorems are about |
| ShellGrammar.EveryLineReads | crates/fjfj-bazel-compat/src/run_flags.rs:90-138 | every text is whitespace and pieces of words (bare, after a backslash, in single or in double quotes) up to what it leaves open, and is split into the words these mean, or refused for what is open |
| ShellGrammar.SpelledLineReads | crates/fjfj-bazel-compat/src/run_flags.rs:90-138 | however a line is spelled with such pieces, splitting it gives what it means, double quotes and the backslashes in them included |
| ShellWords.EscapeReads | crates/fjfj-bazel-compat/src/run_flags.rs:142-152 | an escaped word is read as that one word, empty and with quotes included |
| ShellGrammar.EscapeLeavesSafe | crates/fjfj-bazel-compat/src/run_flags.rs:142-152 | a word is left as it is exactly when it is not empty and has only the listed characters |
| ShellWords.WordsOfTwo | crates/fjfj-bazel-compat/src/run_flags.rs:90-138 | a line that stands alone, whitespace and another line have the words of the first, then those of the second or its error |
| ShellWords.CommandLineReads | crates/fjfj-bazel-compat/src/run_flags.rs:90-152 | splitting any list of escaped words, whatever whitespace is between and around them, gives back the list |
| ShellWords.RunUnderTargetReads | crates/fjfj-bazel-compat/src/run_flags.rs:73-86 | a target and its options, escaped, are read back as that target with those options; anything else stays a command, untouched |
| ShellWords.RunUnderByCases | crates/fjfj-bazel-compat/src/run_flags.rs:73-86 | a prefix is refused when it does not split or has no words, is a target when its first word begins like a label, and else a command |
| Lockfile.LockSession.PutInCache | crates/fjfj-bzlmod/src/lockfile.rs:443-455 | one put leaves what is cached under a hash alone |
| Lockfile.CacheOnlyGrows | crates/fjfj-bzlmod/src/lockfile.rs:443-455 | over every run, whatever is asked and whatever fails, no cache entry is lost or replaced, and each one added is filed under the hash of its bytes |
| Lockfile.LockedFetcher.FetchFile | crates/fjfj-bzlmod/src/lockfile.rs:623-635 | the method on mutable session and fetcher is one step of the state machine the theorems are about |
| Lockfile.LockedFetcher.FetchFileOnce | crates/fjfj-bzlmod/src/lockfile.rs:637-699 | the same for a fetch that the fetcher has not answered before |
| Lockfile.FetchByCases | crates/fjfj-bzlmod/src/lockfile.rs:623-699 | what a fetch does, from the mode, the recorded hash, the cache and the network: a file not found before is asked for again in refresh mode and in no other, a file without a hash is refused in error mode and in no other, and recorded content comes from the cache or the network and must have its hash |
| Lockfile.RunAnswers | crates/fjfj-bzlmod/src/lockfile.rs:637-699 | over every run, each answer for a lockable URL is the one its recorded hash and the mode ask for, and where that is the network's the network was asked |
| Lockfile.WhatPassesThrough | crates/fjfj-bzlmod/src/lockfile.rs:641-643 | the URLs that are neither checked nor recorded, by how they begin and end |
| Lockfile.ReachedStates | crates/fjfj-bzlmod/src/lockfile.rs:614-699 | in every state any run can reach, `touched` maps exactly the lockable URLs answered so far to the hash of what was answered or to not-found; no bytes contradict a recorded hash; a repeated answer is the earlier one; and error mode never asks the network for a lockable URL without a recorded hash |
| Lockfile.Replay | crates/fjfj-bzlmod/src/lockfile.rs:532-545 | a run answered throughout, run again in error mode from its own hashes with the same registry and cache, gives the same answers exactly when no content fetched unchecked contradicted the cache, and then records the same hashes |
| Lockfile.HonestReplay | crates/fjfj-bzlmod/src/lockfile.rs:443-455 | with a cache whose entries hash to their names, every answered run can be replayed, answer for answer and hash for hash |
| Lockfile.DamagedCacheStopsReplay | crates/fjfj-bzlmod/src/lockfile.rs:644-699 | a damaged cache entry the first run does not notice and the second refuses |
| Toolchains.Resolve | crates/fjfj-analysis/src/toolchain.rs:323-392 | the first registered toolchain of the type that suits the target and runs on the platform |
| Toolchains.ServingByCases | crates/fjfj-analysis/src/toolchain.rs:292-392 | the toolchain is the first registered declaration that is of the type, outright or by an alias, and whose constraints and settings all hold; there is none only if none fits |
| Toolchains.AliasesLead | crates/fjfj-analysis/src/toolchain.rs:292-318 | up to sixteen aliases are followed, one after another |
| Toolchains.HoldsByCases | crates/fjfj-analysis/src/constraints.rs:15-62 | a platform has a constraint it names, or the default of a setting of which it names no value |
| Toolchains.FilteredFirst | crates/fjfj-analysis/src/debug.rs:186-301 | dropping the toolchains that do not suit the target first, and looking for one that runs on the platform after, gives the first serving one |
| Toolchains.AssignAll | crates/fjfj-analysis/src/debug.rs:236-280 | toolchains outside, platforms inside, stopping early: each labelled platform gets the first toolchain that runs on it |
| Toolchains.Explain | crates/fjfj-analysis/src/debug.rs:164-326 | for every labelled candidate the explanation assigns what resolution returns, and its closing lines say exactly that |
| Toolchains.RecapSelects | crates/fjfj-analysis/src/debug.rs:309-325 | the recap selects, for each labelled candidate, the toolchain assigned to it |
| Toolchains.ResolveOn | crates/fjfj-analysis/src/starlark_rule.rs:581-627 | one platform: it meets the request exactly when every mandatory type is served, with the implementation of each type |
| Toolchains.FindUnserved | crates/fjfj-analysis/src/starlark_rule.rs:628-643 | the mandatory types no candidate serves |
| Toolchains.UnservedIsEmpty | crates/fjfj-analysis/src/starlark_rule.rs:628-643 | none is left exactly when each mandatory type is served by some candidate |
| Toolchains.ResolveToolchains | crates/fjfj-analysis/src/starlark_rule.rs:526-643 | the platform chosen is the first candidate that serves every mandatory type, with what it serves for each; the errors tell no candidate, an unserved type and no common platform apart |
| Toolchains.CandidatesAre | crates/fjfj-analysis/src/starlark_rule.rs:561-577 | the candidates are the platforms, in order, that have every execution constraint the target asks for |
| Toolchains.ResolutionByCases | crates/fjfj-analysis/src/starlark_rule.rs:561-627 | the platform found is one of those named, or the unlabelled target platform if none was, has every constraint asked for, and each implementation is what the serving declaration names |
| Toolchains.UnservedAre | crates/fjfj-analysis/src/starlark_rule.rs:628-643 | the types in the error are the mandatory ones that no candidate serves, in order |
| Toolchains.ResolveAndTrace | crates/fjfj-analysis/src/starlark_rule.rs:561-627 | resolution and then the trace over the same candidates agree: on the platform found, if it has a label, the traces assign exactly what was found, and no labelled candidate before it, or none at all on failure, gets every mandatory type |
| Toolchains.ExplainAll | crates/fjfj-analysis/src/debug.rs:131-135 | every type asked about is explained, and each candidate gets in its trace what resolving the type on it gives |
| Toolchains.TraceTells | crates/fjfj-analysis/src/debug.rs:298-325 | the closing lines of a trace say what resolution does exactly when every candidate that serves the type has a label |
| Toolchains.ServedButTracedAsNotFound | crates/fjfj-analysis/src/debug.rs:298-325 | with no execution platform a type is served on the target platform, which has no label, and the trace ends in there being no toolchain |
| ExpandAll.ExpandAgree | crates/fjfj-analysis/src/toolchain.rs:236-288 | an expansion depends on nothing but the packages it asks for |
| ExpandAll.Run | crates/fjfj-analysis/src/toolchain.rs:161-208 | passes over placeholders until nothing is missing give what one pass over the engine's own packages gives, and end on every finite set of askable packages |
| ExpandAll.ExpandPass | crates/fjfj-analysis/src/toolchain.rs:212-288 | one pass answers from what is loaded and records exactly the packages it asked for that are not |
| ExpandAll.ExpandSound | crates/fjfj-analysis/src/toolchain.rs:236-288 | every label of an expansion is there once and is a rule of the class asked for |
| ExpandAll.ExpandGives | crates/fjfj-analysis/src/toolchain.rs:236-288 | an expansion gives exactly the rules of the class that any of its patterns names, each once, in the order in which they are first named |
| ExpandAll.ExpandIsCollect | crates/fjfj-analysis/src/toolchain.rs:236-288 | it fails as the first pattern that fails |
| Transitions.Configuration.Write | crates/fjfj-analysis/src/transition.rs:217-304 | the method on the mutable configuration writes what the specification says and leaves it alone on a refusal |
| Transitions.WriteIsRead | crates/fjfj-analysis/src/transition.rs:178-304 | a write goes through, is what is read afterwards, and changes no other reading |
| Transitions.WritesAreCanonical | crates/fjfj-analysis/src/transition.rs:178-304 | after any writes `settings` holds exactly the non-default readings and `affected` exactly the readings that differ from the base, with their base values; and each setting reads what it was last given |
| Transitions.CanonicalUnique | crates/fjfj-analysis/src/transition.rs:178-304 | a configuration so kept is determined by its readings |
| Transitions.OnlyLastValuesMatter | crates/fjfj-analysis/src/transition.rs:217-304 | two sequences of writes with the same last values give the same configuration |
| Transitions.WritingBackRestores | crates/fjfj-analysis/src/transition.rs:217-304 | writing back what `affected` recorded, in any order and any number of times over, gives back the base |
| Transitions.WriteReaches | crates/fjfj-analysis/src/transition.rs:178-304 | a write under any name, in any repo, changes what another name reads in another repo exactly when that name's text, aliases followed, is the one written and what is stored there now means something else |
| Transitions.StoredValuesDiffer | crates/fjfj-analysis/src/transition.rs:126-163 | stored values of the setting's type and away from its default mean the same only if they are the same |
| SettingValues.BoolReads | crates/fjfj-analysis/src/transition.rs:126-147 | a boolean is one of ten words in any case, and any other text is refused |
| SettingValues.IntReads | crates/fjfj-analysis/src/transition.rs:126-147 | a number is read with or without a sign, and refused outside 64 bits |
| SettingValues.ListReads | crates/fjfj-analysis/src/transition.rs:126-147 | a list is its items between commas |
| SettingValues.DefaultsAre | crates/fjfj-analysis/src/transition.rs:22-32 | the options a transition may write, and what each is when nothing sets it |
| SettingValues.ModeIsWritten | crates/fjfj-analysis/src/transition.rs:246-258 | the compilation mode can be set to three names, is read back, and changes nothing else |
| SettingValues.PlatformsAreWritten | crates/fjfj-analysis/src/transition.rs:263-283 | platforms are a list of one label whose constraints the configuration takes, and are read back |
| SettingValues.UnsupportedOptions | crates/fjfj-analysis/src/transition.rs:200-212 | `define`, and an option without a default that was never set, can be neither read nor written |
| Transitions.WriteReadBack | crates/fjfj-analysis/src/transition.rs:178-304 | an accepted write is read back under its name exactly when the setting had the value already, or that name is where a read looks and the value fits the setting (an alias being no build setting, lines 51-97) |
| Transitions.AliasedWriteIsRefused | crates/fjfj-analysis/src/transition.rs:286-303 | through an alias a setting can be written only the value it has |
| Transitions.WriteReachesAnotherRepo | crates/fjfj-analysis/src/transition.rs:178-304 | `//p:q` written in the repo `dep+` is lost to that repo and changes the main repo's `//p:q` |
| Transitions.Apply | crates/fjfj-analysis/src/transition.rs:309-374 | each part of a composed transition runs on every configuration the one before made, under joined keys; the first error in order is the result |
| Transitions.ApplyPart | crates/fjfj-analysis/src/transition.rs:331-372 | one part: its inputs are read from each configuration and each of its outcomes is written on a copy |
| Splits.PartMakes | crates/fjfj-analysis/src/transition.rs:331-372 | a part makes one configuration for each outcome on each configuration before, in that order and no others: its changes written one after another, under the key so far, the split's, or both with a comma |
| Splits.PartFails | crates/fjfj-analysis/src/transition.rs:331-372 | a part goes through exactly when its inputs are read, it answers and its changes are accepted on every configuration; otherwise the error is that of the first configuration on which it does not |
| Splits.PartsAreBranches | crates/fjfj-analysis/src/transition.rs:309-374 | taking all configurations through one part before the next makes, in order, what taking each through all the parts makes |
| Splits.PartsFail | crates/fjfj-analysis/src/transition.rs:309-374 | a composed transition fails as the first part that fails on what the parts before it made |
| Splits.TwoSplits | crates/fjfj-analysis/src/transition.rs:309-374 | a split in `a` and `b` and then in `x` and `y` makes `a,x`, `a,y`, `b,x` and `b,y` |
| Transitions.PartsCanonical | crates/fjfj-analysis/src/transition.rs:309-374 | every configuration that a composed or split transition makes is canonical over where it started |

## Left out

- Network, HTTP, JSON and archive formats, file reads and writes, threads, clocks and tracing. The threads
  that read one layer of module files are modelled as reading them in order, which is the order their
  results are used in.
- Starlark evaluation. The character rules for module and repo names are reduced to what the proofs use:
  module names are not empty and have no `+`, repo names are not empty.
- Messages: errors are enumerations with the keys and names they are about. The dependents listed in a
  discovery error and the locations in an evaluation error are not there.
- RepoNames.ModuleContext.Module: compatibility and version texts are checked before the call.
- RepoNames.MapModule: which extension a usage belongs to and what its repos are called is a parameter.
- `build_overrides`, `check_yanked`, `include`, overrides of repos, flag aliases and the numbering of
  extension names: independent of what is proved here.
- Selection.Run: the compatibility level error is the conflict of two keys with one name, as in the code,
  where no level takes part.
- PatchApply.ApplyHunks: line numbers are unbounded, so the wrap-around of the signed 64-bit drift is not
  modelled; text is already split into lines.
- PatchPrint.PatchReads: the first name on the `diff --git` line has no space, since the parser cuts there.
- The half of `apply_patch` that touches files: renames, copies, deletions and modes on disk.
- Lockfile.LockedFetcher.FetchFile: a URL is lockable by its text alone and answers are held as values; the
  merging of module extensions, facts and yanked versions, and the refusal of an unusable lockfile, are not
  modelled.
- Toolchains.Resolve: the engine's lookups of targets and constraint values are total functions, so failing
  lookups are not modelled.
- Toolchains.Explain: wording is left out; the lines are an enumeration.
- Toolchains.ResolveAndTrace: the lines about candidates ruled out beforehand, and the last one with the
  platform found, are not there.
- Toolchains.ResolveToolchains: the dependency keys it returns beside the implementations are left out.
- ExpandAll.Run: what a pattern resolves to is any deterministic computation that asks for packages and stops.
- Transitions.WritesAreCanonical: `platforms`, `compilation_mode`, `cpu`, `define`, settings reached through an
  alias and command-line settings still held as text are outside it, though `Written` has the first three:
  their bookkeeping is different.
- The flag parsers, console, exit codes, query output, workspace status, Java hash order and runfiles: small
  or independent branches.
