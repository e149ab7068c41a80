# dependencies-tool in Dafny

A model of the dependency engine of dependencies-tool, a program that turns
declared dependencies between applications into a deployment order, with
proofs about it. The repository has two generations of the engine, and both
are modelled.

* **The canonical engine** (`internal/`).
  * A composition maps each distribution to its apps, and each app to its
    soft and hard dependencies.
  * `Verify` checks that every dependency is an app of the same
    distribution, and that no app uses the reserved root name.
  * `Add` inserts an app.
  * `forEach`/`forEachRecursive` select either all apps or the closure of
    the requested ones.
  * `createGraph` builds a digraph with a synthetic root vertex. It has an
    edge root→app, app→hard dependency and root→soft dependency.
  * `DependencyOrder` sorts that graph topologically, drops the root and
    reverses the list.
  * `DependencyOrderDot` records nodes, solid edges (hard) and dotted edges
    (soft).
  * Underneath are the adjacency-set graph, Kahn's algorithm with
    lexicographic tie-breaking and classes, the small set and slice
    helpers, the defaulting and validation of per-app configuration files,
    the hard/soft split of configuration entries, and the list of candidate
    dependency-file names.
* **The legacy engine** (the root package).
  * Services each have a `DependsOn` map.
  * Insertion happens only when the name is absent.
  * `PrepareForOwnDb` deletes the `postgres` and `consul` services and
    renames every `postgres` dependency of the remaining services to
    `<service>-db`.
  * `VerifyDependencies` takes an ignore list.
  * `RecursiveDepsOf` takes the dependency closure and supports a `not:`
    exclusion.
  * `DeploymentOrder` re-adds the services without dependencies that the
    sort drops.
  * It has its own dependency-file search list, which reads the global
    `environment`.

Modules follow the source files:

| module | file | source |
|---|---|---|
| `Wrappers` | `wrappers.dfy` | shared `Option` / `Result` |
| `GoStrings` | `gostrings.dfy` | string order, sorting, `strings.TrimSpace` / `Split`, reversal |
| `GoSet` | `set.dfy` | `graphs/set.go` |
| `Datastructs` | `datastructs.dfy` | `internal/datastructs/datastructs.go` |
| `Graphs` | `graph.dfy` | `internal/graphs/graph.go` |
| `TopoSort` | `topological_sort.dfy` | `internal/graphs/topological_sort.go` |
| `Cfg` | `cfg.dfy` | `internal/cfg/cfg.go` |
| `DepsModel` | `deps_model.dfy` | specification functions and lemmas for `internal/deps/composition.go` |
| `DepsFromCfg` | `dependencies.dfy` | `internal/deps/dependencies.go` |
| `DepsComposition` | `composition.dfy` | `internal/deps/composition.go` |
| `DepsSisu` | `sisu.dfy` | `internal/deps/sisu.go` |
| `DepsLib` | `lib.dfy` | `internal/deps/lib.go` |
| `Legacy` | `legacy.dfy` | `composition.go`, `sanitize` in `main.go` |
| `LegacySisu` | `legacy_sisu.dfy` | `sisu.go` |

Modelling conventions:

* Go's map iteration order is arbitrary. A traversal of a map is a loop
  that picks any remaining key (`var k :| k in rest`), and every contract
  is stated so that it holds for every order.
* Where the result does depend on the order, the contract says which facts
  hold for every order. Examples are which violation `Verify` reports first
  and the order of the lists `dependenciesFromCfg` builds.
* Callbacks (`fn` of `forEach`) are replaced by the trace of visited apps,
  which `createGraph` and `DependencyOrderDot` then consume.
* The file system is a `stat` oracle passed in as a function.
* The topological sort is proved equal to a pure Kahn layering function,
  `TopoSort.Kahn`. The lemmas about the sort are stated about that
  function.

## Model

| member | source | states |
|---|---|---|
| GoSet.Set.constructor | graphs/set.go:7-9 | a new set is empty |
| GoSet.Set.Add | graphs/set.go:14-18 | returns true exactly when the element was absent; afterwards it is a member and nothing else changed; adding a present element changes nothing |
| GoSet.Set.Len | graphs/set.go:21-23 | the number of distinct members |
| GoSet.Set.Iter | graphs/set.go:27-36 | enumerates every member exactly once |
| Datastructs.MapHasKey | internal/datastructs/datastructs.go:5-11 | true exactly when the map is non-nil and holds the key |
| Datastructs.NilMapHasNoKey | internal/datastructs/datastructs.go:6-8 | a nil map has no key and behaves like an empty one |
| Datastructs.SliceToSet | internal/datastructs/datastructs.go:13-19 | the key set is the set of elements (duplicates collapse); an empty slice gives an empty set |
| Datastructs.ListToSlice | internal/datastructs/datastructs.go:21-27 | the list values front to back, same length |
| Graphs.Graph.NewGraph | internal/graphs/graph.go:28-33 | an empty undirected graph |
| Graphs.Graph.NewDigraph | internal/graphs/graph.go:36-40 | an empty directed graph |
| Graphs.Graph.AddVertex | internal/graphs/graph.go:43-47 | adds the vertex with no neighbours if absent, changes nothing otherwise; the edge set is unchanged |
| Graphs.Graph.AddEdge | internal/graphs/graph.go:51-64 | both ends become vertices; the edge set gains v1→v2, and v2→v1 too when undirected, and nothing else |
| Graphs.WithVertexAdds | internal/graphs/graph.go:43-47 | adding a vertex leaves every adjacency set as it was and keeps a present vertex's graph identical |
| Graphs.WithEdgeAdds | internal/graphs/graph.go:51-64 | only v1's set (and v2's when undirected) gains the other end; every other adjacency set is unchanged |
| Graphs.WithEdgeIdempotent | internal/graphs/graph.go:55-63 | adding the same edge twice is the same as adding it once |
| Graphs.Graph.NVertices | internal/graphs/graph.go:74-76 | the number of vertices |
| Graphs.Graph.NEdges | internal/graphs/graph.go:79-93 | the sum of the adjacency-set sizes, halved when undirected; for a digraph, the number of edges |
| Graphs.EdgesCount | internal/graphs/graph.go:79-93 | the number of edges equals the sum of the adjacency-set sizes |
| Graphs.SortedEdges | internal/graphs/graph.go:95-104 | the keys of the map in ascending order, each once |
| GoStrings.SortSortsAndPermutes | internal/graphs/graph.go:102 | the sorted slice is in ascending order and a permutation of the input |
| Graphs.Graph.EdgesIter | internal/graphs/graph.go:107-119 | enumerates exactly the edges (v, w) with w adjacent to v, each once |
| Graphs.Graph.HalfedgesIter | internal/graphs/graph.go:123-135 | enumerates the neighbours of v once each, nothing for an absent v |
| TopoSort.CountInEdges | internal/graphs/topological_sort.go:11-18 | one key per edge endpoint; each count is the number of edges into the vertex |
| TopoSort.CollectClass | internal/graphs/topological_sort.go:33-47 | the remaining zero-count vertices in ascending order, all given the current class |
| TopoSort.RemoveEdgesFromVertex | internal/graphs/topological_sort.go:20-25 | each neighbour's count drops by one, every other count is unchanged |
| TopoSort.RemoveVertex | internal/graphs/topological_sort.go:54-57 | after deleting a source and its out-edges, each count still equals the edges from remaining vertices |
| TopoSort.RemoveClass | internal/graphs/topological_sort.go:54-58 | deletes exactly the class, appends it in order, and keeps the counts equal to the edges among remaining vertices |
| TopoSort.RemoveOneKeepsCounts | internal/graphs/topological_sort.go:20-25 | the count invariant survives removing one source (so counts never go negative) |
| TopoSort.ZeroInAreSources | internal/graphs/topological_sort.go:42-46 | under the count invariant, count zero means no edge from a remaining vertex |
| TopoSort.Pass | internal/graphs/topological_sort.go:32-59 | a pass that finds no zero-count vertex means no Kahn layering exists; otherwise it removes at least one key and the next state matches the Kahn layering |
| TopoSort.TopologicalSort | internal/graphs/topological_sort.go:10-63 | on a cycle, ErrNoDAG with an empty list and class map; otherwise the list and classes are the Kahn layering of the graph's edge set (independent of map order) |
| TopoSort.KahnPermutes | internal/graphs/topological_sort.go:32-62 | the order lists every edge endpoint exactly once |
| TopoSort.KahnClasses | internal/graphs/topological_sort.go:29-59 | every listed vertex has a class and classes start at the first class number |
| TopoSort.KahnClassOrdered | internal/graphs/topological_sort.go:31-59 | classes grow by one per pass and each pass is listed in ascending string order |
| TopoSort.KahnFirstClass | internal/graphs/topological_sort.go:42-46 | the first class is exactly the vertices without incoming edges |
| TopoSort.KahnRaisesClass | internal/graphs/topological_sort.go:32-62 | for every edge u→v, class[u] < class[v] |
| TopoSort.KahnEdgesPointForward | internal/graphs/topological_sort.go:32-62 | for every edge u→v, u is listed before v |
| TopoSort.CycleWhenStuck | internal/graphs/topological_sort.go:48-53 | when no pass can proceed, the remaining vertices hold a cycle |
| TopoSort.ClassesClimb | internal/graphs/topological_sort.go:32-62 | class numbers strictly increase along every path |
| TopoSort.KahnFailsIffCycle | internal/graphs/topological_sort.go:32-53 | the sort fails exactly when the edge set has a cycle (a self-loop included) |
| Cfg.Defaulted | internal/cfg/cfg.go:79-86 | after defaulting an entry is non-nil with a non-empty type; a given type is kept |
| Cfg.Config.constructor | internal/cfg/cfg.go:22-28 | a configuration holding the given app name and dependency map |
| Cfg.DefaultApps | internal/cfg/cfg.go:78-87 | the entries of one distribution with nil and empty types replaced by the default |
| Cfg.Config.SetDefaults | internal/cfg/cfg.go:76-89 | the dependencies become their defaulted form, the app name is unchanged |
| Cfg.DefaultsComplete | internal/cfg/cfg.go:76-89 | after defaulting no attribute is nil and no type is empty |
| Cfg.DefaultsKeepEntries | internal/cfg/cfg.go:12-14 | defaulting adds or removes no distribution or key, turns nil and "" into "hard", keeps other types |
| Cfg.DefaultsIdempotent | internal/cfg/cfg.go:76-89 | defaulting twice equals defaulting once |
| Cfg.BlankIsWhiteSpace | internal/cfg/cfg.go:92 | a name trims to empty exactly when it is all white space |
| Cfg.ValidateApps | internal/cfg/cfg.go:109-119 | no error exactly when every key is non-blank and every attribute nil, "hard" or "soft"; an error names an offending entry |
| Cfg.Config.Validate | internal/cfg/cfg.go:91-123 | no error exactly when the name is non-blank, there is a distribution, and every distribution and entry is valid; blank name and empty map are reported first; each error names an offending item |
| Cfg.DefaultedTypesValid | internal/cfg/cfg.go:76-89 | after defaulting, an entry is rejected only for a type given in the file other than "", "hard", "soft" |
| DepsFromCfg.DependenciesFromCfg | internal/deps/dependencies.go:16-31 | success exactly when every type is "soft" or "hard"; then soft and hard names are split by type, each once, with total length the number of entries; an error names an entry of another type |
| DepsModel.WithAppEffect | internal/deps/composition.go:129-140 | Add creates a missing distribution, sets the app (empty dependencies for nil), overwrites it, and keeps every other entry |
| DepsModel.WithAppIdempotent | internal/deps/composition.go:129-140 | adding the same app twice equals adding it once |
| DepsModel.NoMissingIffResolved | internal/deps/composition.go:103-127 | no missing reference exactly when every dependency is an app of its distribution |
| DepsModel.UnresolvedIsMissing | internal/deps/composition.go:112-121 | every dependency that is not an app yields a reported reference |
| DepsModel.MissingIsUnresolved | internal/deps/composition.go:112-121 | every reported reference is a dependency that is not an app |
| DepsModel.EmptyDistributionVerifies | internal/deps/composition.go:106-124 | a distribution without apps verifies |
| DepsComposition.MissingOfKind | internal/deps/composition.go:112-121 | the references of one dependency list that are not apps, each once |
| DepsComposition.VerifyDistribution | internal/deps/composition.go:107-123 | reports the reserved name exactly when an app uses it; otherwise all missing references of the distribution |
| DepsComposition.Composition.NewComposition | internal/deps/composition.go:28-30 | an empty composition |
| DepsComposition.Composition.Verify | internal/deps/composition.go:103-127 | the reserved-name error exactly when some app uses the root name; no error exactly when additionally every reference resolves; otherwise all missing references, each once |
| DepsComposition.Composition.Add | internal/deps/composition.go:129-140 | the distribution map becomes the Add update of the old one |
| DepsComposition.Composition.IsEmpty | internal/deps/composition.go:278-280 | true exactly when there is no distribution |
| DepsModel.ClosureIsLeast | internal/deps/composition.go:309-347 | the closure holds the requested apps, is closed under dependencies and lies inside every closed superset |
| DepsModel.SelectedTakesReachedApps | internal/deps/composition.go:290-313 | every dependency of a selected app that is an app is selected |
| DepsComposition.AddUnseen | internal/deps/composition.go:325-336 | the wanted set gains the dependencies not seen yet |
| DepsComposition.Visit | internal/deps/composition.go:318-341 | the app becomes seen and leaves wanted; its unseen dependencies become wanted |
| DepsComposition.VisitStep | internal/deps/composition.go:317-343 | a visit keeps the worklist inside the closure and shrinks what is left of it |
| DepsComposition.WalkDependencies | internal/deps/composition.go:315-345 | visits each app once, covers the requested apps, stays inside the closure and ends closed; an unknown app is reported |
| DepsComposition.Composition.ForEachRecursive | internal/deps/composition.go:309-347 | an error for a missing distribution; otherwise succeeds exactly when the closure consists of apps, then visits the closure exactly, each once; else names an unknown app of the closure |
| DepsComposition.Composition.ForEach | internal/deps/composition.go:290-307 | with no names visits every app once, with names delegates to the closure; a missing distribution is an error |
| DepsComposition.AddFan | internal/deps/composition.go:180-187 | one edge from v to each listed end, which all become vertices |
| DepsComposition.AddAppToGraph | internal/deps/composition.go:177-189 | the callback adds exactly root→app, app→hard and root→soft edges and their vertices |
| DepsComposition.BuildGraph | internal/deps/composition.go:170-189 | the graph of a visit trace has exactly the root, app and dependency vertices and edges |
| DepsComposition.Composition.CreateGraph | internal/deps/composition.go:164-195 | on success a fresh digraph whose edges are exactly root→app, app→hard dep, root→soft dep and whose vertices are root, the apps and their deps; the errors of forEach otherwise |
| DepsModel.GraphAdd | internal/deps/composition.go:177-189 | one more app adds exactly its edges and vertices |
| DepsModel.GraphEndpoints | internal/deps/composition.go:170-189 | with at least one app, the graph's vertices are exactly the edge endpoints |
| DepsModel.RootInEdges | internal/deps/composition.go:174-187 | the root has an incoming edge exactly when an app or dependency is named like it |
| DepsModel.VerticesEntered | internal/deps/composition.go:177-187 | every vertex other than the root has an incoming edge |
| DepsModel.RootNamedMakesCycle | internal/deps/composition.go:174-187 | an app named like the root closes a cycle |
| DepsModel.CycleIffHardCycle | internal/deps/composition.go:200 | without the reserved name, the graph has a cycle exactly when the hard edges do; root→soft edges never form one |
| DepsModel.VerifiedIsRootFree | internal/deps/composition.go:108-110 | after a successful Verify no selected app or dependency is named like the root |
| DepsModel.SortFailsIffHardCycle | internal/deps/composition.go:210-213 | the sort fails exactly when the graph (without the reserved name: its hard edges) has a cycle |
| DepsModel.RootOnlySource | internal/deps/composition.go:172-179 | the root is the only vertex without incoming edges |
| DepsModel.SortStartsAtRoot | internal/deps/composition.go:217-220 | a non-empty sort starts with the root, so the check before the slice never fires |
| DepsModel.SortEmptyIffNoApps | internal/deps/composition.go:210-218 | the sorted list is empty exactly when no app was selected |
| DepsModel.SortOfNothing | internal/deps/composition.go:210-218 | with no app selected the sort succeeds with an empty list |
| DepsModel.SelectedEmpty | internal/deps/composition.go:290-307 | nothing is selected exactly when no name is given and the distribution has no app |
| DepsModel.ReversedTail | internal/deps/composition.go:221-226 | dropping the first element and reversing keeps each element once and turns forward edges backward |
| DepsModel.SortListsVertices | internal/deps/composition.go:210-213 | a successful sort lists the root, every selected app and every dependency, each once |
| DepsModel.SortEdgesForward | internal/deps/composition.go:210-213 | every graph edge points forward in a successful sort |
| DepsModel.OrderOfSortedGraph | internal/deps/composition.go:215-228 | any root-first, edge-respecting list of the vertices becomes, after dropping the root and reversing, a duplicate-free list of the apps and deps with each hard dependency before its app |
| DepsModel.HardDepsBefore | internal/deps/composition.go:197-200 | an order placing edge ends before starts places hard deps before their apps |
| DepsModel.DependencyOrderMeaning | internal/deps/composition.go:204-229 | the result lists each non-root vertex exactly once and puts every hard dependency of a selected app before that app |
| DepsComposition.ReverseInPlace | internal/deps/composition.go:226 | the array becomes its reversal |
| DepsComposition.Composition.SortedVertices | internal/deps/composition.go:204-213 | the sorted list is the Kahn order of the graph; ErrNoDAG exactly on a cycle |
| DepsComposition.Composition.DropRootAndReverse | internal/deps/composition.go:215-228 | the sort without its first element, reversed |
| DepsComposition.Composition.DependencyOrderAsWritten | internal/deps/composition.go:204-229 | as written: an index-out-of-range failure exactly when no name is given and the distribution has no apps |
| DepsComposition.Composition.DependencyOrder | internal/deps/composition.go:204-229 | success exactly when the selection is non-empty, consists of apps and has no cycle; then the sort minus root, reversed; ErrNoDAG exactly on a cycle; never out of range |
| DepsModel.DotEdgesMeaning | internal/deps/composition.go:248-266 | the solid edges are exactly the hard edges; each dotted edge goes from an app to one of its soft deps |
| DepsComposition.AddDotFan | internal/deps/composition.go:248-266 | one edge per listed dependency, solid or dotted, and the ends as nodes |
| DepsComposition.AddAppToDot | internal/deps/composition.go:243-269 | the app and its deps become nodes; one solid edge per hard and one dotted edge per soft dependency |
| DepsComposition.BuildDot | internal/deps/composition.go:240-269 | nodes are the apps and their deps; edges are the solid and dotted edges of the trace |
| DepsComposition.Composition.DependencyOrderDot | internal/deps/composition.go:239-276 | succeeds exactly when the selection consists of apps (a cycle is no error); nodes and edges as above |
| DepsSisu.DepsFileSearchList | internal/deps/sisu.go:49-67 | the conditional list of candidate names |
| DepsSisu.SearchListShape | internal/deps/sisu.go:52-64 | length 1 + [region] + [env] + [both], ending with ".deps.toml" |
| DepsSisu.SearchListWithoutOverrides | internal/deps/sisu.go:49-67 | with env and region empty the list is exactly [".deps.toml"] |
| DepsSisu.SearchListFirst | internal/deps/sisu.go:52-62 | the most specific candidate comes first: env-region, then region, then env |
| DepsSisu.JoinPath | internal/deps/sisu.go:75 | the directory, a separator and the file name (the bare name for an empty directory) |
| DepsSisu.FirstExisting | internal/deps/sisu.go:74-85 | returns the first existing candidate after only missing ones, stops at the first stat failure, and reports all names when none exists |
| DepsSisu.RealDepsToml | internal/deps/sisu.go:71-86 | the first existing candidate of the search list joined with dir, or an error when none exists |
| DepsLib.StringsliceContain | internal/deps/lib.go:4-12 | true exactly when some element equals the item (false for an empty slice) |
| DepsLib.ContainIgnoresOrder | internal/deps/lib.go:4-12 | the answer does not change when the slice is permuted |
| Legacy.NewService | composition.go:38-41 | a new service depends on no name |
| Legacy.Service.AddDependency | composition.go:31-35 | inserts the dependency only when the name is absent; existing entries are kept |
| Legacy.AddDependencyIdempotent | composition.go:31-35 | a second AddDependency of the same name changes nothing |
| Legacy.Sanitize | main.go:24-26 | quoting adds exactly two characters to the name |
| Legacy.SanitizeShape | main.go:24-26 | a quoted name is the name with a double quote at each end |
| Legacy.SanitizeInjective | main.go:24-26 | distinct names stay distinct once quoted |
| Legacy.WithServiceKeeps | composition.go:108-112 | AddService is idempotent, never replaces a service, and adds exactly the name |
| Legacy.Composition.constructor | composition.go:49-52 | an empty composition |
| Legacy.Composition.AddService | composition.go:108-112 | the services become the insert-if-absent update |
| Legacy.OwnDbDropsInfra | composition.go:58-62 | the result has exactly the services other than postgres and consul |
| Legacy.OwnDbRenamesPostgres | composition.go:64-73 | a postgres dependency becomes <service>-db with the same value; every other dependency is unchanged |
| Legacy.DbNameIsNotPostgres | composition.go:67 | a renamed dependency is never called postgres again |
| Legacy.RenameDbDependency | composition.go:64-73 | the inner loop computes the renamed dependency map |
| Legacy.Composition.PrepareForOwnDb | composition.go:56-75 | the services become the own-db rewrite of the old services |
| Legacy.SplitTrimmed | composition.go:83-85 | one trimmed entry per comma-separated piece |
| Legacy.ServiceNames | composition.go:87-89 | every service name once |
| Legacy.CheckDependencies | composition.go:92-101 | no error exactly when each dependency is ignored or a service; an error names one that is neither |
| Legacy.Composition.VerifyDependencies | composition.go:80-105 | no error exactly when every dependency is a service or one of the trimmed ignore names; an error names a violation |
| Legacy.Composition.Deps | composition.go:160-167 | the quoted dependency names, each once; nothing for an unknown service |
| Legacy.QuotedDeps | composition.go:162-164 | the quoted names of a dependency map, each once |
| Legacy.FirstNeeded | composition.go:181-185 | no error exactly when no dependency is listed; an error names a listed one |
| Legacy.SiftServices | composition.go:177-188 | no error exactly when no kept service depends on a listed one; then the kept services are exactly the unlisted ones |
| Legacy.RemoveNotWanted | composition.go:170-189 | the services not among the trimmed names, or an error naming a kept service that depends on a listed one |
| Legacy.ReachIsClosed | composition.go:214-240 | the reach holds the requested names and is closed under dependencies outside the avoided names |
| Legacy.ReachWithin | composition.go:214-240 | the reach lies inside every such closed superset |
| Legacy.ReachAvoidsNotWanted | composition.go:198-205 | after a successful not: filter the closure contains no excluded service |
| Legacy.ParseRequest | composition.go:194-208 | the requested names and, for a not: request, the kept services and the shielded pieces; an error exactly when a kept service depends on an excluded one |
| Legacy.NoteAdded | composition.go:225-227 | the name is appended unless it is already there |
| Legacy.AddUnvisited | composition.go:230-234 | the worklist gains the dependencies not yet added |
| Legacy.VisitName | composition.go:216-234 | one turn of the loop keeps the gathering invariant |
| Legacy.Gather | composition.go:210-240 | collects a closed set of services around the request inside the bound; unknown names are added as empty services |
| Legacy.Composition.RecursiveDepsOf | composition.go:193-243 | an error exactly when the not: filter fails; otherwise a fresh composition holding exactly the closure, and the receiver also gains empty services for unknown names |
| Legacy.RecursiveDepsOfTestServices | composition_test.go:90-100 | for a(c), b(a), c() the request "a" gives exactly a and c |
| Legacy.SortableEdgesAdd | composition.go:248-256 | drawing one more service adds exactly its fan of quoted edges |
| Legacy.AddQuotedFan | composition.go:253-256 | one edge from the quoted service to each quoted dependency |
| Legacy.DrawService | composition.go:249-256 | the quoted service as vertex and its fan of edges |
| Legacy.SortableGraph | composition.go:245-260 | a fresh digraph whose edges are exactly quoted service→quoted dependency and whose vertices are the quoted services and deps |
| Legacy.LeafNames | composition.go:120-124 | the quoted names of the services without dependencies, each once |
| Legacy.AppendMissing | composition.go:146-150 | appends the names of the extra list that are not listed yet, in that list's order, keeping the prefix, without duplicates |
| Legacy.BackToFront | composition.go:152-154 | the list reversed |
| Legacy.LeavesCompleteVertices | composition.go:143-150 | the sorted endpoints plus the dependency-free services are all vertices |
| Legacy.DeploymentOrderOfSort | composition.go:136-155 | the padded sort, reversed, lists each vertex once and puts dependencies first |
| Legacy.Composition.DeploymentOrder | composition.go:115-157 | an error exactly on a cycle; otherwise every quoted service and dependency once, each dependency before its dependents |
| Legacy.DeploymentOrderOfTestServices | composition_test.go:139-148 | for a(c), b(a), c() the only possible order is "c", "a", "b" |
| LegacySisu.DepsFileSearchList | sisu.go:49-67 | the candidate list built from the global environment and region; the env parameter is ignored |
| LegacySisu.RealDepsToml | sisu.go:71-86 | the first existing candidate of that list, or an error when none exists |

## Left out

- File-system and format I/O are not modelled: reading compositions as JSON or from directories, TOML and YAML decoding (`Unmarshal`, `FromFile`), globbing, docker-compose output and `getComposition`. `os.Stat` is an oracle parameter.
- `filepath.Join` cleaning is not modelled: `JoinPath` joins with one `/` and does not clean the path.
- The text rendering of dot graphs (gographviz and `outputDotGraph`), `Graph.Dump` and the CLI layer in `main.go` and `internal/cmd` are not modelled. `DependencyOrderDot` is modelled as its nodes and its solid and dotted edges.
- The texts of error messages are not modelled; the model only tells which condition fired. `Verify`'s `errors.Join` is modelled as the set of missing references.
- Goroutines and channels are not modelled. `EdgesIter`, `HalfedgesIter` and `Set.Iter` are enumerations into sequences, and `container/list` is a sequence.
- Aliasing is not modelled. Graph adjacency sets are values, and `setDefaults` assigning through a shared `*Attributes` affects only the entry it visits. The legacy `RecursiveDepsOf` builds a new `Services` map for `newcomp`, but each service copied into it shares its `DependsOn` map with the receiver's service of the same name; here the copies are separate values, and `newcomp` is filled in at the end rather than inside the loop.
- Nil versus empty is only partly modelled. A nil `*Dependencies` value in a distribution and a present-but-null distribution map are not modelled; a missing key stands for a nil map.
- `DependencyOrderDot`: the error paths of the gographviz calls are not modelled, because they do not fail for well-formed names.
- `DependenciesFromCfg` requires every attribute to be non-nil. The Go code dereferences the pointer, so a nil attribute would panic.
- The legacy `graphs` package (`NewDigraph`, `TopologicalSort`) and the legacy `stringsliceContain` are not part of this model. They are taken to behave like `internal/graphs` and `internal/deps/lib.go`.
- Go's string order is byte-wise over UTF-8, which is modelled as code-point order on `char`.
- `Legacy.Composition.RecursiveDepsOf` follows the code. A `not:` request takes everything after the first four characters of the whole request, `s[4:]`, not of the `not:` piece, and the shielded names are those pieces untrimmed.

## Findings

| source | as written | input that shows it | evidently intended | confidence | as-written member | corrected member |
|---|---|---|---|---|---|---|
| internal/deps/composition.go:218 | `order[0]` is read without checking the length. A distribution that is present but has no apps, with no names given, gives an empty sort, and indexing it panics | `Distribution = {"d": {}}`, `DependencyOrder("d")` | an error such as "no apps are defined for the distribution", as for a missing distribution | not executed | DepsComposition.Composition.DependencyOrderAsWritten | DepsComposition.Composition.DependencyOrder |
