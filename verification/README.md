# hone: dependency-graph scheduler and file cache, modelled in Dafny

`hone` is a build/CI runner. A configuration file names jobs, each with an
optional list of the jobs it depends on. `hone [file] [target]` performs four steps:

1. It builds a directed graph of the jobs, with an edge from each dependency to its dependent.
2. It sorts the graph topologically.
3. It runs every job that has a path to the target, once all its direct dependencies have finished.
4. It exits with the number of errors.

A job whose dependency failed is not run. Its error becomes "Failed dependencies" naming those dependencies. Job outputs are memoised by a file cache. The cache stores each output file under the digest of its bytes (`<dir>/out/<digest>`). It stores per-job manifests of such entries under `<dir>/in/<key>`.

The model has these parts:

- **`Jobs`, `JobGraph`** (`jobs.dfy`, `graph_build.dfy`) cover jobs and `BuildGraph`.
  - Nodes are keyed by job name.
  - The jobs map is last-wins by name; node insertion is first-wins.
  - Building fails on the first undeclared dependency.
- **`GraphOrder`** (`graph_order.dfy`) covers reachability, the set of jobs with a path to the target, and a topological sort.
  - The sort fails exactly when no topological order exists.
  - On failure it returns a set of jobs each of which has a dependency inside the set.
- **`Scheduler`** (`scheduler.dfy`) covers `WaitForDeps`/`ResolveTarget` as a sequential run over the sorted order.
  - The outcomes are characterised by a fixpoint, `Settled`, which is proved unique. The result therefore does not depend on which topological order is used.
  - Errors form a multiset, because concurrent tasks append them in no fixed order.
- **`SchedulerScenarios`** (`scheduler_scenarios.dfy`) gives small concrete runs on `A <- B`.
- **`FileCache`** (`file_cache.dfy`) models `Copy`, `Get`, `Set`, `LoadCacheManifest`, `DumpCacheManifest` and `NewFileCache` over an immutable filesystem value.
  - Files are opened without truncation, so a write keeps any longer old tail.
  - The digest and the JSON codec are function parameters with stated assumptions.
- **`Config`, `Executors`** (`config.dfy`, `executors.dfy`) cover `GetEngine`, `Validate` and `ChooseEngine`.
- **`Cli`** (`cli.dfy`) covers argument defaulting, `isCommitNotFound` and the exit status.

The execution callback is a parameter `Job -> Option<string>`: no error, or an error message. Per-job validation is also a parameter.

## Model

| member | source | states |
|---|---|---|
| JobGraph.BuildGraph | pkg/graph/graph.go:35-75 | Building succeeds iff every dependency names a configured job. On failure, the error names the first undeclared dependency in job order, then declaration order. On success there is one node per distinct job name, holding a configured job of that name, and the edge set is exactly the declared dependencies. Cycles are not rejected. |
| JobGraph.FirstUndeclared | pkg/graph/graph.go:55-60 | Gives the first name of the flattened dependency list that is not a job name, with every earlier name declared, or none when all are declared. |
| JobGraph.LastByNameWins | pkg/graph/graph.go:45-48 | In the jobs map, a name maps to the last job carrying it. |
| JobGraph.NodeHoldsItsJob | pkg/graph/graph.go:50-53 | With distinct names, the node for each job's name holds exactly that job. |
| JobGraph.EdgeDirection | pkg/graph/graph.go:62-69 | An edge from d to j exists iff job j declares d as a dependency, so edges never run from a job to its dependency. |
| GraphOrder.Ancestors | pkg/graph/graph.go:138-141 | The selected set is exactly the nodes with a path to the target, the target included. It is closed under direct dependencies. |
| GraphOrder.TopoSort | pkg/graph/graph.go:129-132 | Success gives a topological order: distinct, covering every node, no edge pointing backwards. Failure happens iff no topological order exists, and it returns a non-empty set of jobs each with a dependency inside the set. |
| GraphOrder.CoreUnorderable | pkg/graph/graph.go:129-132 | A non-empty set of nodes each having a dependency in the set rules out every topological order. |
| GraphOrder.CycleUnorderable | pkg/graph/graph.go:129-132 | A dependency cycle, a self dependency included, rules out every topological order. |
| Scheduler.Schedule | pkg/graph/graph.go:134-159 | Running the selected jobs in a topological order gives one outcome per job with a path to the target, each consistent with its direct dependencies' outcomes. Each error occurs exactly as often as there are jobs ending with it. The error count equals the number of failed jobs. |
| Scheduler.SettledMeaning | pkg/graph/graph.go:81-116 | A job's callback runs iff no direct dependency failed. Otherwise its outcome lists exactly the failed direct dependencies. A job fails iff its callback fails or a dependency failed. A run job's error is its callback's. |
| Scheduler.SettledUnique | pkg/graph/graph.go:77-99 | On an acyclic graph, two outcome maps over the same jobs that both satisfy the dependency rule are equal. The outcome is determined regardless of goroutine interleaving. |
| Scheduler.ScheduleIgnoresOrder | pkg/graph/graph.go:129-159 | Any two topological orders give the same outcomes and the same errors. |
| Scheduler.ResolveTarget | pkg/graph/graph.go:120-160 | The unknown-target case returns exactly one TargetNotFound error and runs nothing. The cyclic-graph case returns exactly one ordering error and runs nothing. Otherwise the scheduled jobs are exactly those with a path to the target, closed under dependencies. The callback/dependency rule holds, and the errors correspond one-to-one to the failed jobs, empty iff all succeeded. |
| SchedulerScenarios.ChainBuilt | pkg/graph/graph.go:44-75 | Jobs A and B, with B depending on A, build the graph with the single edge A to B. |
| SchedulerScenarios.FailedDependencyChain | pkg/graph/graph.go:81-99 | If A fails and B depends on A, A keeps its callback error and B gets "failed dependencies {A}" without running. Exactly two errors come back. |
| SchedulerScenarios.SuccessfulChain | pkg/graph/graph.go:112-116 | If both callbacks succeed, both jobs succeed and no error comes back. |
| SchedulerScenarios.DependencyOnly | pkg/graph/graph.go:138-141 | Targeting A schedules A alone, since B, its dependent, has no path to it. |
| SchedulerScenarios.MissingTarget | pkg/graph/graph.go:123-127 | An unknown target gives one TargetNotFound error and no outcomes. |
| SchedulerScenarios.CycleBuilt | pkg/graph/graph.go:44-75 | Jobs A and B depending on each other build the graph with edges both ways. |
| SchedulerScenarios.MutualDependency | pkg/graph/graph.go:129-132 | Two jobs depending on each other build a graph, and resolving it gives one ordering error and no outcomes. |
| FileCache.Copy | pkg/cache/file/cache.go:41-60 | Copy succeeds iff the source is a regular file and the destination can be opened for writing; the empty path, a directory, or a new file in a missing directory cannot be. Success leaves the source bytes over the old destination bytes, keeping any longer old tail. Only the destination ever changes. A missing source changes nothing. |
| FileCache.Overlay | pkg/cache/file/cache.go:48-54 | Writing at offset 0 without truncation gives the new bytes first, then the old bytes beyond them. The length is the larger of the two. |
| FileCache.OverlayFacts | pkg/cache/file/cache.go:48-54 | Rewriting the same bytes is idempotent. The result equals the new bytes iff the old contents were no longer. |
| FileCache.Get | pkg/cache/file/cache.go:62-65 | Get copies the blob named by the entry's digest to the entry's path. A missing blob gives a not-exist error and no change. Success needs a non-empty entry path. Only the entry's path changes. |
| FileCache.GetWithoutFilename | pkg/cache/file/cache.go:62-65 | Get of an entry with an empty path, such as the zero entry, fails and changes nothing. |
| FileCache.CopyKeepsWellFormed | pkg/cache/file/cache.go:41-60 | A well-formed filesystem stays well-formed after Copy. Well-formed means no entry has the empty name, "." and "/" are not regular files, and no path is both a file and a directory. |
| FileCache.WritesKeepWellFormed | pkg/cache/file/cache.go:67-120 | Set and DumpCacheManifest keep a well-formed filesystem well-formed. |
| FileCache.MkdirKeepsWellFormed | pkg/cache/file/cache.go:18-39 | Mkdir and NewFileCache keep a well-formed filesystem well-formed. |
| FileCache.Set | pkg/cache/file/cache.go:67-86 | Set fails iff the path is not a readable file, and then returns the empty entry with no change. Otherwise it returns the path with the digest of its bytes, and at most the blob at that digest changes. |
| FileCache.SetUnreadable | pkg/cache/file/cache.go:70-73 | An unreadable path gives the read error, the zero entry and an unchanged filesystem. |
| FileCache.SetStoresBlob | pkg/cache/file/cache.go:75-80 | With the blob directory present, the blob begins with the file's bytes. A new blob holds exactly them. |
| FileCache.SetIgnoresCopyFailure | pkg/cache/file/cache.go:80-85 | With the blob directory missing, Set still reports success with the right entry and stores nothing. |
| FileCache.SetIdempotent | pkg/cache/file/cache.go:67-86 | A second Set of the same path returns the same entry and filesystem. |
| FileCache.SetContentAddressed | pkg/cache/file/cache.go:75-77 | With a collision-free digest, two files get the same hash iff their bytes are equal. |
| FileCache.SetKeepsManifests | pkg/cache/file/cache.go:78-89 | Set never alters a manifest file. |
| FileCache.GetMissingBlob | pkg/cache/file/cache.go:62-65 | Get fails, leaving everything unchanged, when no blob exists under the hash. |
| FileCache.GetRestores | pkg/cache/file/cache.go:48-65 | Given a present blob and a writable target, Get succeeds. The target then equals the blob iff it was absent or no longer than the blob. |
| FileCache.SetDeleteGet | pkg/cache/file/cache.go:62-86 | On a well-formed filesystem: Set a file, delete it, Get its entry: the file is back with the same bytes. |
| FileCache.GetKeepsStaleTail | pkg/cache/file/cache.go:48-54 | On a well-formed filesystem, a target longer than the blob keeps its length after Get, so it differs from the cached bytes. |
| FileCache.LoadCacheManifest | pkg/cache/file/cache.go:88-108 | A missing manifest gives no entries and no error. A present one gives the decoded entries, or an error with no entries when it does not decode. The filesystem is unchanged. |
| FileCache.DumpCacheManifest | pkg/cache/file/cache.go:110-120 | Dump succeeds iff the manifest path can be opened for writing. Success leaves the encoding at the head of the file, and only that file changes. |
| FileCache.DumpLoadRoundTrip | pkg/cache/file/cache.go:88-120 | After a successful dump, loading the same key returns exactly the dumped entries, whatever the file held before. |
| FileCache.DumpKeepsBlobs | pkg/cache/file/cache.go:110-111 | Dumping a manifest never alters a blob. |
| FileCache.PathsDisjoint | pkg/cache/file/cache.go:63-63 | No manifest path equals a blob path, for any key and digest. |
| FileCache.Mkdir | pkg/cache/file/cache.go:23-26 | Mkdir succeeds iff the path is new and its parent is a directory. It reports "already exists" iff the path exists, and never touches files. |
| FileCache.NewFileCache | pkg/cache/file/cache.go:18-39 | Success means each of the cache directory and its in and out subdirectories exists as a directory or as a file, with files untouched. Existing directories are tolerated. |
| FileCache.NewFileCacheReady | pkg/cache/file/cache.go:18-39 | NewFileCache succeeds and creates all three directories when no regular file is in the way and the parent exists. |
| Config.GetEngine | pkg/config/types/types.go:34-39 | Gives the configured engine when set, and the empty string otherwise. |
| Config.FirstInvalid | pkg/config/types/types.go:25-29 | Gives no error iff every job passes. Otherwise it names the first failing job, with its own cause, after only passing jobs. |
| Config.Validate | pkg/config/types/types.go:24-32 | Validate gives nil iff every job validates against the configured engine. Otherwise it names the first failing job and its cause. |
| Config.Message | pkg/config/types/types.go:27-27 | The rejection text starts with "Error validating job ", then the job's name, and ends with the cause. |
| Config.ValidateUsesConfigEngine | pkg/config/types/types.go:26-26 | Each job is checked only against the configured default engine. Checks agreeing there give the same verdict. |
| Config.RejectionNamesAJob | pkg/config/types/types.go:25-28 | A rejection names a configured job. |
| Executors.EngineFor | pkg/executors/executor.go:17-20 | A non-empty job engine wins, and an empty one falls back to the configured default. |
| Executors.ChooseEngine | pkg/executors/executor.go:14-42 | "local" selects Local, and anything other than "local" or "kubernetes" selects Docker. Only "kubernetes" can fail. On it, the choice fails iff the cache block, its S3 part or the Kubernetes block is missing. A missing cache block is a nil dereference, and a missing S3 part alone gives the S3-required error. As written, a missing Kubernetes block is read through, and success always carries the zero block. |
| Executors.ChooseEngineIntended | pkg/executors/executor.go:22-33 | With the nil check corrected, "kubernetes" fails only without an S3 cache and otherwise uses the configured block, or the zero block when none is given. |
| Executors.ChooseEngineAgreement | pkg/executors/executor.go:22-42 | As-written and corrected selections agree except on the Kubernetes path with S3 configured and a block other than the zero one. |
| Executors.JobEngineWins | pkg/executors/executor.go:17-20 | With a job engine set, the configured default does not affect the choice. |
| Executors.DefaultEngineApplies | pkg/executors/executor.go:17-20 | A job with no engine is treated as if it named the default engine. |
| Executors.DockerByDefault | pkg/executors/executor.go:14-39 | With no engine named anywhere, Docker is chosen without error. |
| Executors.AbsentBlockExample | pkg/executors/executor.go:27-30 | With S3 and no Kubernetes block, the as-written code dereferences the absent block, where the corrected code uses the zero block. |
| Executors.ConfiguredBlockExample | pkg/executors/executor.go:27-30 | A configured block is dropped by the as-written code and kept by the corrected one. |
| Cli.ParseArgs | cmd/hone/hone.go:28-36 | One argument becomes the target. Two arguments are the file and the target, in that order. Any other count keeps "Honefile" and "all". |
| Cli.ParseArgsRoundTrip | cmd/hone/hone.go:28-36 | Every file/target pair is reachable from some command line: its shortest argument list parses back to it. |
| Cli.ParseArgsIgnoresProgram | cmd/hone/hone.go:31-35 | The program name does not influence the result. |
| Cli.Contains | cmd/hone/hone.go:19-19 | True iff the pattern occurs at some position of the text. |
| Cli.IsCommitNotFound | cmd/hone/hone.go:18-25 | True iff the message contains "No commit found for SHA". |
| Cli.CommitNotFoundAnywhere | cmd/hone/hone.go:18-25 | The phrase is recognised at any position of a longer message, and never in a shorter one. |
| Cli.RequestedExit | cmd/hone/hone.go:79-90 | The requested status is the number of errors, zero exactly when there are none. |
| Cli.Observed | cmd/hone/hone.go:90-90 | A parent process sees the low eight bits of the requested status. |
| Cli.ExitStatus | cmd/hone/hone.go:90-90 | As written, the status equals the error count below 256 and is zero with no errors. It is always below 256. |
| Cli.ExitStatusIntended | cmd/hone/hone.go:90-90 | Corrected, the status is zero iff there are no errors, and equals the count below 256. |
| Cli.ExitStatusAgreement | cmd/hone/hone.go:90-90 | The two statuses agree iff there are fewer than 256 errors, or the count leaves 255 in the low eight bits. |
| Cli.ExitStatusFalseSuccess | cmd/hone/hone.go:90-90 | As written, a failed run reports success iff its error count is a non-zero multiple of 256. |
| Cli.ExitStatusWrapsExample | cmd/hone/hone.go:90-90 | With 256 errors, the as-written status is 0 while the corrected one is 255. |
| Cli.ResolveAndExit | cmd/hone/hone.go:78-91 | As written, for a known target and an orderable graph the status is zero iff every scheduled job succeeded or the error count is a multiple of 256. It is 1 for an unknown target or a cyclic graph. |
| Cli.ResolveAndExitIntended | cmd/hone/hone.go:78-91 | Corrected, for a known target and an orderable graph the status is zero iff every scheduled job succeeded. It is 1 for an unknown target or a cyclic graph. |

## Left out

- Goroutines, channels and wait groups in `WaitForDeps`/`ResolveTarget` are replaced by a sequential run in topological order. A job starts only after its direct dependencies finish, so the outcomes are the same; `Scheduler.SettledUnique` shows they are order-independent.
- Scheduler.ResolveTarget: a service job's outcome is its callback's result. The detach and stop signalling, and the process-wide stop after the main wave, are not modelled.
- Scheduler.ResolveTarget: the errors correspond one-to-one to the failed jobs only for a run without data races. Every goroutine assigns the shared `err` of pkg/graph/graph.go:129 (line 149) and tests it afterwards, so another job's result can drop or duplicate an error. The unsynchronised `append` of line 151 can lose elements and leaves the order unspecified. The model returns a multiset of errors, as a race-free run would.
- Scheduler.ResolveTarget: the "Failed dependencies: [...]" text is modelled as the set of failed dependency names, because gonum's iteration order of the names is unspecified.
- A job's error left over from an earlier run is not modelled; every run starts from no error.
- The CRC name hash is not modelled. Nodes are keyed by name, which assumes the hash is injective.
- gonum's `topo.Sort`, `PathExistsIn` and `simple.DirectedGraph` are specified abstractly:
  - by a sort that fails exactly on unorderable graphs;
  - by path reachability.
  - A self dependency is treated as a one-node cycle; gonum may panic on a self edge instead.
  - The cycle components listed in gonum's error are not modelled.
- JobGraph.BuildGraph: which of several same-named jobs ends up in a node is modelled exactly (the first one inserted, looked up last-wins for dependencies). It is only stated, though, for distinct names (`JobGraph.NodeHoldsItsJob`).
- Cycles are reported when `ResolveTarget` sorts the graph, not while it is built (pkg/graph/graph.go:129-132). The model follows the code, so the graph of a cyclic job set builds successfully.
- The handling of a graph-build error by the command is not modelled: cmd/hone/hone.go:78 takes a single result from `NewJobGraph`, which returns a graph and an error.
- SHA-256, its hex rendering and the JSON codec are parameters:
  - the digest is assumed slash-free, and collision-free where content addressing is stated;
  - the decoder reads the first encoded value and ignores trailing bytes.
- Paths are joined with "/" without `filepath.Clean`.
- The filesystem value can hold states no real filesystem has, such as a regular file with the empty name. FileCache.SetDeleteGet and FileCache.GetKeepsStaleTail are stated for well-formed filesystems only, which every operation preserves.
- FileCache.PathsDisjoint: holds for every key only because the model's `Join` does not clean paths. Go's cleaning join maps a key such as "../out/<hash>" onto a blob path. The same applies to FileCache.SetKeepsManifests and FileCache.DumpKeepsBlobs; in Go they hold for keys without "/" or "..".
- Permission errors, write errors during copying or encoding, and the "not a directory" error for a file in the middle of a path are not modelled. Such a path counts as not existing.
- FileCache.LoadCacheManifest: a path under a regular file reports "no manifest" rather than the "not a directory" error.
- The S3 cache, the event and logging decorators, `cache.CacheJob`, the Docker, local and Kubernetes backends, the logger, source-control status reporting and `log.Fatal` are not modelled. They are I/O or code outside this model.
- pkg/executors/docker/docker.go is not part of this model.
- The per-job `Validate` and `GetEngine` of the job package are not part of this model. Validation is a parameter, and a job's engine is its `engine` field.
- Executors.ChooseEngine: a missing `cache` block on the Kubernetes path is modelled as the same nil-dereference failure, in both the as-written and the corrected version.

## Findings

| source | as written | input that shows it | evidently intended | confidence | as-written member | corrected member |
|---|---|---|---|---|---|---|
| pkg/executors/executor.go:28-30 | The Kubernetes block is copied only when it is nil. | Engine "kubernetes" with S3 configured: no `kubernetes` block dereferences nil; a block with settings is replaced by the zero block. | Use the configured block, and the zero block when none is given. | not executed; high | Executors.ChooseEngine, Executors.AbsentBlockExample, Executors.ConfiguredBlockExample | Executors.ChooseEngineIntended |
| cmd/hone/hone.go:90 | The process exits with the raw error count, and a parent sees its low eight bits. | 256 failing jobs: the status seen is 0, which reports success. | A non-zero status for every failed run, for example the count capped at 255. | not executed; medium | Cli.ExitStatus, Cli.ResolveAndExit, Cli.ExitStatusWrapsExample | Cli.ExitStatusIntended, Cli.ResolveAndExitIntended |
