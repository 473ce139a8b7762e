# gradle-cache-cleaner: the cleanup engine of `Runner`

This project models the decision engine of the Gradle cache cleaner
(`Runner.java`) and proves what it deletes. The cleaner lists the cache
roots under `~/.gradle/caches` (directories named `jars-…` or `modules-…`).
For each root, in turn, it:

- plans: worker runnables walk the cache and queue every entry that the
  file-access journal shows as last used before a deadline;
- commits: it removes the journal record of each queued path and deletes
  the path recursively.

The model is organised as follows:

- `filesystem.dfy` (`FileSystem`): the disk is a map from paths to entries.
  A directory lists its children by name. `Disk.DeleteRecursively` removes a
  whole subtree. On an I/O failure it reports the failure, having removed
  at most part of what lies beneath the path.
- `journal.dfy` (`Staleness`): the journal is a map from paths to
  timestamps. It holds the staleness predicate of the planning phase and the
  `Journal` store with its `remove`.
- `discovery.dfy` (`Discovery`):
  - the cache-root filter and the dispatch on the root's name;
  - the 32-character entry filter of a jars cache;
  - the partition of a modules cache into group work items and
    `descriptors` mirror roots;
  - the mirror path `descriptors/group/artifact/version`.
- `jars.dfy` (`JarsCache`): `JarsWorkerRunnable.run` is a loop over a
  shared cursor. `deleteFromJars` runs the submitted workers.
- `modules.dfy` (`ModulesCache`):
  - `ModulesWorkerRunnable.run` is three nested loops: groups, then
    artifacts, then versions;
  - the hash loop stops at the first live hash;
  - `fileAndMetadataDeleter` is the sink that queues a version's mirrors;
  - the prune requests for parents that would be left empty.

  These are specified by a walk (`Walk`), the versions it evicts
  (`Evicted`), what the sink then receives (`SinkOutput`) and the prune
  requests (`PruneOutput`).
- `commit.dfy` (`Commit`): the commit loop, with a trace of its steps.
- `sweep.dfy` (`Cleaner`): the per-cache plan-then-commit loop of `main`.
- `sequences.dfy` (`Sequences`): order-preserving filter, map and flatten,
  and how each splits over concatenation. The specifications above are built
  from them.

The executor is created with a single thread (`Runner.java:119`). The
workers submitted for a cache therefore run one after another over the
shared `AtomicInteger` cursor. The model runs `workers >= 1` workers that
way. Each worker returns what its sink received, its match count and the
indices it claimed. The caller concatenates these, so the model keeps no
shared queue.

Four behaviours of the code shape the model:

- **Commit order.** The commit loop removes a path's journal record before
  it attempts the delete, and it does so even when the delete then fails
  (`Runner.java:150-159`). `Commit.FailedDeletionOrphans` states the
  consequence: such a path stays on disk with no journal record, and is never
  judged stale again.
- **Unrecorded paths.** The staleness predicate (`Runner.java:103-116`)
  treats a path without a journal record as not stale.
- **`files-…` children.** The subdirectories of every `files-…` child of a
  modules cache are fed to the modules worker as group directories
  (`Runner.java:196-200`).
- **Commit order of the queue.** The commit loop deletes the queued paths in
  the order the workers queued them, and so does the model.

A failed recursive delete may already have removed part of the subtree:
`deleteRecursively` removes the contents of a directory before the directory
itself. The model takes, for each path whose deletion fails, the set of paths
beneath it that were removed before the failure (`Commit.Failures`). The path
itself stays.

## Model

| member | source | states |
|---|---|---|
| Staleness.StaleMonotone | src/main/java/com/github/skjolber/gradle/Runner.java:108-112 | a path stale for one deadline is stale for every later deadline |
| Staleness.ForgettingNeverStales | src/main/java/com/github/skjolber/gradle/Runner.java:103-116 | removing records from the journal never makes a path stale |
| Staleness.Journal.Remove | src/main/java/com/github/skjolber/gradle/Runner.java:152 | the store loses the record of that path and keeps every other record |
| FileSystem.Disk.DeleteRecursively | src/main/java/com/github/skjolber/gradle/Runner.java:153-158 | on success the path and everything beneath it are gone and nothing else changes. On an I/O failure the failure is reported, only paths strictly beneath the path may be gone, and the path itself stays |
| FileSystem.ListDirsExactly | src/main/java/com/github/skjolber/gradle/Runner.java:190 | a directory listing filtered by `isDirectory` holds exactly the subdirectories of that directory |
| FileSystem.Without | src/main/java/com/github/skjolber/gradle/Runner.java:154 | a successful recursive delete only removes entries, leaves nothing at or beneath the path, and keeps every existing ancestor of the path |
| FileSystem.WithoutCommutes | src/main/java/com/github/skjolber/gradle/Runner.java:150-158 | two successful recursive deletes leave the same disk in either order |
| FileSystem.WithoutAbsorbs | src/main/java/com/github/skjolber/gradle/Runner.java:150-158 | once a path is deleted, deleting a path beneath it changes nothing more |
| FileSystem.PartlyWithout | src/main/java/com/github/skjolber/gradle/Runner.java:153-158 | a recursive delete that fails part-way only removes entries, removes nothing outside the subtree, and leaves the path itself in place |
| Discovery.Classify | src/main/java/com/github/skjolber/gradle/Runner.java:122-130 | a root dispatched to the jars strategy has a `jars-` name, and one dispatched to the modules strategy has a `modules-` name |
| Discovery.CacheRoots | src/main/java/com/github/skjolber/gradle/Runner.java:74-78 | the listed roots are exactly the subdirectories of the caches directory whose name starts with `jars-` or `modules-` |
| Discovery.DiscoveredRootsDispatched | src/main/java/com/github/skjolber/gradle/Runner.java:122-130 | every listed root reaches a strategy, so the "Ignore" branch is never taken; the `jars-` test decides between the two |
| Discovery.JarCandidates | src/main/java/com/github/skjolber/gradle/Runner.java:179-180 | the entries of a jars cache are exactly its subdirectories whose name is 32 characters long |
| Discovery.GroupItemsExactly | src/main/java/com/github/skjolber/gradle/Runner.java:196-200 | a group work item is a subdirectory of a `files-…` child, and every such subdirectory is one |
| Discovery.MirrorRootsExactly | src/main/java/com/github/skjolber/gradle/Runner.java:201-206 | a mirror root is the existing `descriptors` of a child not named `files-…`, and every such `descriptors` is one |
| Discovery.Partition | src/main/java/com/github/skjolber/gradle/Runner.java:195-207 | the partition loop yields exactly the group items and the mirror roots above, in listing order |
| Discovery.MirrorPath | src/main/java/com/github/skjolber/gradle/Runner.java:211-217 | the mirror of `…/group/artifact/version` under root `m` is `m` followed by the last three names of the version path |
| JarsCache.StaleOnesExactly | src/main/java/com/github/skjolber/gradle/Runner.java:260-264 | the sink receives exactly the entries that are recorded and older than the deadline |
| JarsCache.StaleOnesEmpty | src/main/java/com/github/skjolber/gradle/Runner.java:260-264 | nothing is queued iff no entry is stale |
| JarsCache.JarsWorker | src/main/java/com/github/skjolber/gradle/Runner.java:252-267 | the worker claims each index from its start up to the size exactly once, in order, and stops at the first claimed index at or past the size. The sink receives the stale entries among those claimed, and the count equals the number received |
| JarsCache.DeleteFromJars | src/main/java/com/github/skjolber/gradle/Runner.java:178-186 | together the workers claim every index of the entry list exactly once. The queue is exactly the stale entries in listing order, and the counter grows by their number |
| ModulesCache.AllHashesStale | src/main/java/com/github/skjolber/gradle/Runner.java:310-316 | the verdict is true iff every hash is stale. It asks about every hash only when the verdict is true; otherwise it stops at the first live hash and every hash before that one is stale |
| ModulesCache.FileAndMetadataSink | src/main/java/com/github/skjolber/gradle/Runner.java:209-224 | the sink queues the existing mirrors of the version, in mirror-root order, and then always the version itself |
| ModulesCache.ExistingMirrorsExactly | src/main/java/com/github/skjolber/gradle/Runner.java:214-221 | a queued mirror is the mirror of the version under some root, and it exists; every existing mirror is queued |
| ModulesCache.WalkExactly | src/main/java/com/github/skjolber/gradle/Runner.java:302-310 | the walk meets exactly the versions of the artifacts of the claimed groups. For each it knows whether the version is its artifact's only version and whether the artifact is its group's only artifact |
| ModulesCache.EvictedExactly | src/main/java/com/github/skjolber/gradle/Runner.java:309-319 | all or nothing: a version is evicted iff every hash directory beneath it is recorded and older than the deadline |
| ModulesCache.EmptyVersionEvicted | src/main/java/com/github/skjolber/gradle/Runner.java:310-317 | a version with no hash directory is evicted |
| ModulesCache.EvictedCount | src/main/java/com/github/skjolber/gradle/Runner.java:317-319 | the number of evicted versions is the number of walk positions whose hashes are all stale |
| ModulesCache.SinkOutputExactly | src/main/java/com/github/skjolber/gradle/Runner.java:317 | the queue holds exactly the evicted versions and their existing mirrors |
| ModulesCache.PruneOutputExactly | src/main/java/com/github/skjolber/gradle/Runner.java:321-326 | pruning an artifact is requested iff an evicted version was its only version. Pruning a group is requested iff, in addition, that artifact was the group's only artifact |
| ModulesCache.ProducesConcat | src/main/java/com/github/skjolber/gradle/Runner.java:229-231 | workers that scan consecutive parts of the walk together produce the queue, count and prune requests of the whole walk |
| ModulesCache.ScanVersion | src/main/java/com/github/skjolber/gradle/Runner.java:309-327 | one turn of the versions loop: given what the earlier versions of the artifact produced, the result is what the versions up to and including this one produce |
| ModulesCache.ScanArtifact | src/main/java/com/github/skjolber/gradle/Runner.java:306-327 | the versions loop of one artifact produces the queue, the count (one per evicted version) and the prune requests of that artifact's versions |
| ModulesCache.ScanNextArtifact | src/main/java/com/github/skjolber/gradle/Runner.java:305-328 | one turn of the artifacts loop: given what the earlier artifacts of the group produced, the result adds exactly what this artifact's versions yield |
| ModulesCache.ScanGroup | src/main/java/com/github/skjolber/gradle/Runner.java:302-328 | the artifacts loop of one group produces what that group's walk yields |
| ModulesCache.ModulesWorker | src/main/java/com/github/skjolber/gradle/Runner.java:294-331 | the worker claims each group index from its start up to the size exactly once and stops at the first index past the end. It produces what the walk over the claimed groups yields |
| ModulesCache.RunWorker | src/main/java/com/github/skjolber/gradle/Runner.java:228-231 | one submitted worker runs to completion on the shared cursor. The first walks every group; each later one finds the cursor past the end, adds nothing and moves the cursor on by one |
| ModulesCache.DeleteFromModules | src/main/java/com/github/skjolber/gradle/Runner.java:189-232 | after partitioning, the workers claim every group exactly once. Together they produce the queue, count and prune requests of the walk over all groups, with the mirror roots found by the partition |
| Commit.JournalAfterExactly | src/main/java/com/github/skjolber/gradle/Runner.java:150-152 | after the commit no queued path has a journal record, and every other record is kept unchanged |
| Commit.DiskAfterExactly | src/main/java/com/github/skjolber/gradle/Runner.java:150-158 | a path survives the commit iff no queued deletion removed it. A successful deletion removes its whole subtree, and a failed one removes only what it reached beneath its path. A failure stops nothing, and surviving paths keep their entries |
| Commit.DiskAfterBounds | src/main/java/com/github/skjolber/gradle/Runner.java:150-158 | whatever fails, everything beneath a successful deletion is gone, and a path beneath no queued path is untouched |
| Commit.TraceOrder | src/main/java/com/github/skjolber/gradle/Runner.java:150-158 | each queued path is forgotten before its deletion is attempted, and its deletion fails iff its I/O fails, whatever happened to earlier paths |
| Commit.FailedDeletionOrphans | src/main/java/com/github/skjolber/gradle/Runner.java:152-158 | a path whose deletion failed, and that no other queued deletion reached, stays on disk without a journal record and is stale for no deadline |
| Commit.CommitQueue | src/main/java/com/github/skjolber/gradle/Runner.java:150-159 | the loop leaves the journal, the disk and the trace as described by the three functions above |
| Cleaner.JarsPlanExactly | src/main/java/com/github/skjolber/gradle/Runner.java:178-186 | a jars cache queues exactly its 32-character subdirectories that are recorded before the deadline, counts each one and requests no pruning |
| Cleaner.ModulesPlanExactly | src/main/java/com/github/skjolber/gradle/Runner.java:189-232 | a modules cache queues exactly the versions on its walk whose hashes are all stale, together with their existing mirrors. The count is the number of walk positions whose version is evicted |
| Cleaner.JarsReplanIsEmpty | src/main/java/com/github/skjolber/gradle/Runner.java:150-159 | whatever the deletions did, planning the same jars cache again on the disk and journal the commit left queues nothing |
| Cleaner.ModulesReplanIsEmpty | src/main/java/com/github/skjolber/gradle/Runner.java:150-159 | when every deletion of a modules commit succeeds, planning the same cache again on the disk and journal it left queues nothing |
| Cleaner.FailedCommitReplansSame | src/main/java/com/github/skjolber/gradle/Runner.java:150-159 | when every deletion of a modules commit fails before removing anything, the next plan is the same plan. The commit forgets only the queued paths (line 152) and never the hash records the eviction test reads (line 313) |
| Cleaner.PlanCache | src/main/java/com/github/skjolber/gradle/Runner.java:122-130 | the dispatch runs the jars strategy for `jars-…`, the modules strategy for `modules-…` and nothing otherwise, and yields the plan described above |
| Cleaner.SweepOnlyRemoves | src/main/java/com/github/skjolber/gradle/Runner.java:87-167 | a run only removes: no path appears on disk, no journal record is added or changed, and the deleted counter only grows |
| Cleaner.Sweep | src/main/java/com/github/skjolber/gradle/Runner.java:78-167 | the roots are listed once on the initial disk. Each is then planned on the current disk and journal and committed before the next, and the counter sums the plans' counts |

## Left out

- Advisory locking (`DefaultFileLockManager`, the "prepare" and "perform" locks, contention callbacks): foreign inter-process coordination.
- The 60-second `awaitTermination` (`Runner.java:133`), whose result is ignored: the model assumes the workers finish within the wait, so each cache is fully planned before its commit begins. Past 60 seconds, the commit loop would iterate a queue the workers may still be filling, and `deleted` would miss their late counts.
- The thread pool (`newFixedThreadPool`, `shutdown`, `awaitTermination` with its 60-second timeout, `synchronized (journal)`, the `volatile closed` flag, which is never set): concurrency is not modelled. Workers run one after another, which is what the configured single-thread pool does.
- Exceptions: a `listFiles` that returns `null` on an I/O error, and the `catch` that reports "Problem deleting from" a cache and goes on. Listings are total functions of the modelled disk.
- Console output other than the failed deletions, and the elapsed-time report: I/O.
- The physical effect of `artifactId.delete()` and `groupId.delete()`: `File.delete` on a directory that is still non-empty is library behaviour. Only the requests are modelled, in `PruneRequest` and `PruneOutput`.
- The `BTreePersistentIndexedCache` file format and its serializers: the journal is a map from paths to timestamps. The same store serves every cache of a run, as in the code.
- `DefaultDeleter` internals, including its symbolic-link test and the order in which it removes a subtree: a failed deletion may remove any set of paths strictly beneath the path, given by the parameter `failing`.
- `main`'s argument handling, `Long.parseLong`, `System.getProperty`, the clock and `System.exit`: the caches directory, the deadline and the failing deletions are parameters.
- `RunWait.java` is not part of this model: it is a console harness around `main`.
- Discovery.JarCandidates: a name's length is its number of characters; Java's `String.length` counts UTF-16 code units, which differ only for names outside the Basic Multilingual Plane.
