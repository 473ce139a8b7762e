/**
  One run of the cleaner: the cache roots are listed once, then each is
  planned (its workers decide what to queue) and committed (the queue is
  forgotten and deleted) before the next one is looked at.
  */
module Cleaner {
  import opened FileSystem
  import opened Staleness
  import opened Sequences
  import opened Discovery
  import opened JarsCache
  import opened ModulesCache
  import opened Commit

  /** What planning one cache yields: the queue, the amount added to the deleted counter, the prune requests. */
  datatype Plan = Plan(queue: seq<Path>, count: nat, prunes: seq<Path>)

  /** The plan for the cache root `root`, by the dispatch on its name. */
  function PlanFor(t: Tree, journal: Timestamps, deadline: int, root: Path): Plan {
    match Classify(Name(root))
    case Jars =>
      var queue := StaleOnes(journal, deadline, JarCandidates(t, root));
      Plan(queue, |queue|, [])
    case Modules =>
      var kids := ListDirs(t, root);
      var evicted := Evicted(t, journal, deadline, Walk(t, GroupItems(t, kids)));
      Plan(SinkOutput(t, MirrorRoots(t, kids), evicted), |evicted|, PruneOutput(evicted))
    case Unrecognized => Plan([], 0, [])
  }

  /**
    A jars cache queues exactly its 32-character subdirectories whose journal
    record lies before the deadline, and counts each of them.
    */
  lemma JarsPlanExactly(t: Tree, journal: Timestamps, deadline: int, root: Path, p: Path)
    requires Classify(Name(root)) == Jars
    ensures var plan := PlanFor(t, journal, deadline, root);
      && plan.count == |plan.queue| && plan.prunes == []
      && (p in plan.queue <==>
            IsSubdirectory(t, root, p) && |Name(p)| == CacheKeyLength && p in journal && journal[p] < deadline)
  {
    StaleOnesExactly(journal, deadline, JarCandidates(t, root), p);
  }

  /**
    A modules cache queues exactly the evicted versions met by the walk over
    its group items and their existing mirrors, and counts one per walk
    position whose version is evicted.
    */
  lemma ModulesPlanExactly(t: Tree, journal: Timestamps, deadline: int, root: Path, p: Path)
    requires Classify(Name(root)) == Modules
    ensures var kids := ListDirs(t, root);
      var walk := Walk(t, GroupItems(t, kids));
      var plan := PlanFor(t, journal, deadline, root);
      && plan.count == |set k | 0 <= k < |walk| && Evictable(t, journal, deadline, walk[k])|
      && (p in plan.queue <==>
            exists s :: s in walk && Evictable(t, journal, deadline, s)
              && (p == s.version || p in ExistingMirrors(t, MirrorRoots(t, kids), s.version)))
  {
    var kids := ListDirs(t, root);
    var walk := Walk(t, GroupItems(t, kids));
    var evicted := Evicted(t, journal, deadline, walk);
    SinkOutputExactly(t, MirrorRoots(t, kids), evicted, p);
    forall s {
      FilterExactly(EvictableIn(t, journal, deadline), walk, s);
    }
    EvictedCount(t, journal, deadline, walk);
  }

  /**
    After a commit, whatever its deletions did, planning the same jars cache
    again on the disk and journal it left queues nothing: every entry still
    there was either never stale or has lost its record.
    */
  lemma JarsReplanIsEmpty(t: Tree, journal: Timestamps, deadline: int, root: Path, failing: Failures)
    requires Classify(Name(root)) == Jars
    ensures var plan := PlanFor(t, journal, deadline, root);
      PlanFor(DiskAfter(t, plan.queue, failing), JournalAfter(journal, plan.queue), deadline, root).queue == []
  {
    var files := JarCandidates(t, root);
    var queue := StaleOnes(journal, deadline, files);
    var disk, later := DiskAfter(t, queue, failing), JournalAfter(journal, queue);
    var remaining := JarCandidates(disk, root);
    forall q | q in disk
      ensures q in t && disk[q] == t[q]
    {
      DiskAfterExactly(t, queue, failing, q);
    }
    forall p | p in remaining
      ensures !IsStale(later, deadline, p)
    {
      SubdirectoryShrinks(t, disk, root, p);
      JournalAfterExactly(journal, queue, p);
      StaleOnesExactly(journal, deadline, files, p);
    }
    StaleOnesEmpty(later, deadline, remaining);
  }

  /** The queue of a modules cache is what the sink receives for the evicted versions of its walk. */
  lemma ModulesQueue(t: Tree, journal: Timestamps, deadline: int, root: Path)
    requires Classify(Name(root)) == Modules
    ensures var kids := ListDirs(t, root);
      PlanFor(t, journal, deadline, root).queue
        == SinkOutput(t, MirrorRoots(t, kids), Evicted(t, journal, deadline, Walk(t, GroupItems(t, kids))))
  {
  }

  /** A version of the walk whose hashes are all stale is queued. */
  lemma VersionQueued(t: Tree, journal: Timestamps, deadline: int, root: Path, s: VersionSlot)
    requires Classify(Name(root)) == Modules
    requires s in Walk(t, GroupItems(t, ListDirs(t, root))) && Evictable(t, journal, deadline, s)
    ensures s.version in PlanFor(t, journal, deadline, root).queue
  {
    var kids := ListDirs(t, root);
    var walk := Walk(t, GroupItems(t, kids));
    ModulesQueue(t, journal, deadline, root);
    FilterExactly(EvictableIn(t, journal, deadline), walk, s);
    SinkOutputExactly(t, MirrorRoots(t, kids), Evicted(t, journal, deadline, walk), s.version);
  }

  /** A path a modules cache queues is one of its versions, or a mirror beneath a child not named `files-…`. */
  lemma ModulesQueueShape(t: Tree, journal: Timestamps, deadline: int, root: Path, p: Path)
    requires Classify(Name(root)) == Modules
    requires p in PlanFor(t, journal, deadline, root).queue
    ensures |p| > |root| && p[..|root|] == root
    ensures |p| == |root| + 4 || !(FilesPrefix <= p[|root|])
  {
    var kids := ListDirs(t, root);
    var walk := Walk(t, GroupItems(t, kids));
    var evicted := Evicted(t, journal, deadline, walk);
    ModulesQueue(t, journal, deadline, root);
    SinkOutputExactly(t, MirrorRoots(t, kids), evicted, p);
    var s :| s in evicted && (p == s.version || p in ExistingMirrors(t, MirrorRoots(t, kids), s.version));
    FilterExactly(EvictableIn(t, journal, deadline), walk, s);
    WalkVersionShape(t, root, s);
    if p != s.version {
      ExistingMirrorsExactly(t, MirrorRoots(t, kids), s.version, p);
      var m :| m in MirrorRoots(t, kids) && p == MirrorPath(m, s.version) && Exists(t, p);
      MirrorPathShape(t, root, m, s.version);
    }
  }

  /** A hash directory beneath a version of the walk is never queued. */
  lemma HashNeverQueued(t: Tree, journal: Timestamps, deadline: int, root: Path, s: VersionSlot, h: Path)
    requires Classify(Name(root)) == Modules
    requires s in Walk(t, GroupItems(t, ListDirs(t, root)))
    requires h == s.version + [Name(h)]
    ensures h !in PlanFor(t, journal, deadline, root).queue
  {
    WalkVersionShape(t, root, s);
    if h in PlanFor(t, journal, deadline, root).queue {
      ModulesQueueShape(t, journal, deadline, root, h);
    }
  }

  /** When every deletion succeeds, the hash directories of a version that survives the commit survive it too. */
  lemma HashSurvives(t: Tree, journal: Timestamps, deadline: int, root: Path, failing: Failures, s: VersionSlot, h: Path)
    requires Classify(Name(root)) == Modules
    requires forall p :: p in PlanFor(t, journal, deadline, root).queue ==> p !in failing
    requires s in Walk(t, GroupItems(t, ListDirs(t, root)))
    requires s.version in DiskAfter(t, PlanFor(t, journal, deadline, root).queue, failing)
    requires h in t && h == s.version + [Name(h)]
    ensures h in DiskAfter(t, PlanFor(t, journal, deadline, root).queue, failing)
  {
    var queue := PlanFor(t, journal, deadline, root).queue;
    var v := s.version;
    DiskAfterExactly(t, queue, failing, v);
    forall p | p in queue
      ensures !Removes(failing, p, h)
    {
      if p <= h {
        if |p| <= |v| {
          assert p <= v && Removes(failing, p, v);
        } else {
          assert p == h;
          HashNeverQueued(t, journal, deadline, root, s, h);
        }
      }
    }
    DiskAfterExactly(t, queue, failing, h);
  }

  /**
    When every deletion succeeds, a version of the walk that survives the
    commit and whose hashes are all stale afterwards had all its hashes stale
    before.
    */
  lemma HashesWereStale(t: Tree, journal: Timestamps, deadline: int, root: Path, failing: Failures, s: VersionSlot)
    requires Classify(Name(root)) == Modules
    requires forall p :: p in PlanFor(t, journal, deadline, root).queue ==> p !in failing
    requires s in Walk(t, GroupItems(t, ListDirs(t, root)))
    requires var queue := PlanFor(t, journal, deadline, root).queue;
      var disk := DiskAfter(t, queue, failing);
      s.version in disk && AllStale(JournalAfter(journal, queue), deadline, ListDirs(disk, s.version))
    ensures Evictable(t, journal, deadline, s)
  {
    var queue := PlanFor(t, journal, deadline, root).queue;
    var disk := DiskAfter(t, queue, failing);
    var v := s.version;
    DiskAfterExactly(t, queue, failing, v);
    forall h | h in ListDirs(t, v)
      ensures IsStale(journal, deadline, h)
    {
      ListDirsExactly(t, v, h);
      SubdirectoryShape(t, v, h);
      HashSurvives(t, journal, deadline, root, failing, s, h);
      DiskAfterExactly(t, queue, failing, h);
      ListDirsExactly(disk, v, h);
      JournalAfterExactly(journal, queue, h);
    }
  }

  /** A version the walk meets again after a commit in which every deletion succeeded is not evicted. */
  lemma SurvivorNotEvicted(t: Tree, journal: Timestamps, deadline: int, root: Path, failing: Failures, s: VersionSlot)
    requires Classify(Name(root)) == Modules
    requires forall p :: p in PlanFor(t, journal, deadline, root).queue ==> p !in failing
    requires var queue := PlanFor(t, journal, deadline, root).queue;
      var disk := DiskAfter(t, queue, failing);
      s in Walk(disk, GroupItems(disk, ListDirs(disk, root)))
    ensures var queue := PlanFor(t, journal, deadline, root).queue;
      !Evictable(DiskAfter(t, queue, failing), JournalAfter(journal, queue), deadline, s)
  {
    var queue := PlanFor(t, journal, deadline, root).queue;
    var disk := DiskAfter(t, queue, failing);
    DiskAfterShrinks(t, queue, failing);
    WalkShrinks(t, disk, root, s);
    var s1 := VersionSlot(s.group, s.artifact, s.version, |ListDirs(t, s.artifact)| == 1, |ListDirs(t, s.group)| == 1);
    if Evictable(disk, JournalAfter(journal, queue), deadline, s) {
      HashesWereStale(t, journal, deadline, root, failing, s1);
      VersionQueued(t, journal, deadline, root, s1);
      DiskAfterExactly(t, queue, failing, s.version);
      assert Removes(failing, s.version, s.version);
    }
  }

  /**
    When every deletion of the commit succeeds, planning the same modules
    cache again on the disk and journal it left queues nothing.
    */
  lemma ModulesReplanIsEmpty(t: Tree, journal: Timestamps, deadline: int, root: Path, failing: Failures)
    requires Classify(Name(root)) == Modules
    requires forall p :: p in PlanFor(t, journal, deadline, root).queue ==> p !in failing
    ensures var plan := PlanFor(t, journal, deadline, root);
      PlanFor(DiskAfter(t, plan.queue, failing), JournalAfter(journal, plan.queue), deadline, root).queue == []
  {
    var queue := PlanFor(t, journal, deadline, root).queue;
    var disk, later := DiskAfter(t, queue, failing), JournalAfter(journal, queue);
    var walk := Walk(disk, GroupItems(disk, ListDirs(disk, root)));
    var evicted := Evicted(disk, later, deadline, walk);
    if evicted != [] {
      FilterExactly(EvictableIn(disk, later, deadline), walk, evicted[0]);
      SurvivorNotEvicted(t, journal, deadline, root, failing, evicted[0]);
    }
  }

  /**
    A failed deletion is retried: when every deletion of a modules commit
    fails before removing anything, the next plan is the same plan, since
    the commit forgets only the queued paths and never the hash records the
    eviction test reads.
    */
  lemma FailedCommitReplansSame(t: Tree, journal: Timestamps, deadline: int, root: Path, failing: Failures)
    requires Classify(Name(root)) == Modules
    requires forall p :: p in PlanFor(t, journal, deadline, root).queue ==> p in failing && failing[p] == {}
    ensures var plan := PlanFor(t, journal, deadline, root);
      PlanFor(DiskAfter(t, plan.queue, failing), JournalAfter(journal, plan.queue), deadline, root) == plan
  {
    var queue := PlanFor(t, journal, deadline, root).queue;
    var disk, later := DiskAfter(t, queue, failing), JournalAfter(journal, queue);
    forall q
      ensures q in disk <==> q in t
      ensures q in disk ==> disk[q] == t[q]
    {
      DiskAfterExactly(t, queue, failing, q);
    }
    assert disk == t;
    var walk := Walk(t, GroupItems(t, ListDirs(t, root)));
    forall k | 0 <= k < |walk|
      ensures EvictableIn(t, later, deadline)(walk[k]) == EvictableIn(t, journal, deadline)(walk[k])
    {
      var s := walk[k];
      forall h | h in ListDirs(t, s.version)
        ensures IsStale(later, deadline, h) == IsStale(journal, deadline, h)
      {
        ListDirsExactly(t, s.version, h);
        SubdirectoryShape(t, s.version, h);
        HashNeverQueued(t, journal, deadline, root, s, h);
        JournalAfterExactly(journal, queue, h);
      }
    }
    FilterAgrees(EvictableIn(t, later, deadline), EvictableIn(t, journal, deadline), walk);
  }

  /**
    The planning step for one cache root: the dispatch on its name,
    with the workers `deleteFromJars` or `deleteFromModules` submit.
    */
  method PlanCache(t: Tree, journal: Timestamps, deadline: int, root: Path, workers: nat) returns (plan: Plan)
    requires workers >= 1
    ensures plan == PlanFor(t, journal, deadline, root)
  {
    var kind := Classify(Name(root));
    if kind == Jars {
      var queue, count, _ := DeleteFromJars(t, journal, deadline, root, workers);
      plan := Plan(queue, count, []);
    } else if kind == Modules {
      var queue, count, prunes, _ := DeleteFromModules(t, journal, deadline, root, workers);
      plan := Plan(queue, count, prunes);
    } else {
      plan := Plan([], 0, []);
    }
  }

  /** The disk, the journal and the deleted counter between two caches. */
  datatype State = State(disk: Tree, journal: Timestamps, deleted: nat)

  /** The state once the caches `roots` are planned and committed in order. */
  function SweepAfter(start: State, roots: seq<Path>, deadline: int, failing: Failures): State
    decreases |roots|
  {
    if roots == [] then start
    else
      var s := SweepAfter(start, roots[..|roots| - 1], deadline, failing);
      var plan := PlanFor(s.disk, s.journal, deadline, roots[|roots| - 1]);
      State(DiskAfter(s.disk, plan.queue, failing), JournalAfter(s.journal, plan.queue), s.deleted + plan.count)
  }

  /** `Shrinks(a, b)`: every key of `b` is a key of `a` with the same value. */
  predicate Shrinks<K, V(==)>(a: map<K, V>, b: map<K, V>) {
    forall k :: k in b ==> k in a && b[k] == a[k]
  }

  /** A run only removes: no file appears, no record is added or changed, and the counter only grows. */
  lemma {:induction false} SweepOnlyRemoves(start: State, roots: seq<Path>, deadline: int, failing: Failures)
    ensures var s := SweepAfter(start, roots, deadline, failing);
      Shrinks(start.disk, s.disk) && Shrinks(start.journal, s.journal) && start.deleted <= s.deleted
    decreases |roots|
  {
    if roots != [] {
      var init := roots[..|roots| - 1];
      SweepOnlyRemoves(start, init, deadline, failing);
      var s := SweepAfter(start, init, deadline, failing);
      var plan := PlanFor(s.disk, s.journal, deadline, roots[|roots| - 1]);
      forall q ensures q in DiskAfter(s.disk, plan.queue, failing) ==> q in s.disk && DiskAfter(s.disk, plan.queue, failing)[q] == s.disk[q] {
        DiskAfterExactly(s.disk, plan.queue, failing, q);
      }
      forall q ensures q in JournalAfter(s.journal, plan.queue) ==> q in s.journal && JournalAfter(s.journal, plan.queue)[q] == s.journal[q] {
        JournalAfterExactly(s.journal, plan.queue, q);
      }
    }
  }

  /**
    The cache loop of `main`: lists the cache roots once, then for each one
    plans on the current disk and journal and commits the plan. Deletions of
    paths in `failing` fail part-way. Returns the deleted counter.
    */
  method Sweep(journal: Journal, disk: Disk, cachesDir: Path, deadline: int, workers: nat, failing: Failures)
    returns (deleted: nat)
    requires workers >= 1
    modifies journal, disk
    ensures State(disk.tree, journal.entries, deleted)
      == SweepAfter(State(old(disk.tree), old(journal.entries), 0), CacheRoots(old(disk.tree), cachesDir), deadline, failing)
  {
    var caches := CacheRoots(disk.tree, cachesDir);
    ghost var start := State(disk.tree, journal.entries, 0);
    deleted := 0;
    for i := 0 to |caches|
      invariant State(disk.tree, journal.entries, deleted) == SweepAfter(start, caches[..i], deadline, failing)
    {
      var plan := PlanCache(disk.tree, journal.entries, deadline, caches[i], workers);
      PrefixStep(caches, i);
      var _ := CommitQueue(plan.queue, journal, disk, failing);
      deleted := deleted + plan.count;
    }
    assert caches[..|caches|] == caches;
  }
}
