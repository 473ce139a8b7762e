/**
  The commit phase of one cache: every queued path has its journal record
  removed and is then deleted recursively. A deletion that fails is reported
  and the loop goes on with the next path.
  */
module Commit {
  import opened FileSystem
  import opened Staleness
  import opened Sequences

  /** What the commit loop did, in the order it did it. */
  datatype Step = Forgot(path: Path) | Deleted(path: Path) | Failed(path: Path)

  /** The journal once the record of every path in `queue` is removed. */
  function JournalAfter(journal: Timestamps, queue: seq<Path>): Timestamps
    decreases |queue|
  {
    if queue == [] then journal
    else JournalAfter(journal, queue[..|queue| - 1]) - {queue[|queue| - 1]}
  }

  /** Exactly the queued paths lose their record; every other record is kept as it was. */
  lemma {:induction false} JournalAfterExactly(journal: Timestamps, queue: seq<Path>, p: Path)
    ensures p in JournalAfter(journal, queue) <==> p in journal && p !in queue
    ensures p in JournalAfter(journal, queue) ==> JournalAfter(journal, queue)[p] == journal[p]
    decreases |queue|
  {
    if queue != [] {
      var init := queue[..|queue| - 1];
      assert queue == init + [queue[|queue| - 1]];
      JournalAfterExactly(journal, init, p);
    }
  }

  /**
    The I/O failures of a commit: each path whose deletion fails, mapped to
    the paths beneath it that the recursive delete removed before failing.
    */
  type Failures = map<Path, set<Path>>

  /** Deleting the queued path `p` removes `q`: all of its subtree, or only what a failed delete got to. */
  predicate Removes(failing: Failures, p: Path, q: Path) {
    if p in failing then p < q && q in failing[p] else p <= q
  }

  /** The disk once the queued paths are deleted in order, the deletions of the `failing` paths having failed. */
  function DiskAfter(t: Tree, queue: seq<Path>, failing: Failures): Tree
    decreases |queue|
  {
    if queue == [] then t
    else
      var before, last := DiskAfter(t, queue[..|queue| - 1], failing), queue[|queue| - 1];
      if last in failing then PartlyWithout(before, last, failing[last]) else Without(before, last)
  }

  /**
    A path survives iff it was there and no queued deletion removed it: a
    successful one removes its whole subtree, a failed one only what it got
    to beneath the path, and never the path itself. A failure stops nothing,
    and surviving paths keep their entries.
    */
  lemma {:induction false} DiskAfterExactly(t: Tree, queue: seq<Path>, failing: Failures, q: Path)
    ensures q in DiskAfter(t, queue, failing) <==> q in t && forall p :: p in queue ==> !Removes(failing, p, q)
    ensures q in DiskAfter(t, queue, failing) ==> DiskAfter(t, queue, failing)[q] == t[q]
    decreases |queue|
  {
    if queue != [] {
      var init, last := queue[..|queue| - 1], queue[|queue| - 1];
      assert queue == init + [last];
      DiskAfterExactly(t, init, failing, q);
      assert (forall p :: p in queue ==> !Removes(failing, p, q))
        <==> (forall p :: p in init ==> !Removes(failing, p, q)) && !Removes(failing, last, q);
    }
  }

  /** A commit only removes paths: every surviving path keeps its entry. */
  lemma DiskAfterShrinks(t: Tree, queue: seq<Path>, failing: Failures)
    ensures forall q :: q in DiskAfter(t, queue, failing) ==> q in t && DiskAfter(t, queue, failing)[q] == t[q]
  {
    forall q | q in DiskAfter(t, queue, failing)
      ensures q in t && DiskAfter(t, queue, failing)[q] == t[q]
    {
      DiskAfterExactly(t, queue, failing, q);
    }
  }

  /**
    The two halves the commit guarantees whatever fails: everything beneath
    a successful deletion is gone, and a path beneath no queued path is
    untouched.
    */
  lemma DiskAfterBounds(t: Tree, queue: seq<Path>, failing: Failures, p: Path, q: Path)
    ensures p in queue && p !in failing && p <= q ==> q !in DiskAfter(t, queue, failing)
    ensures q in t && (forall r :: r in queue ==> !(r <= q)) ==> q in DiskAfter(t, queue, failing) && DiskAfter(t, queue, failing)[q] == t[q]
  {
    DiskAfterExactly(t, queue, failing, q);
  }

  /** The steps of the commit loop: per queued path, forgetting it, then the outcome of its deletion. */
  function Trace(queue: seq<Path>, failing: Failures): seq<Step>
    decreases |queue|
  {
    if queue == [] then []
    else
      var last := queue[|queue| - 1];
      Trace(queue[..|queue| - 1], failing) + [Forgot(last), if last in failing then Failed(last) else Deleted(last)]
  }

  /**
    The `k`-th queued path is forgotten at step `2k`, before its deletion is
    attempted at step `2k + 1`, whatever happened to the paths before it.
    */
  lemma {:induction false} TraceOrder(queue: seq<Path>, failing: Failures, k: nat)
    requires k < |queue|
    ensures |Trace(queue, failing)| == 2 * |queue|
    ensures Trace(queue, failing)[2 * k] == Forgot(queue[k])
    ensures Trace(queue, failing)[2 * k + 1] == if queue[k] in failing then Failed(queue[k]) else Deleted(queue[k])
    decreases |queue|
  {
    var init := queue[..|queue| - 1];
    if k < |queue| - 1 {
      TraceOrder(init, failing, k);
    } else if init != [] {
      TraceOrder(init, failing, 0);
    }
  }

  /**
    A path whose deletion failed, and that no other queued deletion removed,
    stays on disk without a journal record: no later run judges it stale
    again.
    */
  lemma FailedDeletionOrphans(t: Tree, journal: Timestamps, queue: seq<Path>, failing: Failures, p: Path)
    requires p in queue && p in failing && p in t
    requires forall q :: q in queue ==> !Removes(failing, q, p)
    ensures p in DiskAfter(t, queue, failing)
    ensures p !in JournalAfter(journal, queue)
    ensures forall deadline :: !IsStale(JournalAfter(journal, queue), deadline, p)
  {
    DiskAfterExactly(t, queue, failing, p);
    JournalAfterExactly(journal, queue, p);
  }

  /**
    The commit loop of `main` for one cache: for each queued path, removes its
    journal record and then deletes it; a deletion in `failing` fails part-way,
    is reported in the trace, and the loop continues.
    */
  method CommitQueue(queue: seq<Path>, journal: Journal, disk: Disk, failing: Failures) returns (trace: seq<Step>)
    modifies journal, disk
    ensures journal.entries == JournalAfter(old(journal.entries), queue)
    ensures disk.tree == DiskAfter(old(disk.tree), queue, failing)
    ensures trace == Trace(queue, failing)
  {
    trace := [];
    for i := 0 to |queue|
      invariant journal.entries == JournalAfter(old(journal.entries), queue[..i])
      invariant disk.tree == DiskAfter(old(disk.tree), queue[..i], failing)
      invariant trace == Trace(queue[..i], failing)
    {
      var file := queue[i];
      PrefixStep(queue, i);
      journal.Remove(file);
      trace := trace + [Forgot(file)];
      var ok := disk.DeleteRecursively(file, file in failing, if file in failing then failing[file] else {});
      trace := trace + [if ok then Deleted(file) else Failed(file)];
    }
    assert queue[..|queue|] == queue;
  }
}
