/**
  The jars cache: flat, independent entries named by a 32-character key. Each
  worker claims indices from a shared cursor, tests the entry at that index
  and hands the stale ones to the sink.
  */
module JarsCache {
  import opened FileSystem
  import opened Staleness
  import opened Discovery
  import opened Sequences

  function Max(a: nat, b: nat): nat {
    if a < b then b else a
  }

  /** The indices `lo, lo + 1, …, hi - 1`, in order. */
  function Indices(lo: nat, hi: nat): (r: seq<nat>)
    requires lo <= hi
    ensures |r| == hi - lo
    ensures forall k :: 0 <= k < |r| ==> r[k] == lo + k
  {
    seq(hi - lo, k requires 0 <= k < hi - lo => lo + k)
  }

  lemma IndicesStep(lo: nat, hi: nat)
    requires lo <= hi
    ensures Indices(lo, hi + 1) == Indices(lo, hi) + [hi]
  {
  }

  /** The staleness test as a function on paths. */
  function StaleIn(journal: Timestamps, deadline: int): Path -> bool {
    p => IsStale(journal, deadline, p)
  }

  /** The entries of `files` that the staleness predicate accepts, in order. */
  function StaleOnes(journal: Timestamps, deadline: int, files: seq<Path>): seq<Path> {
    Filter(StaleIn(journal, deadline), files)
  }

  /** The sink receives exactly the stale entries: nothing fresh, nothing unrecorded, nothing missed. */
  lemma StaleOnesExactly(journal: Timestamps, deadline: int, files: seq<Path>, p: Path)
    ensures p in StaleOnes(journal, deadline, files) <==> p in files && p in journal && journal[p] < deadline
  {
    FilterExactly(StaleIn(journal, deadline), files, p);
  }

  /** No entry is selected iff none of them is stale. */
  lemma StaleOnesEmpty(journal: Timestamps, deadline: int, files: seq<Path>)
    ensures StaleOnes(journal, deadline, files) == [] <==> forall p :: p in files ==> !IsStale(journal, deadline, p)
  {
    var r := StaleOnes(journal, deadline, files);
    forall p { FilterExactly(StaleIn(journal, deadline), files, p); }
    if r != [] {
      assert r[0] in r;
    }
  }

  /**
    `JarsWorkerRunnable.run`: claims the next index from the shared cursor
    until the claimed index is past the end of `files` (the `closed` flag is
    never set, so the loop ends only there). Returns what the sink received,
    the worker's match count, the in-range indices it claimed and the cursor
    value it leaves behind.
    */
  method JarsWorker(files: seq<Path>, journal: Timestamps, deadline: int, cursor: nat)
    returns (sunk: seq<Path>, count: nat, claimed: seq<nat>, next: nat)
    ensures next == Max(cursor, |files|) + 1
    ensures claimed == Indices(cursor, Max(cursor, |files|))
    ensures sunk == if cursor <= |files| then StaleOnes(journal, deadline, files[cursor..]) else []
    ensures count == |sunk|
  {
    var index := cursor;
    sunk, count, claimed := [], 0, [];
    while true
      invariant cursor <= index <= Max(cursor, |files|)
      invariant claimed == Indices(cursor, index)
      invariant cursor <= |files| ==> sunk == StaleOnes(journal, deadline, files[cursor..index])
      invariant cursor > |files| ==> index == cursor && sunk == []
      invariant count == |sunk|
      decreases Max(cursor, |files|) - index
    {
      var i := index;
      index := index + 1;
      if i >= |files| {
        assert cursor <= |files| ==> files[cursor..i] == files[cursor..];
        break;
      }
      var file := files[i];
      SliceStep(files, cursor, i);
      FilterStep(StaleIn(journal, deadline), files[cursor..i], file);
      IndicesStep(cursor, i);
      claimed := claimed + [i];
      if IsStale(journal, deadline, file) {
        count := count + 1;
        sunk := sunk + [file];
      }
    }
    next := index;
  }

  /**
    `deleteFromJars` with the workers it submits: a pool of `workers`
    threads runs that many workers over one cursor; with one thread (the
    configured pool) they run one after the other, as here.
    */
  method DeleteFromJars(t: Tree, journal: Timestamps, deadline: int, root: Path, workers: nat)
    returns (queue: seq<Path>, count: nat, claimed: seq<nat>)
    requires workers >= 1
    ensures queue == StaleOnes(journal, deadline, JarCandidates(t, root))
    ensures count == |queue|
    ensures claimed == Indices(0, |JarCandidates(t, root)|)
  {
    var files := JarCandidates(t, root);
    var cursor := 0;
    queue, count, claimed := [], 0, [];
    for w := 0 to workers
      invariant cursor == if w == 0 then 0 else |files| + w
      invariant queue == if w == 0 then [] else StaleOnes(journal, deadline, files)
      invariant claimed == if w == 0 then [] else Indices(0, |files|)
      invariant count == |queue|
    {
      assert files[0..] == files;
      var sunk, c, cl, next := JarsWorker(files, journal, deadline, cursor);
      queue, count, claimed, cursor := queue + sunk, count + c, claimed + cl, next;
    }
  }
}
