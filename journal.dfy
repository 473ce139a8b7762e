/**
  The file-access journal: the last access time (epoch milliseconds) recorded
  for a cache entry, and the staleness test the cleaner applies to it.
  */
module Staleness {
  import opened FileSystem

  type Timestamps = map<Path, int>

  /**
    The cleaner's predicate: a path may be deleted iff the journal holds a
    timestamp for it and that timestamp lies before the deadline. A path the
    journal never recorded is kept.
    */
  predicate IsStale(journal: Timestamps, deadline: int, p: Path)
  {
    if p !in journal then false
    else if journal[p] >= deadline then false
    else true
  }

  /** A later deadline never rescues a stale path. */
  lemma StaleMonotone(journal: Timestamps, deadline: int, later: int, p: Path)
    requires deadline <= later
    ensures IsStale(journal, deadline, p) ==> IsStale(journal, later, p)
  {
  }

  /** Removing journal records never makes a path stale. */
  lemma ForgettingNeverStales(journal: Timestamps, smaller: Timestamps, deadline: int, p: Path)
    requires forall q :: q in smaller ==> q in journal && smaller[q] == journal[q]
    ensures IsStale(smaller, deadline, p) ==> IsStale(journal, deadline, p)
  {
  }

  /** The journal store (`BTreePersistentIndexedCache<File, Long>`). */
  class Journal {
    var entries: Timestamps

    constructor (entries: Timestamps)
      ensures this.entries == entries
    {
      this.entries := entries;
    }

    /** `journal.remove(p)`: forgets the record of `p`, if any. */
    method Remove(p: Path)
      modifies this
      ensures entries == old(entries) - {p}
    {
      entries := entries - {p};
    }
  }
}
