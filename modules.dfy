/**
  The modules cache: entries are version directories `group/artifact/version`
  holding hash directories. A version is evicted only when every hash beneath
  it is stale; an evicted version is queued together with its metadata
  mirrors, and its parents are put up for best-effort pruning.
  */
module ModulesCache {
  import opened FileSystem
  import opened Staleness
  import opened Discovery
  import opened JarsCache
  import opened Sequences

  /**
    A version directory as the worker's walk meets it, with what the walk
    knows at that point: whether it is its artifact's only version and
    whether the artifact is its group's only artifact.
    */
  datatype VersionSlot = VersionSlot(group: Path, artifact: Path, version: Path, soleVersion: bool, soleArtifact: bool)

  /** The slot of a version of `artifact` in `group`, as the walk meets it. */
  function SlotOf(group: Path, artifact: Path, soleVersion: bool, soleArtifact: bool): Path -> VersionSlot {
    version => VersionSlot(group, artifact, version, soleVersion, soleArtifact)
  }

  /** The slots of the versions `versions` of one artifact. */
  function VersionSlots(group: Path, artifact: Path, versions: seq<Path>, soleVersion: bool, soleArtifact: bool): seq<VersionSlot>
  {
    MapSeq(SlotOf(group, artifact, soleVersion, soleArtifact), versions)
  }

  /** The slots of the artifacts `artifacts` of one group, artifact by artifact. */
  function ArtifactsSlots(t: Tree, group: Path, artifacts: seq<Path>, soleArtifact: bool): seq<VersionSlot>
    decreases |artifacts|
  {
    if artifacts == [] then []
    else
      var artifact := artifacts[|artifacts| - 1];
      var versions := ListDirs(t, artifact);
      ArtifactsSlots(t, group, artifacts[..|artifacts| - 1], soleArtifact)
        + VersionSlots(group, artifact, versions, |versions| == 1, soleArtifact)
  }

  function GroupSlots(t: Tree, group: Path): seq<VersionSlot> {
    var artifacts := ListDirs(t, group);
    ArtifactsSlots(t, group, artifacts, |artifacts| == 1)
  }

  /** Every version slot beneath the groups `groups`, in the order the worker visits them. */
  function Walk(t: Tree, groups: seq<Path>): seq<VersionSlot>
    decreases |groups|
  {
    if groups == [] then []
    else Walk(t, groups[..|groups| - 1]) + GroupSlots(t, groups[|groups| - 1])
  }

  /** Each hash directory is stale (vacuously so when there is none). */
  predicate AllStale(journal: Timestamps, deadline: int, hashes: seq<Path>) {
    forall h :: h in hashes ==> IsStale(journal, deadline, h)
  }

  predicate Evictable(t: Tree, journal: Timestamps, deadline: int, s: VersionSlot) {
    AllStale(journal, deadline, ListDirs(t, s.version))
  }

  /** The eviction test as a function on slots. */
  function EvictableIn(t: Tree, journal: Timestamps, deadline: int): VersionSlot -> bool {
    (s: VersionSlot) => Evictable(t, journal, deadline, s)
  }

  /** The slots whose version is evicted, in walk order. */
  function Evicted(t: Tree, journal: Timestamps, deadline: int, slots: seq<VersionSlot>): seq<VersionSlot> {
    Filter(EvictableIn(t, journal, deadline), slots)
  }

  /** The mirrors of `version` under the roots `mirrors` that exist, in the order of the roots. */
  function ExistingMirrors(t: Tree, mirrors: seq<Path>, version: Path): seq<Path>
    decreases |mirrors|
  {
    if mirrors == [] then []
    else
      var m := MirrorPath(mirrors[|mirrors| - 1], version);
      ExistingMirrors(t, mirrors[..|mirrors| - 1], version) + (if Exists(t, m) then [m] else [])
  }

  /** What the sink queues for one evicted slot: the version's existing mirrors, then the version. */
  function QueuedFor(t: Tree, mirrors: seq<Path>): VersionSlot -> seq<Path> {
    (s: VersionSlot) => ExistingMirrors(t, mirrors, s.version) + [s.version]
  }

  /** What the sink queues for the evicted slots `evicted`, slot after slot. */
  function SinkOutput(t: Tree, mirrors: seq<Path>, evicted: seq<VersionSlot>): seq<Path> {
    Flatten(MapSeq(QueuedFor(t, mirrors), evicted))
  }

  /** The `delete()` calls an evicted version triggers: its artifact if it was the only version, then its group if that artifact was the only one. */
  function PruneRequest(s: VersionSlot): seq<Path> {
    if s.soleVersion then [s.artifact] + (if s.soleArtifact then [s.group] else []) else []
  }

  function PruneOutput(evicted: seq<VersionSlot>): seq<Path> {
    Flatten(MapSeq(PruneRequest, evicted))
  }

  /** A slot of one artifact's listing is one of its versions, with the walk's flags. */
  lemma VersionSlotsExactly(group: Path, artifact: Path, versions: seq<Path>, soleVersion: bool, soleArtifact: bool, s: VersionSlot)
    ensures s in VersionSlots(group, artifact, versions, soleVersion, soleArtifact) <==>
      s.version in versions && s == VersionSlot(group, artifact, s.version, soleVersion, soleArtifact)
  {
    MapSeqExactly(SlotOf(group, artifact, soleVersion, soleArtifact), versions, s);
  }

  /** The slots of some artifacts of a group: a version listed under one of them, flagged as the walk sees it. */
  lemma {:induction false} ArtifactsSlotsExactly(t: Tree, group: Path, artifacts: seq<Path>, soleArtifact: bool, s: VersionSlot)
    ensures s in ArtifactsSlots(t, group, artifacts, soleArtifact) <==>
      && s.group == group && s.artifact in artifacts && s.soleArtifact == soleArtifact
      && s.version in ListDirs(t, s.artifact) && s.soleVersion == (|ListDirs(t, s.artifact)| == 1)
    decreases |artifacts|
  {
    if artifacts != [] {
      var init, last := artifacts[..|artifacts| - 1], artifacts[|artifacts| - 1];
      assert artifacts == init + [last];
      ArtifactsSlotsExactly(t, group, init, soleArtifact, s);
      var versions := ListDirs(t, last);
      VersionSlotsExactly(group, last, versions, |versions| == 1, soleArtifact, s);
    }
  }

  /**
    The walk meets exactly the versions of the artifacts of the given groups,
    each once per listing, knowing whether it is its artifact's only version
    and whether that artifact is its group's only artifact.
    */
  lemma {:induction false} WalkExactly(t: Tree, groups: seq<Path>, s: VersionSlot)
    ensures s in Walk(t, groups) <==>
      && s.group in groups
      && IsSubdirectory(t, s.group, s.artifact) && IsSubdirectory(t, s.artifact, s.version)
      && s.soleArtifact == (|ListDirs(t, s.group)| == 1) && s.soleVersion == (|ListDirs(t, s.artifact)| == 1)
    decreases |groups|
  {
    ListDirsExactly(t, s.group, s.artifact);
    ListDirsExactly(t, s.artifact, s.version);
    if groups != [] {
      var init, last := groups[..|groups| - 1], groups[|groups| - 1];
      assert groups == init + [last];
      WalkExactly(t, init, s);
      var artifacts := ListDirs(t, last);
      ArtifactsSlotsExactly(t, last, artifacts, |artifacts| == 1, s);
    }
  }

  /** A version the walk of the modules cache `root` meets is `root/child/group/artifact/version` for a `files-…` child. */
  lemma WalkVersionShape(t: Tree, root: Path, s: VersionSlot)
    requires s in Walk(t, GroupItems(t, ListDirs(t, root)))
    ensures |s.version| == |root| + 4 && s.version[..|root|] == root && FilesPrefix <= s.version[|root|]
  {
    WalkExactly(t, GroupItems(t, ListDirs(t, root)), s);
    GroupItemShape(t, root, s.group);
    SubdirectoryShape(t, s.group, s.artifact);
    SubdirectoryShape(t, s.artifact, s.version);
  }

  /** A version beneath an artifact beneath a group item is met by the walk, with the flags its listings give it. */
  lemma WalkMeets(t: Tree, groups: seq<Path>, group: Path, artifact: Path, version: Path)
    requires group in groups && IsSubdirectory(t, group, artifact) && IsSubdirectory(t, artifact, version)
    ensures VersionSlot(group, artifact, version, |ListDirs(t, artifact)| == 1, |ListDirs(t, group)| == 1) in Walk(t, groups)
  {
    WalkExactly(t, groups, VersionSlot(group, artifact, version, |ListDirs(t, artifact)| == 1, |ListDirs(t, group)| == 1));
  }

  /**
    Removing entries from the disk adds no version to the walk of the modules
    cache `root`: a version met on the smaller disk `u` is met on `t`, with
    the flags `t`'s listings give it.
    */
  lemma WalkShrinks(t: Tree, u: Tree, root: Path, s: VersionSlot)
    requires forall q :: q in u ==> q in t && u[q] == t[q]
    requires s in Walk(u, GroupItems(u, ListDirs(u, root)))
    ensures s.version in u
    ensures VersionSlot(s.group, s.artifact, s.version, |ListDirs(t, s.artifact)| == 1, |ListDirs(t, s.group)| == 1)
      in Walk(t, GroupItems(t, ListDirs(t, root)))
  {
    WalkExactly(u, GroupItems(u, ListDirs(u, root)), s);
    GroupItemsShrink(t, u, root, s.group);
    SubdirectoryShrinks(t, u, s.group, s.artifact);
    SubdirectoryShrinks(t, u, s.artifact, s.version);
    WalkMeets(t, GroupItems(t, ListDirs(t, root)), s.group, s.artifact, s.version);
  }

  /** All-or-nothing: a version is evicted iff every hash directory beneath it is stale. */
  lemma EvictedExactly(t: Tree, journal: Timestamps, deadline: int, slots: seq<VersionSlot>, s: VersionSlot)
    ensures s in Evicted(t, journal, deadline, slots) <==>
      s in slots && forall h :: IsSubdirectory(t, s.version, h) ==> h in journal && journal[h] < deadline
  {
    FilterExactly(EvictableIn(t, journal, deadline), slots, s);
    forall h
      ensures (h in ListDirs(t, s.version) ==> IsStale(journal, deadline, h)) <==>
              (IsSubdirectory(t, s.version, h) ==> h in journal && journal[h] < deadline)
    {
      ListDirsExactly(t, s.version, h);
    }
  }

  /** The number of evicted versions is the number of walk positions whose version is evicted. */
  lemma EvictedCount(t: Tree, journal: Timestamps, deadline: int, slots: seq<VersionSlot>)
    ensures |Evicted(t, journal, deadline, slots)| == |set k | 0 <= k < |slots| && Evictable(t, journal, deadline, slots[k])|
  {
    var keep := EvictableIn(t, journal, deadline);
    FilterCount(keep, slots);
    assert Positions(keep, slots) == set k | 0 <= k < |slots| && Evictable(t, journal, deadline, slots[k]);
  }

  /** A version without hash directories is evicted. */
  lemma EmptyVersionEvicted(t: Tree, journal: Timestamps, deadline: int, slots: seq<VersionSlot>, s: VersionSlot)
    requires s in slots && ListDirs(t, s.version) == []
    ensures s in Evicted(t, journal, deadline, slots)
  {
    FilterExactly(EvictableIn(t, journal, deadline), slots, s);
  }

  /** The queued mirrors of a version are its mirrors under the roots that exist. */
  lemma {:induction false} ExistingMirrorsExactly(t: Tree, mirrors: seq<Path>, version: Path, m: Path)
    ensures m in ExistingMirrors(t, mirrors, version) <==> exists r :: r in mirrors && m == MirrorPath(r, version) && Exists(t, m)
    decreases |mirrors|
  {
    if mirrors != [] {
      var init, last := mirrors[..|mirrors| - 1], mirrors[|mirrors| - 1];
      assert mirrors == init + [last];
      ExistingMirrorsExactly(t, init, version, m);
    }
  }

  /** The sink receives an evicted version and its existing mirrors, and nothing else. */
  lemma SinkOutputExactly(t: Tree, mirrors: seq<Path>, evicted: seq<VersionSlot>, p: Path)
    ensures p in SinkOutput(t, mirrors, evicted) <==>
      exists s :: s in evicted && (p == s.version || p in ExistingMirrors(t, mirrors, s.version))
  {
    var pieces := MapSeq(QueuedFor(t, mirrors), evicted);
    FlattenExactly(pieces, p);
    if p in SinkOutput(t, mirrors, evicted) {
      var k :| 0 <= k < |pieces| && p in pieces[k];
      MapSeqIndex(QueuedFor(t, mirrors), evicted, k);
      assert evicted[k] in evicted;
    }
    if exists s :: s in evicted && (p == s.version || p in ExistingMirrors(t, mirrors, s.version)) {
      var s :| s in evicted && (p == s.version || p in ExistingMirrors(t, mirrors, s.version));
      var k :| 0 <= k < |evicted| && evicted[k] == s;
      MapSeqIndex(QueuedFor(t, mirrors), evicted, k);
      assert p in pieces[k];
    }
  }

  /**
    Pruning is requested only for the artifact of an evicted version that was
    its only version, and for the group when that artifact was also its
    group's only artifact; every such request is made.
    */
  lemma PruneOutputExactly(evicted: seq<VersionSlot>, p: Path)
    ensures p in PruneOutput(evicted) <==>
      exists s :: s in evicted && s.soleVersion && (p == s.artifact || (s.soleArtifact && p == s.group))
  {
    var pieces := MapSeq(PruneRequest, evicted);
    FlattenExactly(pieces, p);
    if p in PruneOutput(evicted) {
      var k :| 0 <= k < |pieces| && p in pieces[k];
      MapSeqIndex(PruneRequest, evicted, k);
      assert evicted[k] in evicted;
    }
    if exists s :: s in evicted && s.soleVersion && (p == s.artifact || (s.soleArtifact && p == s.group)) {
      var s :| s in evicted && s.soleVersion && (p == s.artifact || (s.soleArtifact && p == s.group));
      var k :| 0 <= k < |evicted| && evicted[k] == s;
      MapSeqIndex(PruneRequest, evicted, k);
      assert p in pieces[k];
    }
  }

  /** What scanning the slots `slots` produces: the queued paths, the evicted count and the prune requests. */
  predicate Produces(t: Tree, journal: Timestamps, deadline: int, mirrors: seq<Path>, slots: seq<VersionSlot>,
                     sunk: seq<Path>, count: nat, prunes: seq<Path>)
  {
    var evicted := Evicted(t, journal, deadline, slots);
    sunk == SinkOutput(t, mirrors, evicted) && count == |evicted| && prunes == PruneOutput(evicted)
  }

  /** Scanning `a` then `b` produces what scanning `a + b` does. */
  lemma ProducesConcat(t: Tree, journal: Timestamps, deadline: int, mirrors: seq<Path>,
                       a: seq<VersionSlot>, sunkA: seq<Path>, countA: nat, prunesA: seq<Path>,
                       b: seq<VersionSlot>, sunkB: seq<Path>, countB: nat, prunesB: seq<Path>)
    requires Produces(t, journal, deadline, mirrors, a, sunkA, countA, prunesA)
    requires Produces(t, journal, deadline, mirrors, b, sunkB, countB, prunesB)
    ensures Produces(t, journal, deadline, mirrors, a + b, sunkA + sunkB, countA + countB, prunesA + prunesB)
  {
    FilterConcat(EvictableIn(t, journal, deadline), a, b);
    var ea, eb := Evicted(t, journal, deadline, a), Evicted(t, journal, deadline, b);
    MapSeqConcat(QueuedFor(t, mirrors), ea, eb);
    FlattenConcat(MapSeq(QueuedFor(t, mirrors), ea), MapSeq(QueuedFor(t, mirrors), eb));
    MapSeqConcat(PruneRequest, ea, eb);
    FlattenConcat(MapSeq(PruneRequest, ea), MapSeq(PruneRequest, eb));
  }

  /** Visiting one more version extends what the scan has produced by what that version yields. */
  lemma ProducesStep(t: Tree, journal: Timestamps, deadline: int, mirrors: seq<Path>,
                     walked: seq<VersionSlot>, sunk: seq<Path>, count: nat, prunes: seq<Path>, s: VersionSlot)
    requires Produces(t, journal, deadline, mirrors, walked, sunk, count, prunes)
    ensures Evictable(t, journal, deadline, s) ==> Produces(t, journal, deadline, mirrors, walked + [s],
      sunk + (ExistingMirrors(t, mirrors, s.version) + [s.version]), count + 1, prunes + PruneRequest(s))
    ensures !Evictable(t, journal, deadline, s) ==> Produces(t, journal, deadline, mirrors, walked + [s], sunk, count, prunes)
  {
    var evicted := Evicted(t, journal, deadline, walked);
    FilterStep(EvictableIn(t, journal, deadline), walked, s);
    if Evictable(t, journal, deadline, s) {
      MapSeqStep(QueuedFor(t, mirrors), evicted, s);
      FlattenStep(MapSeq(QueuedFor(t, mirrors), evicted), QueuedFor(t, mirrors)(s));
      MapSeqStep(PruneRequest, evicted, s);
      FlattenStep(MapSeq(PruneRequest, evicted), PruneRequest(s));
    } else {
      assert !EvictableIn(t, journal, deadline)(s);
      assert Evicted(t, journal, deadline, walked + [s]) == evicted + [];
      assert evicted + [] == evicted;
    }
  }

  /** Visiting version `v` of an artifact adds what visiting it yields to the scan of the versions before it. */
  lemma VersionVisited(t: Tree, journal: Timestamps, deadline: int, mirrors: seq<Path>, group: Path, artifact: Path,
                       soleArtifact: bool, versions: seq<Path>, v: nat, sunk: seq<Path>, count: nat, prunes: seq<Path>,
                       out: seq<Path>, evicted: bool, requested: seq<Path>)
    requires v < |versions|
    requires var slots := VersionSlots(group, artifact, versions, |versions| == 1, soleArtifact);
      Produces(t, journal, deadline, mirrors, slots[..v], sunk, count, prunes)
    requires var slot := VersionSlot(group, artifact, versions[v], |versions| == 1, soleArtifact);
      && evicted == Evictable(t, journal, deadline, slot)
      && (evicted ==> out == ExistingMirrors(t, mirrors, versions[v]) + [versions[v]] && requested == PruneRequest(slot))
      && (!evicted ==> out == [] && requested == [])
    ensures var slots := VersionSlots(group, artifact, versions, |versions| == 1, soleArtifact);
      Produces(t, journal, deadline, mirrors, slots[..v + 1], sunk + out, count + (if evicted then 1 else 0), prunes + requested)
  {
    var slots := VersionSlots(group, artifact, versions, |versions| == 1, soleArtifact);
    MapSeqIndex(SlotOf(group, artifact, |versions| == 1, soleArtifact), versions, v);
    PrefixStep(slots, v);
    ProducesStep(t, journal, deadline, mirrors, slots[..v], sunk, count, prunes, slots[v]);
    if !evicted {
      assert sunk + out == sunk && prunes + requested == prunes;
    }
  }

  /** Scanning one more artifact of a group adds what its versions yield. */
  lemma ArtifactScanned(t: Tree, journal: Timestamps, deadline: int, mirrors: seq<Path>, group: Path, soleArtifact: bool,
                        artifacts: seq<Path>, a: nat, sunk: seq<Path>, count: nat, prunes: seq<Path>,
                        s: seq<Path>, c: nat, p: seq<Path>)
    requires a < |artifacts|
    requires Produces(t, journal, deadline, mirrors, ArtifactsSlots(t, group, artifacts[..a], soleArtifact), sunk, count, prunes)
    requires var versions := ListDirs(t, artifacts[a]);
      Produces(t, journal, deadline, mirrors, VersionSlots(group, artifacts[a], versions, |versions| == 1, soleArtifact), s, c, p)
    ensures Produces(t, journal, deadline, mirrors, ArtifactsSlots(t, group, artifacts[..a + 1], soleArtifact),
                     sunk + s, count + c, prunes + p)
  {
    PrefixStep(artifacts, a);
    var done := artifacts[..a];
    assert (done + [artifacts[a]])[..|done|] == done;
    var versions := ListDirs(t, artifacts[a]);
    ProducesConcat(t, journal, deadline, mirrors, ArtifactsSlots(t, group, done, soleArtifact), sunk, count, prunes,
      VersionSlots(group, artifacts[a], versions, |versions| == 1, soleArtifact), s, c, p);
  }

  /** Scanning one more group adds what its artifacts yield. */
  lemma GroupScanned(t: Tree, journal: Timestamps, deadline: int, mirrors: seq<Path>,
                     done: seq<Path>, sunk: seq<Path>, count: nat, prunes: seq<Path>,
                     group: Path, s: seq<Path>, c: nat, p: seq<Path>)
    requires Produces(t, journal, deadline, mirrors, Walk(t, done), sunk, count, prunes)
    requires Produces(t, journal, deadline, mirrors, GroupSlots(t, group), s, c, p)
    ensures Produces(t, journal, deadline, mirrors, Walk(t, done + [group]), sunk + s, count + c, prunes + p)
  {
    assert (done + [group])[..|done|] == done;
    ProducesConcat(t, journal, deadline, mirrors, Walk(t, done), sunk, count, prunes, GroupSlots(t, group), s, c, p);
  }

  /**
    The hash loop of `ModulesWorkerRunnable.run`: tests the hashes in order
    and stops at the first live one (`continue versions`). `tested` is the
    number of hashes it asked the journal about.
    */
  method AllHashesStale(journal: Timestamps, deadline: int, hashes: seq<Path>) returns (stale: bool, tested: nat)
    ensures stale <==> AllStale(journal, deadline, hashes)
    ensures stale ==> tested == |hashes|
    ensures !stale ==> 1 <= tested <= |hashes| && !IsStale(journal, deadline, hashes[tested - 1])
    ensures forall k :: 0 <= k < tested - 1 ==> IsStale(journal, deadline, hashes[k])
  {
    tested := 0;
    while tested < |hashes|
      invariant tested <= |hashes|
      invariant forall k :: 0 <= k < tested ==> IsStale(journal, deadline, hashes[k])
    {
      var hash := hashes[tested];
      tested := tested + 1;
      if !IsStale(journal, deadline, hash) {
        return false, tested;
      }
    }
    stale := true;
  }

  /**
    `fileAndMetadataDeleter`: for each mirror root, queues the mirror of
    `version` if it exists, then queues `version` itself.
    */
  method FileAndMetadataSink(t: Tree, mirrors: seq<Path>, version: Path) returns (out: seq<Path>)
    ensures out == ExistingMirrors(t, mirrors, version) + [version]
  {
    out := [];
    for i := 0 to |mirrors|
      invariant out == ExistingMirrors(t, mirrors[..i], version)
    {
      assert mirrors[..i + 1][..i] == mirrors[..i];
      var child := MirrorPath(mirrors[i], version);
      if Exists(t, child) {
        out := out + [child];
      }
    }
    assert mirrors[..|mirrors|] == mirrors;
    out := out + [version];
  }

  /**
    The body of the versions loop for one version: tests its hashes and, when
    all are stale, hands it to the sink and requests the pruning of its
    parents as far as it was their only child.
    */
  method VisitVersion(t: Tree, journal: Timestamps, deadline: int, mirrors: seq<Path>, slot: VersionSlot)
    returns (out: seq<Path>, evicted: bool, requested: seq<Path>)
    ensures evicted == Evictable(t, journal, deadline, slot)
    ensures evicted ==> out == ExistingMirrors(t, mirrors, slot.version) + [slot.version] && requested == PruneRequest(slot)
    ensures !evicted ==> out == [] && requested == []
  {
    var stale, _ := AllHashesStale(journal, deadline, ListDirs(t, slot.version));
    out, evicted, requested := [], stale, [];
    if stale {
      out := FileAndMetadataSink(t, mirrors, slot.version);
      if slot.soleVersion {
        requested := requested + [slot.artifact];
        if slot.soleArtifact {
          requested := requested + [slot.group];
        }
      }
    }
  }

  /** The group items a worker starting at `cursor` walks. */
  function Remaining(groups: seq<Path>, cursor: nat): seq<Path> {
    if cursor <= |groups| then groups[cursor..] else []
  }

  /** The groups at the indices `cursor, …, index - 1` that lie inside `groups`, in order. */
  function Claimed(groups: seq<Path>, cursor: nat, index: nat): seq<Path>
    decreases index
  {
    if index <= cursor then []
    else Claimed(groups, cursor, index - 1) + (if index - 1 < |groups| then [groups[index - 1]] else [])
  }

  /** Claiming one more index inside `groups` claims the group there. */
  lemma ClaimedStep(groups: seq<Path>, cursor: nat, i: nat)
    requires cursor <= i < |groups|
    ensures Claimed(groups, cursor, i + 1) == Claimed(groups, cursor, i) + [groups[i]]
  {
  }

  /** Claiming every index from `cursor` up to the end covers exactly the remaining groups. */
  lemma {:induction false} ClaimedAll(groups: seq<Path>, cursor: nat, index: nat)
    requires cursor <= index <= |groups|
    ensures Claimed(groups, cursor, index) == groups[cursor..index]
    decreases index
  {
    if cursor < index {
      ClaimedAll(groups, cursor, index - 1);
      SliceStep(groups, cursor, index - 1);
    }
  }

  /** Once the claimed index passes the end, the worker has claimed the remaining groups. */
  lemma ClaimedRemaining(groups: seq<Path>, cursor: nat, index: nat)
    requires cursor <= index && |groups| <= index <= Max(cursor, |groups|)
    ensures Claimed(groups, cursor, index) == Remaining(groups, cursor)
  {
    if cursor <= |groups| {
      ClaimedAll(groups, cursor, |groups|);
      assert groups[cursor..|groups|] == groups[cursor..];
    }
  }

  /** One turn of the versions loop: visits version `v` and adds what it yields to what the scan has produced. */
  method ScanVersion(t: Tree, journal: Timestamps, deadline: int, mirrors: seq<Path>, groupId: Path, artifactId: Path,
                     soleArtifact: bool, versions: seq<Path>, v: nat, sunk: seq<Path>, count: nat, prunes: seq<Path>)
    returns (sunk': seq<Path>, count': nat, prunes': seq<Path>)
    requires v < |versions|
    requires var slots := VersionSlots(groupId, artifactId, versions, |versions| == 1, soleArtifact);
      Produces(t, journal, deadline, mirrors, slots[..v], sunk, count, prunes)
    ensures var slots := VersionSlots(groupId, artifactId, versions, |versions| == 1, soleArtifact);
      Produces(t, journal, deadline, mirrors, slots[..v + 1], sunk', count', prunes')
  {
    var out, evicted, requested := VisitVersion(t, journal, deadline, mirrors,
      VersionSlot(groupId, artifactId, versions[v], |versions| == 1, soleArtifact));
    VersionVisited(t, journal, deadline, mirrors, groupId, artifactId, soleArtifact, versions, v, sunk, count, prunes,
      out, evicted, requested);
    sunk', count', prunes' := sunk + out, count + (if evicted then 1 else 0), prunes + requested;
  }

  /**
    The versions loop of `ModulesWorkerRunnable.run` for one artifact: a
    version goes to the sink, counts once and, when it is the artifact's
    only version, requests `delete()` of the artifact and, when that is the
    group's only artifact, of the group; otherwise (`continue versions`)
    nothing happens.
    */
  method ScanArtifact(t: Tree, journal: Timestamps, deadline: int, mirrors: seq<Path>,
                      groupId: Path, artifactId: Path, soleArtifact: bool)
    returns (sunk: seq<Path>, count: nat, prunes: seq<Path>)
    ensures var versions := ListDirs(t, artifactId);
      Produces(t, journal, deadline, mirrors, VersionSlots(groupId, artifactId, versions, |versions| == 1, soleArtifact),
               sunk, count, prunes)
  {
    var versions := ListDirs(t, artifactId);
    sunk, count, prunes := [], 0, [];
    for v := 0 to |versions|
      invariant Produces(t, journal, deadline, mirrors,
        VersionSlots(groupId, artifactId, versions, |versions| == 1, soleArtifact)[..v], sunk, count, prunes)
    {
      sunk, count, prunes := ScanVersion(t, journal, deadline, mirrors, groupId, artifactId, soleArtifact, versions, v,
        sunk, count, prunes);
    }
    assert VersionSlots(groupId, artifactId, versions, |versions| == 1, soleArtifact)[..|versions|]
      == VersionSlots(groupId, artifactId, versions, |versions| == 1, soleArtifact);
  }

  /** One turn of the artifacts loop: scans artifact `a` and adds what its versions yield to what the scan has produced. */
  method ScanNextArtifact(t: Tree, journal: Timestamps, deadline: int, mirrors: seq<Path>, groupId: Path,
                          artifactIds: seq<Path>, a: nat, sunk: seq<Path>, count: nat, prunes: seq<Path>)
    returns (sunk': seq<Path>, count': nat, prunes': seq<Path>)
    requires a < |artifactIds|
    requires Produces(t, journal, deadline, mirrors, ArtifactsSlots(t, groupId, artifactIds[..a], |artifactIds| == 1),
      sunk, count, prunes)
    ensures Produces(t, journal, deadline, mirrors, ArtifactsSlots(t, groupId, artifactIds[..a + 1], |artifactIds| == 1),
      sunk', count', prunes')
  {
    var s, c, p := ScanArtifact(t, journal, deadline, mirrors, groupId, artifactIds[a], |artifactIds| == 1);
    ArtifactScanned(t, journal, deadline, mirrors, groupId, |artifactIds| == 1, artifactIds, a, sunk, count, prunes, s, c, p);
    sunk', count', prunes' := sunk + s, count + c, prunes + p;
  }

  /** The artifacts loop of `ModulesWorkerRunnable.run` for one group directory. */
  method ScanGroup(t: Tree, journal: Timestamps, deadline: int, mirrors: seq<Path>, groupId: Path)
    returns (sunk: seq<Path>, count: nat, prunes: seq<Path>)
    ensures Produces(t, journal, deadline, mirrors, GroupSlots(t, groupId), sunk, count, prunes)
  {
    var artifactIds := ListDirs(t, groupId);
    sunk, count, prunes := [], 0, [];
    for a := 0 to |artifactIds|
      invariant Produces(t, journal, deadline, mirrors, ArtifactsSlots(t, groupId, artifactIds[..a], |artifactIds| == 1),
        sunk, count, prunes)
    {
      sunk, count, prunes := ScanNextArtifact(t, journal, deadline, mirrors, groupId, artifactIds, a, sunk, count, prunes);
    }
    assert artifactIds[..|artifactIds|] == artifactIds;
  }

  /**
    `ModulesWorkerRunnable.run`: claims group directories from the shared
    cursor until the claimed index is past the end, and scans each one.
    Returns what the sink received, the number of evicted versions, the
    prune requests, the in-range indices it claimed and the cursor value it
    leaves behind.
    */
  method ModulesWorker(t: Tree, journal: Timestamps, deadline: int, mirrors: seq<Path>, groups: seq<Path>, cursor: nat)
    returns (sunk: seq<Path>, count: nat, prunes: seq<Path>, claimed: seq<nat>, next: nat)
    ensures next == Max(cursor, |groups|) + 1
    ensures claimed == Indices(cursor, Max(cursor, |groups|))
    ensures Produces(t, journal, deadline, mirrors, Walk(t, Remaining(groups, cursor)), sunk, count, prunes)
  {
    var index := cursor;
    ghost var done: seq<Path> := [];
    ghost var walked: seq<VersionSlot> := [];
    sunk, count, prunes, claimed := [], 0, [], [];
    while true
      invariant cursor <= index <= Max(cursor, |groups|)
      invariant claimed == Indices(cursor, index)
      invariant done == Claimed(groups, cursor, index)
      invariant walked == Walk(t, done)
      invariant Produces(t, journal, deadline, mirrors, walked, sunk, count, prunes)
      decreases Max(cursor, |groups|) - index
    {
      var i := index;
      index := index + 1;
      if i >= |groups| {
        ClaimedRemaining(groups, cursor, i);
        break;
      }
      IndicesStep(cursor, i);
      ClaimedStep(groups, cursor, i);
      claimed := claimed + [i];
      var s, c, p := ScanGroup(t, journal, deadline, mirrors, groups[i]);
      GroupScanned(t, journal, deadline, mirrors, done, sunk, count, prunes, groups[i], s, c, p);
      sunk, count, prunes := sunk + s, count + c, prunes + p;
      done := done + [groups[i]];
      walked := Walk(t, done);
    }
    next := index;
  }

  /**
    One submitted worker runs to completion on the shared cursor: the first
    walks every group, every later one finds the cursor past the end.
    */
  method RunWorker(t: Tree, journal: Timestamps, deadline: int, mirrors: seq<Path>, groups: seq<Path>, w: nat,
                   cursor: nat, queue: seq<Path>, count: nat, prunes: seq<Path>, claimed: seq<nat>)
    returns (queue': seq<Path>, count': nat, prunes': seq<Path>, claimed': seq<nat>, cursor': nat)
    requires cursor == if w == 0 then 0 else |groups| + w
    requires Produces(t, journal, deadline, mirrors, if w == 0 then [] else Walk(t, groups), queue, count, prunes)
    requires claimed == if w == 0 then [] else Indices(0, |groups|)
    ensures cursor' == |groups| + w + 1
    ensures Produces(t, journal, deadline, mirrors, Walk(t, groups), queue', count', prunes')
    ensures claimed' == Indices(0, |groups|)
  {
    assert groups[0..] == groups;
    var s, c, p, cl, next := ModulesWorker(t, journal, deadline, mirrors, groups, cursor);
    ProducesConcat(t, journal, deadline, mirrors, if w == 0 then [] else Walk(t, groups), queue, count, prunes,
      Walk(t, Remaining(groups, cursor)), s, c, p);
    queue', count', prunes', claimed', cursor' := queue + s, count + c, prunes + p, claimed + cl, next;
  }

  /**
    `deleteFromModules` with the workers it submits: partitions the cache,
    then runs `workers` workers one after the other over one cursor.
    */
  method DeleteFromModules(t: Tree, journal: Timestamps, deadline: int, root: Path, workers: nat)
    returns (queue: seq<Path>, count: nat, prunes: seq<Path>, claimed: seq<nat>)
    requires workers >= 1
    ensures var groups := GroupItems(t, ListDirs(t, root));
      && Produces(t, journal, deadline, MirrorRoots(t, ListDirs(t, root)), Walk(t, groups), queue, count, prunes)
      && claimed == Indices(0, |groups|)
  {
    var groups, mirrors := Partition(t, root);
    var cursor := 0;
    queue, count, prunes, claimed := [], 0, [], [];
    for w := 0 to workers
      invariant cursor == if w == 0 then 0 else |groups| + w
      invariant Produces(t, journal, deadline, mirrors, if w == 0 then [] else Walk(t, groups), queue, count, prunes)
      invariant claimed == if w == 0 then [] else Indices(0, |groups|)
    {
      queue, count, prunes, claimed, cursor := RunWorker(t, journal, deadline, mirrors, groups, w, cursor,
        queue, count, prunes, claimed);
    }
  }
}
