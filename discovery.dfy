/**
  Finding the work: which directories under the caches directory are cache
  roots, how a root is dispatched, which children of a jars cache are entries,
  and how a modules cache splits into group directories and metadata mirrors.
  */
module Discovery {
  import opened FileSystem
  import opened Sequences

  /** Length of a jars-cache entry name (`CACHE_KEY_LENGTH`). */
  const CacheKeyLength: nat := 32

  const JarsPrefix: string := "jars-"
  const ModulesPrefix: string := "modules-"
  const FilesPrefix: string := "files-"
  const DescriptorsName: string := "descriptors"

  datatype CacheKind = Jars | Modules | Unrecognized

  /** The dispatch on a cache root's name: the `jars-` test comes first. */
  function Classify(name: string): (k: CacheKind)
    ensures k == Jars ==> JarsPrefix <= name
    ensures k == Modules ==> ModulesPrefix <= name
  {
    if JarsPrefix <= name then Jars
    else if ModulesPrefix <= name then Modules
    else Unrecognized
  }

  /** `jarCacheFilter`: a directory named `jars-…` or `modules-…`. */
  predicate IsCacheRoot(t: Tree, p: Path) {
    IsDirectory(t, p) && (JarsPrefix <= Name(p) || ModulesPrefix <= Name(p))
  }

  /** The subdirectories among `dirs` that pass `jarCacheFilter`, in order. */
  function CacheRootsAmong(t: Tree, dirs: seq<Path>): (r: seq<Path>)
    ensures forall p :: p in r <==> p in dirs && IsCacheRoot(t, p)
    decreases |dirs|
  {
    if dirs == [] then []
    else (if IsCacheRoot(t, dirs[0]) then [dirs[0]] else []) + CacheRootsAmong(t, dirs[1..])
  }

  /** `cachesDirectory.listFiles(jarCacheFilter)`. */
  function CacheRoots(t: Tree, cachesDir: Path): (r: seq<Path>)
    ensures forall p :: p in r <==> IsSubdirectory(t, cachesDir, p) && IsCacheRoot(t, p)
  {
    var r := CacheRootsAmong(t, ListDirs(t, cachesDir));
    assert forall p :: p in r <==> IsSubdirectory(t, cachesDir, p) && IsCacheRoot(t, p) by {
      forall p { ListDirsExactly(t, cachesDir, p); }
    }
    r
  }

  /** Every discovered cache root is dispatched to a strategy: the "Ignore" branch is never taken. */
  lemma DiscoveredRootsDispatched(t: Tree, cachesDir: Path, root: Path)
    requires root in CacheRoots(t, cachesDir)
    ensures Classify(Name(root)) != Unrecognized
    ensures Classify(Name(root)) == Jars <==> JarsPrefix <= Name(root)
    ensures Classify(Name(root)) == Modules <==> ModulesPrefix <= Name(root)
  {
  }

  /** The directories among `dirs` whose name is a cache key. */
  function KeyNamed(dirs: seq<Path>): (r: seq<Path>)
    ensures forall p :: p in r <==> p in dirs && |Name(p)| == CacheKeyLength
    decreases |dirs|
  {
    if dirs == [] then []
    else (if |Name(dirs[0])| == CacheKeyLength then [dirs[0]] else []) + KeyNamed(dirs[1..])
  }

  /**
    The entries of a jars cache: its subdirectories whose name is exactly
    `CACHE_KEY_LENGTH` characters long, in listing order.
    */
  function JarCandidates(t: Tree, root: Path): (r: seq<Path>)
    ensures forall p :: p in r <==> IsSubdirectory(t, root, p) && |Name(p)| == CacheKeyLength
  {
    var r := KeyNamed(ListDirs(t, root));
    assert forall p :: p in r <==> IsSubdirectory(t, root, p) && |Name(p)| == CacheKeyLength by {
      forall p { ListDirsExactly(t, root, p); }
    }
    r
  }

  /**
    The group directories a modules cache yields from its children `kids`:
    the subdirectories of every child named `files-…`, in order.
    */
  function GroupItems(t: Tree, kids: seq<Path>): (r: seq<Path>)
    decreases |kids|
  {
    if kids == [] then []
    else
      var last := kids[|kids| - 1];
      GroupItems(t, kids[..|kids| - 1]) + (if FilesPrefix <= Name(last) then ListDirs(t, last) else [])
  }

  /** The metadata mirror roots: `descriptors` of every other child, when it exists. */
  function MirrorRoots(t: Tree, kids: seq<Path>): (r: seq<Path>)
    decreases |kids|
  {
    if kids == [] then []
    else
      var last := kids[|kids| - 1];
      var d := last + [DescriptorsName];
      MirrorRoots(t, kids[..|kids| - 1]) + (if !(FilesPrefix <= Name(last)) && Exists(t, d) then [d] else [])
  }

  /** A mirror root is the existing `descriptors` of a non-`files-` child, and every such one is a root. */
  lemma {:induction false} MirrorRootsExactly(t: Tree, kids: seq<Path>, m: Path)
    ensures m in MirrorRoots(t, kids) <==>
      exists k :: k in kids && !(FilesPrefix <= Name(k)) && m == k + [DescriptorsName] && Exists(t, m)
    decreases |kids|
  {
    if kids != [] {
      var init, last := kids[..|kids| - 1], kids[|kids| - 1];
      assert kids == init + [last];
      MirrorRootsExactly(t, init, m);
    }
  }

  /** A group item comes from a `files-…` child and is one of its subdirectories, and every such one is an item. */
  lemma {:induction false} GroupItemsExactly(t: Tree, kids: seq<Path>, g: Path)
    ensures g in GroupItems(t, kids) <==> exists k :: k in kids && FilesPrefix <= Name(k) && IsSubdirectory(t, k, g)
    decreases |kids|
  {
    if kids != [] {
      var init, last := kids[..|kids| - 1], kids[|kids| - 1];
      assert kids == init + [last];
      GroupItemsExactly(t, init, g);
      ListDirsExactly(t, last, g);
    }
  }

  /** A mirror root of the modules cache `root` is `root/child/descriptors` for a child not named `files-…`. */
  lemma MirrorRootShape(t: Tree, root: Path, m: Path)
    requires m in MirrorRoots(t, ListDirs(t, root))
    ensures |m| == |root| + 2 && m[..|root|] == root && !(FilesPrefix <= m[|root|])
  {
    MirrorRootsExactly(t, ListDirs(t, root), m);
    var k :| k in ListDirs(t, root) && !(FilesPrefix <= Name(k)) && m == k + [DescriptorsName] && Exists(t, m);
    ListDirsExactly(t, root, k);
    SubdirectoryShape(t, root, k);
  }

  /** A mirror under a mirror root of the modules cache `root` lies five names below it, beneath a child not named `files-…`. */
  lemma MirrorPathShape(t: Tree, root: Path, m: Path, version: Path)
    requires m in MirrorRoots(t, ListDirs(t, root))
    ensures var p := MirrorPath(m, version);
      |p| == |root| + 5 && p[..|root|] == root && !(FilesPrefix <= p[|root|])
  {
    MirrorRootShape(t, root, m);
    var p := MirrorPath(m, version);
    assert p[..|m|] == m;
  }

  /** A group item of the modules cache `root` is `root/child/group` for a child named `files-…`. */
  lemma GroupItemShape(t: Tree, root: Path, g: Path)
    requires g in GroupItems(t, ListDirs(t, root))
    ensures |g| == |root| + 2 && g[..|root|] == root && FilesPrefix <= g[|root|]
  {
    GroupItemsExactly(t, ListDirs(t, root), g);
    var k :| k in ListDirs(t, root) && FilesPrefix <= Name(k) && IsSubdirectory(t, k, g);
    ListDirsExactly(t, root, k);
    SubdirectoryShape(t, root, k);
    SubdirectoryShape(t, k, g);
  }

  /** Removing entries from the disk creates no group item. */
  lemma GroupItemsShrink(t: Tree, u: Tree, root: Path, g: Path)
    requires forall q :: q in u ==> q in t && u[q] == t[q]
    ensures g in GroupItems(u, ListDirs(u, root)) ==> g in GroupItems(t, ListDirs(t, root))
  {
    if g in GroupItems(u, ListDirs(u, root)) {
      GroupItemsExactly(u, ListDirs(u, root), g);
      var k :| k in ListDirs(u, root) && FilesPrefix <= Name(k) && IsSubdirectory(u, k, g);
      ListDirsExactly(u, root, k);
      SubdirectoryShrinks(t, u, root, k);
      SubdirectoryShrinks(t, u, k, g);
      ListDirsExactly(t, root, k);
      GroupItemsExactly(t, ListDirs(t, root), g);
    }
  }

  /**
    The partition loop of `deleteFromModules`: walks the subdirectories of the
    modules cache once, collecting the group work items and the mirror roots.
    */
  method Partition(t: Tree, root: Path) returns (groups: seq<Path>, mirrors: seq<Path>)
    ensures groups == GroupItems(t, ListDirs(t, root))
    ensures mirrors == MirrorRoots(t, ListDirs(t, root))
  {
    var kids := ListDirs(t, root);
    groups, mirrors := [], [];
    for i := 0 to |kids|
      invariant groups == GroupItems(t, kids[..i])
      invariant mirrors == MirrorRoots(t, kids[..i])
    {
      var f := kids[i];
      PrefixStep(kids, i);
      if FilesPrefix <= Name(f) {
        groups := groups + ListDirs(t, f);
      } else {
        var descriptors := f + [DescriptorsName];
        if Exists(t, descriptors) {
          mirrors := mirrors + [descriptors];
        }
      }
    }
    assert kids[..|kids|] == kids;
  }

  /**
    The mirror of a version path `…/group/artifact/version` under the mirror
    root `m`: `m/group/artifact/version`.
    */
  function MirrorPath(m: Path, version: Path): (r: Path)
    ensures |version| >= 3 ==> r == m + version[|version| - 3..]
  {
    var artifact := Parent(version);
    var group := Parent(artifact);
    m + [Name(group), Name(artifact), Name(version)]
  }
}
