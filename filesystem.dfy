/**
  The disk as the cleaner sees it: a map from paths to entries. A path exists
  iff it is a key; a directory lists its children by name, in listing order.
  */
module FileSystem {

  /** A path as the list of its names from the root; `getName()` is the last one. */
  type Path = seq<string>

  function Name(p: Path): string {
    if p == [] then "" else p[|p| - 1]
  }

  function Parent(p: Path): Path {
    if p == [] then [] else p[..|p| - 1]
  }

  datatype Kind = RegularFile | Directory

  /** One entry of the disk: its kind and, for a directory, the names it lists. */
  datatype Entry = Entry(kind: Kind, children: seq<string>)

  type Tree = map<Path, Entry>

  predicate Exists(t: Tree, p: Path) {
    p in t
  }

  predicate IsDirectory(t: Tree, p: Path) {
    p in t && t[p].kind == Directory
  }

  /** `p` is listed by directory `dir` and is itself a directory. */
  predicate IsSubdirectory(t: Tree, dir: Path, p: Path) {
    IsDirectory(t, dir) && p != [] && Parent(p) == dir && Name(p) in t[dir].children && IsDirectory(t, p)
  }

  /** The directories among `dir + [n]` for the names `n` in `names`, in order. */
  function DirectoriesAmong(t: Tree, dir: Path, names: seq<string>): seq<Path>
    decreases |names|
  {
    if names == [] then []
    else
      var p := dir + [names[0]];
      (if IsDirectory(t, p) then [p] else []) + DirectoriesAmong(t, dir, names[1..])
  }

  lemma {:induction false} DirectoriesAmongExactly(t: Tree, dir: Path, names: seq<string>, p: Path)
    ensures p in DirectoriesAmong(t, dir, names) <==> exists n :: n in names && p == dir + [n] && IsDirectory(t, p)
    decreases |names|
  {
    if names != [] {
      DirectoriesAmongExactly(t, dir, names[1..], p);
      assert forall n :: n in names <==> n == names[0] || n in names[1..];
    }
  }

  /**
    `dir.listFiles(f -> f.isDirectory())`: the subdirectories of `dir`, in
    listing order. A path that is not a directory lists nothing.
    */
  function ListDirs(t: Tree, dir: Path): seq<Path>
  {
    if IsDirectory(t, dir) then DirectoriesAmong(t, dir, t[dir].children) else []
  }

  /** The listing holds exactly the subdirectories of `dir`. */
  lemma ListDirsExactly(t: Tree, dir: Path, p: Path)
    ensures p in ListDirs(t, dir) <==> IsSubdirectory(t, dir, p)
  {
    if IsDirectory(t, dir) {
      DirectoriesAmongExactly(t, dir, t[dir].children, p);
      if p in ListDirs(t, dir) {
        var n :| n in t[dir].children && p == dir + [n] && IsDirectory(t, p);
        assert Parent(p) == dir && Name(p) == n;
      }
      if IsSubdirectory(t, dir, p) {
        assert p == dir + [Name(p)];
      }
    }
  }

  /** A subdirectory is its directory's path followed by its own name. */
  lemma SubdirectoryShape(t: Tree, dir: Path, p: Path)
    requires IsSubdirectory(t, dir, p)
    ensures p == dir + [Name(p)]
  {
  }

  /** Removing entries from a disk creates no subdirectory. */
  lemma SubdirectoryShrinks(t: Tree, u: Tree, dir: Path, p: Path)
    requires forall q :: q in u ==> q in t && u[q] == t[q]
    ensures IsSubdirectory(u, dir, p) ==> IsSubdirectory(t, dir, p)
  {
  }

  /** The disk once `p` and everything beneath it are removed. */
  function Without(t: Tree, p: Path): (r: Tree)
    ensures forall q :: q in r ==> q in t && r[q] == t[q]
    ensures forall q :: q in r ==> !(p <= q)
    ensures forall q :: q in t && q < p ==> q in r
  {
    map q | q in t && !(p <= q) :: t[q]
  }

  /** Removing two subtrees gives the same disk in either order. */
  lemma WithoutCommutes(t: Tree, p: Path, q: Path)
    ensures Without(Without(t, p), q) == Without(Without(t, q), p)
  {
    var a, b := Without(Without(t, p), q), Without(Without(t, q), p);
    assert forall x :: x in a <==> x in b;
  }

  /** Removing a subtree also removes every subtree beneath it. */
  lemma WithoutAbsorbs(t: Tree, p: Path, q: Path)
    requires p <= q
    ensures Without(Without(t, p), q) == Without(t, p)
  {
    var a, b := Without(Without(t, p), q), Without(t, p);
    assert forall x :: x in a <==> x in b;
  }

  /**
    The disk a recursive delete of `p` leaves when it fails part-way, having
    already removed the paths of `gone` that lie beneath `p`.
    */
  function PartlyWithout(t: Tree, p: Path, gone: set<Path>): (r: Tree)
    ensures forall q :: q in r ==> q in t && r[q] == t[q]
    ensures forall q :: q in t && q !in r ==> p < q
    ensures p in t ==> p in r
  {
    map q | q in t && !(p < q && q in gone) :: t[q]
  }

  /** The file system the cleaner deletes from (`DefaultDeleter`). */
  class Disk {
    var tree: Tree

    constructor (tree: Tree)
      ensures this.tree == tree
    {
      this.tree := tree;
    }

    /**
      `deleteRecursively(p)`: removes `p` and everything beneath it. When the
      I/O layer fails, the failure is reported and only the paths of `gone`
      beneath `p` are removed: `p` itself is deleted last and stays. Deleting
      a path that does not exist changes nothing.
      */
    method DeleteRecursively(p: Path, ioFailure: bool, gone: set<Path>) returns (ok: bool)
      modifies this
      ensures ok == !ioFailure
      ensures tree == if ok then Without(old(tree), p) else PartlyWithout(old(tree), p, gone)
    {
      ok := !ioFailure;
      if ok {
        tree := Without(tree, p);
      } else {
        tree := PartlyWithout(tree, p, gone);
      }
    }
  }
}
