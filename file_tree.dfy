/** The directory tree that the scan walks, and the order in which `os.walk`
    (top-down) reports its files when the loop body prunes `dirs` in place.

    A directory lists its entries in the order the filesystem returns them;
    `os.walk` splits them into sub-directories and other entries, yields the
    directory, lets the loop body rewrite the sub-directory list, and only then
    descends into the sub-directories that are left, in order. */
module FileTree {
  import opened Common

  type Path = string
  type Bytes = seq<bv8>

  /** A directory entry: a file with its bytes, or a directory with its entries. */
  datatype Node = File(name: string, content: Bytes) | Dir(name: string, children: seq<Node>)

  /** A file the walk reports, with the bytes a later read of it returns. */
  datatype Visit = Visit(path: Path, content: Bytes)

  /** `os.path.join(dir, name)` for an entry name reported by a directory listing. */
  function Join(dir: Path, name: string): Path {
    if dir == [] || dir[|dir| - 1] == '/' then dir + name else dir + "/" + name
  }

  /** The joined path starts with `dir`, ends with `name`, and has exactly one
      separator between them unless `dir` is empty. */
  lemma JoinShape(dir: Path, name: string)
    ensures |dir| + |name| <= |Join(dir, name)| <= |dir| + |name| + 1
    ensures Join(dir, name)[..|dir|] == dir
    ensures Join(dir, name)[|Join(dir, name)| - |name|..] == name
    ensures dir != [] ==> Join(dir, name)[|Join(dir, name)| - |name| - 1] == '/'
  {
  }

  function Size(n: Node): (s: nat)
    ensures s >= 1
  {
    match n
    case File(_, _) => 1
    case Dir(_, cs) => 1 + SizeAll(cs)
  }

  function SizeAll(cs: seq<Node>): nat {
    if cs == [] then 0 else Size(cs[0]) + SizeAll(cs[1..])
  }

  /** The entries of a listing that `os.walk` puts into `files`, in listing order. */
  function FileNodes(cs: seq<Node>): (r: seq<Node>)
    ensures forall i :: 0 <= i < |r| ==> r[i].File?
  {
    if cs == [] then []
    else if cs[0].File? then [cs[0]] + FileNodes(cs[1..])
    else FileNodes(cs[1..])
  }

  /** The entries of a listing that `os.walk` puts into `dirs`, in listing order. */
  function DirNodes(cs: seq<Node>): (r: seq<Node>)
    ensures SizeAll(r) <= SizeAll(cs)
  {
    if cs == [] then []
    else if cs[0].Dir? then
      assert ([cs[0]] + DirNodes(cs[1..]))[1..] == DirNodes(cs[1..]);
      [cs[0]] + DirNodes(cs[1..])
    else DirNodes(cs[1..])
  }

  /** `dirs[:] = [d for d in dirs if d not in exclude_dirs]`. */
  function Prune(ds: seq<Node>, exclude: seq<string>): (r: seq<Node>)
    ensures SizeAll(r) <= SizeAll(ds)
  {
    if ds == [] then []
    else if ds[0].name !in exclude then
      assert ([ds[0]] + Prune(ds[1..], exclude))[1..] == Prune(ds[1..], exclude);
      [ds[0]] + Prune(ds[1..], exclude)
    else Prune(ds[1..], exclude)
  }

  /** The visits for the files of one directory listing, in listing order. */
  function FileVisits(dir: Path, files: seq<Node>): (r: seq<Visit>)
    requires forall i :: 0 <= i < |files| ==> files[i].File?
    ensures |r| == |files|
  {
    if files == [] then []
    else FileVisits(dir, files[..|files| - 1]) + [Visit(Join(dir, files[|files| - 1].name), files[|files| - 1].content)]
  }

  /** Every file the walk of directory `dir` (with entries `cs`) reports, in order:
      first the files of `dir`, then the walks of the sub-directories that survive pruning. */
  function Walk(dir: Path, cs: seq<Node>, exclude: seq<string>): seq<Visit>
    decreases SizeAll(cs), 1
  {
    FileVisits(dir, FileNodes(cs)) + WalkDirs(dir, Prune(DirNodes(cs), exclude), exclude)
  }

  /** The walks of the sub-directories `ds` of `dir`, one after another. */
  function WalkDirs(dir: Path, ds: seq<Node>, exclude: seq<string>): seq<Visit>
    decreases SizeAll(ds), 0
  {
    if ds == [] then []
    else
      (match ds[0]
       case Dir(name, children) =>
         assert Size(ds[0]) == 1 + SizeAll(children);
         Walk(Join(dir, name), children, exclude)
       case File(_, _) => [])
      + WalkDirs(dir, ds[1..], exclude)
  }

  /** The walk of a listing's first sub-directory comes before those of the others. */
  lemma WalkDirsSplit(dir: Path, ds: seq<Node>, exclude: seq<string>)
    requires ds != []
    ensures WalkDirs(dir, ds, exclude) == WalkDirs(dir, [ds[0]], exclude) + WalkDirs(dir, ds[1..], exclude)
  {
    assert [ds[0]][1..] == [] && [ds[0]][0] == ds[0];
    assert WalkDirs(dir, [ds[0]][1..], exclude) == [];
  }

  /** The paths of the visits, in order. */
  function Paths(vs: seq<Visit>): (r: seq<Path>)
    ensures |r| == |vs|
    ensures forall i :: 0 <= i < |vs| ==> r[i] == vs[i].path
  {
    if vs == [] then [] else Paths(vs[..|vs| - 1]) + [vs[|vs| - 1].path]
  }

  lemma PathsAppend(a: seq<Visit>, b: seq<Visit>)
    ensures Paths(a + b) == Paths(a) + Paths(b)
  {
  }

  /** The number of files among the entries `cs`, at every depth. */
  function FileCount(cs: seq<Node>): nat
    decreases SizeAll(cs)
  {
    if cs == [] then 0
    else
      (match cs[0]
       case File(_, _) => 1
       case Dir(_, children) =>
         assert Size(cs[0]) == 1 + SizeAll(children);
         FileCount(children))
      + FileCount(cs[1..])
  }

  lemma {:induction false} FileCountSplits(cs: seq<Node>)
    ensures FileCount(cs) == |FileNodes(cs)| + FileCount(DirNodes(cs))
    ensures forall i :: 0 <= i < |DirNodes(cs)| ==> DirNodes(cs)[i].Dir?
  {
    if cs != [] {
      FileCountSplits(cs[1..]);
      if cs[0].Dir? {
        var ds := [cs[0]] + DirNodes(cs[1..]);
        assert ds[0] == cs[0] && ds[1..] == DirNodes(cs[1..]);
      }
    }
  }

  /** The walk without exclusions makes as many visits as there are files in
      the tree, at every depth. */
  lemma {:induction false} WalkCount(dir: Path, cs: seq<Node>)
    ensures |Walk(dir, cs, [])| == FileCount(cs)
    decreases SizeAll(cs), 1
  {
    FileCountSplits(cs);
    PruneNothing(DirNodes(cs));
    WalkDirsCount(dir, DirNodes(cs));
  }

  lemma {:induction false} WalkDirsCount(dir: Path, ds: seq<Node>)
    requires forall i :: 0 <= i < |ds| ==> ds[i].Dir?
    ensures |WalkDirs(dir, ds, [])| == FileCount(ds)
    decreases SizeAll(ds), 0
  {
    if ds != [] {
      assert Size(ds[0]) == 1 + SizeAll(ds[0].children);
      WalkCount(Join(dir, ds[0].name), ds[0].children);
      WalkDirsCount(dir, ds[1..]);
    }
  }

  /** `os.walk(directory)`: a root that is not a directory yields nothing. */
  function WalkTree(directory: Path, tree: Node, exclude: seq<string>): seq<Visit> {
    match tree
    case Dir(_, children) => Walk(directory, children, exclude)
    case File(_, _) => []
  }

  /** A directory root yields one visit for each file that pruning leaves in the tree. */
  lemma WalkTreeCount(directory: Path, tree: Node, exclude: seq<string>)
    ensures tree.File? ==> WalkTree(directory, tree, exclude) == []
    ensures tree.Dir? ==> |WalkTree(directory, tree, exclude)| == FileCount(PruneTree(tree.children, exclude))
  {
    if tree.Dir? {
      WalkIsWalkOfPrunedTree(directory, tree.children, exclude);
      WalkCount(directory, PruneTree(tree.children, exclude));
    }
  }

  // ---------------------------------------------------------------------------
  // Pruning: the walk never enters an excluded sub-directory.

  /** The entries `cs` with every sub-directory whose name is excluded deleted, at every depth. */
  function PruneTree(cs: seq<Node>, exclude: seq<string>): seq<Node>
    decreases SizeAll(cs), 1
  {
    if cs == [] then []
    else if cs[0].Dir? && cs[0].name in exclude then PruneTree(cs[1..], exclude)
    else [PruneNode(cs[0], exclude)] + PruneTree(cs[1..], exclude)
  }

  function PruneNode(n: Node, exclude: seq<string>): Node
    decreases Size(n), 0
  {
    match n
    case File(_, _) => n
    case Dir(name, children) => Dir(name, PruneTree(children, exclude))
  }

  /** No directory at any depth among the entries `cs` has an excluded name. */
  ghost predicate ExcludedFree(cs: seq<Node>, exclude: seq<string>)
    decreases SizeAll(cs)
  {
    cs == [] ||
    ((cs[0].Dir? ==>
        assert Size(cs[0]) == 1 + SizeAll(cs[0].children);
        cs[0].name !in exclude && ExcludedFree(cs[0].children, exclude))
     && ExcludedFree(cs[1..], exclude))
  }

  /** The pruned entries really contain no excluded directory, however deep. */
  lemma {:induction false} PruneTreeIsExcludedFree(cs: seq<Node>, exclude: seq<string>)
    ensures ExcludedFree(PruneTree(cs, exclude), exclude)
    decreases SizeAll(cs)
  {
    if cs != [] {
      PruneTreeIsExcludedFree(cs[1..], exclude);
      var rest := PruneTree(cs[1..], exclude);
      if !(cs[0].Dir? && cs[0].name in exclude) {
        var r := [PruneNode(cs[0], exclude)] + rest;
        assert r[1..] == rest;
        if cs[0].Dir? {
          assert Size(cs[0]) == 1 + SizeAll(cs[0].children);
          PruneTreeIsExcludedFree(cs[0].children, exclude);
        }
      }
    }
  }

  /** Pruning keeps exactly the entries whose name is not excluded, each as
      often as in the listing; for a listing without repeated entries (every
      real directory listing) the order clause fixes them in listing order. */
  lemma {:induction false} PruneKeeps(ds: seq<Node>, exclude: seq<string>)
    ensures forall n :: n in Prune(ds, exclude) <==> n in ds && n.name !in exclude
    ensures forall n: Node :: n.name !in exclude ==> multiset(Prune(ds, exclude))[n] == multiset(ds)[n]
    ensures multiset(Prune(ds, exclude)) <= multiset(ds)
    ensures InOrder(Prune(ds, exclude), ds)
  {
    if ds != [] {
      PruneKeeps(ds[1..], exclude);
      assert ds == [ds[0]] + ds[1..];
      if ds[0].name !in exclude {
        InOrderTake(ds, Prune(ds[1..], exclude));
      } else {
        InOrderSkip(ds, Prune(ds[1..], exclude));
      }
    }
  }

  lemma {:induction false} PruneNothing(ds: seq<Node>)
    ensures Prune(ds, []) == ds
  {
    if ds != [] {
      PruneNothing(ds[1..]);
    }
  }

  lemma {:induction false} PruneTreeKeepsFiles(cs: seq<Node>, exclude: seq<string>)
    ensures FileNodes(PruneTree(cs, exclude)) == FileNodes(cs)
  {
    if cs != [] {
      PruneTreeKeepsFiles(cs[1..], exclude);
      var rest := PruneTree(cs[1..], exclude);
      if !(cs[0].Dir? && cs[0].name in exclude) {
        var r := [PruneNode(cs[0], exclude)] + rest;
        assert r[0] == PruneNode(cs[0], exclude) && r[1..] == rest;
      }
    }
  }

  lemma {:induction false} PruneTreeCommutesWithDirs(cs: seq<Node>, exclude: seq<string>)
    ensures DirNodes(PruneTree(cs, exclude)) == PruneTree(DirNodes(cs), exclude)
  {
    if cs != [] {
      PruneTreeCommutesWithDirs(cs[1..], exclude);
      var rest := PruneTree(cs[1..], exclude);
      if cs[0].Dir? {
        var ds := [cs[0]] + DirNodes(cs[1..]);
        assert ds[0] == cs[0] && ds[1..] == DirNodes(cs[1..]);
      }
      if !(cs[0].Dir? && cs[0].name in exclude) {
        var r := [PruneNode(cs[0], exclude)] + rest;
        assert r[0] == PruneNode(cs[0], exclude) && r[1..] == rest;
      }
    }
  }

  /** Walking with exclusions is walking, without exclusions, the tree whose
      excluded sub-directories have been deleted: no file beneath an excluded
      directory is ever reported. */
  lemma {:induction false} WalkIsWalkOfPrunedTree(dir: Path, cs: seq<Node>, exclude: seq<string>)
    ensures Walk(dir, cs, exclude) == Walk(dir, PruneTree(cs, exclude), [])
    decreases SizeAll(cs), 1
  {
    var pt := PruneTree(cs, exclude);
    PruneTreeKeepsFiles(cs, exclude);
    PruneTreeCommutesWithDirs(cs, exclude);
    PruneNothing(DirNodes(pt));
    WalkDirsOfPrunedTree(dir, DirNodes(cs), exclude);
  }

  lemma {:induction false} WalkDirsOfPrunedTree(dir: Path, ds: seq<Node>, exclude: seq<string>)
    ensures WalkDirs(dir, PruneTree(ds, exclude), []) == WalkDirs(dir, Prune(ds, exclude), exclude)
    decreases SizeAll(ds), 0
  {
    if ds != [] {
      WalkDirsOfPrunedTree(dir, ds[1..], exclude);
      var pt := PruneTree(ds, exclude);
      var p := Prune(ds, exclude);
      var ptRest := PruneTree(ds[1..], exclude);
      var pRest := Prune(ds[1..], exclude);
      if !(ds[0].Dir? && ds[0].name in exclude) {
        assert pt[0] == PruneNode(ds[0], exclude) && pt[1..] == ptRest;
      }
      if ds[0].name !in exclude {
        assert p[0] == ds[0] && p[1..] == pRest;
      }
      if ds[0].Dir? && ds[0].name !in exclude {
        assert Size(ds[0]) == 1 + SizeAll(ds[0].children);
        WalkIsWalkOfPrunedTree(Join(dir, ds[0].name), ds[0].children, exclude);
      }
    }
  }

  /** Whatever an excluded sub-directory contains, the walk reports the same files. */
  lemma {:induction false} ExcludedContentsAreIgnored(dir: Path, cs: seq<Node>, i: nat, other: seq<Node>, exclude: seq<string>)
    requires i < |cs| && cs[i].Dir? && cs[i].name in exclude
    ensures Walk(dir, cs[i := Dir(cs[i].name, other)], exclude) == Walk(dir, cs, exclude)
  {
    PruneTreeIgnoresExcluded(cs, i, other, exclude);
    WalkIsWalkOfPrunedTree(dir, cs, exclude);
    WalkIsWalkOfPrunedTree(dir, cs[i := Dir(cs[i].name, other)], exclude);
  }

  lemma {:induction false} PruneTreeIgnoresExcluded(cs: seq<Node>, i: nat, other: seq<Node>, exclude: seq<string>)
    requires i < |cs| && cs[i].Dir? && cs[i].name in exclude
    ensures PruneTree(cs[i := Dir(cs[i].name, other)], exclude) == PruneTree(cs, exclude)
  {
    var cs' := cs[i := Dir(cs[i].name, other)];
    if i == 0 {
      assert cs'[1..] == cs[1..];
    } else {
      PruneTreeIgnoresExcluded(cs[1..], i - 1, other, exclude);
      assert cs'[1..] == cs[1..][i - 1 := Dir(cs[i].name, other)];
    }
  }
}
