/** On a directory tree whose entry names are real file names (not empty, no
    separator) and unique within their directory, the walk reports every path
    at most once: the files of a directory are `Join(dir, name)` for distinct
    names, and everything below a sub-directory starts with that
    sub-directory's own name as its first component after `dir`. */
module UniquePaths {
  import opened Common
  import opened FileTree

  /** A name a directory listing can hold. */
  predicate ValidName(n: string) {
    n != [] && '/' !in n
  }

  function Names(cs: seq<Node>): (r: seq<string>)
    ensures |r| == |cs|
    ensures forall i :: 0 <= i < |cs| ==> r[i] == cs[i].name
  {
    if cs == [] then [] else [cs[0].name] + Names(cs[1..])
  }

  /** Every name valid and unique among its siblings, at every depth. */
  ghost predicate WellFormed(cs: seq<Node>)
    decreases SizeAll(cs)
  {
    cs == [] ||
    (&& ValidName(cs[0].name)
     && cs[0].name !in Names(cs[1..])
     && (cs[0].Dir? ==>
           assert Size(cs[0]) == 1 + SizeAll(cs[0].children);
           WellFormed(cs[0].children))
     && WellFormed(cs[1..]))
  }

  /** No element occurs twice, stated by positions. */
  ghost predicate NoRepeats<T>(s: seq<T>) {
    forall i, j :: 0 <= i < j < |s| ==> s[i] != s[j]
  }

  lemma {:induction false} NoRepeatsIsDistinct<T(!new)>(s: seq<T>)
    requires NoRepeats(s)
    ensures Distinct(s)
  {
    if s != [] {
      var rest := s[1..];
      assert NoRepeats(rest) by {
        forall i, j | 0 <= i < j < |rest| ensures rest[i] != rest[j] {
          assert rest[i] == s[i + 1] && rest[j] == s[j + 1];
        }
      }
      NoRepeatsIsDistinct(rest);
      assert s == [s[0]] + rest;
      assert s[0] !in rest by {
        forall j | 0 <= j < |rest| ensures rest[j] != s[0] {
          assert rest[j] == s[j + 1];
        }
      }
      assert multiset(s) == multiset{s[0]} + multiset(rest);
      forall x ensures multiset(s)[x] <= 1 {
        assert multiset(rest)[x] <= 1;
      }
    }
  }

  lemma NoRepeatsConcat<T>(a: seq<T>, b: seq<T>)
    requires NoRepeats(a) && NoRepeats(b)
    requires forall x :: x in a ==> x !in b
    ensures NoRepeats(a + b)
  {
    var c := a + b;
    forall i, j | 0 <= i < j < |c| ensures c[i] != c[j] {
      if j < |a| {
        assert c[i] == a[i] && c[j] == a[j];
      } else if i >= |a| {
        assert c[i] == b[i - |a|] && c[j] == b[j - |a|];
      } else {
        assert c[i] == a[i] && c[j] == b[j - |a|];
        assert a[i] in a;
      }
    }
  }

  lemma {:induction false} NamesUnique(cs: seq<Node>)
    requires WellFormed(cs)
    ensures NoRepeats(Names(cs))
  {
    if cs != [] {
      NamesUnique(cs[1..]);
      var ns, rest := Names(cs), Names(cs[1..]);
      assert ns == [cs[0].name] + rest;
      forall i, j | 0 <= i < j < |ns| ensures ns[i] != ns[j] {
        assert ns[j] == rest[j - 1];
        if i > 0 {
          assert ns[i] == rest[i - 1];
        }
      }
    }
  }

  // ---------------------------------------------------------------------------
  // The listing filters keep names valid and unique.

  lemma {:induction false} FileNodesWellFormed(cs: seq<Node>)
    requires WellFormed(cs)
    ensures WellFormed(FileNodes(cs))
    ensures forall n :: n in Names(FileNodes(cs)) ==> n in Names(cs)
  {
    if cs != [] {
      FileNodesWellFormed(cs[1..]);
      if cs[0].File? {
        var r := [cs[0]] + FileNodes(cs[1..]);
        assert r[0] == cs[0] && r[1..] == FileNodes(cs[1..]);
      }
    }
  }

  lemma {:induction false} DirNodesWellFormed(cs: seq<Node>)
    requires WellFormed(cs)
    ensures WellFormed(DirNodes(cs))
    ensures forall n :: n in Names(DirNodes(cs)) ==> n in Names(cs)
  {
    if cs != [] {
      DirNodesWellFormed(cs[1..]);
      if cs[0].Dir? {
        var r := [cs[0]] + DirNodes(cs[1..]);
        assert r[0] == cs[0] && r[1..] == DirNodes(cs[1..]);
        assert Size(cs[0]) == 1 + SizeAll(cs[0].children);
      }
    }
  }

  lemma {:induction false} PruneWellFormed(ds: seq<Node>, exclude: seq<string>)
    requires WellFormed(ds)
    ensures WellFormed(Prune(ds, exclude))
    ensures forall n :: n in Names(Prune(ds, exclude)) ==> n in Names(ds)
  {
    if ds != [] {
      PruneWellFormed(ds[1..], exclude);
      if ds[0].name !in exclude {
        var r := [ds[0]] + Prune(ds[1..], exclude);
        assert r[0] == ds[0] && r[1..] == Prune(ds[1..], exclude);
      }
    }
  }

  /** No name is both a file and a sub-directory of the same directory. */
  lemma {:induction false} FilesAndDirsApart(cs: seq<Node>)
    requires WellFormed(cs)
    ensures forall n :: n in Names(FileNodes(cs)) ==> n !in Names(DirNodes(cs))
  {
    if cs != [] {
      FilesAndDirsApart(cs[1..]);
      FileNodesWellFormed(cs[1..]);
      DirNodesWellFormed(cs[1..]);
      if cs[0].File? {
        var r := [cs[0]] + FileNodes(cs[1..]);
        assert r[0] == cs[0] && r[1..] == FileNodes(cs[1..]);
      } else {
        var r := [cs[0]] + DirNodes(cs[1..]);
        assert r[0] == cs[0] && r[1..] == DirNodes(cs[1..]);
      }
    }
  }

  // ---------------------------------------------------------------------------
  // Paths below a directory.

  /** `dir` with the separator `os.path.join` puts after it. */
  function Base(dir: Path): Path {
    if dir == [] || dir[|dir| - 1] == '/' then dir else dir + "/"
  }

  /** The first component of a relative path. */
  function Component(s: string): string {
    if s == [] || s[0] == '/' then [] else [s[0]] + Component(s[1..])
  }

  lemma {:induction false} ComponentOf(n: string, r: string)
    requires '/' !in n && (r == [] || r[0] == '/')
    ensures Component(n + r) == n
  {
    if n != [] {
      assert (n + r)[0] == n[0] && (n + r)[1..] == n[1..] + r;
      ComponentOf(n[1..], r);
    } else {
      assert n + r == r;
    }
  }

  /** `p` lies below `dir`, under one of the entries named in `names`. */
  ghost predicate Below(dir: Path, p: Path, names: seq<string>) {
    |Base(dir)| <= |p| && p[..|Base(dir)|] == Base(dir) && Component(p[|Base(dir)|..]) in names
  }

  /** Two paths below the same directory under different first components differ. */
  lemma BelowApart(dir: Path, p: Path, q: Path, ns: seq<string>, ms: seq<string>)
    requires Below(dir, p, ns) && Below(dir, q, ms)
    requires forall n :: n in ns ==> n !in ms
    ensures p != q
  {
  }

  /** A path below the sub-directory `name` of `dir` lies below `dir` under `name`. */
  lemma DescendBelow(dir: Path, name: string, p: Path, names: seq<string>)
    requires ValidName(name)
    requires Below(Join(dir, name), p, names)
    ensures Below(dir, p, [name])
  {
    var b := Base(dir);
    var sub := Join(dir, name);
    JoinIsBase(dir, name);
    assert Base(sub) == b + name + "/" by {
      assert sub[|sub| - 1] == name[|name| - 1];
    }
    var rest := p[|Base(sub)|..];
    assert p == b + (name + ("/" + rest)) by {
      assert p == Base(sub) + rest;
    }
    assert p[..|b|] == b && p[|b|..] == name + ("/" + rest);
    ComponentOf(name, "/" + rest);
  }

  /** Files with different names in one directory have different paths. */
  lemma FilePathsDistinct(dir: Path, files: seq<Node>)
    requires forall i :: 0 <= i < |files| ==> files[i].File?
    requires WellFormed(files)
    ensures NoRepeats(Paths(FileVisits(dir, files)))
  {
    var ps := Paths(FileVisits(dir, files));
    FileVisitPaths(dir, files);
    NamesUnique(files);
    forall i, j | 0 <= i < j < |ps| ensures ps[i] != ps[j] {
      assert Names(files)[i] != Names(files)[j];
      assert ps[i][|Base(dir)|..] == files[i].name;
      assert ps[j][|Base(dir)|..] == files[j].name;
    }
  }

  /** The path of the entry `name` of `dir` lies below `dir` under `name`. */
  lemma EntryBelow(dir: Path, name: string, names: seq<string>)
    requires ValidName(name) && name in names
    ensures Below(dir, Base(dir) + name, names)
  {
    var p := Base(dir) + name;
    assert p[..|Base(dir)|] == Base(dir);
    assert p[|Base(dir)|..] == name + [];
    ComponentOf(name, []);
  }

  /** A file's path lies below its directory, under the file's name. */
  lemma FilePathsUnder(dir: Path, files: seq<Node>)
    requires forall i :: 0 <= i < |files| ==> files[i].File?
    requires WellFormed(files)
    ensures forall p :: p in Paths(FileVisits(dir, files)) ==> Below(dir, p, Names(files))
  {
    var ps := Paths(FileVisits(dir, files));
    FileVisitPaths(dir, files);
    forall p | p in ps ensures Below(dir, p, Names(files)) {
      var i :| 0 <= i < |ps| && ps[i] == p;
      FileNamesValid(files, i);
      assert Names(files)[i] == files[i].name;
      EntryBelow(dir, files[i].name, Names(files));
    }
  }

  lemma FilePathsBelow(dir: Path, files: seq<Node>)
    requires forall i :: 0 <= i < |files| ==> files[i].File?
    requires WellFormed(files)
    ensures NoRepeats(Paths(FileVisits(dir, files)))
    ensures forall p :: p in Paths(FileVisits(dir, files)) ==> Below(dir, p, Names(files))
  {
    FilePathsDistinct(dir, files);
    FilePathsUnder(dir, files);
  }

  lemma {:induction false} FileNamesValid(cs: seq<Node>, i: nat)
    requires WellFormed(cs) && i < |cs|
    ensures ValidName(cs[i].name)
  {
    if i > 0 {
      FileNamesValid(cs[1..], i - 1);
    }
  }

  lemma JoinIsBase(dir: Path, name: string)
    ensures Join(dir, name) == Base(dir) + name
  {
  }

  /** The `i`-th visit of a listing is its `i`-th file, joined to the directory. */
  lemma {:induction false} FileVisitsAt(dir: Path, files: seq<Node>)
    requires forall i :: 0 <= i < |files| ==> files[i].File?
    ensures |FileVisits(dir, files)| == |files|
    ensures forall i :: 0 <= i < |files| ==> FileVisits(dir, files)[i].path == Join(dir, files[i].name)
  {
    if files != [] {
      var init := files[..|files| - 1];
      FileVisitsAt(dir, init);
      var a := FileVisits(dir, init);
      var r := FileVisits(dir, files);
      assert r == a + [Visit(Join(dir, files[|files| - 1].name), files[|files| - 1].content)];
      forall i | 0 <= i < |files| ensures r[i].path == Join(dir, files[i].name) {
        if i < |init| {
          assert r[i] == a[i] && files[i] == init[i];
        }
      }
    }
  }

  lemma FileVisitPaths(dir: Path, files: seq<Node>)
    requires forall i :: 0 <= i < |files| ==> files[i].File?
    ensures |Paths(FileVisits(dir, files))| == |files|
    ensures forall i :: 0 <= i < |files| ==> Paths(FileVisits(dir, files))[i] == Base(dir) + files[i].name
  {
    FileVisitsAt(dir, files);
    var ps := Paths(FileVisits(dir, files));
    forall i | 0 <= i < |files| ensures ps[i] == Base(dir) + files[i].name {
      JoinIsBase(dir, files[i].name);
    }
  }

  // ---------------------------------------------------------------------------
  // The walk reports each path once.

  lemma {:induction false} WalkPathsUnique(dir: Path, cs: seq<Node>, exclude: seq<string>)
    requires WellFormed(cs)
    ensures NoRepeats(Paths(Walk(dir, cs, exclude)))
    ensures forall p :: p in Paths(Walk(dir, cs, exclude)) ==> Below(dir, p, Names(cs))
    decreases SizeAll(cs), 2
  {
    var files, dirs := FileNodes(cs), Prune(DirNodes(cs), exclude);
    var a, b := Paths(FileVisits(dir, files)), Paths(WalkDirs(dir, dirs, exclude));
    PathsAppend(FileVisits(dir, files), WalkDirs(dir, dirs, exclude));
    FileNodesWellFormed(cs);
    DirNodesWellFormed(cs);
    PruneWellFormed(DirNodes(cs), exclude);
    FilesAndDirsApart(cs);
    FilePathsBelow(dir, files);
    WalkDirsPathsUnique(dir, dirs, exclude);
    forall p | p in a ensures p !in b {
      if p in b {
        BelowApart(dir, p, p, Names(files), Names(dirs));
      }
    }
    NoRepeatsConcat(a, b);
    BelowWiden(dir, a, Names(files), Names(cs));
    BelowWiden(dir, b, Names(dirs), Names(cs));
  }

  lemma {:induction false} WalkDirsPathsUnique(dir: Path, ds: seq<Node>, exclude: seq<string>)
    requires WellFormed(ds)
    ensures NoRepeats(Paths(WalkDirs(dir, ds, exclude)))
    ensures forall p :: p in Paths(WalkDirs(dir, ds, exclude)) ==> Below(dir, p, Names(ds))
    decreases SizeAll(ds), 1
  {
    if ds != [] {
      var first, rest := WalkDirs(dir, [ds[0]], exclude), WalkDirs(dir, ds[1..], exclude);
      WalkDirsSplit(dir, ds, exclude);
      PathsAppend(first, rest);
      WalkEntryPathsUnique(dir, ds[0], exclude);
      WalkDirsPathsUnique(dir, ds[1..], exclude);
      var a, b := Paths(first), Paths(rest);
      var n := ds[0].name;
      assert Names(ds) == [n] + Names(ds[1..]);
      assert n !in Names(ds[1..]);
      forall p | p in a ensures p !in b {
        if p in b {
          BelowApart(dir, p, p, [n], Names(ds[1..]));
        }
      }
      NoRepeatsConcat(a, b);
      BelowWiden(dir, a, [n], Names(ds));
      BelowWiden(dir, b, Names(ds[1..]), Names(ds));
    }
  }

  /** Paths below `dir` under some of the names `ns` lie below it under the wider `ms`. */
  lemma BelowWiden(dir: Path, ps: seq<Path>, ns: seq<string>, ms: seq<string>)
    requires forall p :: p in ps ==> Below(dir, p, ns)
    requires forall n :: n in ns ==> n in ms
    ensures forall p :: p in ps ==> Below(dir, p, ms)
  {
  }

  /** The walk of one entry of a listing stays below that entry's name. */
  lemma {:induction false} WalkEntryPathsUnique(dir: Path, d: Node, exclude: seq<string>)
    requires ValidName(d.name)
    requires d.Dir? ==> WellFormed(d.children)
    ensures NoRepeats(Paths(WalkDirs(dir, [d], exclude)))
    ensures forall p :: p in Paths(WalkDirs(dir, [d], exclude)) ==> Below(dir, p, [d.name])
    decreases Size(d), 0
  {
    assert [d][1..] == [];
    if d.Dir? {
      assert WalkDirs(dir, [d], exclude) == Walk(Join(dir, d.name), d.children, exclude);
      WalkPathsUnique(Join(dir, d.name), d.children, exclude);
      forall p | p in Paths(WalkDirs(dir, [d], exclude)) ensures Below(dir, p, [d.name]) {
        DescendBelow(dir, d.name, p, Names(d.children));
      }
    } else {
      assert WalkDirs(dir, [d], exclude) == [];
    }
  }

  /** A tree whose names are valid and unique within each directory. */
  ghost predicate WellFormedTree(tree: Node) {
    tree.Dir? ==> WellFormed(tree.children)
  }

  /** `os.walk` over a well-formed tree reports no path twice, whatever is excluded. */
  lemma WalkTreePathsUnique(directory: Path, tree: Node, exclude: seq<string>)
    requires WellFormedTree(tree)
    ensures Distinct(Paths(WalkTree(directory, tree, exclude)))
  {
    if tree.Dir? {
      WalkPathsUnique(directory, tree.children, exclude);
    }
    NoRepeatsIsDistinct(Paths(WalkTree(directory, tree, exclude)));
  }
}
