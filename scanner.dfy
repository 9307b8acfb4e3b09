/** `find_duplicates`: the walk over the tree with `dirs` pruned in place, the
    loop that hashes each file and appends it to `hash_dict`, the count of
    hashed files, the duplicate filter and the report; and the exclusion list
    built by the command line. The same scan is the first half of
    `remove_duplicates`. */
module Scanner {
  import opened Common
  import opened FileTree
  import opened Hasher
  import opened Grouping

  /** The directory names pruned when the caller names none. */
  const DefaultExcludes: seq<string> := [".git", "node_modules", "__pycache__"]

  /** `if exclude_dirs is None: exclude_dirs = [...]`: only a missing argument
      falls back to the defaults; an explicit list, even an empty one, is used as given. */
  function EffectiveExcludes(excludeDirs: Option<seq<string>>): (r: seq<string>)
    ensures excludeDirs.None? ==> r == DefaultExcludes
    ensures excludeDirs.Some? ==> r == excludeDirs.value
  {
    match excludeDirs
    case None => DefaultExcludes
    case Some(names) => names
  }

  /** The command line's list: the defaults, extended by the `--exclude` names. */
  function CommandLineExcludes(extra: Option<seq<string>>): (r: seq<string>)
    ensures |r| >= |DefaultExcludes| && r[..|DefaultExcludes|] == DefaultExcludes
    ensures forall d :: d in r <==> d in DefaultExcludes || (extra.Some? && d in extra.value)
  {
    var names := DefaultExcludes;
    if extra.Some? && extra.value != [] then names + extra.value else names
  }

  // ---------------------------------------------------------------------------
  // The walk as the loop sees it: a stack of directories still to be listed.

  /** A directory `os.walk` has still to list: its path and its entries. */
  datatype Pending = Pending(path: Path, children: seq<Node>)

  /** The files the walk reports for the pending directories, in order. */
  function WalkPending(ps: seq<Pending>, exclude: seq<string>): seq<Visit> {
    if ps == [] then [] else Walk(ps[0].path, ps[0].children, exclude) + WalkPending(ps[1..], exclude)
  }

  function PendingSize(ps: seq<Pending>): nat {
    if ps == [] then 0 else 1 + SizeAll(ps[0].children) + PendingSize(ps[1..])
  }

  /** The pending entry for one pruned sub-directory (nothing for a file). */
  function Subdir(root: Path, n: Node): seq<Pending> {
    if n.Dir? then [Pending(Join(root, n.name), n.children)] else []
  }

  /** The sub-directories `os.walk` goes on with once the loop body has pruned `dirs`. */
  function Descend(root: Path, ds: seq<Node>): seq<Pending> {
    if ds == [] then [] else Subdir(root, ds[0]) + Descend(root, ds[1..])
  }

  lemma {:induction false} WalkPendingAppend(a: seq<Pending>, b: seq<Pending>, exclude: seq<string>)
    ensures WalkPending(a + b, exclude) == WalkPending(a, exclude) + WalkPending(b, exclude)
  {
    if a == [] {
      assert a + b == b;
    } else {
      WalkPendingAppend(a[1..], b, exclude);
      assert (a + b)[0] == a[0] && (a + b)[1..] == a[1..] + b;
      ConcatAssoc(Walk(a[0].path, a[0].children, exclude), WalkPending(a[1..], exclude), WalkPending(b, exclude));
    }
  }

  lemma {:induction false} PendingSizeAppend(a: seq<Pending>, b: seq<Pending>)
    ensures PendingSize(a + b) == PendingSize(a) + PendingSize(b)
  {
    if a == [] {
      assert a + b == b;
    } else {
      PendingSizeAppend(a[1..], b);
      assert (a + b)[0] == a[0] && (a + b)[1..] == a[1..] + b;
    }
  }

  /** Listing the pending sub-directories one after another is walking them as `WalkDirs` does. */
  lemma {:induction false} DescendWalksAll(root: Path, ds: seq<Node>, exclude: seq<string>)
    ensures WalkPending(Descend(root, ds), exclude) == WalkDirs(root, ds, exclude)
  {
    if ds != [] {
      DescendWalksAll(root, ds[1..], exclude);
      var head := Subdir(root, ds[0]);
      WalkPendingAppend(head, Descend(root, ds[1..]), exclude);
      if ds[0].Dir? {
        assert head[1..] == [];
        assert WalkPending(head, exclude) == Walk(Join(root, ds[0].name), ds[0].children, exclude);
      }
    }
  }

  /** Pushing the pruned sub-directories in front of the directories still
      pending continues the walk in `os.walk`'s top-down order. */
  lemma DescendWalks(root: Path, ds: seq<Node>, rest: seq<Pending>, exclude: seq<string>)
    ensures WalkPending(Descend(root, ds) + rest, exclude) == WalkDirs(root, ds, exclude) + WalkPending(rest, exclude)
  {
    WalkPendingAppend(Descend(root, ds), rest, exclude);
    DescendWalksAll(root, ds, exclude);
  }

  lemma {:induction false} DescendSize(root: Path, ds: seq<Node>)
    ensures PendingSize(Descend(root, ds)) <= SizeAll(ds)
  {
    if ds != [] {
      DescendSize(root, ds[1..]);
      var head := Subdir(root, ds[0]);
      PendingSizeAppend(head, Descend(root, ds[1..]));
      if ds[0].Dir? {
        assert head[1..] == [];
        assert Size(ds[0]) == 1 + SizeAll(ds[0].children);
      }
    }
  }

  lemma DescendShrinks(root: Path, ds: seq<Node>, rest: seq<Pending>)
    ensures PendingSize(Descend(root, ds) + rest) <= SizeAll(ds) + PendingSize(rest)
  {
    PendingSizeAppend(Descend(root, ds), rest);
    DescendSize(root, ds);
  }

  /** The body of the inner loop for one file: hash it; on success append its
      path under its digest and count it, on an access error note the path. */
  method HashOne(filepath: Path, content: Bytes, unreadable: Path -> bool, md5: Bytes -> Digest,
                 ghost seen: seq<Visit>, hashDict0: HashDict, fileCount0: nat, errors0: seq<Path>)
    returns (hashDict: HashDict, fileCount: nat, errors: seq<Path>)
    requires hashDict0 == Group(seen, unreadable, md5)
    requires fileCount0 == |ReadablePaths(seen, unreadable)|
    requires errors0 == UnreadablePaths(seen, unreadable)
    ensures hashDict == Group(seen + [Visit(filepath, content)], unreadable, md5)
    ensures fileCount == |ReadablePaths(seen + [Visit(filepath, content)], unreadable)|
    ensures errors == UnreadablePaths(seen + [Visit(filepath, content)], unreadable)
  {
    hashDict, fileCount, errors := hashDict0, fileCount0, errors0;
    var r;
    ghost var chunks;
    r, chunks := GetFileHash(filepath, content, unreadable, md5);
    GroupSnoc(seen, Visit(filepath, content), unreadable, md5);
    match r {
      case Success(h) =>
        hashDict := Append(hashDict, h, filepath);
        fileCount := fileCount + 1;
      case Failure(_) =>
        errors := errors + [filepath];
    }
  }

  lemma FileVisitsPrefix(seen: seq<Visit>, root: Path, files: seq<Node>, i: nat)
    requires forall k :: 0 <= k < |files| ==> files[k].File?
    requires i < |files|
    ensures seen + FileVisits(root, files[..i + 1])
         == (seen + FileVisits(root, files[..i])) + [Visit(Join(root, files[i].name), files[i].content)]
  {
    assert files[..i + 1][..i] == files[..i] && files[..i + 1][i] == files[i];
    ConcatAssoc(seen, FileVisits(root, files[..i]), [Visit(Join(root, files[i].name), files[i].content)]);
  }

  /** The inner loop of the scan over one directory listing: each file in
      order, an access error going on with the next file. */
  method HashListing(root: Path, files: seq<Node>, unreadable: Path -> bool, md5: Bytes -> Digest,
                     ghost seen: seq<Visit>, hashDict0: HashDict, fileCount0: nat, errors0: seq<Path>)
    returns (hashDict: HashDict, fileCount: nat, errors: seq<Path>)
    requires forall i :: 0 <= i < |files| ==> files[i].File?
    requires hashDict0 == Group(seen, unreadable, md5)
    requires fileCount0 == |ReadablePaths(seen, unreadable)|
    requires errors0 == UnreadablePaths(seen, unreadable)
    ensures hashDict == Group(seen + FileVisits(root, files), unreadable, md5)
    ensures fileCount == |ReadablePaths(seen + FileVisits(root, files), unreadable)|
    ensures errors == UnreadablePaths(seen + FileVisits(root, files), unreadable)
  {
    hashDict, fileCount, errors := hashDict0, fileCount0, errors0;
    ghost var done := seen;
    var i := 0;
    while i < |files|
      invariant 0 <= i <= |files|
      invariant done == seen + FileVisits(root, files[..i])
      invariant hashDict == Group(done, unreadable, md5)
      invariant fileCount == |ReadablePaths(done, unreadable)|
      invariant errors == UnreadablePaths(done, unreadable)
    {
      var filepath := Join(root, files[i].name);
      hashDict, fileCount, errors := HashOne(filepath, files[i].content, unreadable, md5, done, hashDict, fileCount, errors);
      FileVisitsPrefix(seen, root, files, i);
      done := done + [Visit(filepath, files[i].content)];
      i := i + 1;
    }
    assert files[..|files|] == files;
  }

  /** The scan of both scripts: walk the tree pruning excluded sub-directories,
      hash every file, append each successfully hashed path to `hash_dict`
      under its digest and count it, and note each path whose hashing raised. */
  method Scan(directory: Path, tree: Node, exclude: seq<string>, unreadable: Path -> bool, md5: Bytes -> Digest)
    returns (hashDict: HashDict, fileCount: nat, errors: seq<Path>)
    ensures hashDict == Group(WalkTree(directory, tree, exclude), unreadable, md5)
    ensures fileCount == |ReadablePaths(WalkTree(directory, tree, exclude), unreadable)|
    ensures errors == UnreadablePaths(WalkTree(directory, tree, exclude), unreadable)
  {
    ghost var all := WalkTree(directory, tree, exclude);
    var pending := if tree.Dir? then [Pending(directory, tree.children)] else [];
    ghost var seen: seq<Visit> := [];
    hashDict, fileCount, errors := Empty, 0, [];
    while pending != []
      invariant seen + WalkPending(pending, exclude) == all
      invariant hashDict == Group(seen, unreadable, md5)
      invariant fileCount == |ReadablePaths(seen, unreadable)|
      invariant errors == UnreadablePaths(seen, unreadable)
      decreases PendingSize(pending)
    {
      // for root, dirs, files in os.walk(directory)
      var root, entries := pending[0].path, pending[0].children;
      var dirs, files := DirNodes(entries), FileNodes(entries);
      dirs := Prune(dirs, exclude);
      ghost var fv, wd, rest := FileVisits(root, files), WalkDirs(root, dirs, exclude), WalkPending(pending[1..], exclude);
      assert WalkPending(pending, exclude) == (fv + wd) + rest;
      ghost var before := seen;
      hashDict, fileCount, errors := HashListing(root, files, unreadable, md5, seen, hashDict, fileCount, errors);
      seen := seen + fv;
      DescendWalks(root, dirs, pending[1..], exclude);
      DescendShrinks(root, dirs, pending[1..]);
      ConcatAssoc(before, fv, wd + rest);
      ConcatAssoc(fv, wd, rest);
      pending := Descend(root, dirs) + pending[1..];
    }
    assert seen + WalkPending(pending, exclude) == seen;
  }

  // ---------------------------------------------------------------------------
  // The report of `find_duplicates`.

  datatype DuplicateSet = DuplicateSet(hash: Digest, paths: seq<Path>)

  /** What `find_duplicates` prints, without the formatting: the "Error
      accessing" paths, the "Scanned N files" count and the duplicate sets in
      the order they are printed. */
  datatype ScanReport = ScanReport(errors: seq<Path>, scanned: nat, sets: seq<DuplicateSet>)

  /** "No duplicate files found." is printed exactly when this holds. */
  predicate NoDuplicatesFound(report: ScanReport) {
    report.sets == []
  }

  /** The files `find_duplicates` visits. */
  function Visits(directory: Path, tree: Node, excludeDirs: Option<seq<string>>): seq<Visit> {
    WalkTree(directory, tree, EffectiveExcludes(excludeDirs))
  }

  /** The duplicate sets in the order `duplicates.items()` yields them. */
  function SetsOf(d: HashDict): (r: seq<DuplicateSet>)
    requires Valid(d)
    ensures |r| == |d.keys|
    ensures forall i :: 0 <= i < |r| ==> r[i].hash == d.keys[i] && r[i].hash in d.lists && r[i].paths == d.lists[r[i].hash]
  {
    seq(|d.keys|, j requires 0 <= j < |d.keys| => DuplicateSet(d.keys[j], d.lists[d.keys[j]]))
  }

  /** The report `find_duplicates` prints for the visits `vs`: each visited
      file is either counted or reported as an error. */
  function ReportOf(vs: seq<Visit>, unreadable: Path -> bool, md5: Bytes -> Digest): (r: ScanReport)
    ensures r.scanned + |r.errors| == |vs|
  {
    EveryVisitIsHashedOrReported(vs, unreadable);
    assert |multiset(ReadablePaths(vs, unreadable)) + multiset(UnreadablePaths(vs, unreadable))| == |Paths(vs)|;
    ScanReport(UnreadablePaths(vs, unreadable), |ReadablePaths(vs, unreadable)|,
               SetsOf(Duplicates(Group(vs, unreadable, md5))))
  }

  /** "Scanned N files" counts every path `hash_dict` holds. */
  lemma ReportCountsGroupedPaths(vs: seq<Visit>, unreadable: Path -> bool, md5: Bytes -> Digest)
    ensures ReportOf(vs, unreadable, md5).scanned == |AllPaths(Group(vs, unreadable, md5))|
  {
    GroupPartitionsReadable(vs, unreadable, md5);
  }

  /** The printed sets are the lists of `hash_dict` that hold more than one
      path, in key order and in full, and "No duplicate files found." is
      printed exactly when no digest was seen twice. */
  lemma ReportListsDuplicates(vs: seq<Visit>, unreadable: Path -> bool, md5: Bytes -> Digest)
    ensures |ReportOf(vs, unreadable, md5).sets| == |Duplicates(Group(vs, unreadable, md5)).keys|
    ensures forall i :: 0 <= i < |ReportOf(vs, unreadable, md5).sets| ==>
      && ReportOf(vs, unreadable, md5).sets[i].hash == Duplicates(Group(vs, unreadable, md5)).keys[i]
      && ReportOf(vs, unreadable, md5).sets[i].hash in Group(vs, unreadable, md5).lists
      && ReportOf(vs, unreadable, md5).sets[i].paths == Group(vs, unreadable, md5).lists[ReportOf(vs, unreadable, md5).sets[i].hash]
      && |ReportOf(vs, unreadable, md5).sets[i].paths| > 1
    ensures NoDuplicatesFound(ReportOf(vs, unreadable, md5)) <==>
      forall h :: h in Group(vs, unreadable, md5).lists ==> |Group(vs, unreadable, md5).lists[h]| <= 1
  {
    var d := Group(vs, unreadable, md5);
    DuplicatesCount(d);
  }

  method FindDuplicates(directory: Path, tree: Node, excludeDirs: Option<seq<string>>,
                        unreadable: Path -> bool, md5: Bytes -> Digest)
    returns (report: ScanReport)
    ensures report == ReportOf(Visits(directory, tree, excludeDirs), unreadable, md5)
  {
    var exclude := EffectiveExcludes(excludeDirs);
    var hashDict, fileCount, errors := Scan(directory, tree, exclude, unreadable, md5);
    report := ScanReport(errors, fileCount, SetsOf(Duplicates(hashDict)));
  }
}
