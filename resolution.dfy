/** The resolution rule of `remove_duplicates`: under `keep_shortest_path` the
    list of a duplicate set is sorted by path length (Python's `list.sort` is
    stable), under any other strategy it stays in discovery order; element 0 is
    kept and the rest are removed. */
module Resolution {
  import opened FileTree

  const KeepShortestPath: string := "keep_shortest_path"

  /** Shortest path first. */
  ghost predicate SortedByLength(s: seq<Path>) {
    forall i, j :: 0 <= i < j < |s| ==> |s[i]| <= |s[j]|
  }

  /** The members of `s` that are `n` characters long, in order. */
  function OfLength(s: seq<Path>, n: nat): seq<Path> {
    if s == [] then []
    else (if |s[0]| == n then [s[0]] else []) + OfLength(s[1..], n)
  }

  /** Puts `p` in front of the first member that is at least as long. */
  function InsertByLength(p: Path, sorted: seq<Path>): (r: seq<Path>)
    ensures multiset(r) == multiset(sorted) + multiset{p}
    ensures |r| == |sorted| + 1
  {
    if sorted == [] || |p| <= |sorted[0]| then [p] + sorted
    else
      assert sorted == [sorted[0]] + sorted[1..];
      [sorted[0]] + InsertByLength(p, sorted[1..])
  }

  /** Inserting into a list sorted by length keeps it sorted. */
  lemma {:induction false} InsertKeepsSorted(p: Path, sorted: seq<Path>)
    requires SortedByLength(sorted)
    ensures SortedByLength(InsertByLength(p, sorted))
  {
    if !(sorted == [] || |p| <= |sorted[0]|) {
      var rest := InsertByLength(p, sorted[1..]);
      InsertKeepsSorted(p, sorted[1..]);
      var r := [sorted[0]] + rest;
      assert r[1..] == rest;
      forall k | 0 <= k < |rest| ensures |sorted[0]| <= |rest[k]| {
        assert rest[k] in multiset(sorted[1..]) + multiset{p};
      }
    }
  }

  /** `paths.sort(key=lambda p: len(p))`: a permutation of `ps`, shortest first. */
  function SortByLength(ps: seq<Path>): (r: seq<Path>)
    ensures multiset(r) == multiset(ps)
    ensures |r| == |ps|
    ensures SortedByLength(r)
  {
    if ps == [] then []
    else
      assert ps == [ps[0]] + ps[1..];
      InsertKeepsSorted(ps[0], SortByLength(ps[1..]));
      InsertByLength(ps[0], SortByLength(ps[1..]))
  }

  lemma {:induction false} InsertOfLength(p: Path, sorted: seq<Path>, n: nat)
    ensures OfLength(InsertByLength(p, sorted), n) == (if |p| == n then [p] else []) + OfLength(sorted, n)
  {
    if sorted == [] || |p| <= |sorted[0]| {
      var r := [p] + sorted;
      assert r[0] == p && r[1..] == sorted;
    } else {
      InsertOfLength(p, sorted[1..], n);
      var rest := InsertByLength(p, sorted[1..]);
      var r := [sorted[0]] + rest;
      assert r[0] == sorted[0] && r[1..] == rest;
      assert OfLength(r, n) == (if |sorted[0]| == n then [sorted[0]] else []) + OfLength(rest, n);
    }
  }

  /** The sort is stable: the paths of any one length keep their discovery order. */
  lemma {:induction false} SortIsStable(ps: seq<Path>, n: nat)
    ensures OfLength(SortByLength(ps), n) == OfLength(ps, n)
  {
    if ps != [] {
      SortIsStable(ps[1..], n);
      InsertOfLength(ps[0], SortByLength(ps[1..]), n);
    }
  }

  lemma {:induction false} FirstOfLength(s: seq<Path>, n: nat)
    requires OfLength(s, n) != []
    ensures exists i :: 0 <= i < |s| && s[i] == OfLength(s, n)[0] && |s[i]| == n
                        && forall j :: 0 <= j < i ==> |s[j]| != n
  {
    if |s[0]| != n {
      FirstOfLength(s[1..], n);
      var i :| 0 <= i < |s[1..]| && s[1..][i] == OfLength(s[1..], n)[0] && |s[1..][i]| == n
               && forall j :: 0 <= j < i ==> |s[1..][j]| != n;
      assert s[i + 1] == s[1..][i];
      forall j | 0 <= j < i + 1 ensures |s[j]| != n {
        if j > 0 { assert s[j] == s[1..][j - 1]; }
      }
    }
  }

  /** What one duplicate set resolves to: the path kept and the paths removed, in order. */
  datatype Resolution = Resolution(keep: Path, remove: seq<Path>)

  /** The order the strategy leaves the list in. */
  function Ordered(paths: seq<Path>, strategy: string): (r: seq<Path>)
    ensures |r| == |paths| && multiset(r) == multiset(paths)
    ensures strategy == KeepShortestPath ==> SortedByLength(r)
    ensures strategy != KeepShortestPath ==> r == paths
  {
    if strategy == KeepShortestPath then SortByLength(paths) else paths
  }

  /** `keep_file = paths[0]; remove_files = paths[1:]` after the strategy's ordering:
      the kept path and the removed ones are together exactly the set's paths. */
  function Resolve(paths: seq<Path>, strategy: string): (r: Resolution)
    requires paths != []
    ensures multiset(r.remove) + multiset{r.keep} == multiset(paths)
    ensures |r.remove| == |paths| - 1
    ensures strategy != KeepShortestPath ==> r.keep == paths[0] && r.remove == paths[1..]
    ensures strategy == KeepShortestPath ==> SortedByLength([r.keep] + r.remove)
  {
    var ordered := Ordered(paths, strategy);
    assert ordered == [ordered[0]] + ordered[1..];
    Resolution(ordered[0], ordered[1..])
  }

  /** The head of the sorted list is no longer than any member. */
  lemma SortedHeadIsShortest(paths: seq<Path>)
    requires paths != []
    ensures forall p :: p in paths ==> |SortByLength(paths)[0]| <= |p|
  {
    var s := SortByLength(paths);
    forall p | p in paths ensures |s[0]| <= |p| {
      assert p in multiset(s);
      var m :| 0 <= m < |s| && s[m] == p;
    }
  }

  /** The head of the sorted list is the first discovered member of its length. */
  lemma SortedHeadIsFirstOfItsLength(paths: seq<Path>)
    requires paths != []
    ensures exists i :: 0 <= i < |paths| && paths[i] == SortByLength(paths)[0]
                        && forall j :: 0 <= j < i ==> |paths[j]| != |SortByLength(paths)[0]|
  {
    var s := SortByLength(paths);
    var k := s[0];
    SortIsStable(paths, |k|);
    assert s == [k] + s[1..];
    assert OfLength(s, |k|)[0] == k;
    FirstOfLength(paths, |k|);
  }

  /** Under `keep_shortest_path` the kept path is a member no longer than any
      other, and the earliest discovered among the members of that length. */
  lemma ShortestPathIsKept(paths: seq<Path>)
    requires paths != []
    ensures var r := Resolve(paths, KeepShortestPath);
      && r.keep in paths
      && (forall p :: p in paths ==> |r.keep| <= |p|)
      && exists i :: 0 <= i < |paths| && paths[i] == r.keep && forall j :: 0 <= j < i ==> |paths[j]| > |r.keep|
  {
    assert Resolve(paths, KeepShortestPath).keep == SortByLength(paths)[0];
    SortedHeadIsShortest(paths);
    SortedHeadIsFirstOfItsLength(paths);
  }
}
