/** `hash_dict`, the defaultdict(list) that the scan appends each hashed path to,
    and `duplicates`, the dict comprehension that keeps the lists with more than
    one path. Python dicts iterate in insertion order, so the dictionary is a key
    sequence in insertion order plus a map from key to list. */
module Grouping {
  import opened Common
  import opened FileTree
  import opened Hasher

  datatype HashDict = HashDict(keys: seq<Digest>, lists: map<Digest, seq<Path>>)

  const Empty: HashDict := HashDict([], map[])

  /** Each key once, keys and map agree, and no list is empty (a defaultdict
      entry only comes into being by an append). */
  ghost predicate Valid(d: HashDict) {
    && Distinct(d.keys)
    && (forall h :: h in d.keys <==> h in d.lists)
    && (forall h :: h in d.lists ==> d.lists[h] != [])
  }

  /** `hash_dict[h].append(p)`. */
  function Append(d: HashDict, h: Digest, p: Path): (r: HashDict)
    ensures Valid(d) ==> Valid(r)
    ensures r.keys == if h in d.lists then d.keys else d.keys + [h]
    ensures r.lists.Keys == d.lists.Keys + {h}
    ensures r.lists[h] == (if h in d.lists then d.lists[h] else []) + [p]
    ensures forall k :: k in d.lists && k != h ==> r.lists[k] == d.lists[k]
  {
    if h in d.lists then HashDict(d.keys, d.lists[h := d.lists[h] + [p]])
    else HashDict(d.keys + [h], d.lists[h := [p]])
  }

  /** The state of `hash_dict` after the scan has handled the visits `vs` in
      order: a visit whose hashing raises is skipped, any other is appended
      under its digest. */
  function Group(vs: seq<Visit>, unreadable: Path -> bool, md5: Bytes -> Digest): (d: HashDict)
    ensures Valid(d)
  {
    if vs == [] then Empty
    else
      var d := Group(vs[..|vs| - 1], unreadable, md5);
      var v := vs[|vs| - 1];
      if unreadable(v.path) then d else Append(d, md5(v.content), v.path)
  }

  /** Reference definition: the paths of the visits that hash successfully to
      `h`, in visit order. */
  function Matching(vs: seq<Visit>, unreadable: Path -> bool, md5: Bytes -> Digest, h: Digest): seq<Path> {
    if vs == [] then []
    else
      (if !unreadable(vs[0].path) && md5(vs[0].content) == h then [vs[0].path] else [])
      + Matching(vs[1..], unreadable, md5, h)
  }

  /** The paths the scan hashes successfully, in visit order. */
  function ReadablePaths(vs: seq<Visit>, unreadable: Path -> bool): seq<Path> {
    if vs == [] then []
    else
      ReadablePaths(vs[..|vs| - 1], unreadable)
      + (if unreadable(vs[|vs| - 1].path) then [] else [vs[|vs| - 1].path])
  }

  /** The paths whose hashing raises, in visit order (the "Error accessing" lines). */
  function UnreadablePaths(vs: seq<Visit>, unreadable: Path -> bool): seq<Path> {
    if vs == [] then []
    else
      UnreadablePaths(vs[..|vs| - 1], unreadable)
      + (if unreadable(vs[|vs| - 1].path) then [vs[|vs| - 1].path] else [])
  }

  /** Every visited path is either hashed or reported as an error, never both. */
  lemma {:induction false} EveryVisitIsHashedOrReported(vs: seq<Visit>, unreadable: Path -> bool)
    ensures multiset(ReadablePaths(vs, unreadable)) + multiset(UnreadablePaths(vs, unreadable)) == multiset(Paths(vs))
  {
    if vs != [] {
      var init, p := vs[..|vs| - 1], vs[|vs| - 1].path;
      EveryVisitIsHashedOrReported(init, unreadable);
      assert Paths(vs) == Paths(init) + [p];
      if unreadable(p) {
        assert UnreadablePaths(vs, unreadable) == UnreadablePaths(init, unreadable) + [p];
        assert ReadablePaths(vs, unreadable) == ReadablePaths(init, unreadable);
      } else {
        assert ReadablePaths(vs, unreadable) == ReadablePaths(init, unreadable) + [p];
        assert UnreadablePaths(vs, unreadable) == UnreadablePaths(init, unreadable);
      }
    }
  }

  /** The lists of `lists` under the keys `keys`, one after another. */
  function Flatten(keys: seq<Digest>, lists: map<Digest, seq<Path>>): seq<Path> {
    if keys == [] then []
    else (if keys[0] in lists then lists[keys[0]] else []) + Flatten(keys[1..], lists)
  }

  /** Every path held by the dictionary, list after list in key order. */
  function AllPaths(d: HashDict): seq<Path> {
    Flatten(d.keys, d.lists)
  }

  // ---------------------------------------------------------------------------
  // The grouping is exact.

  lemma {:induction false} MatchingSnoc(vs: seq<Visit>, v: Visit, unreadable: Path -> bool, md5: Bytes -> Digest, h: Digest)
    ensures Matching(vs + [v], unreadable, md5, h)
         == Matching(vs, unreadable, md5, h)
            + (if !unreadable(v.path) && md5(v.content) == h then [v.path] else [])
  {
    if vs != [] {
      assert (vs + [v])[1..] == vs[1..] + [v];
      MatchingSnoc(vs[1..], v, unreadable, md5, h);
    }
  }

  /** After the scan, `hash_dict[h]` holds exactly the successfully hashed
      visited paths whose digest is `h`, in visit order, and a digest is a key
      exactly when some visited file hashes to it. */
  lemma {:induction false} GroupIsExact(vs: seq<Visit>, unreadable: Path -> bool, md5: Bytes -> Digest)
    ensures forall h :: h in Group(vs, unreadable, md5).lists <==> Matching(vs, unreadable, md5, h) != []
    ensures forall h :: h in Group(vs, unreadable, md5).lists ==>
      Group(vs, unreadable, md5).lists[h] == Matching(vs, unreadable, md5, h)
  {
    if vs != [] {
      var init, v := vs[..|vs| - 1], vs[|vs| - 1];
      assert vs == init + [v];
      GroupIsExact(init, unreadable, md5);
      forall h ensures Matching(vs, unreadable, md5, h)
        == Matching(init, unreadable, md5, h)
           + (if !unreadable(v.path) && md5(v.content) == h then [v.path] else [])
      {
        MatchingSnoc(init, v, unreadable, md5, h);
      }
    }
  }

  /** Membership in the reference definition, both ways. */
  lemma {:induction false} MatchingMembers(vs: seq<Visit>, unreadable: Path -> bool, md5: Bytes -> Digest, h: Digest, p: Path)
    ensures p in Matching(vs, unreadable, md5, h) <==>
      exists i :: 0 <= i < |vs| && vs[i].path == p && !unreadable(p) && md5(vs[i].content) == h
  {
    if vs != [] {
      MatchingMembers(vs[1..], unreadable, md5, h, p);
      if p in Matching(vs[1..], unreadable, md5, h) {
        var i :| 0 <= i < |vs[1..]| && vs[1..][i].path == p && !unreadable(p) && md5(vs[1..][i].content) == h;
        assert vs[i + 1] == vs[1..][i];
      }
      if exists i :: 0 <= i < |vs| && vs[i].path == p && !unreadable(p) && md5(vs[i].content) == h {
        var i :| 0 <= i < |vs| && vs[i].path == p && !unreadable(p) && md5(vs[i].content) == h;
        if i > 0 {
          assert vs[1..][i - 1] == vs[i];
        }
      }
    }
  }

  /** Files whose contents are equal and that both hash successfully end up in
      one and the same list; a file in the list for `h` hashed to `h`. */
  lemma SameContentSameList(vs: seq<Visit>, unreadable: Path -> bool, md5: Bytes -> Digest, i: nat, j: nat)
    requires i < |vs| && j < |vs|
    requires !unreadable(vs[i].path) && !unreadable(vs[j].path)
    requires vs[i].content == vs[j].content
    ensures var d := Group(vs, unreadable, md5); var h := md5(vs[i].content);
      h in d.lists && vs[i].path in d.lists[h] && vs[j].path in d.lists[h]
  {
    var h := md5(vs[i].content);
    MatchingMembers(vs, unreadable, md5, h, vs[i].path);
    MatchingMembers(vs, unreadable, md5, h, vs[j].path);
    GroupIsExact(vs, unreadable, md5);
  }

  /** A path in the list for `h` comes from a visited, successfully hashed file
      whose digest is `h`: files with different digests never share a list. */
  lemma ListMembersHashTo(vs: seq<Visit>, unreadable: Path -> bool, md5: Bytes -> Digest, h: Digest, p: Path)
    requires h in Group(vs, unreadable, md5).lists && p in Group(vs, unreadable, md5).lists[h]
    ensures exists i :: 0 <= i < |vs| && vs[i].path == p && !unreadable(p) && md5(vs[i].content) == h
  {
    GroupIsExact(vs, unreadable, md5);
    MatchingMembers(vs, unreadable, md5, h, p);
  }

  // ---------------------------------------------------------------------------
  // The grouping is a partition of the readable paths; `file_count` is its size.

  lemma {:induction false} FlattenIgnores(keys: seq<Digest>, lists: map<Digest, seq<Path>>, h: Digest, ps: seq<Path>)
    requires h !in keys
    ensures Flatten(keys, lists[h := ps]) == Flatten(keys, lists)
  {
    if keys != [] {
      FlattenIgnores(keys[1..], lists, h, ps);
    }
  }

  lemma {:induction false} FlattenSnoc(keys: seq<Digest>, lists: map<Digest, seq<Path>>, h: Digest)
    ensures Flatten(keys + [h], lists) == Flatten(keys, lists) + (if h in lists then lists[h] else [])
  {
    if keys == [] {
      assert keys + [h] == [h];
    } else {
      assert (keys + [h])[1..] == keys[1..] + [h];
      FlattenSnoc(keys[1..], lists, h);
    }
  }

  lemma {:induction false} FlattenExtend(keys: seq<Digest>, lists: map<Digest, seq<Path>>, h: Digest, p: Path)
    requires Distinct(keys) && h in keys && h in lists
    ensures multiset(Flatten(keys, lists[h := lists[h] + [p]])) == multiset(Flatten(keys, lists)) + multiset{p}
  {
    assert keys == [keys[0]] + keys[1..];
    assert multiset(keys) == multiset{keys[0]} + multiset(keys[1..]);
    var lists' := lists[h := lists[h] + [p]];
    if keys[0] == h {
      assert h !in keys[1..] by {
        assert multiset(keys)[h] == 1 + multiset(keys[1..])[h];
      }
      FlattenIgnores(keys[1..], lists, h, lists[h] + [p]);
    } else {
      assert Distinct(keys[1..]) by {
        forall x ensures multiset(keys[1..])[x] <= 1 {
          assert multiset(keys)[x] <= 1;
        }
      }
      FlattenExtend(keys[1..], lists, h, p);
    }
  }

  /** One append adds exactly its path to the dictionary's contents. */
  lemma AppendAddsOne(d: HashDict, h: Digest, p: Path)
    requires Valid(d)
    ensures multiset(AllPaths(Append(d, h, p))) == multiset(AllPaths(d)) + multiset{p}
  {
    if h in d.lists {
      FlattenExtend(d.keys, d.lists, h, p);
    } else {
      FlattenSnoc(d.keys, d.lists[h := [p]], h);
      FlattenIgnores(d.keys, d.lists, h, [p]);
    }
  }

  /** The lists of `hash_dict` together hold each successfully hashed path
      once per visit and nothing else; in particular their total length is the
      number of successful hashes, which is what `file_count` counts. */
  lemma {:induction false} GroupPartitionsReadable(vs: seq<Visit>, unreadable: Path -> bool, md5: Bytes -> Digest)
    ensures multiset(AllPaths(Group(vs, unreadable, md5))) == multiset(ReadablePaths(vs, unreadable))
    ensures |AllPaths(Group(vs, unreadable, md5))| == |ReadablePaths(vs, unreadable)|
  {
    if vs != [] {
      var init, v := vs[..|vs| - 1], vs[|vs| - 1];
      GroupPartitionsReadable(init, unreadable, md5);
      if !unreadable(v.path) {
        AppendAddsOne(Group(init, unreadable, md5), md5(v.content), v.path);
      }
    }
    assert |multiset(AllPaths(Group(vs, unreadable, md5)))| == |AllPaths(Group(vs, unreadable, md5))|;
  }

  lemma {:induction false} ReadablePathsAreVisited(vs: seq<Visit>, unreadable: Path -> bool)
    ensures multiset(ReadablePaths(vs, unreadable)) <= multiset(Paths(vs))
  {
    if vs != [] {
      ReadablePathsAreVisited(vs[..|vs| - 1], unreadable);
    }
  }

  /** A path the scan hashed is one whose hashing does not raise. */
  lemma {:induction false} ReadablePathsAreReadable(vs: seq<Visit>, unreadable: Path -> bool, p: Path)
    requires p in ReadablePaths(vs, unreadable)
    ensures !unreadable(p)
  {
    var init := vs[..|vs| - 1];
    if p in ReadablePaths(init, unreadable) {
      ReadablePathsAreReadable(init, unreadable, p);
    }
  }

  // ---------------------------------------------------------------------------
  // `duplicates = {h: paths for h, paths in hash_dict.items() if len(paths) > 1}`

  /** The keys of the dict comprehension: the keys whose list holds more than
      one path, in the order of `keys`. */
  function DuplicateKeys(keys: seq<Digest>, lists: map<Digest, seq<Path>>): (r: seq<Digest>)
    ensures forall h :: h in r <==> h in keys && h in lists && |lists[h]| > 1
    ensures multiset(r) <= multiset(keys)
    ensures InOrder(r, keys)
  {
    if keys == [] then []
    else
      assert keys == [keys[0]] + keys[1..];
      var rest := DuplicateKeys(keys[1..], lists);
      if keys[0] in lists && |lists[keys[0]]| > 1 then
        InOrderTake(keys, rest);
        [keys[0]] + rest
      else
        InOrderSkip(keys, rest);
        rest
  }

  /** The duplicate sets: exactly the keys whose list holds more than one
      path, each list unchanged, in the dictionary's order. */
  function Duplicates(d: HashDict): (r: HashDict)
    ensures forall h :: h in r.lists <==> h in d.lists && |d.lists[h]| > 1
    ensures forall h :: h in r.lists ==> r.lists[h] == d.lists[h]
    ensures Valid(d) ==> Valid(r)
    ensures InOrder(r.keys, d.keys)
  {
    HashDict(DuplicateKeys(d.keys, d.lists), map h | h in d.lists && |d.lists[h]| > 1 :: d.lists[h])
  }

  lemma {:induction false} DuplicateKeysFlatten(keys: seq<Digest>, lists: map<Digest, seq<Path>>, kept: map<Digest, seq<Path>>)
    requires forall h :: h in kept ==> h in lists && kept[h] == lists[h]
    ensures multiset(Flatten(DuplicateKeys(keys, lists), kept)) <= multiset(Flatten(keys, lists))
  {
    if keys != [] {
      DuplicateKeysFlatten(keys[1..], lists, kept);
      var k, rest := keys[0], DuplicateKeys(keys[1..], lists);
      var whole := (if k in lists then lists[k] else []) + Flatten(keys[1..], lists);
      assert Flatten(keys, lists) == whole;
      assert multiset(Flatten(rest, kept)) <= multiset(whole);
      if k in lists && |lists[k]| > 1 {
        var r := [k] + rest;
        assert r[0] == k && r[1..] == rest;
        var mine := if k in kept then kept[k] else [];
        assert Flatten(r, kept) == mine + Flatten(rest, kept);
        assert multiset(mine) <= multiset(lists[k]);
      } else {
        assert DuplicateKeys(keys, lists) == rest;
      }
    }
  }

  /** The duplicate sets hold no path that `hash_dict` did not hold. */
  lemma DuplicatesHoldGroupedPaths(d: HashDict)
    ensures multiset(AllPaths(Duplicates(d))) <= multiset(AllPaths(d))
  {
    DuplicateKeysFlatten(d.keys, d.lists, Duplicates(d).lists);
  }

  /** The number of duplicate sets is `len(duplicates)`, and there is none
      exactly when no list of `hash_dict` holds more than one path. */
  lemma DuplicatesCount(d: HashDict)
    requires Valid(d)
    ensures |Duplicates(d).keys| == |Duplicates(d).lists|
    ensures Duplicates(d).keys == [] <==> forall h :: h in d.lists ==> |d.lists[h]| <= 1
  {
    var r := Duplicates(d);
    assert r.lists.Keys == set h | h in r.keys;
    DistinctCardinality(r.keys);
    if r.keys != [] {
      assert r.keys[0] in r.keys;
    }
  }

  /** One more visit: the scan appends it under its digest unless hashing it raises. */
  lemma GroupSnoc(vs: seq<Visit>, v: Visit, unreadable: Path -> bool, md5: Bytes -> Digest)
    ensures Group(vs + [v], unreadable, md5)
         == if unreadable(v.path) then Group(vs, unreadable, md5)
            else Append(Group(vs, unreadable, md5), md5(v.content), v.path)
    ensures ReadablePaths(vs + [v], unreadable)
         == ReadablePaths(vs, unreadable) + (if unreadable(v.path) then [] else [v.path])
    ensures UnreadablePaths(vs + [v], unreadable)
         == UnreadablePaths(vs, unreadable) + (if unreadable(v.path) then [v.path] else [])
  {
    assert (vs + [v])[..|vs|] == vs;
  }
}
