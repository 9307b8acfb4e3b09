/** `remove_duplicates`: the same scan and grouping as `find_duplicates`, the
    resolution of every duplicate set into one kept path and the paths to
    remove, and the per-file loop that, in live mode, removes each of those
    paths and optionally puts a symbolic link to the kept file in its place.

    The filesystem is a map from path to entry together with the sequence of
    `os.remove` / `os.symlink` calls made so far; whether the operating system
    refuses a call for another reason (permissions, a read-only mount) is
    decided by oracles. */
module Executor {
  import opened Common
  import opened FileTree
  import opened Hasher
  import opened Grouping
  import opened Scanner
  import opened Resolution
  import opened UniquePaths

  /** What the filesystem holds at a path. */
  datatype Entry = Regular(content: Bytes) | Link(target: Path) | Directory

  /** One call into the operating system, with whether it succeeded. */
  datatype Call = RemoveCall(path: Path, ok: bool) | SymlinkCall(target: Path, path: Path, ok: bool)

  datatype World = World(entries: map<Path, Entry>, calls: seq<Call>)

  /** Refusals by the operating system that the entries alone do not explain. */
  datatype Oracles = Oracles(removeDenied: Path -> bool, linkDenied: Path -> bool)

  /** `dry_run` and `symlink`. */
  datatype Mode = Mode(dryRun: bool, symlink: bool)

  /** What happened to one path to remove, i.e. which message the loop prints for it. */
  datatype Outcome =
    | WouldRemove(path: Path, link: bool)   // "Would remove ..." (dry run)
    | Removed(path: Path)                   // "Removed: ..."
    | Linked(path: Path, target: Path)      // "Removed: ..." then "Created symlink ..."
    | LinkFailed(path: Path)                // "Removed: ..." then "Error removing ..."
    | RemoveFailed(path: Path)              // "Error removing ..."

  /** `os.remove(p)` succeeds: something that is not a directory is at `p`,
      and the operating system allows it. */
  predicate RemoveOk(entries: map<Path, Entry>, p: Path, oracles: Oracles) {
    p in entries && !entries[p].Directory? && !oracles.removeDenied(p)
  }

  /** `os.symlink(target, p)` succeeds: nothing is at `p` and the operating
      system allows it; the target need not exist. */
  predicate LinkOk(entries: map<Path, Entry>, p: Path, oracles: Oracles) {
    p !in entries && !oracles.linkDenied(p)
  }

  class FileSystem {
    var entries: map<Path, Entry>
    var calls: seq<Call>
    const oracles: Oracles

    constructor (entries: map<Path, Entry>, oracles: Oracles)
      ensures this.entries == entries && calls == [] && this.oracles == oracles
    {
      this.entries := entries;
      calls := [];
      this.oracles := oracles;
    }

    function State(): World
      reads this
    {
      World(entries, calls)
    }

    /** `os.remove(p)`; `ok` is false where Python raises OSError. */
    method Remove(p: Path) returns (ok: bool)
      modifies this
      ensures ok == RemoveOk(old(entries), p, oracles)
      ensures entries == if ok then old(entries) - {p} else old(entries)
      ensures calls == old(calls) + [RemoveCall(p, ok)]
    {
      ok := RemoveOk(entries, p, oracles);
      if ok {
        entries := entries - {p};
      }
      calls := calls + [RemoveCall(p, ok)];
    }

    /** `os.symlink(target, p)`; `ok` is false where Python raises OSError. */
    method Symlink(target: Path, p: Path) returns (ok: bool)
      modifies this
      ensures ok == LinkOk(old(entries), p, oracles)
      ensures entries == if ok then old(entries)[p := Link(target)] else old(entries)
      ensures calls == old(calls) + [SymlinkCall(target, p, ok)]
    {
      ok := LinkOk(entries, p, oracles);
      if ok {
        entries := entries[p := Link(target)];
      }
      calls := calls + [SymlinkCall(target, p, ok)];
    }
  }

  // ---------------------------------------------------------------------------
  // The per-file step, as a function of the world.

  /** One member of `remove_files`, with the `keep_file` of its set. */
  datatype Task = Task(keep: Path, target: Path)

  /** Nothing at `q` differs between `before` and `after`. */
  ghost predicate Unchanged(before: map<Path, Entry>, after: map<Path, Entry>, q: Path) {
    (q in before <==> q in after) && (q in before ==> after[q] == before[q])
  }

  /** What an outcome says about its path: the mode it arises in, why it
      arose given the entries before the step, and what is at the path after. */
  ghost predicate Settled(before: map<Path, Entry>, after: map<Path, Entry>, o: Outcome, mode: Mode, oracles: Oracles) {
    var q := o.path;
    match o
    case WouldRemove(_, link) => mode.dryRun && link == mode.symlink && Unchanged(before, after, q)
    case RemoveFailed(_) => !mode.dryRun && !RemoveOk(before, q, oracles) && Unchanged(before, after, q)
    case Removed(_) => !mode.dryRun && !mode.symlink && RemoveOk(before, q, oracles) && q !in after
    case LinkFailed(_) =>
      !mode.dryRun && mode.symlink && RemoveOk(before, q, oracles) && oracles.linkDenied(q) && q !in after
    case Linked(_, target) =>
      && !mode.dryRun && mode.symlink && RemoveOk(before, q, oracles) && !oracles.linkDenied(q)
      && q in after && after[q] == Link(target)
  }

  /** The paths passed to `os.remove`, in call order. */
  function RemovedPaths(cs: seq<Call>): seq<Path> {
    if cs == [] then []
    else RemovedPaths(cs[..|cs| - 1]) + (if cs[|cs| - 1].RemoveCall? then [cs[|cs| - 1].path] else [])
  }

  /** Every `os.symlink` call is allowed by the `symlink` flag and comes right
      after a successful `os.remove` of the same path. */
  ghost predicate LinksOnlyAfterRemoval(cs: seq<Call>, symlink: bool) {
    forall i :: 0 <= i < |cs| && cs[i].SymlinkCall? ==>
      symlink && i > 0 && cs[i - 1] == RemoveCall(cs[i].path, true)
  }

  /** The calls made since the world `w`. */
  function NewCalls(w: World, w': World): seq<Call>
    requires |w.calls| <= |w'.calls|
  {
    w'.calls[|w.calls|..]
  }

  /** The body of the inner loop for one path to remove; an OSError ends the
      step for that path only. */
  function Step(w: World, t: Task, mode: Mode, oracles: Oracles, relPath: (Path, Path) -> Path): (r: (World, Outcome))
    ensures r.1.path == t.target
    ensures |w.calls| <= |r.0.calls| && r.0.calls[..|w.calls|] == w.calls
  {
    var p := t.target;
    if mode.dryRun then (w, WouldRemove(p, mode.symlink))
    else if !RemoveOk(w.entries, p, oracles) then
      (World(w.entries, w.calls + [RemoveCall(p, false)]), RemoveFailed(p))
    else if !mode.symlink then
      (World(w.entries - {p}, w.calls + [RemoveCall(p, true)]), Removed(p))
    else
      var target := relPath(t.keep, p);
      var removed := w.entries - {p};
      var ok := LinkOk(removed, p, oracles);
      var cs := [RemoveCall(p, true), SymlinkCall(target, p, ok)];
      if ok then (World(removed[p := Link(target)], w.calls + cs), Linked(p, target))
      else (World(removed, w.calls + cs), LinkFailed(p))
  }

  /** One step changes nothing but its own path, and its outcome says what
      happened there. */
  lemma StepSettles(w: World, t: Task, mode: Mode, oracles: Oracles, relPath: (Path, Path) -> Path)
    ensures var r := Step(w, t, mode, oracles, relPath);
      && (forall q :: q != t.target ==> Unchanged(w.entries, r.0.entries, q))
      && Settled(w.entries, r.0.entries, r.1, mode, oracles)
      && (r.1.Linked? ==> r.1.target == relPath(t.keep, t.target))
      && (mode.dryRun ==> r.0 == w)
  {
  }

  /** One step calls `os.remove` on its path, in live mode only, and
      `os.symlink` only right after that call succeeded. */
  lemma StepCalls(w: World, t: Task, mode: Mode, oracles: Oracles, relPath: (Path, Path) -> Path)
    ensures RemovedPaths(NewCalls(w, Step(w, t, mode, oracles, relPath).0)) == if mode.dryRun then [] else [t.target]
    ensures LinksOnlyAfterRemoval(NewCalls(w, Step(w, t, mode, oracles, relPath).0), mode.symlink)
    ensures NewCalls(w, Step(w, t, mode, oracles, relPath).0) == []
            || NewCalls(w, Step(w, t, mode, oracles, relPath).0)[0].RemoveCall?
  {
    var p := t.target;
    var w' := Step(w, t, mode, oracles, relPath).0;
    var cs := NewCalls(w, w');
    if mode.dryRun {
      assert cs == [];
    } else if !RemoveOk(w.entries, p, oracles) || !mode.symlink {
      assert cs == [RemoveCall(p, RemoveOk(w.entries, p, oracles))];
      assert cs[..0] == [];
    } else {
      var link := cs[1];
      assert cs == [RemoveCall(p, true), link] && link.SymlinkCall? && link.path == p;
      assert cs[..1] == [RemoveCall(p, true)] && cs[..1][..0] == [];
      assert RemovedPaths(cs[..1]) == [p];
      assert RemovedPaths(cs) == RemovedPaths(cs[..1]);
      assert LinksOnlyAfterRemoval(cs, mode.symlink) by {
        forall i | 0 <= i < |cs| && cs[i].SymlinkCall?
          ensures mode.symlink && i > 0 && cs[i - 1] == RemoveCall(cs[i].path, true)
        {
          assert i == 1;
        }
      }
    }
  }

  /** The inner loop over the tasks `ts`, one step after another: the final
      world and one outcome per task. */
  function Run(w: World, ts: seq<Task>, mode: Mode, oracles: Oracles, relPath: (Path, Path) -> Path)
    : (r: (World, seq<Outcome>))
    ensures |r.1| == |ts|
    ensures forall k :: 0 <= k < |ts| ==> r.1[k].path == ts[k].target
    ensures |w.calls| <= |r.0.calls| && r.0.calls[..|w.calls|] == w.calls
  {
    if ts == [] then (w, [])
    else
      var prev := Run(w, ts[..|ts| - 1], mode, oracles, relPath);
      var last := Step(prev.0, ts[|ts| - 1], mode, oracles, relPath);
      (last.0, prev.1 + [last.1])
  }

  /** The paths the tasks remove, in order. */
  function Targets(ts: seq<Task>): (r: seq<Path>) {
    seq(|ts|, k requires 0 <= k < |ts| => ts[k].target)
  }

  /** The targets of all tasks but the last, then the last one's. */
  lemma TargetsSnoc(ts: seq<Task>)
    requires ts != []
    ensures Targets(ts) == Targets(ts[..|ts| - 1]) + [ts[|ts| - 1].target]
  {
  }

  lemma {:induction false} RunAppend(w: World, a: seq<Task>, b: seq<Task>, mode: Mode, oracles: Oracles, relPath: (Path, Path) -> Path)
    ensures var first := Run(w, a, mode, oracles, relPath);
      var second := Run(first.0, b, mode, oracles, relPath);
      Run(w, a + b, mode, oracles, relPath) == (second.0, first.1 + second.1)
    decreases |b|
  {
    if b == [] {
      assert a + b == a;
      assert Run(w, a, mode, oracles, relPath).1 + [] == Run(w, a, mode, oracles, relPath).1;
    } else {
      var b', t := b[..|b| - 1], b[|b| - 1];
      assert (a + b)[..|a + b| - 1] == a + b';
      assert (a + b)[|a + b| - 1] == t;
      RunAppend(w, a, b', mode, oracles, relPath);
      var first := Run(w, a, mode, oracles, relPath);
      var mid := Run(first.0, b', mode, oracles, relPath);
      var last := Step(mid.0, t, mode, oracles, relPath);
      assert Run(w, a + b, mode, oracles, relPath) == (last.0, (first.1 + mid.1) + [last.1]);
      assert Run(first.0, b, mode, oracles, relPath) == (last.0, mid.1 + [last.1]);
      ConcatAssoc(first.1, mid.1, [last.1]);
    }
  }

  /** In dry-run mode no entry changes and no call is made; every path to
      remove gets its "Would remove" line. */
  lemma {:induction false} DryRunChangesNothing(w: World, ts: seq<Task>, mode: Mode, oracles: Oracles, relPath: (Path, Path) -> Path)
    requires mode.dryRun
    ensures Run(w, ts, mode, oracles, relPath).0 == w
    ensures forall k :: 0 <= k < |ts| ==> Run(w, ts, mode, oracles, relPath).1[k] == WouldRemove(ts[k].target, mode.symlink)
  {
    if ts != [] {
      DryRunChangesNothing(w, ts[..|ts| - 1], mode, oracles, relPath);
    }
  }

  /** Nothing changes at a path that is not one of the paths to remove. */
  lemma {:induction false} OnlyTargetsChange(w: World, ts: seq<Task>, mode: Mode, oracles: Oracles, relPath: (Path, Path) -> Path, q: Path)
    requires q !in Targets(ts)
    ensures Unchanged(w.entries, Run(w, ts, mode, oracles, relPath).0.entries, q)
  {
    if ts != [] {
      var init := ts[..|ts| - 1];
      assert Targets(ts) == Targets(init) + [ts[|ts| - 1].target];
      OnlyTargetsChange(w, init, mode, oracles, relPath, q);
    }
  }

  lemma RemovedPathsAppend(a: seq<Call>, b: seq<Call>)
    ensures RemovedPaths(a + b) == RemovedPaths(a) + RemovedPaths(b)
    decreases |b|
  {
    if b == [] {
      assert a + b == a;
    } else {
      assert (a + b)[..|a + b| - 1] == a + b[..|b| - 1];
      RemovedPathsAppend(a, b[..|b| - 1]);
    }
  }

  lemma LinksAppend(a: seq<Call>, b: seq<Call>, symlink: bool)
    requires LinksOnlyAfterRemoval(a, symlink) && LinksOnlyAfterRemoval(b, symlink)
    requires b == [] || b[0].RemoveCall?
    ensures LinksOnlyAfterRemoval(a + b, symlink)
  {
    var c := a + b;
    forall i | 0 <= i < |c| && c[i].SymlinkCall?
      ensures symlink && i > 0 && c[i - 1] == RemoveCall(c[i].path, true)
    {
      if i < |a| {
        assert c[i] == a[i] && c[i - 1] == a[i - 1];
      } else {
        assert c[i] == b[i - |a|];
        assert i - |a| > 0;
        assert c[i - 1] == b[i - |a| - 1];
      }
    }
  }

  /** In live mode `os.remove` is called on exactly the paths to remove, in
      order; in dry-run mode on none. */
  lemma {:induction false} RemoveCallsOfRun(w: World, ts: seq<Task>, mode: Mode, oracles: Oracles, relPath: (Path, Path) -> Path)
    ensures RemovedPaths(NewCalls(w, Run(w, ts, mode, oracles, relPath).0)) == if mode.dryRun then [] else Targets(ts)
  {
    var w' := Run(w, ts, mode, oracles, relPath).0;
    if ts == [] {
      assert NewCalls(w, w') == [];
    } else {
      var init, t := ts[..|ts| - 1], ts[|ts| - 1];
      var mid := Run(w, init, mode, oracles, relPath).0;
      assert w' == Step(mid, t, mode, oracles, relPath).0;
      RemoveCallsOfRun(w, init, mode, oracles, relPath);
      StepCalls(mid, t, mode, oracles, relPath);
      var s1, s2 := NewCalls(w, mid), NewCalls(mid, w');
      SliceSplit(w'.calls, mid.calls, |w.calls|);
      assert NewCalls(w, w') == s1 + s2;
      RemovedPathsAppend(s1, s2);
      var removed := RemovedPaths(NewCalls(w, w'));
      assert removed == RemovedPaths(s1) + RemovedPaths(s2);
      if mode.dryRun {
        assert removed == [] + [];
      } else {
        assert removed == Targets(init) + [t.target];
        TargetsSnoc(ts);
      }
    }
  }

  /** An `os.symlink` call happens only when `symlink` is set, right after a
      successful removal of the same path. */
  lemma {:induction false} LinkCallsOfRun(w: World, ts: seq<Task>, mode: Mode, oracles: Oracles, relPath: (Path, Path) -> Path)
    ensures LinksOnlyAfterRemoval(NewCalls(w, Run(w, ts, mode, oracles, relPath).0), mode.symlink)
  {
    var w' := Run(w, ts, mode, oracles, relPath).0;
    if ts == [] {
      assert NewCalls(w, w') == [];
    } else {
      var init, t := ts[..|ts| - 1], ts[|ts| - 1];
      var mid := Run(w, init, mode, oracles, relPath).0;
      assert w' == Step(mid, t, mode, oracles, relPath).0;
      LinkCallsOfRun(w, init, mode, oracles, relPath);
      StepCalls(mid, t, mode, oracles, relPath);
      SliceSplit(w'.calls, mid.calls, |w.calls|);
      LinksAppend(NewCalls(w, mid), NewCalls(mid, w'), mode.symlink);
    }
  }

  lemma SliceSplit<T>(long: seq<T>, short: seq<T>, n: nat)
    requires n <= |short| <= |long| && long[..|short|] == short
    ensures long[n..] == short[n..] + long[|short|..]
  {
  }

  lemma SettledAt(b1: map<Path, Entry>, a1: map<Path, Entry>, b2: map<Path, Entry>, a2: map<Path, Entry>,
                  o: Outcome, mode: Mode, oracles: Oracles)
    requires Settled(b1, a1, o, mode, oracles)
    requires Unchanged(b1, b2, o.path) && Unchanged(a1, a2, o.path)
    ensures Settled(b2, a2, o, mode, oracles)
  {
  }

  /** When no path is to be removed twice, each outcome tells the truth about
      its path in terms of the entries before the loop: the mode it arose in,
      why it arose, and what is at the path afterwards. In particular a failed
      symlink leaves the file removed, and a failed removal leaves the entry as
      it was. */
  lemma {:induction false} EveryPathSettles(w: World, ts: seq<Task>, mode: Mode, oracles: Oracles, relPath: (Path, Path) -> Path)
    requires Distinct(Targets(ts))
    ensures forall k :: 0 <= k < |ts| ==>
      Settled(w.entries, Run(w, ts, mode, oracles, relPath).0.entries, Run(w, ts, mode, oracles, relPath).1[k], mode, oracles)
  {
    if ts != [] {
      var init, t := ts[..|ts| - 1], ts[|ts| - 1];
      TargetsSnoc(ts);
      DistinctSnoc(Targets(init), t.target);
      EveryPathSettles(w, init, mode, oracles, relPath);
      var prev := Run(w, init, mode, oracles, relPath);
      assert forall j :: 0 <= j < |init| ==> Settled(w.entries, prev.0.entries, prev.1[j], mode, oracles);
      var last := Step(prev.0, t, mode, oracles, relPath);
      StepSettles(prev.0, t, mode, oracles, relPath);
      var r := Run(w, ts, mode, oracles, relPath);
      forall k | 0 <= k < |ts| ensures Settled(w.entries, r.0.entries, r.1[k], mode, oracles) {
        if k < |init| {
          assert r.1[k] == prev.1[k];
          assert prev.1[k].path == init[k].target == Targets(init)[k];
          assert Settled(w.entries, prev.0.entries, prev.1[k], mode, oracles);
          assert prev.1[k].path != t.target;
          assert Unchanged(prev.0.entries, r.0.entries, prev.1[k].path);
          SettledAt(w.entries, prev.0.entries, w.entries, r.0.entries, prev.1[k], mode, oracles);
        } else {
          OnlyTargetsChange(w, init, mode, oracles, relPath, t.target);
          SettledAt(prev.0.entries, r.0.entries, w.entries, r.0.entries, last.1, mode, oracles);
        }
      }
    }
  }

  // ---------------------------------------------------------------------------
  // The plan: what each duplicate set resolves to.

  /** The tasks of one duplicate set, in the order of `remove_files`. */
  function SetTasks(r: Resolution): seq<Task> {
    seq(|r.remove|, k requires 0 <= k < |r.remove| => Task(r.keep, r.remove[k]))
  }

  /** The tasks of all duplicate sets, set after set. */
  function Tasks(plan: seq<Resolution>): seq<Task> {
    if plan == [] then [] else Tasks(plan[..|plan| - 1]) + SetTasks(plan[|plan| - 1])
  }

  /** The resolution of the duplicate sets under the keys `keys`, in order. */
  function Plan(keys: seq<Digest>, lists: map<Digest, seq<Path>>, strategy: string): (plan: seq<Resolution>)
    requires forall h :: h in keys ==> h in lists && lists[h] != []
    ensures |plan| == |keys|
    ensures forall i :: 0 <= i < |keys| ==> plan[i] == Resolve(lists[keys[i]], strategy)
  {
    if keys == [] then []
    else
      var init := keys[..|keys| - 1];
      assert forall i :: 0 <= i < |init| ==> init[i] == keys[i];
      Plan(init, lists, strategy) + [Resolve(lists[keys[|keys| - 1]], strategy)]
  }

  /** Every path of every set, the kept one first. */
  function PlanPaths(plan: seq<Resolution>): seq<Path> {
    if plan == [] then []
    else PlanPaths(plan[..|plan| - 1]) + [plan[|plan| - 1].keep] + plan[|plan| - 1].remove
  }

  function Keeps(plan: seq<Resolution>): seq<Path> {
    seq(|plan|, i requires 0 <= i < |plan| => plan[i].keep)
  }

  /** The resolved sets hold exactly the paths of the duplicate sets. */
  lemma {:induction false} PlanKeepsEveryPath(keys: seq<Digest>, lists: map<Digest, seq<Path>>, strategy: string)
    requires forall h :: h in keys ==> h in lists && lists[h] != []
    ensures multiset(PlanPaths(Plan(keys, lists, strategy))) == multiset(Flatten(keys, lists))
  {
    if keys != [] {
      var init, h := keys[..|keys| - 1], keys[|keys| - 1];
      assert keys == init + [h];
      PlanKeepsEveryPath(init, lists, strategy);
      FlattenSnoc(init, lists, h);
      var plan := Plan(keys, lists, strategy);
      assert plan[..|plan| - 1] == Plan(init, lists, strategy);
    }
  }

  lemma TargetsAppend(a: seq<Task>, b: seq<Task>)
    ensures Targets(a + b) == Targets(a) + Targets(b)
  {
  }

  /** Kept paths and removed paths together make up the plan's paths. */
  lemma {:induction false} PlanSplits(plan: seq<Resolution>)
    ensures multiset(PlanPaths(plan)) == multiset(Keeps(plan)) + multiset(Targets(Tasks(plan)))
  {
    if plan != [] {
      var init, r := plan[..|plan| - 1], plan[|plan| - 1];
      PlanSplits(init);
      assert Keeps(plan) == Keeps(init) + [r.keep];
      TargetsAppend(Tasks(init), SetTasks(r));
      assert Targets(SetTasks(r)) == r.remove;
      assert multiset(PlanPaths(plan)) == multiset(PlanPaths(init)) + multiset{r.keep} + multiset(r.remove);
      assert multiset(Keeps(plan)) == multiset(Keeps(init)) + multiset{r.keep};
      assert multiset(Targets(Tasks(plan))) == multiset(Targets(Tasks(init))) + multiset(r.remove);
    }
  }

  /** Each task's kept path is the kept path of some set. */
  lemma {:induction false} TasksKeepKeeps(plan: seq<Resolution>)
    ensures forall t :: t in Tasks(plan) ==> t.keep in Keeps(plan)
  {
    if plan != [] {
      var init, r := plan[..|plan| - 1], plan[|plan| - 1];
      TasksKeepKeeps(init);
      assert Keeps(plan) == Keeps(init) + [r.keep];
      forall t | t in Tasks(plan) ensures t.keep in Keeps(plan) {
        if t in Tasks(init) {
          assert t.keep in Keeps(init);
        } else {
          assert t in SetTasks(r);
        }
      }
    }
  }

  /** When no path occurs twice among the sets, no kept path is also a path to
      remove, and no path is to be removed twice. */
  lemma KeepsAreNotTargets(plan: seq<Resolution>)
    requires Distinct(PlanPaths(plan))
    ensures Distinct(Targets(Tasks(plan)))
    ensures forall t :: t in Tasks(plan) ==> t.keep !in Targets(Tasks(plan))
  {
    PlanSplits(plan);
    TasksKeepKeeps(plan);
    var ks, ts := Keeps(plan), Targets(Tasks(plan));
    DistinctSub(ts, PlanPaths(plan));
    forall t | t in Tasks(plan) ensures t.keep !in ts {
      assert multiset(PlanPaths(plan))[t.keep] == multiset(ks)[t.keep] + multiset(ts)[t.keep];
    }
  }

  /** When no path occurs twice among the sets, no kept file is ever passed
      to `os.remove`, and nothing at a kept path changes. */
  lemma KeptFilesSurvive(w: World, plan: seq<Resolution>, mode: Mode, oracles: Oracles, relPath: (Path, Path) -> Path)
    requires Distinct(PlanPaths(plan))
    ensures forall t :: t in Tasks(plan) ==>
      && t.keep !in RemovedPaths(NewCalls(w, Run(w, Tasks(plan), mode, oracles, relPath).0))
      && Unchanged(w.entries, Run(w, Tasks(plan), mode, oracles, relPath).0.entries, t.keep)
  {
    var ts := Tasks(plan);
    KeepsAreNotTargets(plan);
    RemoveCallsOfRun(w, ts, mode, oracles, relPath);
    forall t | t in ts
      ensures Unchanged(w.entries, Run(w, ts, mode, oracles, relPath).0.entries, t.keep)
    {
      OnlyTargetsChange(w, ts, mode, oracles, relPath, t.keep);
    }
  }

  // ---------------------------------------------------------------------------
  // `remove_duplicates`

  /** Each duplicate set resolves to one kept path and at least one removed path. */
  lemma DuplicatesResolve(d: HashDict, strategy: string)
    requires Valid(d)
    ensures forall h :: h in Duplicates(d).keys ==> h in Duplicates(d).lists && |Duplicates(d).lists[h]| > 1
    ensures forall i :: 0 <= i < |Duplicates(d).keys| ==>
      Plan(Duplicates(d).keys, Duplicates(d).lists, strategy)[i].remove != []
  {
    var dup := Duplicates(d);
    var plan := Plan(dup.keys, dup.lists, strategy);
    forall i | 0 <= i < |dup.keys| ensures plan[i].remove != [] {
      assert |plan[i].remove| == |dup.lists[dup.keys[i]]| - 1;
    }
  }

  /** The resolved duplicate sets of the scan, in `duplicates.items()` order:
      one per duplicate set, each the strategy's resolution of that set's
      list, and each removing at least one path. */
  function PlanOf(directory: Path, tree: Node, excludeDirs: Option<seq<string>>,
                  unreadable: Path -> bool, md5: Bytes -> Digest, strategy: string): (r: seq<Resolution>)
    ensures |r| == |Duplicates(Group(Visits(directory, tree, excludeDirs), unreadable, md5)).keys|
    ensures forall i :: 0 <= i < |r| ==>
      var d := Duplicates(Group(Visits(directory, tree, excludeDirs), unreadable, md5));
      d.keys[i] in d.lists && r[i] == Resolve(d.lists[d.keys[i]], strategy) && r[i].remove != []
  {
    var g := Group(Visits(directory, tree, excludeDirs), unreadable, md5);
    DuplicatesResolve(g, strategy);
    Plan(Duplicates(g).keys, Duplicates(g).lists, strategy)
  }

  /** The inner loop's body for one path: print in dry-run mode, otherwise
      `os.remove` and, when asked, `os.symlink`, inside one `try`. */
  method RemoveOne(fs: FileSystem, keepFile: Path, removeFile: Path, mode: Mode, relPath: (Path, Path) -> Path)
    returns (outcome: Outcome)
    modifies fs
    ensures (fs.State(), outcome) == Step(old(fs.State()), Task(keepFile, removeFile), mode, fs.oracles, relPath)
  {
    ghost var w := fs.State();
    if mode.dryRun {
      outcome := WouldRemove(removeFile, mode.symlink);
    } else {
      var removed := fs.Remove(removeFile);
      if !removed {
        outcome := RemoveFailed(removeFile);
      } else if !mode.symlink {
        outcome := Removed(removeFile);
      } else {
        var relTarget := relPath(keepFile, removeFile);
        var linked := fs.Symlink(relTarget, removeFile);
        outcome := if linked then Linked(removeFile, relTarget) else LinkFailed(removeFile);
        ConcatAssoc(w.calls, [RemoveCall(removeFile, true)], [SymlinkCall(relTarget, removeFile, linked)]);
        assert [RemoveCall(removeFile, true)] + [SymlinkCall(relTarget, removeFile, linked)]
            == [RemoveCall(removeFile, true), SymlinkCall(relTarget, removeFile, linked)];
      }
    }
  }

  lemma SetTasksSnoc(keep: Path, remove: seq<Path>, j: nat)
    requires j < |remove|
    ensures |SetTasks(Resolution(keep, remove[..j + 1]))| == j + 1
    ensures SetTasks(Resolution(keep, remove[..j + 1]))[..j] == SetTasks(Resolution(keep, remove[..j]))
    ensures SetTasks(Resolution(keep, remove[..j + 1]))[j] == Task(keep, remove[j])
  {
  }

  /** The inner loop over `remove_files`; an error on one path does not stop it. */
  method ResolveSet(fs: FileSystem, r: Resolution, mode: Mode, relPath: (Path, Path) -> Path)
    returns (outcomes: seq<Outcome>)
    modifies fs
    ensures fs.State() == Run(old(fs.State()), SetTasks(r), mode, fs.oracles, relPath).0
    ensures outcomes == Run(old(fs.State()), SetTasks(r), mode, fs.oracles, relPath).1
  {
    ghost var w0 := fs.State();
    var keepFile, removeFiles := r.keep, r.remove;
    outcomes := [];
    var j := 0;
    while j < |removeFiles|
      invariant 0 <= j <= |removeFiles|
      invariant fs.State() == Run(w0, SetTasks(Resolution(keepFile, removeFiles[..j])), mode, fs.oracles, relPath).0
      invariant outcomes == Run(w0, SetTasks(Resolution(keepFile, removeFiles[..j])), mode, fs.oracles, relPath).1
    {
      ghost var before := fs.State();
      var outcome := RemoveOne(fs, keepFile, removeFiles[j], mode, relPath);
      outcomes := outcomes + [outcome];
      SetTasksSnoc(keepFile, removeFiles, j);
      ghost var ts := SetTasks(Resolution(keepFile, removeFiles[..j + 1]));
      assert Run(w0, ts, mode, fs.oracles, relPath)
          == (Step(before, Task(keepFile, removeFiles[j]), mode, fs.oracles, relPath).0,
              Run(w0, ts[..j], mode, fs.oracles, relPath).1 + [outcome]);
      j := j + 1;
    }
    assert removeFiles[..j] == removeFiles;
  }

  /** Running the tasks of one more set continues from where the earlier sets left off. */
  lemma RunNextSet(w: World, keys: seq<Digest>, lists: map<Digest, seq<Path>>, strategy: string, i: nat,
                   mode: Mode, oracles: Oracles, relPath: (Path, Path) -> Path)
    requires forall h :: h in keys ==> h in lists && lists[h] != []
    requires i < |keys|
    ensures Run(w, Tasks(Plan(keys[..i + 1], lists, strategy)), mode, oracles, relPath).0
         == Run(Run(w, Tasks(Plan(keys[..i], lists, strategy)), mode, oracles, relPath).0,
                SetTasks(Resolve(lists[keys[i]], strategy)), mode, oracles, relPath).0
    ensures Run(w, Tasks(Plan(keys[..i + 1], lists, strategy)), mode, oracles, relPath).1
         == Run(w, Tasks(Plan(keys[..i], lists, strategy)), mode, oracles, relPath).1
            + Run(Run(w, Tasks(Plan(keys[..i], lists, strategy)), mode, oracles, relPath).0,
                  SetTasks(Resolve(lists[keys[i]], strategy)), mode, oracles, relPath).1
  {
    assert keys[..i + 1][..i] == keys[..i];
    var done, next := Tasks(Plan(keys[..i], lists, strategy)), SetTasks(Resolve(lists[keys[i]], strategy));
    assert Tasks(Plan(keys[..i + 1], lists, strategy)) == done + next;
    RunAppend(w, done, next, mode, oracles, relPath);
  }

  /** The outer loop over `duplicates.items()`: resolve each set by the
      strategy, then run the inner loop on it. */
  method ResolveSets(fs: FileSystem, keys: seq<Digest>, lists: map<Digest, seq<Path>>, strategy: string,
                     mode: Mode, relPath: (Path, Path) -> Path)
    returns (outcomes: seq<Outcome>)
    requires forall h :: h in keys ==> h in lists && lists[h] != []
    modifies fs
    ensures fs.State() == Run(old(fs.State()), Tasks(Plan(keys, lists, strategy)), mode, fs.oracles, relPath).0
    ensures outcomes == Run(old(fs.State()), Tasks(Plan(keys, lists, strategy)), mode, fs.oracles, relPath).1
  {
    ghost var w0 := fs.State();
    outcomes := [];
    var i := 0;
    while i < |keys|
      invariant 0 <= i <= |keys|
      invariant fs.State() == Run(w0, Tasks(Plan(keys[..i], lists, strategy)), mode, fs.oracles, relPath).0
      invariant outcomes == Run(w0, Tasks(Plan(keys[..i], lists, strategy)), mode, fs.oracles, relPath).1
    {
      var r := Resolve(lists[keys[i]], strategy);
      var more := ResolveSet(fs, r, mode, relPath);
      RunNextSet(w0, keys, lists, strategy, i, mode, fs.oracles, relPath);
      outcomes := outcomes + more;
      i := i + 1;
    }
    assert keys[..i] == keys;
  }

  /** `remove_duplicates(directory, dry_run, strategy, symlink, exclude_dirs)`:
      the world afterwards and the outcomes are those of running the tasks of
      the resolved duplicate sets one after another. */
  method RemoveDuplicates(fs: FileSystem, directory: Path, tree: Node, dryRun: bool, strategy: string,
                          symlink: bool, excludeDirs: Option<seq<string>>,
                          unreadable: Path -> bool, md5: Bytes -> Digest, relPath: (Path, Path) -> Path)
    returns (outcomes: seq<Outcome>)
    modifies fs
    ensures fs.State() == Run(old(fs.State()), Tasks(PlanOf(directory, tree, excludeDirs, unreadable, md5, strategy)),
                              Mode(dryRun, symlink), fs.oracles, relPath).0
    ensures outcomes == Run(old(fs.State()), Tasks(PlanOf(directory, tree, excludeDirs, unreadable, md5, strategy)),
                            Mode(dryRun, symlink), fs.oracles, relPath).1
  {
    var exclude := EffectiveExcludes(excludeDirs);
    var hashDict, _, _ := Scan(directory, tree, exclude, unreadable, md5);
    var duplicates := Duplicates(hashDict);
    if duplicates.keys == [] {
      // "No duplicate files found."
      return [];
    }
    outcomes := ResolveSets(fs, duplicates.keys, duplicates.lists, strategy, Mode(dryRun, symlink), relPath);
  }

  // ---------------------------------------------------------------------------
  // From the scan to the filesystem.

  /** Every path the plan keeps or removes was hashed by the scan, once per
      time it was visited; a file whose hashing raised is never kept, removed
      or replaced by a link. */
  lemma PlanUsesHashedPaths(directory: Path, tree: Node, excludeDirs: Option<seq<string>>,
                            unreadable: Path -> bool, md5: Bytes -> Digest, strategy: string)
    ensures multiset(PlanPaths(PlanOf(directory, tree, excludeDirs, unreadable, md5, strategy)))
         <= multiset(ReadablePaths(Visits(directory, tree, excludeDirs), unreadable))
    ensures forall p :: p in PlanPaths(PlanOf(directory, tree, excludeDirs, unreadable, md5, strategy)) ==> !unreadable(p)
  {
    var vs := Visits(directory, tree, excludeDirs);
    var g := Group(vs, unreadable, md5);
    var d := Duplicates(g);
    var plan := PlanOf(directory, tree, excludeDirs, unreadable, md5, strategy);
    PlanKeepsEveryPath(d.keys, d.lists, strategy);
    DuplicatesHoldGroupedPaths(g);
    GroupPartitionsReadable(vs, unreadable, md5);
    forall p | p in PlanPaths(plan) ensures !unreadable(p) {
      assert p in multiset(ReadablePaths(vs, unreadable));
      ReadablePathsAreReadable(vs, unreadable, p);
    }
  }

  /** A scan that reports each path once yields sets in which no path occurs twice. */
  lemma PlanIsDistinct(directory: Path, tree: Node, excludeDirs: Option<seq<string>>,
                       unreadable: Path -> bool, md5: Bytes -> Digest, strategy: string)
    requires Distinct(Paths(Visits(directory, tree, excludeDirs)))
    ensures Distinct(PlanPaths(PlanOf(directory, tree, excludeDirs, unreadable, md5, strategy)))
  {
    var vs := Visits(directory, tree, excludeDirs);
    PlanUsesHashedPaths(directory, tree, excludeDirs, unreadable, md5, strategy);
    ReadablePathsAreVisited(vs, unreadable);
    DistinctSub(PlanPaths(PlanOf(directory, tree, excludeDirs, unreadable, md5, strategy)), Paths(vs));
  }

  /** If no digest was seen twice, `remove_duplicates` returns before touching
      anything. */
  lemma NothingHappensWithoutDuplicates(directory: Path, tree: Node, excludeDirs: Option<seq<string>>,
                                        unreadable: Path -> bool, md5: Bytes -> Digest, strategy: string,
                                        w: World, mode: Mode, oracles: Oracles, relPath: (Path, Path) -> Path)
    requires forall h :: h in Group(Visits(directory, tree, excludeDirs), unreadable, md5).lists ==>
      |Group(Visits(directory, tree, excludeDirs), unreadable, md5).lists[h]| <= 1
    ensures Run(w, Tasks(PlanOf(directory, tree, excludeDirs, unreadable, md5, strategy)), mode, oracles, relPath) == (w, [])
  {
    DuplicatesCount(Group(Visits(directory, tree, excludeDirs), unreadable, md5));
  }

  /** On a well-formed tree, whatever the strategy, mode and refusals:
      no kept file is passed to `os.remove` and nothing at a kept path
      changes, and each outcome tells the truth about its path. */
  lemma RemoveDuplicatesIsSafe(directory: Path, tree: Node, excludeDirs: Option<seq<string>>,
                               unreadable: Path -> bool, md5: Bytes -> Digest, strategy: string,
                               w: World, mode: Mode, oracles: Oracles, relPath: (Path, Path) -> Path)
    requires WellFormedTree(tree)
    ensures forall t :: t in Tasks(PlanOf(directory, tree, excludeDirs, unreadable, md5, strategy)) ==>
      && t.keep !in RemovedPaths(NewCalls(w, Run(w, Tasks(PlanOf(directory, tree, excludeDirs, unreadable, md5, strategy)),
                                                 mode, oracles, relPath).0))
      && Unchanged(w.entries, Run(w, Tasks(PlanOf(directory, tree, excludeDirs, unreadable, md5, strategy)),
                                  mode, oracles, relPath).0.entries, t.keep)
    ensures forall k :: 0 <= k < |Tasks(PlanOf(directory, tree, excludeDirs, unreadable, md5, strategy))| ==>
      Settled(w.entries,
              Run(w, Tasks(PlanOf(directory, tree, excludeDirs, unreadable, md5, strategy)), mode, oracles, relPath).0.entries,
              Run(w, Tasks(PlanOf(directory, tree, excludeDirs, unreadable, md5, strategy)), mode, oracles, relPath).1[k],
              mode, oracles)
  {
    var plan := PlanOf(directory, tree, excludeDirs, unreadable, md5, strategy);
    WalkTreePathsUnique(directory, tree, EffectiveExcludes(excludeDirs));
    PlanIsDistinct(directory, tree, excludeDirs, unreadable, md5, strategy);
    KeptFilesSurvive(w, plan, mode, oracles, relPath);
    KeepsAreNotTargets(plan);
    EveryPathSettles(w, Tasks(plan), mode, oracles, relPath);
  }
}
