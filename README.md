# Duplicate-file finder and remover, modelled in Dafny

The repository has two small scripts:

- `find_duplicates` walks a directory tree, hashes every file with MD5 in
  4096-byte chunks, and groups paths by digest in a `defaultdict(list)`.
  It reports each digest seen more than once as a duplicate set. It also
  prints the files it could not read and the number it hashed.
- `remove_duplicates` runs the same scan and resolves each duplicate set into
  one kept path and the paths to remove. The strategy is `keep_first`, or
  `keep_shortest_path`, a stable sort by path length. In live mode it calls
  `os.remove` on each path to remove. With `--symlink` it then puts a
  relative symbolic link to the kept file in its place. An `OSError` on one
  path is reported and the loop goes on with the next path.

The model follows the scripts' own structure:

| module | models |
|---|---|
| `FileTree` (`file_tree.dfy`) | the directory tree as a value. `os.walk` top-down, with `dirs[:]` pruned in place, is a function. Lemmas cover what pruning does. |
| `UniquePaths` (`unique_paths.dfy`) | on a tree whose entry names are real names (non-empty, no `/`, unique within a directory), the walk reports no path twice |
| `Hasher` (`hasher.dfy`) | `get_file_hash`, as a method with the chunked read loop |
| `Grouping` (`grouping.dfy`) | `hash_dict` as a dictionary with insertion-ordered keys. Its state after the scan is a fold over the visited files. Also the `len(paths) > 1` filter, and lemmas relating both to an independent reference definition. |
| `Scanner` (`scanner.dfy`) | the exclusion lists, and the scan loop as a method over a stack of directories still to list. `find_duplicates` and its report. |
| `Resolution` (`resolution.dfy`) | the two strategies, with the stable sort by length as a pure function |
| `Executor` (`executor.dfy`) | the filesystem as a `class` whose `Remove` / `Symlink` methods update a map of entries and a log of calls. The per-file step and the loops are specified by functions, and `remove_duplicates` is proved against them. |

Some things the scripts depend on are parameters of the model:

- **`md5`**: a function from bytes to a digest string. It stands for MD5 itself.
- **`unreadable`**: a predicate on paths, true where opening or reading a file raises.
- **`removeDenied` / `linkDenied`**: predicates on paths, true where the operating system refuses a call for a reason the entries do not show (permissions, a read-only mount).
- **`relPath`**: a function of the kept path and the removed path. It stands for `os.path.relpath(keep_file, os.path.dirname(remove_file))`.

The main results:

- **Pruning.** The walk with exclusions equals the walk of the tree with every excluded sub-directory deleted at every depth. Nothing beneath an excluded directory is reported, whatever it contains.
- **Grouping.** After the scan, the list under a digest is exactly the successfully hashed paths whose content has that digest, in visit order. The lists together hold each hashed path exactly as often as it was hashed, and `file_count` is their total length. On a well-formed tree that is once per path (`UniquePaths.WalkTreePathsUnique`).
- **Strategy.** The kept path and the removed paths are a permutation of the set. `keep_first` keeps the first discovered path. `keep_shortest_path` keeps a path of minimal length, the first discovered among those of that length.
- **Execution.** A dry run changes nothing and makes no call. Nothing changes outside the paths to remove. In live mode `os.remove` is called on exactly those paths, in order, and `os.symlink` only right after a successful removal of the same path.
- **Safety.** On a well-formed tree, which holds no symbolic links, no kept file is ever passed to `os.remove`, and nothing at a kept path changes. Every reported outcome matches what the filesystem allowed and what is at the path afterwards.

## Model

| member | source | states |
|---|---|---|
| FileTree.Join | scripts/find_duplicates.py:30 | definition of `os.path.join(root, filename)`: a separator is added unless the directory is empty or already ends in one; `JoinShape` states its shape |
| FileTree.JoinShape | scripts/find_duplicates.py:30 | the joined path starts with the directory, ends with the name, and has a `/` right before the name unless the directory is empty; it is at most one character longer than the two together |
| FileTree.Prune | scripts/find_duplicates.py:27 | the pruned sub-directory list is no larger than the original; `PruneKeeps` states its members, their multiplicity and their order |
| FileTree.PruneKeeps | scripts/find_duplicates.py:27 | `dirs[:]` keeps exactly the sub-directories whose name is not excluded, each as often as the listing holds it, drops the rest, and, for a listing without repeated entries (as every real directory listing is), keeps the listing order |
| FileTree.Walk | scripts/find_duplicates.py:25 | definition of `os.walk`'s top-down order: the files of a directory in listing order, then the walk of each sub-directory left after pruning, in order; `WalkCount`, `WalkIsWalkOfPrunedTree` and `UniquePaths.WalkPathsUnique` state its properties |
| FileTree.WalkDirs | scripts/find_duplicates.py:25 | definition of the descent into the sub-directories that survive pruning, one after another; `WalkDirsCount` and `UniquePaths.WalkDirsPathsUnique` state its properties |
| FileTree.WalkCount | scripts/find_duplicates.py:25-30 | with nothing excluded, the walk reports as many files as the tree holds at every depth |
| FileTree.WalkDirsCount | scripts/find_duplicates.py:25-30 | the walks of a list of sub-directories report as many files as those sub-directories hold |
| FileTree.WalkTreeCount | scripts/find_duplicates.py:25-30 | `os.walk` on a root that is a file yields nothing; on a directory it yields one visit per file left in the tree after pruning |
| FileTree.WalkIsWalkOfPrunedTree | scripts/find_duplicates.py:25-27 | the walk with an exclusion list reports exactly what the walk without exclusions reports on the tree whose excluded sub-directories, at any depth, have been deleted |
| FileTree.PruneTreeIsExcludedFree | scripts/find_duplicates.py:27 | the tree the walk effectively visits contains no directory with an excluded name at any depth |
| FileTree.ExcludedContentsAreIgnored | scripts/find_duplicates.py:25-27 | replacing the contents of an excluded sub-directory by anything at all leaves the walk's files, paths and order unchanged |
| UniquePaths.WalkPathsUnique | scripts/find_duplicates.py:25-30 | on well-formed entries the walk of a directory reports no path twice, and every path it reports lies below that directory under one of its entries' names |
| UniquePaths.WalkTreePathsUnique | scripts/find_duplicates.py:25-30 | `os.walk` over a well-formed tree reports each path at most once, whatever the exclusion list |
| Hasher.Read | scripts/find_duplicates.py:11 | `f.read(4096)` returns the next min(4096, remaining) bytes of the file, starting at the read position |
| Hasher.GetFileHash | scripts/find_duplicates.py:7-13 | if opening or reading the file raises, the result is an access error for that path; otherwise it is the digest of the whole content, fed in non-empty chunks that concatenate to the content, each of 4096 bytes except the last |
| Grouping.Append | scripts/find_duplicates.py:33 | `hash_dict[h].append(p)`: the list under `h` gets `p` at its end, and is created when the key is new; a new key goes after the existing keys, and the key order is otherwise unchanged; every other list is untouched; the dictionary stays well formed |
| Grouping.Group | scripts/find_duplicates.py:20-36 | the dictionary the scan builds has each key once, and its keys and lists agree; no list is empty |
| Grouping.GroupIsExact | scripts/find_duplicates.py:29-36 | a digest is a key exactly when some successfully hashed file has it, and its list is exactly those files' paths in visit order, as given by an independent filter |
| Grouping.MatchingMembers | scripts/find_duplicates.py:29-33 | a path is in the reference list for `h` if and only if some visit with that path was hashed successfully to `h` |
| Grouping.SameContentSameList | scripts/find_duplicates.py:29-33 | two successfully hashed files with equal contents end up in the same list |
| Grouping.ListMembersHashTo | scripts/find_duplicates.py:29-33 | every path in the list for `h` was visited and hashed successfully, and its content hashes to `h` |
| Grouping.AppendAddsOne | scripts/find_duplicates.py:33 | one append adds exactly its path to the dictionary's contents |
| Grouping.GroupPartitionsReadable | scripts/find_duplicates.py:29-36 | the lists together hold each successfully hashed path exactly as often as it was hashed; their total length is the number hashed |
| Grouping.ReadablePathsAreVisited | scripts/find_duplicates.py:29-36 | the hashed paths are among the visited paths |
| Grouping.ReadablePathsAreReadable | scripts/find_duplicates.py:31-36 | a path the scan hashed is one whose hashing does not raise |
| Grouping.DuplicateKeys | scripts/find_duplicates.py:39 | a digest is kept if and only if it is a key whose list holds more than one path; no kept key occurs more often than among the keys; any two kept keys are in the same order as among the keys |
| Grouping.Duplicates | scripts/find_duplicates.py:39 | the duplicate sets are exactly the keys with more than one path, with their lists unchanged, in the order of `hash_dict`'s keys |
| Grouping.EveryVisitIsHashedOrReported | scripts/find_duplicates.py:29-36 | every visited path is either hashed or reported as an access error, never both |
| Grouping.DuplicatesHoldGroupedPaths | scripts/find_duplicates.py:39 | the duplicate sets hold no path that `hash_dict` did not hold |
| Grouping.DuplicatesCount | scripts/find_duplicates.py:39-47 | there is one duplicate set per kept key, and there are none exactly when no list holds two paths |
| Scanner.EffectiveExcludes | scripts/find_duplicates.py:17-18 | a missing exclusion list means the three defaults; a given list, even an empty one, is used as is |
| Scanner.CommandLineExcludes | scripts/find_duplicates.py:61-63 | the command line excludes the three defaults, in order, plus every `--exclude` name, and nothing else |
| Scanner.DescendWalks | scripts/find_duplicates.py:25-27 | pushing the remaining sub-directories of a directory onto the stack of directories to list continues the walk in `os.walk`'s top-down order |
| Scanner.HashOne | scripts/find_duplicates.py:30-36 | after one file, `hash_dict`, `file_count` and the error paths are those of the scan over the files so far plus that file: appended and counted when hashing succeeds, noted as an error when it raises |
| Scanner.HashListing | scripts/find_duplicates.py:29-36 | after the files of one directory, `hash_dict`, `file_count` and the error paths are those of the scan over everything visited so far plus those files |
| Scanner.Scan | scripts/find_duplicates.py:25-36 | after the walk, `hash_dict` is the grouping of the walked files, `file_count` is the number hashed and the errors are the unreadable paths in visit order |
| Scanner.FindDuplicates | scripts/find_duplicates.py:15-53 | the report is the one for the files the walk visits under the effective exclusion list: their unreadable paths, the number hashed, and the duplicate sets of their grouping |
| Scanner.SetsOf | scripts/find_duplicates.py:49-52 | one printed set per key of the duplicates dictionary, in key order, each with its digest and its full list |
| Scanner.ReportOf | scripts/find_duplicates.py:29-53 | the printed report: every visited file is either counted in "Scanned N files" or printed as an access error |
| Scanner.ReportCountsGroupedPaths | scripts/find_duplicates.py:33-41 | the "Scanned N files" count is the total number of paths `hash_dict` holds |
| Scanner.ReportListsDuplicates | scripts/find_duplicates.py:39-53 | the printed sets are, in key order, exactly the lists of `hash_dict` with more than one path, each in full; "No duplicate files found." is printed exactly when no digest was seen twice |
| Resolution.SortByLength | scripts/remove_duplicates.py:45 | the sorted list is a permutation of the set, shortest path first |
| Resolution.SortIsStable | scripts/remove_duplicates.py:45 | the sort is stable: the paths of any one length keep their discovery order |
| Resolution.Ordered | scripts/remove_duplicates.py:44-45 | the list after the strategy's ordering is a permutation of the set; under `keep_shortest_path` it is sorted by length, under any other strategy it is the list as discovered |
| Resolution.Resolve | scripts/remove_duplicates.py:44-49 | kept path plus removed paths is a permutation of the set, one path fewer removed than the set holds; under any strategy but `keep_shortest_path` the first path is kept and the rest removed in order; under `keep_shortest_path` the result is ordered by length |
| Resolution.ShortestPathIsKept | scripts/remove_duplicates.py:44-48 | under `keep_shortest_path` the kept path is a member, no longer than any other member, and no member discovered before it is as short |
| Executor.FileSystem.Remove | scripts/remove_duplicates.py:62 | `os.remove` succeeds exactly when a non-directory entry is at the path and the system allows it; it removes just that entry and logs the call |
| Executor.FileSystem.Symlink | scripts/remove_duplicates.py:69 | `os.symlink` succeeds exactly when nothing is at the path and the system allows it; it adds just that link and logs the call |
| Executor.Step | scripts/remove_duplicates.py:54-72 | one pass of the inner loop produces one outcome, for its own path, and only appends to the call log |
| Executor.StepSettles | scripts/remove_duplicates.py:55-72 | one step changes nothing but its own path. Its outcome gives the mode, the filesystem's answer and the entry left at the path (removed, or the link to `relPath(keep, path)`). A dry run changes nothing. |
| Executor.StepCalls | scripts/remove_duplicates.py:55-70 | one step calls `os.remove` on its path only in live mode, and `os.symlink` only with the flag set and right after a successful `os.remove` of the same path |
| Executor.RemoveOne | scripts/remove_duplicates.py:55-72 | the method's new filesystem state and outcome are those of the step function |
| Executor.Run | scripts/remove_duplicates.py:54-72 | the loop over the paths to remove gives one outcome per path, in order, and only appends to the call log: no failure stops it |
| Executor.DryRunChangesNothing | scripts/remove_duplicates.py:55-59 | in dry-run mode the filesystem and the call log stay as they were, and every path gets a "would remove" outcome carrying the symlink flag |
| Executor.OnlyTargetsChange | scripts/remove_duplicates.py:54-72 | nothing changes at a path that is not one of the paths to remove |
| Executor.RemoveCallsOfRun | scripts/remove_duplicates.py:54-62 | `os.remove` is called on exactly the paths to remove, in order, in live mode, and never in dry-run mode |
| Executor.LinkCallsOfRun | scripts/remove_duplicates.py:61-70 | every `os.symlink` call is made with the symlink flag set, right after a successful `os.remove` of the same path |
| Executor.EveryPathSettles | scripts/remove_duplicates.py:61-72 | when no path is to be removed twice, every outcome is true of the filesystem before the loop and after it |
| Executor.ResolveSet | scripts/remove_duplicates.py:54-72 | the method's new filesystem state and outcomes are those of the loop function over the set's paths to remove |
| Executor.Plan | scripts/remove_duplicates.py:42-49 | one resolution per duplicate set, in key order, each the strategy's resolution of that set's list |
| Executor.PlanKeepsEveryPath | scripts/remove_duplicates.py:42-49 | the resolutions together hold exactly the paths of the duplicate sets |
| Executor.PlanSplits | scripts/remove_duplicates.py:48-49 | the plan's paths are the kept paths plus the paths to remove |
| Executor.KeepsAreNotTargets | scripts/remove_duplicates.py:48-49 | when no path occurs twice among the sets, no path is to be removed twice and no kept path is a path to remove |
| Executor.KeptFilesSurvive | scripts/remove_duplicates.py:48-62 | when no path occurs twice among the sets, no kept path is ever passed to `os.remove` and nothing at a kept path changes |
| Executor.RunNextSet | scripts/remove_duplicates.py:42-54 | handling one more duplicate set continues the loop from the filesystem and outcomes the earlier sets left |
| Executor.ResolveSets | scripts/remove_duplicates.py:42-72 | the outer loop leaves the filesystem and outcomes of running every set's paths to remove, set after set |
| Executor.DuplicatesResolve | scripts/remove_duplicates.py:35-49 | every duplicate set holds at least two paths, so its resolution removes at least one |
| Executor.PlanOf | scripts/remove_duplicates.py:19-49 | one resolution per duplicate set of the scan, in key order, each the strategy's resolution of that set's list and each removing at least one path |
| Executor.RemoveDuplicates | scripts/remove_duplicates.py:8-72 | the filesystem and outcomes are those of running the plan of the scan's duplicate sets under the given mode; with no duplicates, nothing is done |
| Executor.PlanUsesHashedPaths | scripts/remove_duplicates.py:26-49 | every path the plan keeps or removes was hashed successfully by the scan, no more often than it was visited |
| Executor.PlanIsDistinct | scripts/remove_duplicates.py:22-49 | if the walk reports each path once, no path occurs twice among the resolved sets |
| Executor.NothingHappensWithoutDuplicates | scripts/remove_duplicates.py:35-39 | when no digest was seen twice there is nothing to run: no outcome, no call, no change |
| Executor.RemoveDuplicatesIsSafe | scripts/remove_duplicates.py:8-72 | on a well-formed tree, under any strategy, mode and refusals, no kept path is passed to `os.remove`, nothing at a kept path changes, and every outcome is true of the filesystem |

## Left out

- MD5 is the parameter `md5`. Collisions are therefore not excluded: the model groups by digest, as the scripts do, not by content.
- The operating system's refusals are the parameters `unreadable`, `removeDenied` and `linkDenied`.
- Printing, message formatting and `argparse` are left out. `FindDuplicates` returns the printed facts as a `ScanReport`, and each `Outcome` names the message printed for one path.
- The order in which a directory lists its entries is filesystem-dependent. The model takes it as the order of a directory's `children`.
- The walked tree is a value, with no symbolic links in it. `os.walk` does not follow links to directories by default. It does list a link to a file among `files`, and `get_file_hash` then hashes the target's content. A link and its target can therefore land in the same duplicate set. Under `keep_shortest_path` the shorter link can be kept while its target is passed to `os.remove`, which leaves the kept link dangling. The model cannot express this case, and the Safety result does not cover trees that contain links.
- The tree holds only regular files and directories. `os.walk` puts every entry that is not a directory among `files`, so FIFOs, sockets and device nodes reach `get_file_hash` too. On a FIFO without a writer, `open` blocks forever; on an endless device such as `/dev/zero`, the read loop never ends, and neither script returns from its scan. A socket makes `open` raise, which the `unreadable` parameter covers. In the model every file has finite content, so `Hasher.GetFileHash` and `Scanner.Scan` always terminate.
- A directory `os.walk` cannot list is skipped silently by `os.walk`. The model has no such directory.
- A file changing between the walk and its hashing is not modelled. Each visited file has one fixed content.
- Executor: the filesystem that `remove_duplicates` changes is a map separate from the scanned tree. The execution lemmas hold for any map, so they also hold when files changed after the scan.
- Executor.Step: `os.path.relpath(keep_file, os.path.dirname(remove_file))` is the parameter `relPath`. It cannot fail in the model. In the source a `ValueError` from `relpath` (possible only on Windows, for different drives) would not be caught.
- Resolution.SortByLength: `paths.sort` sorts in place the list that `duplicates` and `hash_dict` share. Neither `hash_dict` nor `duplicates` is read again after the sort; only `paths[0]` and `paths[1:]` (scripts/remove_duplicates.py:48-49) read the sorted list. The model sorts a copy, as a pure function, and its `Resolve` reads that sorted copy.
- Executor.KeptFilesSurvive: needs that no path occurs twice among the sets. `Executor.RemoveDuplicatesIsSafe` discharges this for trees whose names are non-empty, contain no `/` and are unique within each directory. A tree that breaks these rules cannot come from a real filesystem.
- The `remove_duplicates` function defaults to `keep_first`, while its command line defaults to `keep_shortest_path`. Defaults are the caller's choice in the model: `strategy`, `dry_run` (default `True`, scripts/remove_duplicates.py:8) and `symlink` (default `False`) are always passed explicitly. Any strategy string other than `keep_shortest_path` behaves like `keep_first`, as in the source.
- `Scanner.CommandLineExcludes` is also the `remove_duplicates` command line's list (scripts/remove_duplicates.py:85-87), which is built in the same way.
- Executor.RemoveDuplicates: the scan of `remove_duplicates` (scripts/remove_duplicates.py:22-32) skips unreadable files silently. The model reuses `Scanner.Scan`, which also counts files and collects error paths; `remove_duplicates` does not use those results.
- When `os.symlink` fails after a successful removal, the source prints "Error removing" for the path, although the removal succeeded. The model records this as the `LinkFailed` outcome, with the path removed and no link in its place.
