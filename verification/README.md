# node-pushpath orphan tracker and chunker, in Dafny

This project models the core of `src/index.ts` in the `node-pushpath` uploader. Two parts are modelled.

`chunkBuffer` cuts a file's bytes into consecutive 1 MiB slices for the streamed upload.
- `chunking.dfy` holds the method `Chunking.ChunkBuffer`.
- It has the same `while` loop as the source, and its loop invariants prove the round trip and the chunk sizes.

`BucketTree` is the orphan tracker. It holds a snapshot of the remote bucket as two lists of paths: `folders` and `leafs` (files).
- `remove(path)` is called for every local file. When the file is a known leaf, it strikes the file off the leafs and each of its ancestor folders off the folders. A file that is not a known leaf changes nothing (see "## Findings").
- `getDeletes()` then collapses what is left into the list of paths to delete.

The tracker is modelled as the class `BucketTrees.BucketTree` in `bucket_tree.dfy`.
- Its fields are `seq<string>` values that the methods reassign, where the source splices arrays in place.
- Each method is proved against a function on the `Snapshot` value (`AfterRemove`, `Deletes`), and the properties of those functions are proved as lemmas.

Two aliasing details of `getDeletes` are modelled as the source has them:
- `sorted` is the same array as `this.folders`, so the loop reads `folders[i]` of the list that shrinks while it runs.
- The loop bound is the folder count taken before the loop. Iterations past the end read `undefined`, and `!folder` skips them, as it skips an empty folder name.

The loop invariant `CollapsedUpTo` shows that this fixed single pass over a shrinking list visits every surviving folder. The pass ends at exactly the outermost folders of the snapshot, with nothing under-visited.

Supporting modules:
- `seqs.dfy` has the array operations used: `indexOf`, a one-element `splice` and the stable sort by length.
- `paths.dfy` has the path operations:
  - the regular-expression replace that drops the last segment;
  - the chain of ancestors that `remove` walks;
  - the "lies inside a folder" filter `startsWith(folder + "/")`.
- `reconcile.dfy` models the part of `execute` that calls `remove` for every local file and then `getDeletes`. It proves exactly which entries the run strikes off and what its deletion list covers.
- `scenarios.dfy` calls the class on small snapshots and proves the results.

In a snapshot that lists each folder once, a folder above a file that was already a remote leaf is struck off by `remove` and never returned, even when its other files are. For a file new to the remote side this does not hold (see "## Findings").
- Take folder `/dir`, leafs `/dir/keep.txt`, `/dir/drop.txt` and `/top.txt`, and call only `remove("/dir/keep.txt")`.
- `remove` also strikes off `/dir`, because it is a folder of the kept file.
- `getDeletes()` therefore returns `["/dir/drop.txt", "/top.txt"]`: the sibling file one by one, and not its folder (`Scenarios.SiblingOfKeptLeaf`).

## Model

| member | source | states |
|---|---|---|
| `Chunking.ChunkBuffer` | src/index.ts:24-33 | the chunks concatenated in order give back the content; every chunk but the last is exactly 1 MiB; every chunk is non-empty and at most 1 MiB; there are ceil(len / 1 MiB) chunks; empty content gives no chunk |
| `Seqs.IndexOf` | src/index.ts:43 | `indexOf`: -1 exactly when the element is absent; otherwise a position that holds it, with no earlier position holding it |
| `Seqs.RemoveFirstIsSplice` | src/index.ts:42-48 | splicing one element out at the `indexOf` position is removing the first occurrence; when the index is -1 the list is unchanged |
| `Seqs.RemoveFirstMultiset` | src/index.ts:44-46 | the splice takes away exactly one copy of the element, and only when one is there; it adds nothing |
| `Seqs.RemoveFirstNoDup` | src/index.ts:50-56 | on a list without duplicates the splice removes the element altogether and keeps the list duplicate-free |
| `Seqs.RemoveEachNoDup` | src/index.ts:63-67 | on a duplicate-free list, removing each folder in turn leaves exactly the entries that are not among them |
| `Seqs.RemoveEachKeeps` | src/index.ts:63-67 | an entry not among the removed folders survives, even with duplicates |
| `Seqs.Insert` | src/index.ts:73 | inserting into a length-sorted list keeps it sorted and adds exactly that one element |
| `Seqs.SortByLength` | src/index.ts:73 | the sort by `a.length - b.length` orders by length and is a permutation of the folders |
| `Seqs.InsertOfLength` | src/index.ts:73 | inserting an entry puts it in front of every entry of its own length and leaves their order alone |
| `Seqs.SortStable` | src/index.ts:73 | the sort is stable: for every length, the entries of that length keep their listing order |
| `Paths.LastSlash` | src/index.ts:62 | the position of the last '/', or -1; no '/' follows it |
| `Paths.StripLast` | src/index.ts:62-66 | `replace(/\/[^\/]+$/, '')` gives a prefix; when it changes the path, it cuts at a '/' followed by a non-empty final segment; when it does not, the path is empty, ends in '/' or has no '/' |
| `Paths.StripWellFormed` | src/index.ts:63-67 | on a well-formed path the replace strictly shortens it and leaves "" or a well-formed path, so the ancestor loop ends |
| `Paths.StripStallsOnTrailingSlash` | src/index.ts:63-67 | on a path ending in '/' the replace changes nothing, so the loop would not end |
| `Paths.ChainMembers` | src/index.ts:62-67 | the folders the loop visits from `f` are `f` and the non-empty folder prefixes of `f` |
| `Paths.AncestorsAreProperPrefixes` | src/index.ts:61-67 | the folders `remove` strikes off for a leaf are exactly its non-empty proper folder prefixes |
| `Paths.InFolderTransitive` | src/index.ts:80 | `startsWith(folder + "/")` nests: inside `a`, and `a` inside `b`, means inside `b` |
| `Paths.InFolderLonger` | src/index.ts:80 | whatever starts with `folder + "/"` is longer than the folder |
| `Paths.KeepOutsideMembers` | src/index.ts:74-91 | collapsing keeps exactly the entries that lie inside no non-empty folder of the roots |
| `Paths.KeepOutsideTwice` | src/index.ts:74-91 | collapsing under one list of folders and then another is collapsing under both |
| `Paths.KeepOutsideSorted` | src/index.ts:73-91 | collapsing keeps a length order |
| `Paths.Descendants` | src/index.ts:78-83 | the collected entries are exactly those that start with `folder + "/"` |
| `Paths.DropFirstDescendant` | src/index.ts:84 | removing the first collected entry leaves the collapse unchanged and shortens the collection by its head |
| `BucketTrees.AfterRemove` | src/index.ts:58-69 | the snapshot after `remove` of an absolute path: its leafs stay well-formed and both lists only lose entries (what exactly they lose is stated by `RemoveKnownLeafMembers` and `Reconcile.RemoveAllKeeps`) |
| `BucketTrees.RemoveIdempotent` | src/index.ts:58-61 | with no duplicate leafs, `remove(p)` twice is `remove(p)` once |
| `BucketTrees.RemoveKnownLeafMembers` | src/index.ts:58-69 | without duplicates, `remove` of a known leaf takes out exactly that leaf and exactly its ancestor folders |
| `BucketTrees.AfterMarkPresent` | src/index.ts:58-69 | the corrected strike-off keeps every leaf well-formed and only takes entries away |
| `BucketTrees.DeletesFromSnapshot` | src/index.ts:72-97 | a leaf is in the leaf part of the result exactly when it is a snapshot leaf inside no folder; a folder is in the folder part exactly when it is a snapshot folder inside no other |
| `BucketTrees.OutermostFoldersSorted` | src/index.ts:73-97 | the returned folders come shortest first |
| `BucketTrees.DeletesMinimal` | src/index.ts:74-91 | nothing returned lies inside a returned non-empty folder (an empty folder name is skipped by `!folder`) |
| `BucketTrees.LiftToOutermost` | src/index.ts:74-91 | whatever lies inside a snapshot folder lies inside a returned folder |
| `BucketTrees.DeletesLoseNothing` | src/index.ts:74-91 | every snapshot folder and leaf is returned or lies inside a returned folder |
| `BucketTrees.DeletesCover` | src/index.ts:71-98 | deleting the result recursively removes exactly the snapshot's entries and what lies inside its folders, provided no leaf has anything inside it |
| `BucketTrees.CollapseStep` | src/index.ts:74-91 | visiting a folder keeps the entries at and before it, which are no longer than it; what remains is the collapse under one more folder |
| `BucketTrees.VisitFolder` | src/index.ts:75-91 | visiting a non-empty folder at index i keeps the pass invariant for i + 1 |
| `BucketTrees.VisitSkip` | src/index.ts:75-76 | an index past the end, or an empty name, keeps the pass invariant for i + 1 |
| `BucketTrees.CollapseFixedPoint` | src/index.ts:72-97 | once the folders are their own collapse, they cover what the snapshot's folders cover |
| `BucketTrees.CollapseDone` | src/index.ts:72-97 | after the original folder count of visits, the folders are the outermost ones and the leafs are those inside no folder |
| `BucketTrees.CollectInside` | src/index.ts:78-83 | the `for (const look of …)` loop collects, in order, exactly the entries that start with `folder + "/"` |
| `BucketTrees.BucketTree.constructor` | src/index.ts:40 | the tracker holds the given folders and leafs |
| `BucketTrees.BucketTree.RemoveFolder` | src/index.ts:42-48 | returns `indexOf`; the folders lose their first occurrence of the name, and nothing else changes |
| `BucketTrees.BucketTree.RemoveLeaf` | src/index.ts:50-56 | returns `indexOf`; the leafs lose their first occurrence of the path, and nothing else changes |
| `BucketTrees.BucketTree.RemoveAncestors` | src/index.ts:62-67 | the loop strikes the first occurrence of each ancestor folder off the folders, deepest first; leafs unchanged |
| `BucketTrees.BucketTree.Remove` | src/index.ts:58-69 | a path not starting with '/' (including "") fails with "Unsupported path" and changes nothing; an unknown path changes nothing; otherwise the new state is `AfterRemove` |
| `BucketTrees.BucketTree.MarkPresent` | src/index.ts:58-69 | the corrected `remove`: the leaf and every ancestor folder are struck off, known leaf or not |
| `BucketTrees.BucketTree.DropFolders` | src/index.ts:84 | removing each collected folder gives the folders collapsed under the visited folder |
| `BucketTrees.BucketTree.DropLeafs` | src/index.ts:91 | removing each collected leaf gives the leafs collapsed under the visited folder |
| `BucketTrees.BucketTree.GetDeletes` | src/index.ts:71-98 | the folders become the outermost folders, shortest first; the leafs become those inside no folder; the result is leafs then folders, equal to `Deletes` of the old snapshot; leafs stay well-formed |
| `Reconcile.RemoveAll` | src/index.ts:234-237 | `remove` of every local file, each given as an absolute path `/${file}`, keeps leafs well-formed and only takes entries away |
| `Reconcile.MarkAllPresent` | src/index.ts:234-237 | the corrected strike-off of every local file keeps leafs well-formed and only takes entries away |
| `Reconcile.MarkAllPresentMembers` | src/index.ts:58-69 | without duplicates, the corrected run leaves exactly the folders that are no ancestor of a local file and the leafs that are no local file |
| `Reconcile.CorrectedKeepsLocalFiles` | src/index.ts:234-258 | after the corrected run, no local file is deleted, neither directly nor by deleting its folder |
| `Reconcile.CorrectedDeletesOrphans` | src/index.ts:234-258 | after the corrected run, every remote entry that is no local file and no folder of one is deleted |
| `Reconcile.AsWrittenMembers` | src/index.ts:58-69 | without duplicates, the run as written leaves exactly the leafs that are no local file, and exactly the folders that are no ancestor of a local file that was already a remote leaf; a new local file strikes off no folder |
| `Reconcile.RemoveAllKeeps` | src/index.ts:58-69 | the run as written never strikes off a leaf that is no local file or a folder that is no ancestor of one |
| `Reconcile.AsWrittenDeletesOrphans` | src/index.ts:234-258 | the run as written still deletes every orphan, directly or by its folder |
| `Reconcile.RunsAgreeOnKnownLeafs` | src/index.ts:60-67 | with no duplicate leafs and no duplicate local files, when every local file is a known leaf, the run as written and the corrected run agree |
| `Reconcile.AsWrittenKeepsKnownFiles` | src/index.ts:234-258 | when every local file is a known leaf, the run as written deletes no local file |
| `Reconcile.UnknownLeafIsDeleted` | src/index.ts:60-61 | with remote `/d/old.txt` and local `/d/new.txt`, `remove` leaves `/d` in place, and the result `["/d"]` deletes the new file |
| `Reconcile.CorrectedSparesNewFile` | src/index.ts:58-69 | on the same input the corrected run deletes only `/d/old.txt` |
| `Scenarios.NestedLeafKept` | src/index.ts:58-98 | folders `/a`, `/a/b`, leafs `/a/b/c.txt`, `/x.txt`: `remove("x.txt")` fails; after `remove("/a/b/c.txt")` the result is `["/x.txt"]` |
| `Scenarios.SiblingOfKeptLeaf` | src/index.ts:58-98 | folder `/dir` with `/dir/keep.txt`, `/dir/drop.txt` and `/top.txt`: after `remove("/dir/keep.txt")` the result is `["/dir/drop.txt", "/top.txt"]` |
| `Scenarios.NestedFolderCollapsed` | src/index.ts:71-98 | folders `/a/b`, `/a`, `/c` with leafs `/a/b/x`, `/c/y`, `/z`: after `remove("/c/y")` the result is `["/z", "/a"]` |

## Left out

- `execute` is not modelled beyond its `remove` loop and `getDeletes` call (src/index.ts:234-237, 256). Left out:
  - sessions, bucket list/create/remove, `bucketsPushPath` and `bucketsRemovePath`;
  - the threading of the consistency token between uploads;
  - the credential, thread and name checks.

  These are calls into the gRPC client libraries, which are not part of this model.
- `getNextNode` and `getTree` (remote directory listing), `makeid` (randomness), globbing, `readFile`, `run()` and the `console.log` output: these are I/O. The snapshot they produce is the constructor's input.
- `BucketTrees.BucketTree.Remove` has the precondition `Valid()`: every known leaf must be well-formed (leading '/', no empty segment, no trailing '/'), as the listing builds paths at src/index.ts:109-111. The source accepts any leaf, but on a known leaf that ends in '/' its loop never ends (`Paths.StripStallsOnTrailingSlash`). The constructor requires the same of its leafs.
- `BucketTrees.BucketTree.constructor`: the default arguments `= []` are not modelled; callers pass both lists.
- A thrown `Error('Unsupported path')` is modelled as the returned value `Fail("Unsupported path")`.
- `Reconcile.RemoveAll` requires every local path to start with '/'. `execute` passes `/${file}` (src/index.ts:236), and `remove` would throw on any other path (src/index.ts:59).
- String lengths are counted in Dafny characters. The comparator's `a.length` counts UTF-16 code units, so the two differ only for characters outside the Basic Multilingual Plane.
- The sort is an insertion sort by length, proved stable (`Seqs.SortStable`). JavaScript engines sort stably, so folders of equal length keep their listing order, as in the model.
- The dead `reindex` branch (src/index.ts:92-95) is not modelled, since `reindex` is the constant `false`.
- `BucketTrees.DeletesCover` assumes that nothing lies inside a remote file: no path it is asked about starts with `leaf + "/"`. `getTree` lists only the entries of folders (src/index.ts:107-111, 126-131), so a snapshot it builds holds nothing under a file's path; the lemma states this as its precondition.
- `Reconcile.CorrectedKeepsLocalFiles` and `Reconcile.AsWrittenKeepsKnownFiles` make five assumptions about the snapshot and the local files:
  - the snapshot has no duplicate entries;
  - the local paths are well-formed, as `/${file}` is for a globbed file (`CorrectedKeepsLocalFiles`; in `AsWrittenKeepsKnownFiles` they are known leafs, hence well-formed);
  - the local paths are distinct, as glob output is (`AsWrittenKeepsKnownFiles`);
  - a local file is not a remote folder;
  - no local file lies inside a remote file: no local path starts with `leaf + "/"`.
- Byte buffers are `seq<Byte>`, and `Buffer.slice` clipping at the end is modelled explicitly. Sharing memory between the slices and the buffer is not modelled.

## Findings

| source | as written | input that shows it | evidently intended | confidence | as-written member | corrected member |
|---|---|---|---|---|---|---|
| src/index.ts:60-61 | `remove(p)` strikes off the ancestor folders of `p` only when `p` was already a remote leaf | remote folder `/d` holds only `/d/old.txt`; the local tree holds only `/d/new.txt`; `getDeletes()` returns `["/d"]`, and deleting `/d` after the upload deletes the new file | every folder of a local file is kept, whether or not the file existed remotely, so that the cleanup deletes only paths absent from the local tree | not executed; high | `Reconcile.UnknownLeafIsDeleted` | `Reconcile.CorrectedKeepsLocalFiles` |
