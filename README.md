# yet-another-drive-sync: the two-way synchronizer, modelled in Dafny

`Synchronizer` keeps two storage roots in step through the rclone command-line
tool.

- `isSynced` asks `rclone check` whether the two roots agree.
- `synchronize` lists each root with `rclone lsjson --hash` and folds each
  listing into a dictionary keyed by path. It then copies, one
  `rclone copy` at a time, every path root1 has and root2 lacks. After that
  it copies every path root2 has and root1 lacks.
- Both directions are decided from the two listings taken before any copy.
- Presence is decided by path alone; the hashes are fetched but never compared.
- The first failing tool call raises, and the run ends there.

The model has four modules.

- `Storage` holds the world the tool acts on:
  - every root is a tree `map<Path, Hash>`;
  - a successful copy is `Step`, and a sequence of copies is `Apply`;
  - the class `Rclone` stands for the tool. Each of its methods is one process
    invocation. It records itself in a ghost call log and exits with a status
    the model leaves open. Exit 0 fixes what the call produced. On a non-zero
    exit, `lsjson` returns no records and `copy` changes no root.
- `Listings` models the dictionary built by `_getFileList`.
  - A `Listing` is the dictionary's key order plus its entries.
  - As for a Python `dict`, a new key goes last. Re-assigning a key keeps its
    place, and the last record for a path wins.
- `Reconcile` holds the decision and its consequences:
  - `Missing` gives the keys of one listing absent from the other, in order;
  - `Plan` gives all copies of a fully successful run;
  - the lemmas prove what those copies do to the roots.
- `Synchronizers` holds the class `Synchronizer`. Its methods are `IsSynced`,
  `Synchronize`, `CopyMissingFiles`, `CopyFile` and `GetFileList`, mirroring
  the source's methods.
  - The copy loop is a `while` loop. It is proved against `Missing`, `Batch`
    and `Apply`.
  - `Progress` states what a batch of copies did: how many succeeded, the call
    log, and the resulting trees. It also covers a copy that raised.
  - Lemmas on `Progress` carry `Synchronize`'s result over to the roots. A
    completed run leaves both roots with the union of their paths, and a run
    with any outcome removes nothing.

## Model

| member | source | states |
|---|---|---|
| Storage.Rclone.Check | synchronizer.py:13-17 | `rclone check` changes no root and is logged; exit 0 only when both roots exist and hold the same files with the same hashes |
| Storage.Rclone.ListJson | synchronizer.py:49-52 | `rclone lsjson --hash` changes no root; on exit 0 the records report exactly the root's paths with their hashes, otherwise no records |
| Storage.Rclone.CopyFile | synchronizer.py:38 | `rclone copy` is logged with its status; on exit 0 the source file existed and the target root now holds it with the source's hash; on failure no root changes |
| Storage.StepFrame | synchronizer.py:31-40 | one copy removes no file from any root and changes no root other than its target |
| Storage.ApplyConcat | synchronizer.py:23-24 | running two sequences of copies one after the other is running their concatenation |
| Storage.ApplyNeverRemoves | synchronizer.py:20-40 | any sequence of copies keeps the set of roots and removes no file from any root |
| Storage.ApplyKeys | synchronizer.py:26-40 | when every copy's source file exists at the start, each root ends with exactly its own paths plus the paths copied into it |
| Storage.ApplyUntargeted | synchronizer.py:31-40 | a file that no copy writes to keeps its content |
| Storage.ApplyUntouchedRoot | synchronizer.py:31-40 | a root that no copy writes to is left exactly as it was |
| Listings.Put | synchronizer.py:57 | assigning a record under its path sets that path's entry and keeps every other entry; a new path goes last in the key order, an existing path keeps its place; a well-formed dictionary stays well-formed |
| Listings.IndexByPath | synchronizer.py:55-57 | the loop that assigns each record under its path builds exactly the dictionary `Index` folds from the records |
| Listings.IndexWellFormed | synchronizer.py:55-57 | the dictionary has one key per distinct path of the records, its key order lists each key once, and every entry sits under its own path |
| Listings.IndexLastWins | synchronizer.py:56-57 | the entry kept for a path is the last record carrying that path |
| Listings.IndexDescribes | synchronizer.py:54-59 | records that report a root yield a dictionary holding exactly that root's paths, each with the root's hash |
| Reconcile.Missing | synchronizer.py:26-29 | one direction issues at most one copy per key of the source listing |
| Reconcile.MissingExactly | synchronizer.py:27-28 | a path is copied in a direction exactly when the source listing has it and the other listing lacks it |
| Reconcile.BatchMembers | synchronizer.py:29 | a direction's copies are exactly the missing paths, each sent from `fromRoot` to `toRoot` |
| Reconcile.MissingKeepsOrder | synchronizer.py:27 | copies of one direction follow the iteration order of the source dictionary |
| Reconcile.MissingDistinct | synchronizer.py:27-29 | a dictionary's distinct keys give distinct copies |
| Reconcile.MissingIgnoresEntries | synchronizer.py:28 | only the presence of a key in the other listing matters, never its entry |
| Reconcile.PlanIgnoresEntries | synchronizer.py:20-29 | listings with the same keys in the same order give the same copies whatever their hashes |
| Reconcile.PlanCopiesOnlyDifferences | synchronizer.py:20-29 | every copy moves a path one listing has and the other lacks, towards the root lacking it |
| Reconcile.PlanCopiesEveryDifference | synchronizer.py:20-29 | every path one listing has and the other lacks is copied towards the root lacking it |
| Reconcile.PlanCopiesEachPathOnce | synchronizer.py:23-29 | no path is copied twice, so the two directions' copies are disjoint |
| Reconcile.PlanDirectionsInSequence | synchronizer.py:23-24 | all root1-to-root2 copies come first, one per root1 path missing from root2, then all root2-to-root1 copies |
| Reconcile.CommonPathsNeverCopied | synchronizer.py:28 | a path both listings hold is never copied, whatever its two hashes |
| Reconcile.NothingMissingFrom | synchronizer.py:27-29 | a listing whose every key the other holds issues no copy |
| Reconcile.NothingMissing | synchronizer.py:20-29 | listings with the same paths give an empty plan |
| Reconcile.BatchCopiesContent | synchronizer.py:27-29 | after one direction's copies, each copied file has its content from the source root |
| Reconcile.PlanMovesDifferences | synchronizer.py:20-29 | for listings describing the roots: every copy reads an existing file, targets one of the two roots and writes only a path that root lacks; equal roots give no copy; each root receives exactly the other's extra paths |
| Reconcile.UnionAfter | synchronizer.py:20-29 | copies shaped like a plan leave both roots with the union of their paths and every other root untouched |
| Reconcile.SyncUnion | synchronizer.py:20-24 | a fully successful run leaves both roots with the union of the paths they had, and other roots untouched |
| Reconcile.KeptAfter | synchronizer.py:26-29 | copies that write only paths a root lacks leave every file of that root with its content |
| Reconcile.SyncKeepsExistingFiles | synchronizer.py:20-29 | a run overwrites nothing: every file either root had keeps its content, even when both roots hold the path with different content |
| Reconcile.FirstBatchDelivered | synchronizer.py:23 | the root1-to-root2 copies deliver their files with root1's content, and the later copies leave them so |
| Reconcile.SecondBatchDelivered | synchronizer.py:24 | the root2-to-root1 copies deliver their files with root2's original content |
| Reconcile.SyncCopiesContent | synchronizer.py:20-24 | each path present on one side only arrives on the other side with its original content |
| Reconcile.SecondRunCopiesNothing | synchronizer.py:20-24 | listing the roots again after a fully successful run gives an empty plan, so a second run issues no copy |
| Synchronizers.ProgressStops | synchronizer.py:23-24 | when the first direction raises, the run stops at the same copy and the second direction is never attempted |
| Synchronizers.ProgressThen | synchronizer.py:23-24 | a completed first direction followed by the second is the progress of the whole plan, with the second direction's copies counted after the first's |
| Synchronizers.ProgressNeverRemoves | synchronizer.py:20-40 | whatever a run's outcome, including a raised copy, every root is still there and still holds every path it held |
| Synchronizers.CompletedRunSyncs | synchronizer.py:20-24 | a run whose listings reported the roots and that completed copied and logged the whole plan; it leaves both roots with the union of their paths, keeps every existing file's content, delivers each one-sided file with its original content and leaves other roots untouched |
| Synchronizers.CompletedRunIsFixedPoint | synchronizer.py:20-24 | after a completed run, listings that report the roots give an empty plan, so running again copies nothing |
| Synchronizers.Synchronizer.constructor | synchronizer.py:7-10 | a new synchronizer keeps the two roots and the tool it was given |
| Synchronizers.Synchronizer.IsSynced | synchronizer.py:12-18 | one `rclone check root1 root2` call, no root changed; true exactly when it exits 0, which happens only for equal roots |
| Synchronizers.Synchronizer.GetFileList | synchronizer.py:42-59 | one `lsjson` call; a non-zero exit fails with a listing error, otherwise the dictionary folded from the records describes the root |
| Synchronizers.Synchronizer.CopyFile | synchronizer.py:31-40 | one `copy` call for `fromRoot/path` to `toRoot`; on a non-zero exit it raises a copy error naming path and roots and no root changes; otherwise the target gains the file |
| Synchronizers.Synchronizer.CopyMissingFiles | synchronizer.py:26-29 | copies, in the source listing's order, exactly the paths the other listing lacks; the first failure raises at that copy, earlier copies stay done and no later copy is attempted |
| Synchronizers.Synchronizer.Synchronize | synchronizer.py:20-24 | a root1 listing failure raises before root2 is listed and nothing changes; a root2 listing failure raises before any copy; otherwise both listings report the roots as they were, and the calls and trees are the progress of the plan decided from those listings: root1 to root2 first, then root2 to root1, stopping at the first failed copy |

## Left out

- The rclone process itself is an oracle. The model leaves out:
  - the command name (`rcloneCommand`) and the argument lists;
  - `subprocess` and its pipes.

  Its exit status is left free. The model fixes what exit 0 produces. It
  also fixes the failure cases: `lsjson` then returns no records, and `copy`
  changes no root.
- JSON decoding of the `lsjson` output is not modelled. The listing oracle
  returns the parsed records directly. A record keeps only the two fields the
  synchronizer reads (`Path` and the hash). A malformed output cannot occur.
- Paths are treated as flat keys, and the copy oracle puts a file at the same
  relative path in the target root. Real rclone differs in three ways, and the
  model does not capture them:
  - `lsjson` without `--recursive` lists only the top level of a root;
  - `copy fromRoot/dir/file toRoot` places the file at the top of `toRoot`;
  - `lsjson` without `--files-only` also lists each top-level subdirectory as
    a record, and `copy fromRoot/dir toRoot` copies that directory's contents
    into the top of `toRoot`, not into `toRoot/dir`.

  So when either root holds a subdirectory, the real program does not leave
  both roots holding the union of their paths, and a second run copies again.
  `Storage.Rclone.CopyFile`, `Reconcile.SyncUnion`,
  `Reconcile.SecondRunCopiesNothing`, `Synchronizers.CompletedRunSyncs` and
  `Synchronizers.CompletedRunIsFixedPoint` describe roots of plain files only.
- A failed copy is assumed to change no root. Partial transfers are not modelled.
- Roots change only through the synchronizer's own copies. Concurrent changes
  by other processes between the listing and the copies are not modelled.
- A listing failure raises a plain string (`raise ('...')`). In Python 3 this
  surfaces as a `TypeError` rather than the intended exception. The model
  treats it as a `ListingError` that ends the run. The observable outcome is
  the same: nothing is copied.
- Reconcile.Missing: its own contract bounds only the number of copies. Which
  paths it holds, and in what order, are stated by `Reconcile.MissingExactly`
  and `Reconcile.MissingKeepsOrder`.
- Synchronizers.Synchronizer.IsSynced: states only that exit 0 implies equal
  roots, not the converse. `rclone check` may also fail for reasons outside
  the model, and its comparison rules are those of the tool.
- The constructor's default tool name and the test suite's filesystem
  fixtures are not modelled.
