# folders_sync in Dafny

This project models a one-way folder synchroniser. At each scheduler tick it
makes a replica directory mirror a source directory:

- a missing replica directory is created;
- every source directory is descended into;
- every source file is copied over its replica counterpart;
- every replica entry that has no source entry of the same name is removed;
- each creation, replacement and removal is logged.

If a pass raises, the scheduler logs the error and keeps going. The replica
keeps whatever the pass had already changed.

Both trees are values: `Tree.Node` is a file with its bytes, or a directory
mapping names to entries. The replica root is a `Tree.Option<Node>`, which is
`None` before the first pass. A pass, or a part of one, yields a
`Tree.Outcome`. That is `Ok` or `Fail`, together with the replica entry
afterwards and the events logged on the way. Events carry the path relative to
both roots.

- Module `Reconcile` defines what a pass does, as functions:
  - `FileCopy` is `file_copy`;
  - `Purge` is `delete_item`;
  - `SyncLevel` is `folders_sync`, with `Step`, `SyncEntries` and `Finish` for
    the loop over the source listing and the deletions after it.
- Module `Sync` holds the synchroniser as the code runs it. `DeleteItem` and
  `FoldersSync` are methods whose loops update the replica entry step by
  step. `SyncItem` is one turn of the loop of `FoldersSync`, and
  `DeleteOrphans` is its final listing and deletion. Each method is proved to
  compute the matching `Reconcile` function. The class `FileSystem` holds the
  source, the replica and the log. Its method `Tick` is one turn of the
  scheduler loop.
- Module `Properties` proves, by induction on the source tree, what a pass
  achieves:
  - a pass succeeds exactly when the source root is a directory, no source
    file meets a replica directory and no source directory meets a replica
    file (`Tree.Compatible`);
  - a successful pass leaves the replica equal to the source;
  - a pass over a replica that is already in sync changes nothing and logs
    nothing, and it is the only pass that succeeds without a change or a log
    line (`Properties.InSyncIffQuiet`);
  - a failed pass leaves a clash behind, so the next pass fails too;
  - the log of a successful pass lists every change exactly once.

A kind clash is never repaired. Run again on what a failed pass left, the
pass fails again and leaves that replica as it is, so every later pass ends in
the same replica (`Properties.LevelRetryStuck`). The code logs a copy before
it attempts it. So a copy that fails because its target would sit below a
replica file is still logged as copied
(`Properties.CopiedLoggedForFailedCopy`).

`Names.Listing` gives a directory listing: each name exactly once. The order of
`os.listdir` is unspecified, and the model fixes it as lexicographic.

Two behaviours of the code shape the failure results:

- `file_copy` overwrites an identical replica file too (folders_sync.py:33),
  only without a log line. The content afterwards is the same either way.
- A pass stops at its first kind clash in listing order. The entries after
  the clash, and every deletion at that level and above, are never reached.
  What came before it stays done (`Properties.EntriesFailKeepsProgress`),
  and the same clash fails every later pass (`Properties.LevelRetryStuck`).

## Model

| member | source | states |
|---|---|---|
| Reconcile.FileCopy | folders_sync.py:12-33 | A missing replica is created with the source content and logged as copied. A replica file with other content is replaced and logged as replaced. An identical replica file ends up with the source content and nothing is logged. A replica directory makes the call fail, unchanged and with nothing logged. |
| Reconcile.SyncLevel | folders_sync.py:56-80 | Defines `folders_sync` (no contract of its own). What it does is stated by the Level lemmas: `Properties.LevelSucceedsIff`, `LevelConverges`, `LevelIdempotent`, `LevelSilentMeansUnchanged`, `LevelFailLeavesClash`, `LevelFailKeepsEntries`, `LevelRetryStuck`, `LevelLog` and `LevelLogsChanges`. |
| Reconcile.SyncEntries | folders_sync.py:70-80 | Defines the loop over the source listing followed by the deletions (no contract of its own). What it does is stated by `Properties.EntriesSucceedIff`, `EntriesConverge`, `EntriesIdempotent`, `EntriesSilentMeansUnchanged`, `EntriesFailLeavesClash`, `EntriesFailKeepsProgress`, `EntriesRetryStuck`, `EntriesLog` and `EntriesLogsChanges`. |
| Reconcile.Step | folders_sync.py:70-77 | Defines one turn of the loop, including the failures below a replica file (no contract of its own). What it does is stated by `Properties.StepSucceedsIff`, `StepConverges`, `StepIdempotent`, `StepSilentMeansUnchanged`, `StepFailLeavesClash`, `StepRetryStuck`, `StepMirrored`, `StepLog` and `StepLogsChanges`. |
| Reconcile.SyncChild | folders_sync.py:74-77 | Defines the body of a turn: recurse into a source directory, `file_copy` a source file (no contract of its own). It is covered by the Step lemmas. |
| Reconcile.Finish | folders_sync.py:79-80 | Listing the replica succeeds if and only if it is a directory. If it is a file, the pass fails with nothing changed or logged. Otherwise the directory keeps exactly the entries the source also has, each unchanged, and `at + [n]` is logged as removed exactly when the replica had `n` and the source does not. |
| Reconcile.Purge | folders_sync.py:36-53 | Exactly the visited entries whose names the source listing lacks are removed. Every other entry is kept unchanged. A removal of `at + [n]` is logged exactly when `n` was visited and is not in the source listing. Removals are logged once each, one level below `at`, and the log is empty exactly when nothing is removed. |
| Sync.DeleteItem | folders_sync.py:36-53 | The loop over the replica listing ends with the entries and the log that `Purge` specifies. |
| Sync.FoldersSync | folders_sync.py:56-80 | The method (create the replica if it is missing, list the source, loop over it, list the replica, delete) returns exactly `SyncLevel`: the replica entry afterwards, success or failure, and the events in order. |
| Sync.DeleteOrphans | folders_sync.py:79-80 | Listing the replica directory and deleting what the source listing lacks gives `Finish`. A replica file fails at the listing, with nothing changed and nothing logged. |
| Sync.SyncItem | folders_sync.py:70-77 | One turn of the loop: recurse into a source directory or `file_copy` a source file, giving `Step`, including the failures below a replica file. |
| Sync.FileSystem.Tick | folders_sync.py:107-111 | One scheduler turn: the source is untouched. The replica becomes the tree the pass leaves, whether it succeeded or raised. The log grows by the events of the pass, plus an error line exactly when the pass raised. `ok` says whether it succeeded. |
| Names.Listing | folders_sync.py:68 | A listing names every entry of the directory exactly once and nothing else. |
| Properties.LevelSucceedsIff | folders_sync.py:56-80 | A pass succeeds if and only if the source is a directory and no kinds clash between source and replica anywhere below it. |
| Properties.EntriesSucceedIff | folders_sync.py:70-80 | The loop and the deletions succeed if and only if the replica is a directory and every listed source entry is compatible with its replica entry. |
| Properties.StepSucceedsIff | folders_sync.py:70-77 | One turn succeeds if and only if the replica is a directory and that entry is compatible with its replica counterpart. |
| Properties.LevelConverges | folders_sync.py:56-80 | After a successful pass the replica equals the source. |
| Properties.EntriesConverge | folders_sync.py:70-80 | If the entries not yet visited are already mirrored, a successful rest of the loop plus the deletions leaves the replica equal to the source. |
| Properties.FinishConverges | folders_sync.py:79-80 | Once every source entry is mirrored, the deletions leave the replica equal to the source. |
| Properties.StepConverges | folders_sync.py:70-77 | A successful turn replaces exactly the visited replica entry by the source entry. |
| Properties.FirstPassCopiesAll | folders_sync.py:64-80 | A pass with no replica root succeeds for any source directory and copies the whole source tree. |
| Properties.LevelIdempotent | folders_sync.py:56-80 | A pass over a replica equal to the source succeeds, changes nothing and logs nothing. |
| Properties.EntriesIdempotent | folders_sync.py:70-80 | The loop and the deletions over a mirrored replica change and log nothing. |
| Properties.StepIdempotent | folders_sync.py:70-77 | A turn over a mirrored entry changes and logs nothing. |
| Properties.SecondPassQuiet | folders_sync.py:107-111 | Right after a successful pass, the next scheduler pass succeeds, changes nothing and logs nothing. |
| Properties.LevelSilentMeansUnchanged | folders_sync.py:56-80 | A pass that logs nothing, whether it succeeded or failed, left the replica exactly as it found it. No change goes unlogged. |
| Properties.EntriesSilentMeansUnchanged | folders_sync.py:70-80 | A loop-and-deletions run that logs nothing left the replica entry unchanged. |
| Properties.StepSilentMeansUnchanged | folders_sync.py:70-77 | A turn that logs nothing left the replica entry unchanged. |
| Properties.InSyncIffQuiet | folders_sync.py:56-80 | For a source directory, a pass succeeds with no change and no log line if and only if the replica already equals the source. |
| Properties.LevelFailLeavesClash | folders_sync.py:56-80 | A failed pass over a source directory leaves a replica that still clashes with the source. |
| Properties.EntriesFailLeavesClash | folders_sync.py:70-80 | A failed loop leaves a clashing replica entry. |
| Properties.StepFailLeavesClash | folders_sync.py:70-77 | A failed turn leaves a clashing replica entry. |
| Properties.EntriesFailKeepsProgress | folders_sync.py:70-80 | When the loop fails over a replica directory, no entry has been removed. There is a failing turn `k` whose entry clashed with the source. Every entry of the turns before `k` equals its source entry, and every entry that is not from turns up to `k` is unchanged. |
| Properties.LevelFailKeepsEntries | folders_sync.py:56-80 | A failed pass over a source directory and a replica directory removes nothing from the replica, and it keeps what the turns before the failing one mirrored. |
| Properties.LevelRetryStuck | folders_sync.py:107-111 | Run again on the replica a failed pass left, the next scheduler pass fails as well and leaves that replica unchanged. |
| Properties.EntriesRetryStuck | folders_sync.py:70-80 | Re-running a failed loop with the deletions on the replica directory it left fails again and leaves that directory unchanged. |
| Properties.StepRetryStuck | folders_sync.py:70-77 | Re-running a failed turn on the directory it left fails again and leaves that directory unchanged. |
| Properties.StepMirrored | folders_sync.py:70-77 | A turn over an entry that already equals its source entry succeeds, changes nothing and logs nothing, whatever the rest of the directory holds. |
| Properties.LevelLog | folders_sync.py:56-80 | Every event of a pass is an info event at or below the pass's level. Creating the missing level is logged first and only then. Removals at this level come last. After a success, `at + [n]` is logged as removed exactly when the replica directory had `n` and the source does not. |
| Properties.EntriesLog | folders_sync.py:70-80 | Events of the loop lie below the listed source names, or they are removals at this level of names the source lacks. Those removals come last, and after a success they are exactly the orphaned replica names. |
| Properties.StepLog | folders_sync.py:70-77 | Every event of a turn lies below the visited source entry. |
| Properties.LevelLogsChanges | folders_sync.py:12-80 | The log of a successful pass has no duplicates. Its events are exactly the changes made: every created entry, every replaced file, every removed entry. |
| Properties.ChangesOfDir | folders_sync.py:64-80 | The changes at a directory level are its creation, if it was missing, plus the changes of its entries. |
| Properties.EntriesLogsChanges | folders_sync.py:70-80 | The log of a successful loop with deletions has no duplicates and lists exactly the changes to the listed entries and the orphan removals. |
| Properties.FinishLogsChanges | folders_sync.py:79-80 | The deletions log each removal of a replica entry the source lacks exactly once, and nothing else. |
| Properties.StepLogsChanges | folders_sync.py:70-77 | The log of a successful turn has no duplicates and lists exactly the changes to the visited entry. |
| Properties.CopiedLoggedForFailedCopy | folders_sync.py:20-33 | Take a source `a/b` file where the replica has `a` as a file. The pass logs `a/b` as copied, then fails, and leaves the replica unchanged. |

## Left out

- Argument parsing, creating the log file, and setting up the handlers and formatter (folders_sync.py:83-105) are configuration. They are not modelled.
- The endless `while True` loop and `time.sleep` (folders_sync.py:107, 112) involve time. Only one turn (`Sync.FileSystem.Tick`) is modelled, and repeated turns are covered by lemmas about consecutive passes.
- SHA-256 digests of file content are modelled as the content itself. A hash collision does not exist in the model.
- `shutil.copy2` metadata (timestamps, permission bits) is not modelled. Only content is.
- Symbolic links, devices and other special files are not modelled: every entry is a regular file or a directory.
- I/O errors other than a clash between a file and a directory are not modelled: missing permissions, entries vanishing or appearing during a pass, a full disk. A pass fails in the model only where the code raises because of such a clash.
- A missing source root is not modelled: the source is always a tree. A source root that is a file is modelled and fails at `os.listdir`.
- The parent directories that `os.makedirs` would create above the replica root are not modelled. A missing replica root is one new directory.
- A replica nested inside the source, or the reverse, is not modelled: the two trees are separate values.
- The order of `os.listdir` is fixed as lexicographic. The code's observable order of events and the point where a pass stops depend on this order, and the model proves its order-independent properties for this one order.
- Log lines are reduced to their kind and relative path. Timestamps, levels, the absolute path text and the exception text are not modelled.
- File handles that `file_copy` opens and never closes are not modelled.
- Sync.DeleteItem: `shutil.rmtree` and `os.remove` are one removal of the entry with everything below it. The code picks between them by the entry's kind, and the in-memory tree needs no such choice.
