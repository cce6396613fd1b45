# syncfile: one-way folder synchronization, modelled in Dafny

`sync_folders(source, replica)` makes a replica folder mirror a source
folder in one run of two passes.

- **Pass 1** walks the source tree top-down. It creates every directory
  the replica lacks. It copies every file the replica lacks, and every file
  whose source modification time is strictly greater than the replica's.
  The copy (`shutil.copy2`) carries the content and the modification time.
- **Pass 2** walks the replica tree top-down. It removes every file whose
  path the source lacks. It removes every such directory with
  `shutil.rmtree`, which takes its whole subtree.

Each change is logged once: created directory, copied file, updated file,
removed file, or removed directory.

The model has two modules:

- `FileTree` treats a directory tree as a value. That value is a map from
  relative paths (sequences of names, the root being `[]`) to nodes.
  A node is a directory, or a file with its bytes and modification time.
  `WellFormed` says every entry hangs from a directory. `MakeDirs` and
  `RmTree` model `os.makedirs` and `shutil.rmtree`.
- `SyncFile` has the two passes as methods with loops over a mutable tree.
  Each method is proved against a specification function of the trees it
  starts from. For pass 1 that is `CopyDecision` per entry and `Copied` for
  the whole tree. For pass 2 it is `PruneDecision` and `Pruned`. One run is
  `SyncFolders`, and its result is `Synced`. Lemmas relate these
  functions: the run leaves the replica up to date, a second run does
  nothing, and the trees converge.

os.walk's order is modelled as a free choice of any entry whose parent has
already been walked. Every order os.walk can produce is one of these.

## Model

| member | source | states |
|---|---|---|
| FileTree.MakeDirs | syncfile/syncfile.py:19 | os.makedirs keeps every existing entry, adds only directories on the path's prefixes, puts the path itself in the tree, and keeps the tree well-formed when the existing prefixes are directories |
| FileTree.MakeDirsOnlyLeaf | syncfile/syncfile.py:16-19 | when all ancestors already exist, which the top-down walk ensures, os.makedirs adds exactly the one directory |
| FileTree.RmTree | syncfile/syncfile.py:53 | shutil.rmtree removes exactly the entry and every entry beneath it, changes nothing else, and leaves a well-formed tree |
| FileTree.TopMostExists | syncfile/syncfile.py:11 | a top-down walk can always go on: any non-empty set of entries holds one whose parent is not still waiting |
| SyncFile.CopyEntry | syncfile/syncfile.py:16-33 | handling one source entry creates a missing directory, copies a missing file, or copies a file whose source mtime is strictly greater; otherwise it does nothing; the logged action is the one CopyDecision names |
| SyncFile.CopyPass | syncfile/syncfile.py:11-33 | pass 1, walked in any parents-first order, yields exactly the tree Copied and a well-formed replica that agrees with the source on kinds; an action is logged iff CopyDecision calls for it, each path at most once, and a directory's creation comes before any action beneath it; the log is empty iff no entry needs an action |
| SyncFile.CopiedFacts | syncfile/syncfile.py:16-33 | after pass 1 every source path is in the replica with its kind; a missing entry and a strictly older replica file now equal the source's, content and mtime; an equally new or newer file, or an existing directory, is untouched; nothing is removed; paths outside the source are unchanged |
| SyncFile.CopiedWellFormed | syncfile/syncfile.py:16-19 | pass 1 leaves a well-formed tree that still agrees with the source on kinds |
| SyncFile.AfterVisit | syncfile/syncfile.py:44-53 | visiting an entry the source lacks removes it, and for a directory everything beneath it; nothing else is removed or changed, and an entry the source has leaves the tree as it is |
| SyncFile.PruneEntry | syncfile/syncfile.py:40-54 | a reached replica entry that the source lacks is removed as AfterVisit describes (a file alone, a directory with its subtree) and logged as its Removal; an entry the source has is kept and nothing is logged |
| SyncFile.PrunePass | syncfile/syncfile.py:36-54 | pass 2 yields exactly Pruned. Nothing the source lacks remains, and everything the source has stays. Nothing is created or modified, and no removed directory leaves anything beneath it. An action is logged iff PruneDecision calls for it, which is exactly for entries the source lacks whose parent it has; each path is logged at most once, no logged removal lies beneath another (what went with a removed directory is not reported again), and the log is empty iff nothing needs removing |
| SyncFile.NoRemovalBeneathRemoval | syncfile/syncfile.py:36-54 | no removal pass 2 reports lies beneath another one it reports, because it acts only where the source has the parent and os.walk does not enter a directory rmtree has removed |
| SyncFile.PrunedFacts | syncfile/syncfile.py:48-54 | once the walk is done the replica is Pruned, and no entry remains beneath a directory pass 2 removes |
| SyncFile.PruneActionsOfCopied | syncfile/syncfile.py:36-54 | pass 2 removes the same entries whether it sees the replica before or after pass 1, because pass 1 only adds paths the source has |
| SyncFile.SyncFolders | syncfile/syncfile.py:7-54 | one run gives Synced, a well-formed replica up to date with the source. Its log is pass 1's actions then pass 2's, with every creation or update before any removal, no action after one on a path beneath it, nothing reported beneath a reported removal, and each path at most once. An already up-to-date replica is left as it is, and nothing is logged |
| SyncFile.RunLog | syncfile/syncfile.py:7-54 | the run's log orders creations before removals, names each path once, and is empty when the replica was already up to date |
| SyncFile.RemovalsCoverTheirSubtrees | syncfile/syncfile.py:7-54 | in a run's log no action lies beneath a reported removal: no other removal, and no creation or update, since those are of source paths |
| SyncFile.RunLogAncestorsFirst | syncfile/syncfile.py:11-54 | no action in a run's log comes after an action on a path beneath it: pass 1 walks parents first (lines 16-20 create a directory before os.walk enters it), pass 2 removes nothing beneath another removal, and nothing pass 2 removes lies above a source entry |
| SyncFile.SyncedUpToDate | syncfile/syncfile.py:7-54 | after a run the replica has exactly the source's paths; each directory is a directory; each file is a file at least as new as the source's |
| SyncFile.NothingToDo | syncfile/syncfile.py:7-54 | on an up-to-date replica no entry needs an action of either pass, and the run returns the replica unchanged |
| SyncFile.Idempotent | syncfile/syncfile.py:7-54 | a second run on the trees the first run left logs nothing and changes nothing |
| SyncFile.Convergence | syncfile/syncfile.py:7-54 | after a run the replica has the source's paths and kinds; when every replica file at least as new as its source file already held the source's content, every file has the source's content |
| SyncFile.MissingOrStaleFileCopied | syncfile/syncfile.py:28-33 | after a run, a source file the replica lacked or had in a strictly older version is the source's file, content and mtime |
| SyncFile.NewerFileKept | syncfile/syncfile.py:31-33 | after a run, every replica file at least as new as its source file is left as it was, bytes and mtime, whatever its content |
| SyncFile.NewerReplicaKeepsItsContent | syncfile/syncfile.py:31-33 | an input where a replica file newer than its source file keeps its own, different content after a run, because only a strictly newer source file is copied |

## Left out

- `main` (syncfile/syncfile.py:56-73) is not modelled: argument parsing, logging configuration, the endless loop and `time.sleep`. Each run of that loop is one `SyncFolders`.
- Real filesystem I/O is not modelled. Trees are values passed in and returned, so the source is unchanged by construction.
- Modification times are integers. The code compares floating-point timestamps with `>`, and the model keeps that strict comparison.
- The model's copy gives the replica file exactly the source's modification time, as copy2 does when both filesystems keep timestamps at the same resolution. A replica filesystem with coarser timestamps (FAT, HFS+, some network mounts) rounds the copied mtime. Rounded down, line 31 sees the source as newer and updates the file on every run; rounded up, a source edit within the rounding window is missed. SyncedUpToDate, NothingToDo, Idempotent, MissingOrStaleFileCopied and SyncFolders's up-to-date clause hold only when timestamps are kept exactly.
- A path that is a file in one tree and a directory in the other is excluded by the `TypesAgree` precondition of CopyPass and SyncFolders. PrunePass does not need it.
- Names compare by exact string equality, as on a case-sensitive filesystem that does not normalise Unicode. On a case-insensitive or normalising filesystem, `os.path.exists` can find an entry under a differently spelled name, and then SyncedUpToDate and Convergence do not describe the code.
- Both roots are assumed to exist. With a missing replica root the code fails at the first file copy, unless a subdirectory's os.makedirs creates the root first; the model simply copies.
- A missing source root is walked by os.walk as empty, without an error, so pass 2 then removes the whole replica. The model gives this only when such a source is passed as the empty tree.
- Symbolic links, permission and I/O errors, and concurrent changes to either tree are not modelled. The error os.walk hits on a directory removed mid-walk is modelled only as "that subtree is not visited".
- A replica nested inside the source, or the source inside the replica, is not modelled: the two trees are independent values.
- CopyPass and PrunePass accept any parents-first walk order. The order os.walk uses among siblings, and files before or after subdirectories, is not pinned down. So the log's order is stated only as far as it is fixed in every such order: creations and updates before removals, and an entry before anything beneath it (AncestorsFirst).
- Log lines are actions carrying paths relative to the roots. Pass 1 logs a replica path joined from the replica argument as given (relative or absolute), the walked root's relative path (`.` for top-level entries) and the name; its file copies and updates also log the source path, the walked source root joined with the name, without a `.` component; directory creation logs only the replica path. Pass 2 logs the walked replica root joined with the name, which for top-level entries is the replica argument itself, without `.`. Timestamps and message text are not modelled.
- Convergence: file content converges only when every replica file at least as new as its source file already has the source's content (NoNewerEdits). The code copies only on a strictly greater source mtime; a copied file gets the source's mtime and content. The model follows the code, and NewerReplicaKeepsItsContent gives an input where content differs.
