# folder-sync: a verified model of `sync_folders`

`Synctwofolders.py` keeps a replica folder as a one-way mirror of a source
folder. Each call of `sync_folders(source, replica, log_file)` does four things:

1. It creates the replica folder when it is missing.
2. It walks the source listing. A file is copied when the replica lacks it or
   its MD5 digest differs. A subfolder is synced recursively.
3. It walks the replica listing and deletes every entry whose name the source
   does not have: a folder with `rmtree`, anything else with `remove`.
4. It appends one log line per mutation.

`get_file_hash` computes the MD5 digest by reading the file in 4096-byte chunks.

The model has five modules:

- `FileTree`: the filesystem as a value. A `Node` is a file holding bytes or
  a folder mapping names to nodes. Paths are sequences of names. The module
  has lookups, updates, `makedirs`, and the frame predicate `UnchangedOutside`.
- `Hashing`: chunked reading and the MD5 accumulator. The accumulator is
  represented by the bytes it has absorbed. MD5 itself is a parameter
  `md5: seq<Byte> -> Digest`.
- `SyncSpec`: one call described as functions of the filesystem before it.
  - `Synced` is the replica entry the call leaves behind.
  - `Compatible` and `SyncSucceeds` say when the call returns normally.
  - `Trace` is the exact sequence of log events. It is parameterised by a
    `Listing`, the orders `os.listdir` returned, because that order is
    unspecified.
- `Sync`: the class `FileSystem`. Its mutable fields are the whole tree
  (`root`) and the log (`log`). The path queries `os.path.exists`, `isfile`
  and `isdir` are predicates. Every other `os`/`shutil` call the code makes
  (`listdir`, `makedirs`, `copy2`, `rmtree`, `remove`), `open` with its
  chunked reads, and `write_log` is a method with a contract. The methods
  `SyncFolders`, `SyncEntry`, `SyncSourceEntries` and `RemoveExtraEntries`
  follow the Python control flow: the two `for` loops are `while` loops with
  invariants, and the recursion goes through `SyncEntry`. Each of these
  methods is proved against its own specification:
  - `SyncFolders` succeeds if and only if `SyncSucceeds`. On success the
    replica becomes `Synced` and the log grows by `Trace`.
  - `SyncEntry` succeeds if and only if the replica folder exists and the
    source entry is `Compatible` with the replica entry. On success the
    replica entry becomes `Synced` and the log grows by `EntryTrace`.
  - `SyncSourceEntries` is promised success only one way: it succeeds when
    the replica folder exists and is `Compatible`. When it succeeds and the
    replica folder exists, that folder becomes `AfterSourcePass` and the log
    grows by `CopyPass`. When it succeeds although the replica is not a
    folder, the source listing was empty and nothing changed.
  - `RemoveExtraEntries` cannot fail and returns no outcome. The replica
    folder becomes `AfterDeletePass` and the log grows by `DeletePass`.

  `Synced`, `Compatible`, `SyncSucceeds`, `Trace`, `EntryTrace`, `CopyPass`
  and `DeletePass` are defined in `SyncSpec`. `AfterSourcePass` and
  `AfterDeletePass` are defined in `Sync`. The lemma `Sync.AfterBothPasses`
  shows that the two passes together give `Synced`.
- `SyncProperties`: what those functions guarantee:
  - convergence;
  - a quiet second run;
  - exactly when copies and deletions happen;
  - the order of events inside one folder;
  - the source is never touched, and every event stays below the two folders.

Source and replica are paths in one tree, and the model requires them to be
disjoint (neither lies inside the other). Exceptions are modelled as an
`Outcome`: the first failing call aborts the whole `sync_folders` call, as in
Python, where nothing catches them.

Four behaviours of the code are worth stating outright, because a reader
might expect otherwise:

- There is one event kind, `CopiedUpdated`, for both new copies and
  overwrites. The code logs a single "Copied/Updated" message.
- A kind mismatch is not resolved by deleting and recreating the entry. A
  source file against a replica folder raises when the folder is hashed. A
  source folder against a replica file raises in one of three places:
  - at `copy2`, for a file inside the source folder;
  - at `os.makedirs` in the nested call, for a subfolder inside the source
    folder (a file blocks the path);
  - at `os.listdir` on the replica, when the source folder is empty.

  The model returns `Fail` in all of these cases.
- An error aborts the whole call. No per-entry failure event is logged and
  sibling entries are not continued.
- Listing order is whatever `os.listdir` returns, not lexicographic. The
  proofs hold for every order.

## Model

| member | source | states |
|---|---|---|
| `Hashing.NewMd5` | Synctwofolders.py:18 | `hashlib.md5()` starts with a digest equal to MD5 of the empty input |
| `Hashing.Md5State.Update` | Synctwofolders.py:21 | `update(chunk)` leaves a digest equal to MD5 of the bytes absorbed before followed by the chunk |
| `Hashing.UpdateTwice` | Synctwofolders.py:20-21 | two `update` calls in turn leave the same object as one call on the concatenated chunks |
| `Hashing.Md5State.HexDigest` | Synctwofolders.py:22 | `hexdigest()` is MD5 of every byte absorbed so far (a definition, without a contract of its own) |
| `Hashing.Read` | Synctwofolders.py:20 | `file.read(4096)` returns at most 4096 bytes, exactly the next bytes of the file, and the empty chunk only at end of file |
| `Hashing.ChunksCover` | Synctwofolders.py:20-21 | the chunks the `while` loop reads are non-empty, at most the chunk size, and together give back the rest of the file |
| `Hashing.AbsorbFirst` | Synctwofolders.py:20-21 | one turn of the `while` loop: absorbing the next non-empty chunk and then the chunks after it is the same as absorbing all chunks from the current position |
| `Hashing.ChunkedDigest` | Synctwofolders.py:17-22 | the digest of a file read in chunks is MD5 of its bytes |
| `Hashing.ChunkSizeIrrelevant` | Synctwofolders.py:17-22 | the digest does not depend on the chunk size, only on the bytes |
| `Sync.FileSystem.GetFileHash` | Synctwofolders.py:17-22 | on a file, the loop returns the digest of the 4096-byte chunks fed in turn to the accumulator, which is MD5 of its content; opening a folder or a missing path is an error |
| `Sync.FileSystem.Exists` | Synctwofolders.py:27 | `os.path.exists` holds exactly of a file or a folder, and only when every step of the path is a folder, so a path through a file does not exist |
| `Sync.FileSystem.IsFile` | Synctwofolders.py:37 | `os.path.isfile` holds exactly of an existing entry that is not a folder |
| `Sync.FileSystem.IsDir` | Synctwofolders.py:43 | `os.path.isdir` holds exactly of an existing entry that is not a file |
| `Sync.FileSystem.ListDir` | Synctwofolders.py:32 | `os.listdir` succeeds exactly on folders and lists every entry once, in an unspecified order |
| `Sync.FileSystem.MakeDirs` | Synctwofolders.py:28 | `os.makedirs` succeeds unless a file lies on the path; it then leaves an empty folder there and changes nothing else |
| `Sync.FileSystem.Copy2` | Synctwofolders.py:39 | `shutil.copy2` puts the source file at the destination, and changes nothing outside it; it fails when the destination's parent is not a folder |
| `Sync.FileSystem.RmTree` | Synctwofolders.py:53 | `shutil.rmtree` removes the folder with its subtree and nothing else |
| `Sync.FileSystem.Remove` | Synctwofolders.py:56 | `os.remove` removes the file and nothing else |
| `Sync.FileSystem.WriteLog` | Synctwofolders.py:9-14 | the log grows by exactly the one event |
| `Sync.FileSystem.EnsureReplica` | Synctwofolders.py:27-29 | succeeds unless the missing replica is blocked by a file; a missing replica becomes an empty folder, with one creation event; the source is untouched |
| `Sync.FileSystem.SyncEntry` | Synctwofolders.py:33-44 | one source entry: succeeds iff the replica folder exists and there is no kind mismatch below; then the replica entry is the synced one and the log grows by exactly its events |
| `Sync.FileSystem.SyncSourceEntries` | Synctwofolders.py:32-44 | the source loop succeeds when there is no kind mismatch; then every source name is synced, the other replica names are unchanged, and the log grows by the copy pass |
| `Sync.FileSystem.RemoveIfExtra` | Synctwofolders.py:48-57 | a replica name is deleted, and its deletion logged by kind, exactly when the source lacks it |
| `Sync.FileSystem.RemoveExtraEntries` | Synctwofolders.py:47-57 | the replica loop removes exactly the names the source lacks and logs the deletion pass |
| `Sync.FileSystem.SyncFolders` | Synctwofolders.py:25-57 | succeeds iff `SyncSucceeds`; then the replica is `Synced(source, old replica)` and the log grows by exactly `Trace` for the listing seen; in every case the source is unchanged, nothing outside the replica changes, and every event stays below the two folders |
| `Sync.SourceStep` | Synctwofolders.py:32-44 | one turn of the source loop keeps its invariant: replica folder, compatibility, listings and log |
| `Sync.DeleteStep` | Synctwofolders.py:47-57 | one turn of the replica loop keeps its invariant: replica folder and log |
| `Sync.AfterBothPasses` | Synctwofolders.py:32-57 | the source pass followed by the deletion pass leaves exactly the synced folder |
| `Sync.FinishSync` | Synctwofolders.py:25-57 | the creation, source pass and deletion pass together give the compatibility, the well-formed listing and the log equal to `Trace` |
| `SyncSpec.DeletePassDirect` | Synctwofolders.py:47-57 | the deletion pass only deletes entries directly inside the replica folder, and only names the source lacks |
| `SyncProperties.SyncedDigests` | Synctwofolders.py:37-44 | after a sync the replica has the source's names in every folder, and every replica file hashes like the source file |
| `SyncProperties.SyncedIsSource` | Synctwofolders.py:37-44 | with a collision-free digest, the synced entry equals the source entry |
| `SyncProperties.Convergence` | Synctwofolders.py:25-57 | with a collision-free digest, a successful call leaves a copy of the source at the replica path |
| `SyncProperties.ExtraEntriesGone` | Synctwofolders.py:51-57 | after a successful call, a replica name the source lacks is gone, with everything below it |
| `SyncProperties.SyncedCompatible` | Synctwofolders.py:37-44 | a synced replica never has a kind mismatch with its source |
| `SyncProperties.SyncedStable` | Synctwofolders.py:37-44 | syncing an already synced replica leaves it unchanged |
| `SyncProperties.TraceQuiet` | Synctwofolders.py:27-57 | a call on an already synced replica logs nothing, whatever the listing order |
| `SyncProperties.DeletePassQuiet` | Synctwofolders.py:47-57 | the deletion pass deletes nothing when the replica has no name the source lacks |
| `SyncProperties.SecondRunQuiet` | Synctwofolders.py:25-57 | after a successful call, a second call with an unchanged source succeeds, changes nothing and logs nothing |
| `SyncProperties.SecondRunUnchanged` | Synctwofolders.py:25-57 | after a successful call, a second call with an unchanged source leaves the whole filesystem exactly as it was |
| `SyncProperties.TraceEvents` | Synctwofolders.py:28-57 | every event reads only below the source and changes only below the replica; deletions are strictly inside the replica |
| `SyncProperties.CopyPassEvents` | Synctwofolders.py:32-44 | the events of the source pass lie strictly below the replica folder, and their deletions at least two levels down |
| `SyncProperties.TraceOrder` | Synctwofolders.py:27-57 | inside one call the folder creation, if any, is the first event and occurs only there; the deletions of the folder's own entries are exactly the last events |
| `SyncProperties.CopyPassHas` | Synctwofolders.py:32-44 | the source pass contains the events of every source entry it visits |
| `SyncProperties.CopyPassFrom` | Synctwofolders.py:32-44 | every event of the source pass comes from one visited source entry |
| `SyncProperties.CopyEventIff` | Synctwofolders.py:37-40 | a source file is copied, with one log line, exactly when the replica lacks it or its digest differs |
| `SyncProperties.DeletePassHas` | Synctwofolders.py:47-57 | the deletion pass contains the deletion of every replica name it visits |
| `SyncProperties.DeletePassFrom` | Synctwofolders.py:47-57 | every deletion comes from one visited replica name |
| `SyncProperties.DirectDeletionInTrace` | Synctwofolders.py:47-57 | a deletion one level below the replica folder comes only from the call's own deletion pass |
| `SyncProperties.DeletionEventIff` | Synctwofolders.py:51-57 | a replica entry is deleted, as a folder or as a file according to its kind, exactly when the source lacks its name; names the source has are never deleted |

## Left out

- `write_log` (Synctwofolders.py:9-14) is modelled as appending an abstract
  event to `log`. The timestamp, the message text, printing and file
  appending are I/O.
- `get_arguments` and the `__main__` block (Synctwofolders.py:60-81) are left
  out: argument parsing, the start-up existence check with `exit(1)`, and the
  endless loop with `time.sleep`. A second call is covered by
  `SecondRunQuiet`.
- MD5 is a parameter of the model. Nothing is assumed about it except that it
  is a function of the bytes. `SyncedIsSource` and `Convergence` additionally
  assume it is collision-free. Without that assumption the model proves only
  `SyncedDigests`: a replica file with a colliding digest is kept, as in the
  code.
- `Sync.FileSystem.Copy2`: the metadata `shutil.copy2` copies, such as
  modification times, is not represented. Neither is permission checking.
- Symbolic links and special files are not represented. A tree node is a
  file or a folder, so the branch where the source loop skips an entry that
  is neither has no counterpart.
- Permission errors, disk errors and concurrent modification of either tree
  are not represented. Only the errors a file/folder tree can produce are
  modelled: a missing path, a file where a folder is needed, and a folder
  where a file is needed.
- `Sync.FileSystem.SyncFolders`, `Sync.FileSystem.EnsureReplica`,
  `Sync.FileSystem.SyncEntry`, `Sync.FileSystem.SyncSourceEntries` and
  `Sync.FileSystem.RemoveExtraEntries` require the source and replica folders
  to be disjoint: neither may lie inside the other, and they may not be
  equal. This precondition excludes three cases:
  - Replica inside the source: line 28 creates the replica and line 29 logs
    it, line 32 lists it as a source entry, and line 44 recurses one level
    deeper. Each call creates and logs one more nested folder, until Python's
    recursion limit (`RecursionError`) or the operating system's path-length
    limit (`OSError`) raises. The termination measure of
    `Sync.FileSystem.SyncFolders` (the source entry) cannot express that
    bound, so the case is excluded.
  - Source inside the replica: the deletion pass at lines 51-56 can remove
    the source itself.
  - Equal paths: the code then changes nothing, because every hash matches
    at line 38, line 44 recurses on equal paths, and line 51 finds every
    name. The model does not cover this harmless case.
- The log is a field of its own, separate from the tree. The model therefore
  assumes that the log file (Synctwofolders.py:13-14) lies outside both
  folders:
  - A log file inside the replica would be removed at line 56 on every run
    and recreated by the next `write_log`, so no second run would be quiet.
  - A log file inside the source would change the source with every line,
    and the next run would copy it again at line 39.

  `SecondRunQuiet` and the statement that the source is never touched hold
  only under this assumption.
- Files are never shared between the two trees: a tree node belongs to one
  path, so hard links are not represented. `shutil.copy2` at
  Synctwofolders.py:39 writes the destination file in place. If a replica
  file is a hard link to a source file (a replica seeded with `cp -al`, say,
  and a source file renamed since), line 39 overwrites that source file too.
  `Sync.FileSystem.Copy2` replaces a node and cannot show this. The statement
  that the source is never touched holds only when no replica file shares
  its storage with a source file.
- Names are compared exactly, as sequences of characters. On a
  case-insensitive filesystem, `os.path.exists` at lines 38 and 51 treats
  "A.txt" and "a.txt" as the same entry; the model does not.
- The order in which files are hashed is not observable in the model. The
  short-circuit at Synctwofolders.py:38, where the hash is computed only
  when the replica entry exists, shows in the control flow of
  `Sync.FileSystem.SyncEntry` but is not stated as a property.
