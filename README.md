# Workspace preparation of the nanogrid-plus agent, in Dafny

This project models `S3CodeStorageService`, the service that prepares a
task's working directory before the agent runs it. For one task message it:

1. picks the S3 bucket: the message's own bucket, or else the configured
   default;
2. creates a fresh working directory `{taskBaseDir}/{requestId}`, first
   tearing down any stale one with a best-effort recursive delete;
3. downloads the code archive to `code.zip` inside that directory;
4. extracts the archive in place, behind a path-traversal guard;
5. deletes the archive.

Every failure comes back as one error that names the request id, the bucket
and the key.

The model has seven modules:

- `Paths` (`paths.dfy`): UnixPath as an absolute flag plus a sequence of
  names. It covers parsing (`Paths.get`), `resolve`, `normalize` and
  `startsWith`, which together make up the traversal guard.
- `PathOrder` (`order.dfy`): the order `compareTo` puts paths in, and the
  descending selection sort that `deleteDirectory` applies to the walked
  tree.
- `Files` (`files.dfy`): the local file system.
  - It is a map from normalized paths to `Dir | File(bytes)`. The roots
    exist implicitly and are never keys.
  - It provides pure definitions of the `java.nio.file.Files` operations
    the service uses, and the best-effort recursive delete.
  - The class `FileSystem` holds the mutable map. It also holds a fixed set
    of `locked` paths, whose deletion the operating system refuses.
- `Extraction` (`extract.dfy`): the archive entries, the guard, one pass of
  the extraction loop, the loop itself, and the containment and count
  theorems.
- `Buckets` (`buckets.dfy`): `String.trim()` and `determineS3Bucket`.
- `S3Storage` (`storage.dfy`): the pipeline, in two forms.
  - Pure functions (`WorkspaceStage`, `Download`, `FromWorkspace`,
    `Prepare`) carry the lemmas about whole runs.
  - The class `S3CodeStorageService` has one method per Java method except `determineS3Bucket`, with the extraction loop and its body as methods of their own. These
    methods update the `FileSystem` step by step. Each is proved to leave
    exactly the state and result that the pure functions give.
- `Scenarios` (`scenarios.dfy`): concrete entry names, request ids and
  buckets. They show that the guard rejects `/etc/passwd`,
  `../outside.txt` and `a/../../b`, that a whole run for a two-entry
  archive succeeds with the expected files, and that a request id can
  escape the base directory.

Environment stand-ins:

- The S3 client is a map from `(bucket, key)` to bytes (`ObjectStore`). An
  absent id stands for every failure of `getObject`. Writing the object
  goes through `ResponseTransformer.toFile`, which refuses a target that
  already exists.
- Zip decoding is a function `unzip` from bytes to `Archive(entries,
  truncated)`. The entries come in stream order, each with its name and
  bytes. `truncated` means the stream threw after those entries.
- The task base directory is the configuration constant
  `AgentProperties.taskBaseDir`. Line 85 of the source calls
  `agentConfig.getTaskBaseDir()`, but the class has no field
  `agentConfig`: its only configuration field is `agentProperties`
  (line 28).

What the code does, as the model follows it:

- The request id is used as it comes, with no check for separators or
  `..`. `ParentRequestIdCoversBase` and `Scenarios.EscapingRequestId` show
  what that allows.
- The archive is deleted only after an extraction that did not throw.
  `ExtractionFailureKeepsArchive` proves this.
- If the archive cannot be deleted, the whole run fails (`DeletingArchive`);
  the failure is not only logged.
- Only an exception ends extraction early. A skipped entry or a count of
  zero extracted files is not an error.

## Model

| member | source | states |
|---|---|---|
| Buckets.Trim | src/main/java/org/brown/nanogridplus/s3/S3CodeStorageService.java:73 | `trim()` is empty exactly when every character is at most U+0020; otherwise its result starts and ends with a visible character |
| Buckets.DetermineS3Bucket | src/main/java/org/brown/nanogridplus/s3/S3CodeStorageService.java:71-78 | a present, non-blank bucket in the message is returned verbatim, without trimming; a missing or blank one gives the configured default |
| Paths.Parse | src/main/java/org/brown/nanogridplus/s3/S3CodeStorageService.java:86 | a parsed string is a valid path (non-empty names without '/'), and it is absolute exactly when the string starts with '/' |
| Paths.Resolve | src/main/java/org/brown/nanogridplus/s3/S3CodeStorageService.java:140 | `resolve` returns an absolute argument unchanged; a relative argument gives a path that starts with the base, has the base's absoluteness, and continues with exactly the argument's names; valid inputs give a valid path |
| Paths.Normalize | src/main/java/org/brown/nanogridplus/s3/S3CodeStorageService.java:143 | `normalize` keeps absoluteness and validity, and its result is normal: no ".", and ".." only as a leading run of a relative path |
| Paths.NormalizeIdempotent | src/main/java/org/brown/nanogridplus/s3/S3CodeStorageService.java:143 | normalizing twice is normalizing once |
| Paths.DescendingNameStaysInside | src/main/java/org/brown/nanogridplus/s3/S3CodeStorageService.java:140-143 | a relative name whose normal form climbs no ".." lands, once resolved and normalized, at the base's normal form followed by the name's, so inside the base |
| Paths.JoinNamesParse | src/main/java/org/brown/nanogridplus/s3/S3CodeStorageService.java:86 | `Paths.get(first, more)` with both parts non-empty has the names of `first` followed by the names of `more` |
| PathOrder.ParseRender | src/main/java/org/brown/nanogridplus/s3/S3CodeStorageService.java:179 | the string `compareTo` compares, parsed back, is the path itself |
| PathOrder.Less | src/main/java/org/brown/nanogridplus/s3/S3CodeStorageService.java:179 | `compareTo` never puts a path below itself, and puts every proper ancestor of a path below it, so the reversed order visits descendants first |
| PathOrder.MaxOf | src/main/java/org/brown/nanogridplus/s3/S3CodeStorageService.java:179 | returns an element of the set that no other element compares above |
| PathOrder.SortDescending | src/main/java/org/brown/nanogridplus/s3/S3CodeStorageService.java:179 | the walked paths, each exactly once, with no later path comparing above an earlier one |
| Files.CreateDirectoriesIn | src/main/java/org/brown/nanogridplus/s3/S3CodeStorageService.java:94 | `createDirectories` fails exactly when a regular file lies on the way; otherwise every prefix becomes a directory, existing entries are untouched, and the only new entries are directories on the way |
| Files.CreateDirectoriesIdempotent | src/main/java/org/brown/nanogridplus/s3/S3CodeStorageService.java:148-149 | creating the same directories a second time changes nothing |
| Files.CreateDirectoriesWellFormed | src/main/java/org/brown/nanogridplus/s3/S3CodeStorageService.java:94 | creating directories keeps every ancestor of every entry a directory |
| Files.CopyInto | src/main/java/org/brown/nanogridplus/s3/S3CodeStorageService.java:155 | the REPLACE_EXISTING copy first deletes an existing target, so it succeeds exactly when the target has a parent that is a directory and, if the target exists, the system lets it be deleted and nothing lies below it; the target then holds the bytes, nothing else changes, and the tree stays well-formed |
| Files.CreateFileIn | src/main/java/org/brown/nanogridplus/s3/S3CodeStorageService.java:114 | the download target is written exactly when its parent is a directory and nothing is there yet; then only the target changes, and the tree stays well-formed |
| Files.DeleteIn | src/main/java/org/brown/nanogridplus/s3/S3CodeStorageService.java:182 | `delete` succeeds exactly when the path exists, the system lets it be deleted, and nothing lies below it; it then removes that path alone and keeps the tree well-formed |
| Files.DeleteIfExistsIn | src/main/java/org/brown/nanogridplus/s3/S3CodeStorageService.java:51 | `deleteIfExists` fails exactly when the path exists and `delete` would be refused; on success the path is gone, nothing else changes, and the tree stays well-formed |
| Files.Walk | src/main/java/org/brown/nanogridplus/s3/S3CodeStorageService.java:178 | the walk holds exactly the entries at or below the directory, and in a well-formed tree every directory between the start and a walked entry is walked too |
| Files.DeleteEach | src/main/java/org/brown/nanogridplus/s3/S3CodeStorageService.java:180-186 | deleting a list of paths one by one, ignoring refusals, only ever removes entries, never changes one, and keeps every entry not on the list |
| Files.DeleteEachClears | src/main/java/org/brown/nanogridplus/s3/S3CodeStorageService.java:178-187 | deleting the walk in descending order, best effort, leaves everything outside the directory plus exactly the entries that have a refused entry at or below them: one failed delete stops nothing else |
| Files.Cleared | src/main/java/org/brown/nanogridplus/s3/S3CodeStorageService.java:178-187 | the recursive delete only removes entries, never changes one, leaves everything outside the directory, and keeps every entry whose deletion is refused |
| Files.ClearedOnTheWay | src/main/java/org/brown/nanogridplus/s3/S3CodeStorageService.java:89-94 | after the recursive delete, a file lies on the way to the directory exactly when one already lay above it, or the directory is itself a file whose deletion is refused |
| Files.ClearedRemovesAll | src/main/java/org/brown/nanogridplus/s3/S3CodeStorageService.java:178-187 | with nothing refused below it, the recursive delete leaves nothing at or below the directory and everything else |
| Files.ClearedAbsent | src/main/java/org/brown/nanogridplus/s3/S3CodeStorageService.java:174-176 | when the directory does not exist, the recursive delete changes nothing |
| Files.ClearedWellFormed | src/main/java/org/brown/nanogridplus/s3/S3CodeStorageService.java:178-187 | what the recursive delete leaves is still a well-formed tree |
| Files.FileSystem.DeleteIfExists | src/main/java/org/brown/nanogridplus/s3/S3CodeStorageService.java:51 | the mutable file system ends as `DeleteIfExistsIn` describes, and reports whether it threw |
| Files.FileSystem.CreateDirectories | src/main/java/org/brown/nanogridplus/s3/S3CodeStorageService.java:94 | the mutable file system ends as `CreateDirectoriesIn` describes, and reports whether it threw |
| Files.FileSystem.Copy | src/main/java/org/brown/nanogridplus/s3/S3CodeStorageService.java:155 | the mutable file system ends as `CopyInto` describes, and reports whether it threw |
| Files.FileSystem.CreateFile | src/main/java/org/brown/nanogridplus/s3/S3CodeStorageService.java:114 | the mutable file system ends as `CreateFileIn` describes, and reports whether it threw |
| Files.FileSystem.Delete | src/main/java/org/brown/nanogridplus/s3/S3CodeStorageService.java:182 | the mutable file system ends as `DeleteIn` describes, and reports whether it threw |
| Extraction.ExtractEntry | src/main/java/org/brown/nanogridplus/s3/S3CodeStorageService.java:140-159 | one entry: a NUL in its name throws; a rejected entry changes nothing; it throws exactly when the name has a NUL, or it is accepted and blocked (a file on the way, or for a file entry an existing target that cannot be deleted); an accepted directory entry makes the directory and keeps the counter; an accepted file entry writes its bytes and adds exactly one; only the target may change, new entries besides it are directories above it, and nothing is removed |
| Extraction.IsDirectory | src/main/java/org/brown/nanogridplus/s3/S3CodeStorageService.java:148 | an entry is a directory exactly when its name ends in '/', and that slash adds no name to the path the entry resolves to |
| Extraction.Accepts | src/main/java/org/brown/nanogridplus/s3/S3CodeStorageService.java:143 | an absolute name passes exactly when its normal form starts with the target's normal form; a relative name whose normal form climbs no ".." always passes |
| Extraction.DescendingNameAccepted | src/main/java/org/brown/nanogridplus/s3/S3CodeStorageService.java:140-146 | the guard accepts every relative name whose normal form climbs no "..", at the target's normal form followed by the name's |
| Extraction.ExtractAllInside | src/main/java/org/brown/nanogridplus/s3/S3CodeStorageService.java:135-161 | whatever the entry names, the loop changes nothing outside the normalized target directory and keeps the tree well-formed |
| Extraction.ExtractAll | src/main/java/org/brown/nanogridplus/s3/S3CodeStorageService.java:139-160 | the loop never removes an entry, and the counter never exceeds the number of entries |
| Extraction.ExtractAllKeepsFiles | src/main/java/org/brown/nanogridplus/s3/S3CodeStorageService.java:139-160 | the loop never turns a regular file into a directory: a file stays a file, possibly with new bytes |
| Extraction.ExtractArchive | src/main/java/org/brown/nanogridplus/s3/S3CodeStorageService.java:132-161 | a missing or non-file archive throws at once with nothing changed and a count of zero; otherwise the result is the loop over the decoded entries, in tree and count, and it throws exactly when the loop does or the stream breaks off; no entry is removed |
| Extraction.ExtractAllStops | src/main/java/org/brown/nanogridplus/s3/S3CodeStorageService.java:136-161 | once an entry has thrown, the later entries are never acted on |
| Extraction.ExtractAllCount | src/main/java/org/brown/nanogridplus/s3/S3CodeStorageService.java:135-167 | a run without an exception counts exactly the accepted non-directory entries, at most the number of entries |
| Extraction.ExtractAllLastWins | src/main/java/org/brown/nanogridplus/s3/S3CodeStorageService.java:139-160 | in a run that did not throw, an accepted file entry that no later accepted file entry overwrites leaves its bytes at its target: the last entry for a name wins |
| Extraction.ExtractAllComplete | src/main/java/org/brown/nanogridplus/s3/S3CodeStorageService.java:139-160 | in a run that did not throw, every accepted entry's target exists at the end |
| Extraction.AllRejectedChangesNothing | src/main/java/org/brown/nanogridplus/s3/S3CodeStorageService.java:143-146 | an archive whose entries the guard all rejects, an empty one included, changes nothing and ends without error with a count of zero |
| S3Storage.ArchivePath | src/main/java/org/brown/nanogridplus/s3/S3CodeStorageService.java:104 | `resolve("code.zip")` lies one level below the working directory with the name `code.zip`; normalized, it is the normalized working directory followed by `code.zip`, whose parent is the normalized working directory |
| S3Storage.WorkingDir | src/main/java/org/brown/nanogridplus/s3/S3CodeStorageService.java:86 | `Paths.get(baseDir, requestId)` is a valid path; with both parts non-empty it has the names of the base followed by those of the request id; an empty request id adds nothing |
| S3Storage.PlainRequestIdWorkspace | src/main/java/org/brown/nanogridplus/s3/S3CodeStorageService.java:85-86 | a request id that is one plain name gives a working directory one level below the normalized base directory |
| S3Storage.DistinctRequestsDisjoint | src/main/java/org/brown/nanogridplus/s3/S3CodeStorageService.java:85-86 | distinct plain request ids own working directories neither of which lies inside the other |
| S3Storage.ParentRequestIdCoversBase | src/main/java/org/brown/nanogridplus/s3/S3CodeStorageService.java:84-92 | the unchecked request id ".." names the parent of the base directory, so the base, with every other workspace, lies inside it |
| S3Storage.WorkspaceStage | src/main/java/org/brown/nanogridplus/s3/S3CodeStorageService.java:84-98 | a NUL in the joined name throws before touching anything; the stage fails exactly when there is a NUL, a file lies above the working directory, or the working directory is a file whose deletion is refused; a success returns `Paths.get(baseDir, requestId)`, which is then a directory |
| S3Storage.Download | src/main/java/org/brown/nanogridplus/s3/S3CodeStorageService.java:113-125 | a failed download changes nothing; a successful one writes the object's bytes at a previously empty target and nowhere else |
| S3Storage.FromWorkspace | src/main/java/org/brown/nanogridplus/s3/S3CodeStorageService.java:44-54 | after the working directory exists: the download fails, leaving the tree untouched, exactly when the object is missing, the working directory is not a directory, or the archive path is taken; the run fails at extraction exactly when the download succeeded and the extraction threw; it succeeds exactly when, in addition, the archive could be deleted, with the working directory as result, the tree after that deletion, and no archive; every failure carries the request's context |
| S3Storage.Prepare | src/main/java/org/brown/nanogridplus/s3/S3CodeStorageService.java:31-64 | the run fails in stage one exactly when `createWorkingDirectory` does, leaving the tree stage one left; otherwise it is the later stages run on stage one's tree; success returns `baseDir/requestId` with no archive left; every failure names the request id, the chosen bucket and the key |
| S3Storage.WorkspaceStageConfined | src/main/java/org/brown/nanogridplus/s3/S3CodeStorageService.java:84-98 | stage one keeps the tree well-formed and, outside the working directory, only adds directories on the way to it |
| S3Storage.FromWorkspaceInside | src/main/java/org/brown/nanogridplus/s3/S3CodeStorageService.java:44-51 | download, extraction and archive deletion change nothing outside the working directory, keep it a directory, and leave the archive in place when extraction throws |
| S3Storage.ArchiveDeletionSucceeds | src/main/java/org/brown/nanogridplus/s3/S3CodeStorageService.java:51 | in a well-formed tree, deleting the archive after a completed extraction fails only when the system refuses to delete it: extraction leaves a regular file there, with nothing below it |
| S3Storage.PrepareFailsOnlyAtExtraction | src/main/java/org/brown/nanogridplus/s3/S3CodeStorageService.java:31-64 | with the object in the store and nothing locked inside the working directory, a run fails only while creating the working directory or while extracting: the download always succeeds, and so does deleting the archive |
| S3Storage.PrepareConfined | src/main/java/org/brown/nanogridplus/s3/S3CodeStorageService.java:31-64 | a whole run keeps the tree well-formed; outside the working directory it removes and changes nothing, and adds only directories on the way to it |
| S3Storage.WorkspaceStartsEmpty | src/main/java/org/brown/nanogridplus/s3/S3CodeStorageService.java:88-94 | with nothing refused inside it, a freshly created working directory is an empty directory |
| S3Storage.LockedStaleEntrySurvives | src/main/java/org/brown/nanogridplus/s3/S3CodeStorageService.java:180-185 | a stale entry whose deletion is refused stays, unchanged, after the teardown |
| S3Storage.DownloadFailureLeavesEmptyWorkspace | src/main/java/org/brown/nanogridplus/s3/S3CodeStorageService.java:113-125 | after a failed download, the working directory is an empty directory (when nothing inside it is refused) |
| S3Storage.ExtractionFailureKeepsArchive | src/main/java/org/brown/nanogridplus/s3/S3CodeStorageService.java:48-51 | when extraction throws, the archive path is still occupied: deletion happens only after a completed extraction |
| S3Storage.PrepareSucceeded | src/main/java/org/brown/nanogridplus/s3/S3CodeStorageService.java:51-54 | a successful run leaves the working directory as a directory and no archive in it |
| S3Storage.StaleContentsIrrelevant | src/main/java/org/brown/nanogridplus/s3/S3CodeStorageService.java:88-94 | two file systems that agree outside the working directory, with nothing refused inside it, give the same run |
| S3Storage.RecreateAfterTeardown | src/main/java/org/brown/nanogridplus/s3/S3CodeStorageService.java:89-94 | re-creating the working directory after tearing it down gives back the same tree |
| S3Storage.PrepareRerun | src/main/java/org/brown/nanogridplus/s3/S3CodeStorageService.java:31-98 | running the pipeline a second time for the same request ends exactly as the first run did: no residue of the first run remains |
| S3Storage.S3CodeStorageService.PrepareWorkingDirectory | src/main/java/org/brown/nanogridplus/s3/S3CodeStorageService.java:31-64 | the method ends in the state and with the result `Prepare` gives |
| S3Storage.S3CodeStorageService.CreateWorkingDirectory | src/main/java/org/brown/nanogridplus/s3/S3CodeStorageService.java:84-98 | the method ends as `WorkspaceStage` gives |
| S3Storage.S3CodeStorageService.DownloadFromS3 | src/main/java/org/brown/nanogridplus/s3/S3CodeStorageService.java:103-126 | the method ends as `Download` gives, returning the archive path or the download stage's error naming bucket, key and request id |
| S3Storage.S3CodeStorageService.GetObject | src/main/java/org/brown/nanogridplus/s3/S3CodeStorageService.java:114 | the fetch with its file transformer ends as `Download` gives |
| S3Storage.S3CodeStorageService.ExtractZipFile | src/main/java/org/brown/nanogridplus/s3/S3CodeStorageService.java:132-168 | the method ends in the tree and with the counter and exception that `ExtractArchive` gives: a missing archive throws before anything changes, and a stream that breaks off throws after its entries |
| S3Storage.S3CodeStorageService.ExtractEntries | src/main/java/org/brown/nanogridplus/s3/S3CodeStorageService.java:139-160 | the `while` loop ends in the tree and with the counter and exception that `ExtractAll` gives for the entries read |
| S3Storage.S3CodeStorageService.ExtractNextEntry | src/main/java/org/brown/nanogridplus/s3/S3CodeStorageService.java:140-159 | one pass of the loop body ends as `ExtractEntry` gives |
| S3Storage.S3CodeStorageService.DeleteDirectory | src/main/java/org/brown/nanogridplus/s3/S3CodeStorageService.java:173-188 | an absent directory is left alone; otherwise the tree ends as `Cleared` gives |
| Scenarios.AbsoluteEntryRejected | src/main/java/org/brown/nanogridplus/s3/S3CodeStorageService.java:140-146 | the entry `/etc/passwd` is skipped for the target `/work/req-1` |
| Scenarios.ParentEntryRejected | src/main/java/org/brown/nanogridplus/s3/S3CodeStorageService.java:140-146 | the entry `../outside.txt` is skipped |
| Scenarios.DoubleClimbRejected | src/main/java/org/brown/nanogridplus/s3/S3CodeStorageService.java:140-146 | the entry `a/../../b` is skipped |
| Scenarios.ExtractExample | src/main/java/org/brown/nanogridplus/s3/S3CodeStorageService.java:139-160 | entries named `src/main.go` then `src/lib/` (by their parsed names), extracted into a working directory holding only the archive: no exception, a count of one, the file with its bytes, the directory, the archive untouched, and nothing else below the working directory |
| Scenarios.PrepareExample | src/main/java/org/brown/nanogridplus/s3/S3CodeStorageService.java:31-64 | a message for `req-1` under `/work` whose object unzips to `src/main.go` then `src/lib/` succeeds with `/work/req-1`, which then holds the file's bytes, an empty directory `src/lib` and no archive |
| Scenarios.TraversalExample | src/main/java/org/brown/nanogridplus/s3/S3CodeStorageService.java:139-160 | entries named `../outside.txt` then `ok.txt` (by their parsed names): the first is skipped without error, the second is written and counted |
| Scenarios.EscapingRequestId | src/main/java/org/brown/nanogridplus/s3/S3CodeStorageService.java:85-86 | the request id `../etc` under `/tasks` names `/etc`, outside the base |
| Scenarios.BucketChoices | src/main/java/org/brown/nanogridplus/s3/S3CodeStorageService.java:71-78 | no bucket or a blank one gives the default; `" team "` is kept untrimmed |

## Left out

- Logging, the file size reported by `Files.size`, and the Spring and Lombok wiring: they are diagnostics and plumbing. The zero-count warning is a log line only.
- The AWS SDK call itself: it is the `ObjectStore` map. Network, credential and access failures all appear as an absent object. A partly written download is not modelled.
- Zip decoding and stream copying: they are the `unzip` parameter. An entry's bytes are taken as read in full, and a read error is the archive's `truncated` flag, raised after the entries before it.
- Write faults of the file system (disk full, permissions) and errors of `Files.walk`: an operation fails only for the structural reasons the model names, or, for deletion, because the path is in `locked`.
- Symbolic links and permissions: the file system has directories and regular files only.
- Paths as the operating system resolves them: the file system is keyed by normalized paths, and every operation acts on the normalized form of the path it is given. The code hands un-normalized paths to the system (`targetPath.getParent()` at line 152, `targetPath` at lines 149 and 155, the working directory at lines 89 and 94), and the system resolves each ".." through the name before it. So the model and the code differ for any name in which ".." follows a name that is not an existing directory, and for a name whose last part is ".". Examples, for a working directory `T`: the file entry `code.zip/../x.txt`, with `code.zip` a regular file, makes the code's `createDirectories` throw (the system cannot go through a file), while the model writes `T/x.txt` and counts it; the file entry `a/../b.txt` with no `T/a` makes the code go through a missing `T/a`, while the model writes `T/b.txt`; the entry `a/.` makes the code create the directory `T/a` and then copy onto `T/a/.`, while the model writes a file at `T/a`, counted once.
- Path encoding: names are Unicode characters, and the platform encoding is taken to map every one; only NUL makes a path invalid (lines 86, 140). A name the platform encoding cannot map, which `Paths.get` and `resolve` reject, is not modelled as an error of `WorkspaceStage` or `ExtractEntry`.
- Null request id or key: only the bucket may be absent from a message. A missing request id makes `Paths.get` throw at line 86, inside the `try`, so the Java reports it as a failure to create the working directory; the model's messages always carry both strings.
- The empty-path special case of Java's `startsWith`: it is not modelled, and an empty path is the relative root. Relative and absolute paths are never the same key, because there is no current directory.
- Concurrency between requests: it is not present in the code.
- PathOrder.SortDescending: it models the stream's `sorted` as a selection sort into non-increasing order. The stated property is the one the deletion needs (each walked path once, nothing later comparing above anything earlier), not a particular sorting algorithm.
- UnixPath byte order: `compareTo` compares the paths' bytes. The model compares their characters, which agrees for ASCII names.
