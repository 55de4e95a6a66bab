# todosync reconciliation cycle in Dafny

todosync keeps two plain-text task files, `todo.txt` and `done.txt`, in step
across three replicas:

- a remote cloud-drive store, edited from a phone;
- a git repository on this machine, which keeps the history;
- a local working directory, edited on this machine.

Every five seconds (main.go:101) the program runs one *cycle*, which has two passes.

- **Pass 1** lists the tracked remote objects by name. Each object whose MD5
  digest differs from the fingerprint of the repository file is downloaded
  over that file. If anything changed, the pass commits once with the message
  "Push from mobile" and copies each changed file into the local directory.
- **Pass 2** compares the fingerprint of each tracked local file with the
  repository file's. Each local file that differs is copied over the
  repository file. If anything changed, the pass commits once with the message
  "Push from local" and uploads each changed file over the remote object of
  that name.

Most failures in the program are fatal. The process stops where it is and
nothing is rolled back. The error of the download request (main.go:150) is not
checked, but a failed request leaves no response, and closing its body
(main.go:151) then ends the process as well. Only the error of copying the
downloaded body into the repository file (main.go:197) lets the cycle go on.

The model has these modules:

- `Fingerprints`: `filemd5`. A missing file has the empty fingerprint. MD5 is
  treated as collision-free.
- `Replicas`: the world, meaning the three replicas as maps from file name to
  bytes plus the commit log, and the single-file operations `saveFile`,
  `pushToLocal`, `pushToDrive` and `commitToGit`. Each is a function from the
  world to a `Run`, which is an outcome (`Done` or `Abort(failure)`) together
  with the world afterwards.
- `Reconcile`: each loop of `cycle` as a recursive function over the names it
  still has to visit, then the two passes and the cycle.
- `Engine`: a `Syncer` class whose fields are the replicas and the log. Its
  methods run the same loops in place. Each method is proved to leave exactly
  the world that the matching function computes.
- `CycleProperties`: what a cycle does, stated over all worlds.
- `Scenarios`: end-to-end cycles on small worlds, proved for any file
  contents.

Two consequences of the pass order and of the fatal reads are worth stating:

- **A simultaneous edit goes to the remote side.** Pass 2 runs last, but pass 1
  has already copied the remote content over the repository file (main.go:153)
  and the local file (main.go:159-160). Pass 2 then finds the two equal, and the
  local edit is overwritten. See `CycleProperties.RemoteEditWins` and
  `Scenarios.SimultaneousEditScenario`.
- **A local file that is missing while the repository has it, and that pass 1
  did not rewrite, aborts the cycle.** Pass 2 finds that the local fingerprint
  (empty) differs from the repository's, and calls `pushToLocal` from the local
  directory. Reading the missing file there is fatal (main.go:202-205). The
  file is not copied back in from the repository. See
  `Scenarios.LocalDeletionScenario` and `CycleProperties.CycleFailures`. When
  pass 1 did change the file, it writes the remote content into the local
  directory, which creates the file (main.go:159-160), and the cycle completes
  (`Scenarios.DeletedFileRestoredByRemoteEdit`). A file missing from both the
  local directory and the repository has equal (empty) fingerprints and is
  skipped (main.go:172).

The model also makes one more consequence explicit. Pass 2 copies files into
the repository before it commits. If it aborts between the copy and the
commit, the repository keeps an uncommitted change. In the next run, pass 1
sees the remote object differ from that file and puts the remote content back
into the repository file. Commits never fail in the model (see "Left out"), so
pass 1 goes on to copy the file into the local directory, and the local edit
is lost. In the program, that commit usually has nothing new relative to the last
commit. Whether go-git refuses such an empty commit, which would end the run
before the copy, depends on its version. See
`Scenarios.AbortAfterCopyScenario` and `Scenarios.AbortedPassLosesLocalEdit`.

## Model

| member | source | states |
|---|---|---|
| Fingerprints.ContentMd5 | main.go:144 | the digest the remote store reports for an object is never the empty fingerprint |
| Fingerprints.FileMd5 | main.go:214-224 | the fingerprint is the empty sentinel exactly when the file does not exist |
| Fingerprints.FileMd5Injective | main.go:214-224 | two fingerprints are equal exactly when both files are missing or both exist with the same content |
| Replicas.SaveFile | main.go:191-198 | after the save, the repository file's fingerprint is the downloaded content's digest; the other files, the other replicas and the log are unchanged |
| Replicas.PushToLocal | main.go:200-212 | completes exactly when the source file exists, and then the target file has the source's fingerprint; a missing source aborts with nothing written; only the target file of the target directory changes |
| Replicas.PushToDrive | main.go:266-294 | completes exactly when a remote object of that name exists and the repository file exists; a missing remote object is reported before a missing repository file; afterwards the object holds the repository content; objects are never created or removed and nothing else changes |
| Replicas.Stage | main.go:244-251 | staging succeeds exactly when every name has a repository file; the index then holds each staged name with its repository content and keeps earlier entries; otherwise it fails on a listed name missing from the repository |
| Replicas.CommitToGit | main.go:226-264 | an empty change list does nothing; otherwise the commit succeeds exactly when every change exists in the repository and appends one commit with the message, the names and their contents; a failure changes nothing; replicas never change |
| Reconcile.Listing | main.go:128-135 | the listing holds exactly the tracked names that have a remote object, ordered by name |
| Reconcile.PullScanEffect | main.go:137-156 | after the pass-1 loop, the repository holds the remote content of every listed name, and the change list gained exactly the listed names whose repository copy differed |
| Reconcile.PullScanOrder | main.go:137-156 | for a listing without repeated names, the pass-1 loop appends the differing names to the change list in listing order |
| Reconcile.CopyToLocalEffect | main.go:159-161 | the pass-1 copy loop completes exactly when every changed name exists in the repository, and then each local file holds the repository copy; otherwise it aborts on a missing one |
| Reconcile.CopyToLocalAbortState | main.go:159-161 | when the pass-1 copy loop aborts on a name, every name before its first occurrence exists in the repository, so the loop stops at the first missing one; every name before it has been copied to the local directory and the rest is unchanged |
| Reconcile.LocalScanEffect | main.go:167-182 | the pass-2 loop completes exactly when every differing visited file exists locally, and then the repository holds each local copy and the change list gained exactly the differing files; otherwise it aborts on a differing file missing locally |
| Reconcile.LocalScanOrder | main.go:167-182 | for names without repetition, a completed pass-2 loop appends the differing names to the change list in visiting order |
| Reconcile.LocalScanAbortState | main.go:167-182 | when the pass-2 loop aborts on a name missing locally, every name visited before it had equal copies or existed locally, so the loop stops at the first differing file missing locally; the repository holds the local copy of every name visited before it and is unchanged elsewhere |
| Reconcile.UploadAllEffect | main.go:185-187 | the upload loop completes exactly when every changed name has a remote object and a repository file, and then each such object holds the repository content; objects outside the list are never touched |
| Reconcile.UploadAllAbortState | main.go:185-187 | when the upload loop aborts on a name, every name before it has a remote object and a repository file, so the loop stops at the first name without one; every name before it has been uploaded and the other remote objects are unchanged |
| Reconcile.ListingDistinct | main.go:128-129 | the listing names each object once, and the tracked file list names each file once |
| CycleProperties.PullEffect | main.go:127-164 | with a non-empty listing, pass 1 completes; the repository holds every listed object's content; the local directory holds the remote content of exactly the files that differed; one "Push from mobile" commit naming exactly those files is appended, and none when nothing differed |
| CycleProperties.PushBackEffect | main.go:166-188 | pass 2 completes exactly when every differing file exists locally and remotely, and otherwise it fails on one of them; once the copies succeed, the repository equals the local directory on the tracked files and one "Push from local" commit of exactly the differing files is kept even if an upload fails; a completed pass uploads exactly those files |
| CycleProperties.PullCommitOrder | main.go:155-158 | the "Push from mobile" commit names the changed files in listing order |
| CycleProperties.PushBackCommitOrder | main.go:180-184 | once every differing local file exists, the "Push from local" commit names the differing files in the order todo.txt, done.txt |
| CycleProperties.PullThenDiffers | main.go:157-182 | after pass 1, a local file differs from the repository exactly when the remote did not change it and the local copy was edited; such a local copy is untouched by pass 1 |
| CycleProperties.ListingEmpty | main.go:133-135 | the listing is empty exactly when no tracked name has a remote object |
| CycleProperties.CycleOutcome | main.go:121-189 | a cycle completes exactly when some tracked object is listed and every locally edited file exists both locally and remotely |
| CycleProperties.CycleFailures | main.go:121-189 | the only aborts are: an empty listing, which happens exactly when no tracked object exists and changes nothing; a locally edited file that is missing locally; a locally edited file with no remote object |
| CycleProperties.CycleConverges | main.go:121-189 | a cycle that meets the completion condition of CycleOutcome completes, and afterwards all replicas agree on the tracked files; each holds the remote content where the remote changed and the local content otherwise; remote objects are neither created nor removed; untracked files are untouched |
| CycleProperties.CycleCommits | main.go:157-188 | a cycle only appends to the log and adds at most two commits; a completed cycle adds one commit per pass that found a change |
| CycleProperties.NoOpWhenInSync | main.go:137-182 | when the replicas agree and something is listed, a cycle changes nothing and commits nothing |
| CycleProperties.CycleIdempotent | main.go:121-189 | a cycle that meets the completion condition of CycleOutcome completes, and a second cycle right after it changes nothing and commits nothing |
| CycleProperties.RemoteEditWins | main.go:137-164 | a remote change to one file reaches all three replicas, whatever happened to the local copy, with exactly one "Push from mobile" commit naming that file |
| CycleProperties.LocalEditPropagates | main.go:166-188 | a local edit to one file that exists remotely reaches all three replicas with exactly one "Push from local" commit naming that file |
| Scenarios.PullUnchanged | main.go:137-157 | pass 1 changes nothing when the repository already holds every listed object's content |
| Scenarios.RemoteEditConverges | main.go:121-189 | a remote todo edit with done.txt in sync ends with all replicas equal to the remote pair and one "Push from mobile" commit of todo.txt |
| Scenarios.RemoteEditScenario | main.go:121-189 | end to end, a remote-only todo edit converges with exactly one "Push from mobile" commit of todo.txt |
| Scenarios.SimultaneousEditScenario | main.go:137-164 | when both sides edit todo.txt, the remote content ends in all replicas and the local edit is lost |
| Scenarios.LocalDeletionScenario | main.go:167-182 | a deleted local todo.txt aborts the cycle in pass 2 with nothing changed |
| Scenarios.MissingRemoteObjectScenario | main.go:266-274 | a local edit with no remote object is copied and committed, then the upload aborts; the commit stays and the remote store is unchanged |
| Scenarios.EmptyListingScenario | main.go:133-135 | with no tracked remote object, the cycle aborts at once and changes nothing, even though a local file differs |
| Scenarios.DeletedFileRestoredByRemoteEdit | main.go:137-164 | a deleted local todo.txt whose remote object was edited is created again by pass 1, and the cycle completes with all replicas equal to the remote pair and one "Push from mobile" commit |
| Scenarios.CopyThenMissing | main.go:167-182 | the pass-2 loop copies the edited todo.txt, then aborts on the missing local done.txt |
| Scenarios.AbortAfterCopyScenario | main.go:166-182 | that abort leaves the copied todo.txt uncommitted in the repository |
| Scenarios.AbortedPassLosesLocalEdit | main.go:137-182 | with commits that never fail, the next cycle restores the remote todo.txt into the local directory and aborts again, so the local edit is lost |
| Engine.Syncer.SaveFile | main.go:191-198 | the in-place save leaves exactly the world `Replicas.SaveFile` describes |
| Engine.Syncer.PushToLocal | main.go:200-212 | the in-place copy has the outcome and the world `Replicas.PushToLocal` describes |
| Engine.Syncer.PushToDrive | main.go:266-294 | the in-place upload has the outcome and the world `Replicas.PushToDrive` describes |
| Engine.Syncer.CommitToGit | main.go:226-264 | the staging loop and commit have the outcome and the world `Replicas.CommitToGit` describes |
| Engine.Syncer.PullPass | main.go:123-164 | the pass-1 loop, commit and copy have the outcome and the world `Reconcile.Pull` describes |
| Engine.Syncer.CopyChanges | main.go:159-161 | the pass-1 copy loop has the outcome and the world `Reconcile.CopyToLocal` describes |
| Engine.Syncer.PushPass | main.go:166-188 | the pass-2 loop, commit and upload have the outcome and the world `Reconcile.PushBack` describes |
| Engine.Syncer.UploadChanges | main.go:185-187 | the upload loop has the outcome and the world `Reconcile.UploadAll` describes |
| Engine.Syncer.Cycle | main.go:121-189 | a cycle run in place has the outcome and the world `Reconcile.Cycle` describes, so every `CycleProperties` lemma holds of it |

## Left out

- Authentication with the cloud drive, the token file, the ticker that starts a cycle, the quit channel and logging are not modelled. A cycle is one call.
- The remote store is a map from object name to content, so it holds one object per name. The drive allows several objects with the same name. Pass 1 then handles every listed object (main.go:137), so it can download several of them in turn and put the name in its change list twice, while `pushToDrive` uploads only to the first object the listing returns (main.go:274). That case is not modelled, and neither are object ids, the name-only listing fields, the query strings or paging.
- Errors from the drive API are not modelled: listing, metadata, download and update requests all succeed, and a download delivers the whole object. The program does not check the download error (main.go:150), but it then dereferences the missing response when closing its body (main.go:151), which ends the process, so this failure is fatal like the others. Among the upload checks, only the empty listing at `r.Files[0]` is modelled.
- Nobody changes the replicas from outside during a cycle. The model reads each replica as it stands when the step that uses it runs, with nothing in between. The program reads the remote digest (main.go:138), downloads the object later (main.go:150), and reads the local files in pass 2 (main.go:169) after pass 1 has run. An edit made on the phone or on this machine between those reads is not modelled.
- Local I/O errors are not modelled, except a missing file: `os.Create` failing, a write failing, a read failing for a reason other than a missing file, and `filemd5` failing on an existing file. `saveFile` ignores the error of `io.Copy` (main.go:197). So after a download cut off midway, pass 1 commits the truncated repository file and copies it to the local directory. The model has no truncated content.
- Opening the git repository, opening its worktree and creating a commit never fail in the model. Of the staging step, only a missing file is modelled. A commit records its message, its staged names and their contents. Its author, time, hash and tree are not modelled, and the model does not tell the committed tree from the working tree, so a commit that changes nothing relative to the last commit is appended like any other.
- `ContentMd5`/`FileMd5`: MD5 itself and its hex encoding are not modelled. A digest is represented by the content it was taken of, which assumes that MD5 has no collisions.
- Joining a directory with a file name, and `filepath.Base`, are the identity on bare file names.
- A fatal error ends the process. The model ends the cycle with an `Abort` outcome and leaves the world as it was at that moment. A later cycle in the scenarios stands for the next run of the program.
- `Engine.Syncer.Cycle` runs the two passes as two methods, and each copy or upload loop as a method of its own. The program runs them inline in one function. The shared `changes` list starts empty in pass 2 because the program empties it after the pass-1 commit, and it is empty anyway when pass 1 found nothing.
