/** Cycles on small replicas holding the two tracked files, for any contents:
    the end-to-end case of a remote edit, a simultaneous edit on both sides, a
    local file that was deleted (with and without a remote edit of it), a
    remote object that is missing for a local edit, an empty remote listing,
    and a pass-2 abort whose uncommitted repository change the next cycle
    reverts. */
module Scenarios {
  import opened Wrappers
  import opened Fingerprints
  import opened Replicas
  import opened Reconcile
  import opened CycleProperties

  /** A store holding exactly the two tracked files. */
  function Pair(todo: Content, done: Content): (s: Store)
    ensures forall n :: n in s <==> n in Tracked
  {
    map[TodoFile := todo, DoneFile := done]
  }

  /** Two stores agreeing with `Pair(todo, done)` on every name are that store. */
  lemma PairExt(s: Store, todo: Content, done: Content)
    requires Get(s, TodoFile) == Some(todo) && Get(s, DoneFile) == Some(done)
    requires forall n :: n !in Tracked ==> n !in s
    ensures s == Pair(todo, done)
  {
    forall n ensures Get(s, n) == Get(Pair(todo, done), n) {
      if n !in Tracked {
        assert n !in Pair(todo, done);
      }
    }
    StoreExt(s, Pair(todo, done));
  }

  /** Pass 1 changes nothing when some tracked object is listed and the
      repository already holds every listed object's content. */
  lemma PullUnchanged(w: World)
    requires TodoFile in w.remote || DoneFile in w.remote
    requires forall n :: n in Tracked && n in w.remote ==> Get(w.repo, n) == Some(w.remote[n])
    ensures Pull(w) == Run(Done, w)
  {
    ListingEmpty(w);
    PullEffect(w);
    StoreExt(Pull(w).after.repo, w.repo);
    StoreExt(Pull(w).after.local, w.local);
  }

  /** The repository holds todo `a` and done `b`, the remote todo was edited to
      `a2`, the local directory is unchanged: pass 1 takes `a2` into the
      repository and the local directory with one commit "Push from mobile" of
      todo.txt alone, and pass 2 finds nothing to do. */
  lemma RemoteEditScenario(a: Content, a2: Content, b: Content)
    requires a != a2
    ensures var w := World(Pair(a2, b), Pair(a, b), Pair(a, b), []);
            && Cycle(w).outcome == Done
            && Cycle(w).after.remote == Cycle(w).after.repo == Cycle(w).after.local == Pair(a2, b)
            && |Cycle(w).after.log| == 1
            && Cycle(w).after.log[0].message == PullMessage
            && (forall n :: n in Cycle(w).after.log[0].files <==> n == TodoFile)
  {
    var w := World(Pair(a2, b), Pair(a, b), Pair(a, b), []);
    RemoteEditConverges(w, a2, b);
  }

  /** Remote todo `a2`, repository todo `a` and local todo `a3`, all different:
      the remote content reaches all three replicas with a single commit "Push
      from mobile", and the local edit is overwritten. */
  lemma SimultaneousEditScenario(a: Content, a2: Content, a3: Content, b: Content)
    requires a != a2 && a != a3 && a2 != a3
    ensures var w := World(Pair(a2, b), Pair(a, b), Pair(a3, b), []);
            && Cycle(w).outcome == Done
            && Cycle(w).after.remote == Cycle(w).after.repo == Cycle(w).after.local == Pair(a2, b)
            && |Cycle(w).after.log| == 1
            && Cycle(w).after.log[0].message == PullMessage
            && (forall n :: n in Cycle(w).after.log[0].files <==> n == TodoFile)
  {
    var w := World(Pair(a2, b), Pair(a, b), Pair(a3, b), []);
    RemoteEditConverges(w, a2, b);
  }

  /** The shared step of the two scenarios above. */
  lemma RemoteEditConverges(w: World, a2: Content, b: Content)
    requires w.remote == Pair(a2, b) && Get(w.repo, TodoFile) != Some(a2)
    requires Get(w.repo, DoneFile) == Some(b) && Get(w.local, DoneFile) == Some(b)
    requires forall n :: n !in Tracked ==> n !in w.repo && n !in w.local
    ensures Cycle(w).outcome == Done
    ensures Cycle(w).after.remote == Cycle(w).after.repo == Cycle(w).after.local == Pair(a2, b)
    ensures |Cycle(w).after.log| == |w.log| + 1
    ensures Cycle(w).after.log[|w.log|].message == PullMessage
    ensures forall n :: n in Cycle(w).after.log[|w.log|].files <==> n == TodoFile
  {
    RemoteEditWins(w, TodoFile);
    CycleOutcome(w);
    CycleConverges(w);
    var u := Cycle(w).after;
    assert !PullChanged(w, DoneFile);
    PairExt(u.repo, a2, b);
    PairExt(u.local, a2, b);
    PairExt(u.remote, a2, b);
  }

  /** The local todo.txt was deleted while the other replicas hold `a`: pass 2
      must copy a missing local file in, and the cycle aborts with nothing
      changed. */
  lemma LocalDeletionScenario(a: Content, b: Content)
    ensures var w := World(Pair(a, b), Pair(a, b), map[DoneFile := b], []);
            Cycle(w) == Run(Abort(MissingFile(LocalDir, TodoFile)), w)
  {
    var w := World(Pair(a, b), Pair(a, b), map[DoneFile := b], []);
    PullUnchanged(w);
    assert FileMd5(Get(w.local, TodoFile)) != FileMd5(Get(w.repo, TodoFile));
    assert LocalScan(w, [], Tracked) == Scan(Abort(MissingFile(LocalDir, TodoFile)), w, []);
  }

  /** The local todo.txt was deleted while the remote todo was edited to `a2`:
      pass 1 writes `a2` into the repository and creates the local file again,
      so pass 2 finds nothing missing and the cycle completes with all replicas
      equal to the remote pair. */
  lemma DeletedFileRestoredByRemoteEdit(a: Content, a2: Content, b: Content)
    requires a != a2
    ensures var w := World(Pair(a2, b), Pair(a, b), map[DoneFile := b], []);
            && Cycle(w).outcome == Done
            && Cycle(w).after.remote == Cycle(w).after.repo == Cycle(w).after.local == Pair(a2, b)
            && |Cycle(w).after.log| == 1
            && Cycle(w).after.log[0].message == PullMessage
  {
    var w := World(Pair(a2, b), Pair(a, b), map[DoneFile := b], []);
    RemoteEditConverges(w, a2, b);
  }

  /** The remote store has no todo.txt and the local todo.txt was edited to
      `a2`: pass 2 copies it into the repository and commits "Push from local",
      and then the upload aborts the cycle. The commit stays in the log and the
      remote store is unchanged. */
  lemma MissingRemoteObjectScenario(a: Content, a2: Content, b: Content)
    requires a != a2
    ensures var w := World(map[DoneFile := b], Pair(a, b), Pair(a2, b), []);
            && Cycle(w).outcome == Abort(NoRemoteObject(TodoFile))
            && Cycle(w).after.repo == Pair(a2, b)
            && Cycle(w).after.remote == w.remote
            && |Cycle(w).after.log| == 1
            && Cycle(w).after.log[0].message == PushMessage
            && (forall n :: n in Cycle(w).after.log[0].files <==> n == TodoFile)
            && Get(Cycle(w).after.log[0].staged, TodoFile) == Some(a2)
  {
    var w := World(map[DoneFile := b], Pair(a, b), Pair(a2, b), []);
    PullUnchanged(w);
    assert LocalDiffers(w, TodoFile) && !LocalDiffers(w, DoneFile);
    PushBackEffect(w);
    var u := PushBack(w).after;
    PairExt(u.repo, a2, b);
    forall n ensures Get(u.remote, n) == Get(w.remote, n) {
      if n == TodoFile {
        assert n !in u.remote;
      }
    }
    StoreExt(u.remote, w.remote);
  }

  /** No tracked object in the remote store: the cycle aborts at once and
      changes nothing, even though the local copy differs. */
  lemma EmptyListingScenario(a: Content, a2: Content)
    ensures var w := World(map[], map[TodoFile := a], map[TodoFile := a2], []);
            Cycle(w) == Run(Abort(EmptyListing), w)
  {
    var w := World(map[], map[TodoFile := a], map[TodoFile := a2], []);
    CycleFailures(w);
  }

  /** The local todo.txt was edited to `a2` and the local done.txt deleted:
      pass 2 copies `a2` into the repository, then aborts on done.txt before
      committing anything, so the repository copy is left uncommitted. */
  lemma AbortAfterCopyScenario(a: Content, a2: Content, b: Content)
    requires a != a2
    ensures var w := World(Pair(a, b), Pair(a, b), map[TodoFile := a2], []);
            Cycle(w) == Run(Abort(MissingFile(LocalDir, DoneFile)), w.(repo := Pair(a2, b)))
  {
    var w := World(Pair(a, b), Pair(a, b), map[TodoFile := a2], []);
    PullUnchanged(w);
    CopyThenMissing(a, a2, b);
  }

  /** The loop of pass 2 in the previous scenario: todo.txt is copied, then
      done.txt is found missing locally. */
  lemma CopyThenMissing(a: Content, a2: Content, b: Content)
    requires a != a2
    ensures var w := World(Pair(a, b), Pair(a, b), map[TodoFile := a2], []);
            LocalScan(w, [], Tracked) ==
            Scan(Abort(MissingFile(LocalDir, DoneFile)), w.(repo := Pair(a2, b)), [TodoFile])
  {
    var w := World(Pair(a, b), Pair(a, b), map[TodoFile := a2], []);
    var u := w.(repo := Pair(a2, b));
    var none: seq<Name> := [];
    assert Tracked[0] == TodoFile && Tracked[1..] == [DoneFile];
    LocalScanStep(w, none, Tracked);
    assert none + [TodoFile] == [TodoFile];
    assert w.repo[TodoFile := w.local[TodoFile]] == Pair(a2, b);
    LocalScanStep(u, [TodoFile], [DoneFile]);
  }

  /** Continuing the previous scenario with no change in between: the next
      cycle sees the remote `a` differ from the uncommitted repository copy `a2`,
      puts `a` back into the local directory, and aborts again on done.txt. The
      local edit is lost. */
  lemma AbortedPassLosesLocalEdit(a: Content, a2: Content, b: Content)
    requires a != a2
    ensures var u := World(Pair(a, b), Pair(a2, b), map[TodoFile := a2], []);
            && Cycle(u).outcome == Abort(MissingFile(LocalDir, DoneFile))
            && Get(Cycle(u).after.local, TodoFile) == Some(a)
  {
    var u := World(Pair(a, b), Pair(a2, b), map[TodoFile := a2], []);
    ListingEmpty(u);
    PullEffect(u);
    assert PullChanged(u, TodoFile);
    var t := Pull(u).after;
    assert Cycle(u) == PushBack(t);
    assert Get(t.local, TodoFile) == Some(a) && Get(t.repo, TodoFile) == Some(a);
    assert LocalDiffers(t, DoneFile) && DoneFile !in t.local && DoneFile in t.remote;
    assert forall n :: LocalDiffers(t, n) ==> n == DoneFile;
    PushBackEffect(t);
  }
}
