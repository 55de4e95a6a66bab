/** What one reconciliation cycle does, stated over the three replicas before
    the cycle: which files each pass changes, what every replica holds
    afterwards, how many commits are appended, and when the cycle aborts. */
module CycleProperties {
  import opened Wrappers
  import opened Fingerprints
  import opened Replicas
  import opened Reconcile

  /** Pass 1 changes `n`: a remote object of that name exists and its content is
      not the repository's (a missing repository file included). */
  predicate PullChanged(w: World, n: Name)
  {
    n in Tracked && n in w.remote && Get(w.repo, n) != Some(w.remote[n])
  }

  /** The local copy of `n` differs from the repository copy. */
  predicate LocalDiffers(w: World, n: Name)
  {
    n in Tracked && Get(w.local, n) != Get(w.repo, n)
  }

  /** Pass 2 changes `n`: the local copy differs from the repository copy and
      pass 1 did not overwrite both with the remote content first. */
  predicate LocalEdited(w: World, n: Name)
  {
    LocalDiffers(w, n) && !PullChanged(w, n)
  }

  /** All replicas agree on every tracked file: local and repository copies are
      equal (both may be missing), and a remote object of that name holds the
      repository content. */
  predicate InSync(w: World)
  {
    forall n :: n in Tracked ==>
      Get(w.local, n) == Get(w.repo, n) && (n in w.remote ==> Get(w.repo, n) == Some(w.remote[n]))
  }

  /** The condition under which a cycle completes (`CycleOutcome`): some tracked
      object is listed, and every file pass 2 has to change exists locally and has
      a remote object. */
  ghost predicate Completes(w: World)
  {
    && (exists n :: n in Tracked && n in w.remote)
    && (forall n :: LocalEdited(w, n) ==> n in w.local && n in w.remote)
  }

  /** Two stores with the same files are the same store. */
  lemma StoreExt(a: Store, b: Store)
    requires forall n :: Get(a, n) == Get(b, n)
    ensures a == b
  {
    assert a.Keys == b.Keys by {
      forall n ensures n in a <==> n in b {
        assert Get(a, n) == Get(b, n);
      }
    }
    forall n | n in a ensures a[n] == b[n] {
      assert Get(a, n) == Get(b, n);
    }
  }

  /** Pass 1 with a non-empty listing: every listed object's content is now in
      the repository; every changed file is copied to the local directory; one
      commit "Push from mobile" records exactly the changed files with the remote
      content, and no commit is made when nothing changed. */
  lemma PullEffect(w: World)
    requires Listing(w.remote) != []
    ensures Pull(w).outcome == Done
    ensures Pull(w).after.remote == w.remote
    ensures forall n :: Get(Pull(w).after.repo, n) ==
                        if n in Tracked && n in w.remote then Some(w.remote[n]) else Get(w.repo, n)
    ensures forall n :: Get(Pull(w).after.local, n) ==
                        if PullChanged(w, n) then Some(w.remote[n]) else Get(w.local, n)
    ensures (forall n :: !PullChanged(w, n)) ==> Pull(w).after.log == w.log
    ensures (exists n :: PullChanged(w, n)) ==>
              && |Pull(w).after.log| == |w.log| + 1
              && Pull(w).after.log[..|w.log|] == w.log
              && Pull(w).after.log[|w.log|].message == PullMessage
              && (forall n :: n in Pull(w).after.log[|w.log|].files <==> PullChanged(w, n))
              && (forall n :: PullChanged(w, n) ==> Get(Pull(w).after.log[|w.log|].staged, n) == Some(w.remote[n]))
  {
    var listing := Listing(w.remote);
    var (repo', changes) := PullScan(w.remote, w.repo, [], listing);
    PullScanEffect(w.remote, w.repo, [], listing);
    var w1 := w.(repo := repo');
    assert forall n :: n in changes <==> PullChanged(w, n);
    if changes != [] {
      var c := CommitToGit(w1, changes, PullMessage);
      assert c.outcome == Done;
      assert LogGrewBy(w.log, c.after.log, PullMessage, changes, repo');
      var r := CopyToLocal(c.after, changes);
      CopyToLocalEffect(c.after, changes);
      assert r.outcome == Done;
      assert Pull(w) == r;
    } else {
      forall n ensures !PullChanged(w, n) {
        assert n !in changes;
      }
    }
  }

  /** Pass 2 on any world `t`: it completes exactly when every tracked file whose
      local copy differs from the repository's exists locally and has a remote
      object. Once every such file exists locally, the repository equals the
      local directory on the tracked files and one commit "Push from local"
      naming exactly the differing files is appended (none when nothing
      differed), even when an upload then aborts; a completed pass has uploaded
      exactly the differing files. */
  lemma PushBackEffect(t: World)
    ensures PushBack(t).outcome == Done <==>
              forall n :: LocalDiffers(t, n) ==> n in t.local && n in t.remote
    ensures PushBack(t).outcome.Abort? ==>
              var f := PushBack(t).outcome.failure;
              || (f.MissingFile? && f.dir == LocalDir && LocalDiffers(t, f.name) && f.name !in t.local)
              || (f.NoRemoteObject? && LocalDiffers(t, f.name) && f.name !in t.remote)
    ensures PushBack(t).after.remote.Keys == t.remote.Keys
    ensures forall n :: !LocalDiffers(t, n) ==> Get(PushBack(t).after.remote, n) == Get(t.remote, n)
    ensures PushBack(t).after.local == t.local
    ensures t.log <= PushBack(t).after.log && |PushBack(t).after.log| <= |t.log| + 1
    ensures (forall n :: !LocalDiffers(t, n)) ==> PushBack(t) == Run(Done, t)
    ensures (forall n :: LocalDiffers(t, n) ==> n in t.local) ==>
              forall n :: Get(PushBack(t).after.repo, n) == if n in Tracked then Get(t.local, n) else Get(t.repo, n)
    ensures (forall n :: LocalDiffers(t, n) ==> n in t.local) && (exists n :: LocalDiffers(t, n)) ==>
              && |PushBack(t).after.log| == |t.log| + 1
              && PushBack(t).after.log[|t.log|].message == PushMessage
              && (forall n :: n in PushBack(t).after.log[|t.log|].files <==> LocalDiffers(t, n))
              && (forall n :: LocalDiffers(t, n) ==> Get(PushBack(t).after.log[|t.log|].staged, n) == Get(t.local, n))
    ensures PushBack(t).outcome == Done ==>
              forall n :: Get(PushBack(t).after.remote, n) ==
                          if LocalDiffers(t, n) then Get(t.local, n) else Get(t.remote, n)
  {
    var scan := LocalScan(t, [], Tracked);
    LocalScanEffect(t, [], Tracked);
    if scan.outcome.Done? {
      assert forall n :: n in scan.changes <==> LocalDiffers(t, n);
      if scan.changes == [] {
        forall n ensures !LocalDiffers(t, n) {
          assert n !in scan.changes;
        }
        StoreExt(scan.after.repo, t.repo);
        assert scan.after == t;
      } else {
        var c := CommitToGit(scan.after, scan.changes, PushMessage);
        assert c.outcome == Done;
        assert LogGrewBy(t.log, c.after.log, PushMessage, scan.changes, scan.after.repo);
        var u := UploadAll(c.after, scan.changes);
        UploadAllEffect(c.after, scan.changes);
        assert PushBack(t) == u;
        assert u.outcome == Done <==> forall n :: n in scan.changes ==> n in t.remote;
      }
    }
  }

  /** The commit of pass 1 names the changed files in listing order, and the
      commit of pass 2 names them in the order of the tracked files. */
  lemma PullCommitOrder(w: World)
    requires Listing(w.remote) != []
    ensures (exists n :: PullChanged(w, n)) ==>
              && |Pull(w).after.log| == |w.log| + 1
              && Pull(w).after.log[|w.log|].files == PullDiffering(w.remote, w.repo, Listing(w.remote))
  {
    PullEffect(w);
    var listing := Listing(w.remote);
    var (repo', changes) := PullScan(w.remote, w.repo, [], listing);
    PullScanOrder(w.remote, w.repo, [], listing);
    ListingDistinct(w.remote);
    if changes != [] {
      var c := CommitToGit(w.(repo := repo'), changes, PullMessage);
      assert LogGrewBy(w.log, c.after.log, PullMessage, changes, repo');
      assert Pull(w) == CopyToLocal(c.after, changes);
    }
  }

  /** See `PullCommitOrder`: once every differing local file exists, pass 2
      commits the differing files in the order of the tracked files. */
  lemma PushBackCommitOrder(t: World)
    ensures (forall n :: LocalDiffers(t, n) ==> n in t.local) && (exists n :: LocalDiffers(t, n)) ==>
              && |PushBack(t).after.log| == |t.log| + 1
              && PushBack(t).after.log[|t.log|].files == LocalDiffering(t, Tracked)
  {
    PushBackEffect(t);
    var scan := LocalScan(t, [], Tracked);
    LocalScanEffect(t, [], Tracked);
    LocalScanOrder(t, [], Tracked);
    ListingDistinct(t.remote);
    if scan.outcome == Done && scan.changes != [] {
      var c := CommitToGit(scan.after, scan.changes, PushMessage);
      assert LogGrewBy(t.log, c.after.log, PushMessage, scan.changes, scan.after.repo);
      assert PushBack(t) == UploadAll(c.after, scan.changes);
    }
  }

  /** After pass 1, the local copy of a tracked file differs from the
      repository copy exactly when pass 2 is to change that file, and for such a
      file pass 1 left the local copy as it was. */
  lemma PullThenDiffers(w: World, n: Name)
    requires Listing(w.remote) != []
    ensures LocalDiffers(Pull(w).after, n) <==> LocalEdited(w, n)
    ensures LocalEdited(w, n) ==> Get(Pull(w).after.local, n) == Get(w.local, n)
  {
    PullEffect(w);
  }

  /** The listing is empty exactly when no tracked name has a remote object. */
  lemma ListingEmpty(w: World)
    ensures Listing(w.remote) == [] <==> forall n :: n in Tracked ==> n !in w.remote
  {
    if Listing(w.remote) != [] {
      assert Listing(w.remote)[0] in Listing(w.remote);
    }
  }

  /** A cycle completes exactly when the remote listing is non-empty and every
      file that pass 2 has to change exists locally and has a remote object. */
  lemma CycleOutcome(w: World)
    ensures Cycle(w).outcome == Done <==>
              && (exists n :: n in Tracked && n in w.remote)
              && (forall n :: LocalEdited(w, n) ==> n in w.local && n in w.remote)
  {
    ListingEmpty(w);
    if Listing(w.remote) != [] {
      PullEffect(w);
      var t := Pull(w).after;
      assert Cycle(w) == PushBack(t);
      PushBackEffect(t);
      forall n ensures LocalDiffers(t, n) <==> LocalEdited(w, n) {
        PullThenDiffers(w, n);
      }
    }
  }

  /** The three ways a cycle aborts: an empty remote listing, which changes
      nothing; a file pass 2 has to copy in that is missing locally; a file pass 2
      has to upload that has no remote object. Staging and reading repository
      files never fail within a cycle. */
  lemma CycleFailures(w: World)
    ensures Cycle(w).outcome == Abort(EmptyListing) <==> forall n :: n in Tracked ==> n !in w.remote
    ensures Cycle(w).outcome == Abort(EmptyListing) ==> Cycle(w).after == w
    ensures Cycle(w).outcome.Abort? ==>
              var f := Cycle(w).outcome.failure;
              || f == EmptyListing
              || (f.MissingFile? && f.dir == LocalDir && LocalEdited(w, f.name) && f.name !in w.local)
              || (f.NoRemoteObject? && LocalEdited(w, f.name) && f.name !in w.remote)
  {
    ListingEmpty(w);
    if Listing(w.remote) != [] {
      PullEffect(w);
      var t := Pull(w).after;
      PushBackEffect(t);
      forall n ensures LocalDiffers(t, n) <==> LocalEdited(w, n) {
        PullThenDiffers(w, n);
      }
      forall n | LocalEdited(w, n) ensures (n in t.local <==> n in w.local) {
        PullThenDiffers(w, n);
      }
    }
  }

  /** Convergence: a cycle whose completion condition holds completes, and
      afterwards all replicas agree on every tracked file. Each holds the remote
      content when pass 1 changed the file (the remote side wins a simultaneous
      change) and the local content otherwise. Remote objects are neither
      created nor removed, and untracked files are untouched. */
  lemma CycleConverges(w: World)
    requires Completes(w)
    ensures Cycle(w).outcome == Done
    ensures InSync(Cycle(w).after)
    ensures Cycle(w).after.remote.Keys == w.remote.Keys
    ensures forall n :: n in Tracked ==>
              Get(Cycle(w).after.repo, n) == if PullChanged(w, n) then Some(w.remote[n]) else Get(w.local, n)
    ensures forall n :: n !in Tracked ==>
              && Get(Cycle(w).after.remote, n) == Get(w.remote, n)
              && Get(Cycle(w).after.repo, n) == Get(w.repo, n)
              && Get(Cycle(w).after.local, n) == Get(w.local, n)
  {
    CycleOutcome(w);
    ListingEmpty(w);
    PullEffect(w);
    var t := Pull(w).after;
    PushBackEffect(t);
    forall n ensures LocalDiffers(t, n) <==> LocalEdited(w, n) {
      PullThenDiffers(w, n);
    }
  }

  /** A cycle only appends to the log, at most two commits, and a completed
      cycle appends one commit per pass that found a change. */
  lemma CycleCommits(w: World)
    ensures w.log <= Cycle(w).after.log
    ensures |Cycle(w).after.log| <= |w.log| + 2
    ensures Cycle(w).outcome == Done ==>
              |Cycle(w).after.log| == |w.log| + (if exists n :: PullChanged(w, n) then 1 else 0)
                                              + (if exists n :: LocalEdited(w, n) then 1 else 0)
  {
    if Listing(w.remote) != [] {
      PullEffect(w);
      var t := Pull(w).after;
      assert Cycle(w) == PushBack(t);
      PushBackEffect(t);
      forall n ensures LocalDiffers(t, n) <==> LocalEdited(w, n) {
        PullThenDiffers(w, n);
      }
    }
  }

  /** No-op: when the replicas already agree (and the listing is non-empty) a
      cycle changes nothing and commits nothing. */
  lemma NoOpWhenInSync(w: World)
    requires InSync(w)
    requires exists n :: n in Tracked && n in w.remote
    ensures Cycle(w) == Run(Done, w)
  {
    ListingEmpty(w);
    PullEffect(w);
    assert forall n :: !PullChanged(w, n);
    var t := Pull(w).after;
    StoreExt(t.repo, w.repo);
    StoreExt(t.local, w.local);
    assert t == w;
    assert forall n :: !LocalDiffers(w, n);
    PushBackEffect(w);
  }

  /** Idempotence: a second cycle right after a completed one, with no change in
      between, changes nothing and commits nothing. */
  lemma CycleIdempotent(w: World)
    requires Completes(w)
    ensures Cycle(w).outcome == Done
    ensures Cycle(Cycle(w).after) == Run(Done, Cycle(w).after)
  {
    CycleOutcome(w);
    CycleConverges(w);
    var n :| n in Tracked && n in w.remote;
    assert n in Cycle(w).after.remote;
    NoOpWhenInSync(Cycle(w).after);
  }

  /** When the remote copy of one tracked file changed (whatever happened to its
      local copy) and every other tracked file is in sync, one cycle completes,
      all three replicas end with the remote content, and exactly one commit,
      "Push from mobile" naming only that file, is appended. */
  lemma RemoteEditWins(w: World, n: Name)
    requires PullChanged(w, n)
    requires forall m :: m in Tracked && m != n ==>
               Get(w.local, m) == Get(w.repo, m) && (m in w.remote ==> Get(w.repo, m) == Some(w.remote[m]))
    ensures Cycle(w).outcome == Done
    ensures Get(Cycle(w).after.remote, n) == Some(w.remote[n])
    ensures Get(Cycle(w).after.repo, n) == Some(w.remote[n])
    ensures Get(Cycle(w).after.local, n) == Some(w.remote[n])
    ensures |Cycle(w).after.log| == |w.log| + 1
    ensures Cycle(w).after.log[|w.log|].message == PullMessage
    ensures forall m :: m in Cycle(w).after.log[|w.log|].files <==> m == n
  {
    assert forall m :: !LocalEdited(w, m);
    CycleOutcome(w);
    CycleConverges(w);
    CycleCommits(w);
    PullEffect(w);
    var t := Pull(w).after;
    PushBackEffect(t);
    forall m ensures !LocalDiffers(t, m) {
      PullThenDiffers(w, m);
    }
  }

  /** When only the local copy of one tracked file changed, and that file exists
      locally and remotely, one cycle completes, all three replicas end with the
      local content, and exactly one commit, "Push from local" naming only that
      file, is appended. */
  lemma LocalEditPropagates(w: World, n: Name)
    requires LocalDiffers(w, n) && n in w.local && n in w.remote
    requires forall m :: m in Tracked && m in w.remote ==> Get(w.repo, m) == Some(w.remote[m])
    requires forall m :: m in Tracked && m != n ==> Get(w.local, m) == Get(w.repo, m)
    ensures Cycle(w).outcome == Done
    ensures Get(Cycle(w).after.remote, n) == Some(w.local[n])
    ensures Get(Cycle(w).after.repo, n) == Some(w.local[n])
    ensures Get(Cycle(w).after.local, n) == Some(w.local[n])
    ensures |Cycle(w).after.log| == |w.log| + 1
    ensures Cycle(w).after.log[|w.log|].message == PushMessage
    ensures forall m :: m in Cycle(w).after.log[|w.log|].files <==> m == n
  {
    assert forall m :: !PullChanged(w, m);
    assert LocalEdited(w, n);
    CycleOutcome(w);
    CycleConverges(w);
    ListingEmpty(w);
    PullEffect(w);
    var t := Pull(w).after;
    StoreExt(t.repo, w.repo);
    StoreExt(t.local, w.local);
    assert t == w;
    PushBackEffect(w);
  }
}
