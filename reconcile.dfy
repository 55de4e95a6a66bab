/** The reconciliation cycle as a function of the world: pass 1 brings remote
    changes into the repository and the local directory, pass 2 brings local
    changes into the repository and the remote store. Each loop of the cycle is a
    function over the names it still has to visit, so that an abort in the middle
    of a loop ends the whole cycle with the world as that step left it. */
module Reconcile {
  import opened Wrappers
  import opened Fingerprints
  import opened Replicas

  const TodoFile: Name := "todo.txt"
  const DoneFile: Name := "done.txt"

  /** The tracked files, in the order pass 2 visits them. */
  const Tracked: seq<Name> := [TodoFile, DoneFile]

  /** Commit message of pass 1 (remote to repository). */
  const PullMessage: string := "Push from mobile"

  /** Commit message of pass 2 (local to repository). */
  const PushMessage: string := "Push from local"

  /** Strict lexicographic order on names, the order the remote listing is
      sorted by. */
  predicate NameBefore(a: Name, b: Name)
  {
    if a == [] then b != []
    else if b == [] then false
    else if a[0] == b[0] then NameBefore(a[1..], b[1..])
    else a[0] < b[0]
  }

  /** The remote listing: the objects whose name is a tracked name, ordered by
      name. Only names are listed; the model has one object per name. */
  function Listing(remote: Store): (names: seq<Name>)
    ensures forall n :: n in names <==> n in Tracked && n in remote
    ensures forall i, j :: 0 <= i < j < |names| ==> NameBefore(names[i], names[j])
  {
    assert NameBefore(DoneFile, TodoFile);
    (if DoneFile in remote then [DoneFile] else []) + (if TodoFile in remote then [TodoFile] else [])
  }

  /** The loop of pass 1 over the remote listing: a listed object whose digest
      matches the repository file's fingerprint is skipped; otherwise its content
      is saved over the repository file and its name appended to `changes`.
      Returns the new repository and the change list; what they hold is stated
      by `PullScanEffect`. */
  function PullScan(remote: Store, repo: Store, changes: seq<Name>, names: seq<Name>): (r: (Store, seq<Name>))
    requires forall n :: n in names ==> n in remote
    decreases |names|
    ensures changes <= r.1
  {
    if names == [] then (repo, changes)
    else
      var name := names[0];
      if ContentMd5(remote[name]) == FileMd5(Get(repo, name)) then
        PullScan(remote, repo, changes, names[1..])
      else
        PullScan(remote, repo[name := remote[name]], changes + [name], names[1..])
  }

  /** After the loop of pass 1 the repository holds the remote content of every
      visited name, and the change list gained exactly the visited names whose
      repository copy differed from the remote object. */
  lemma {:induction false} PullScanEffect(remote: Store, repo: Store, changes: seq<Name>, names: seq<Name>)
    requires forall n :: n in names ==> n in remote
    decreases |names|
    ensures var r := PullScan(remote, repo, changes, names);
            forall n :: Get(r.0, n) == if n in names then Some(remote[n]) else Get(repo, n)
    ensures var r := PullScan(remote, repo, changes, names);
            forall n :: n in r.1 <==> n in changes || (n in names && Get(repo, n) != Some(remote[n]))
  {
    if names != [] {
      var name := names[0];
      if ContentMd5(remote[name]) == FileMd5(Get(repo, name)) {
        PullScanEffect(remote, repo, changes, names[1..]);
      } else {
        PullScanEffect(remote, repo[name := remote[name]], changes + [name], names[1..]);
      }
    }
  }

  /** The copy loop of pass 1: each changed file is copied from the repository
      to the local directory. What it computes is stated by `CopyToLocalEffect`. */
  function CopyToLocal(w: World, names: seq<Name>): (r: Run)
    decreases |names|
    ensures r.after.remote == w.remote && r.after.repo == w.repo && r.after.log == w.log
  {
    if names == [] then Run(Done, w)
    else match PushToLocal(w, RepoDir, LocalDir, names[0])
      case Run(Abort(f), w') => Run(Abort(f), w')
      case Run(Done, w') => CopyToLocal(w', names[1..])
  }

  /** The copy loop of pass 1 completes exactly when every name it visits exists
      in the repository, and then the local directory holds the repository copy
      of each; otherwise it aborts on a name missing from the repository. */
  lemma {:induction false} CopyToLocalEffect(w: World, names: seq<Name>)
    decreases |names|
    ensures var r := CopyToLocal(w, names);
            r.outcome == Done <==> forall n :: n in names ==> n in w.repo
    ensures var r := CopyToLocal(w, names);
            r.outcome.Abort? ==>
              && r.outcome.failure.MissingFile? && r.outcome.failure.dir == RepoDir
              && r.outcome.failure.name in names && r.outcome.failure.name !in w.repo
    ensures var r := CopyToLocal(w, names);
            r.outcome == Done ==>
              forall n :: Get(r.after.local, n) == if n in names then Get(w.repo, n) else Get(w.local, n)
  {
    if names != [] && names[0] in w.repo {
      CopyToLocalEffect(PushToLocal(w, RepoDir, LocalDir, names[0]).after, names[1..]);
    }
  }

  /** What the loop of pass 2 leaves: its outcome, the world, the change list. */
  datatype Scan = Scan(outcome: Outcome, after: World, changes: seq<Name>)

  /** The loop of pass 2 over the tracked names: a name whose local and
      repository fingerprints agree is skipped; otherwise the local file is copied
      over the repository file (fatal when the local file is missing) and the name
      appended to `changes`. What it computes is stated by `LocalScanEffect`. */
  function LocalScan(w: World, changes: seq<Name>, names: seq<Name>): (r: Scan)
    decreases |names|
    ensures r.after.remote == w.remote && r.after.local == w.local && r.after.log == w.log
  {
    if names == [] then Scan(Done, w, changes)
    else
      var name := names[0];
      if FileMd5(Get(w.local, name)) == FileMd5(Get(w.repo, name)) then
        LocalScan(w, changes, names[1..])
      else match PushToLocal(w, LocalDir, RepoDir, name)
        case Run(Abort(f), w') => Scan(Abort(f), w', changes)
        case Run(Done, w') => LocalScan(w', changes + [name], names[1..])
  }

  /** The loop of pass 2 completes exactly when every visited file whose local
      copy differs from the repository's exists locally; otherwise it aborts on
      one missing locally (`LocalScanAbortState` shows it is the first). When it
      completes, the repository holds the local copy of every visited file and
      the change list gained exactly the visited files that differed. */
  lemma {:induction false} LocalScanEffect(w: World, changes: seq<Name>, names: seq<Name>)
    decreases |names|
    ensures var r := LocalScan(w, changes, names);
            r.outcome == Done <==> forall n :: n in names && Get(w.local, n) != Get(w.repo, n) ==> n in w.local
    ensures var r := LocalScan(w, changes, names);
            r.outcome.Abort? ==>
              && r.outcome.failure.MissingFile? && r.outcome.failure.dir == LocalDir
              && r.outcome.failure.name in names && r.outcome.failure.name !in w.local
              && Get(w.local, r.outcome.failure.name) != Get(w.repo, r.outcome.failure.name)
    ensures var r := LocalScan(w, changes, names);
            r.outcome == Done ==>
              forall n :: Get(r.after.repo, n) == if n in names then Get(w.local, n) else Get(w.repo, n)
    ensures var r := LocalScan(w, changes, names);
            r.outcome == Done ==>
              forall n :: n in r.changes <==> n in changes || (n in names && Get(w.local, n) != Get(w.repo, n))
  {
    if names != [] {
      var name := names[0];
      if FileMd5(Get(w.local, name)) == FileMd5(Get(w.repo, name)) {
        LocalScanEffect(w, changes, names[1..]);
      } else if name in w.local {
        var w' := PushToLocal(w, LocalDir, RepoDir, name).after;
        LocalScanEffect(w', changes + [name], names[1..]);
      }
    }
  }

  /** The upload loop of pass 2: each changed file is pushed from the repository
      to the remote object of that name. */
  function UploadAll(w: World, names: seq<Name>): (r: Run)
    decreases |names|
    ensures r.after.repo == w.repo && r.after.local == w.local && r.after.log == w.log
    ensures r.after.remote.Keys == w.remote.Keys
  {
    if names == [] then Run(Done, w)
    else match PushToDrive(w, names[0])
      case Run(Abort(f), w') => Run(Abort(f), w')
      case Run(Done, w') => UploadAll(w', names[1..])
  }

  /** The upload loop of pass 2 completes exactly when every name it visits has
      a remote object and a repository file, and then each such remote object
      holds the repository content; otherwise it aborts on a name without one
      (`UploadAllAbortState` shows it is the first). Objects it does not visit
      are never touched. */
  lemma {:induction false} UploadAllEffect(w: World, names: seq<Name>)
    decreases |names|
    ensures var r := UploadAll(w, names);
            r.outcome == Done <==> forall n :: n in names ==> n in w.remote && n in w.repo
    ensures var r := UploadAll(w, names);
            r.outcome.Abort? ==>
              || (r.outcome.failure.NoRemoteObject? && r.outcome.failure.name in names
                  && r.outcome.failure.name !in w.remote)
              || (r.outcome.failure.MissingFile? && r.outcome.failure.dir == RepoDir
                  && r.outcome.failure.name in names && r.outcome.failure.name !in w.repo)
    ensures var r := UploadAll(w, names);
            r.outcome == Done ==>
              forall n :: Get(r.after.remote, n) == if n in names then Get(w.repo, n) else Get(w.remote, n)
    ensures var r := UploadAll(w, names);
            forall n :: n !in names ==> Get(r.after.remote, n) == Get(w.remote, n)
  {
    if names != [] && names[0] in w.remote && names[0] in w.repo {
      UploadAllEffect(PushToDrive(w, names[0]).after, names[1..]);
    }
  }

  /** No name occurs twice. */
  predicate NoDuplicates(names: seq<Name>)
    decreases |names|
  {
    names == [] || (names[0] !in names[1..] && NoDuplicates(names[1..]))
  }

  /** A listing names each object once, and so do the tracked files. */
  lemma ListingDistinct(remote: Store)
    ensures NoDuplicates(Listing(remote))
    ensures NoDuplicates(Tracked)
  {
    var listing := Listing(remote);
    assert [DoneFile, TodoFile][1..] == [TodoFile];
    if |listing| == 2 {
      assert listing == [DoneFile, TodoFile];
    }
  }

  /** The position of the first occurrence of `n` in `names`, `|names|` when it
      does not occur. */
  function IndexOf(names: seq<Name>, n: Name): (k: nat)
    decreases |names|
    ensures k <= |names|
    ensures k < |names| <==> n in names
    ensures k < |names| ==> names[k] == n
    ensures n !in names[..k]
  {
    if names == [] then 0
    else if names[0] == n then 0
    else
      var k' := IndexOf(names[1..], n);
      assert names[..k' + 1] == [names[0]] + names[1..][..k'];
      1 + k'
  }

  /** The names, in the order given, whose repository file differs from the
      remote object: the change list pass 1 is to build. */
  function PullDiffering(remote: Store, repo: Store, names: seq<Name>): (d: seq<Name>)
    requires forall n :: n in names ==> n in remote
    decreases |names|
    ensures forall n :: n in d <==> n in names && Get(repo, n) != Some(remote[n])
  {
    if names == [] then []
    else
      (if Get(repo, names[0]) != Some(remote[names[0]]) then [names[0]] else [])
      + PullDiffering(remote, repo, names[1..])
  }

  /** The names, in the order given, whose local copy differs from the
      repository copy: the change list pass 2 is to build. */
  function LocalDiffering(w: World, names: seq<Name>): (d: seq<Name>)
    decreases |names|
    ensures forall n :: n in d <==> n in names && Get(w.local, n) != Get(w.repo, n)
  {
    if names == [] then []
    else
      (if Get(w.local, names[0]) != Get(w.repo, names[0]) then [names[0]] else [])
      + LocalDiffering(w, names[1..])
  }

  /** `PullDiffering` reads the repository only at the names it visits. */
  lemma {:induction false} PullDifferingFrame(remote: Store, repo: Store, repo': Store, names: seq<Name>)
    requires forall n :: n in names ==> n in remote
    requires forall n :: n in names ==> Get(repo, n) == Get(repo', n)
    decreases |names|
    ensures PullDiffering(remote, repo, names) == PullDiffering(remote, repo', names)
  {
    if names != [] {
      PullDifferingFrame(remote, repo, repo', names[1..]);
    }
  }

  /** `LocalDiffering` reads the two directories only at the names it visits. */
  lemma {:induction false} LocalDifferingFrame(w: World, w': World, names: seq<Name>)
    requires forall n :: n in names ==> Get(w.local, n) == Get(w'.local, n) && Get(w.repo, n) == Get(w'.repo, n)
    decreases |names|
    ensures LocalDiffering(w, names) == LocalDiffering(w', names)
  {
    if names != [] {
      LocalDifferingFrame(w, w', names[1..]);
    }
  }

  /** The pass-1 loop appends the differing names in the order it visits them
      (when no name is visited twice, as in a listing). */
  lemma {:induction false} PullScanOrder(remote: Store, repo: Store, changes: seq<Name>, names: seq<Name>)
    requires forall n :: n in names ==> n in remote
    decreases |names|
    ensures NoDuplicates(names) ==>
              PullScan(remote, repo, changes, names).1 == changes + PullDiffering(remote, repo, names)
  {
    if names != [] && NoDuplicates(names) {
      var name := names[0];
      FileMd5Injective(Some(remote[name]), Get(repo, name));
      if ContentMd5(remote[name]) == FileMd5(Get(repo, name)) {
        PullScanOrder(remote, repo, changes, names[1..]);
      } else {
        var repo' := repo[name := remote[name]];
        PullScanOrder(remote, repo', changes + [name], names[1..]);
        PullDifferingFrame(remote, repo, repo', names[1..]);
        assert changes + [name] + PullDiffering(remote, repo, names[1..]) ==
               changes + ([name] + PullDiffering(remote, repo, names[1..]));
      }
    }
  }

  /** One step of the pass-2 loop, with the fingerprint comparison read as a
      comparison of files. */
  lemma LocalScanStep(w: World, changes: seq<Name>, names: seq<Name>)
    requires names != []
    ensures var name := names[0];
            LocalScan(w, changes, names) ==
              if Get(w.local, name) == Get(w.repo, name) then LocalScan(w, changes, names[1..])
              else if name in w.local then
                LocalScan(w.(repo := w.repo[name := w.local[name]]), changes + [name], names[1..])
              else Scan(Abort(MissingFile(LocalDir, name)), w, changes)
  {
    FileMd5Injective(Get(w.local, names[0]), Get(w.repo, names[0]));
  }

  /** The first occurrence of a name other than the head is one further on than
      in the tail, and the names before it are the head and those before it in
      the tail. */
  lemma IndexOfTail(names: seq<Name>, n: Name)
    requires names != [] && names[0] != n
    ensures IndexOf(names, n) == IndexOf(names[1..], n) + 1
    ensures forall m :: m in names[..IndexOf(names, n)] <==> m == names[0] || m in names[1..][..IndexOf(names[1..], n)]
  {
    var k' := IndexOf(names[1..], n);
    assert names[..k' + 1] == [names[0]] + names[1..][..k'];
  }

  /** The pass-2 loop, when it completes, appends the differing names in the
      order it visits them (when no name is visited twice, as in the tracked
      files). */
  lemma {:induction false} LocalScanOrder(w: World, changes: seq<Name>, names: seq<Name>)
    decreases |names|
    ensures NoDuplicates(names) && LocalScan(w, changes, names).outcome == Done ==>
              LocalScan(w, changes, names).changes == changes + LocalDiffering(w, names)
  {
    if names != [] && NoDuplicates(names) {
      var name := names[0];
      FileMd5Injective(Get(w.local, name), Get(w.repo, name));
      if Get(w.local, name) == Get(w.repo, name) {
        LocalScanOrder(w, changes, names[1..]);
      } else if name in w.local {
        var w' := w.(repo := w.repo[name := w.local[name]]);
        CopyStepOrder(w, changes, names);
        LocalScanOrder(w', changes + [name], names[1..]);
        assert changes + [name] + LocalDiffering(w', names[1..]) ==
               changes + ([name] + LocalDiffering(w', names[1..]));
      }
    }
  }

  /** A copying step of the pass-2 loop moves the copied name from the
      differing names still to visit to the change list. */
  lemma CopyStepOrder(w: World, changes: seq<Name>, names: seq<Name>)
    requires names != [] && names[0] in w.local && Get(w.local, names[0]) != Get(w.repo, names[0])
    requires names[0] !in names[1..]
    ensures var w' := w.(repo := w.repo[names[0] := w.local[names[0]]]);
            && LocalScan(w, changes, names) == LocalScan(w', changes + [names[0]], names[1..])
            && LocalDiffering(w, names) == [names[0]] + LocalDiffering(w', names[1..])
  {
    var w' := w.(repo := w.repo[names[0] := w.local[names[0]]]);
    FileMd5Injective(Get(w.local, names[0]), Get(w.repo, names[0]));
    LocalDifferingFrame(w, w', names[1..]);
  }

  /** When the pass-2 loop aborts on a name (one missing locally but present in
      the repository), it is the first name whose local copy differs and is
      missing: every name visited before it was equal or existed locally. The
      repository then holds the local copy of every name visited before it and
      is unchanged elsewhere. */
  lemma {:induction false} LocalScanAbortState(w: World, changes: seq<Name>, names: seq<Name>)
    decreases |names|
    ensures var r := LocalScan(w, changes, names);
            r.outcome.Abort? && r.outcome.failure.MissingFile? ==>
              var k := IndexOf(names, r.outcome.failure.name);
              && k < |names|
              && r.outcome.failure.name !in w.local && r.outcome.failure.name in w.repo
              && (forall n :: n in names[..k] ==> Get(w.local, n) == Get(w.repo, n) || n in w.local)
              && forall n :: Get(r.after.repo, n) == if n in names[..k] then Get(w.local, n) else Get(w.repo, n)
  {
    if names != [] {
      var name := names[0];
      LocalScanStep(w, changes, names);
      var r := LocalScan(w, changes, names);
      if Get(w.local, name) == Get(w.repo, name) {
        LocalScanAbortState(w, changes, names[1..]);
        if r.outcome.Abort? && r.outcome.failure.MissingFile? {
          IndexOfTail(names, r.outcome.failure.name);
        }
      } else if name in w.local {
        var w' := w.(repo := w.repo[name := w.local[name]]);
        LocalScanAbortState(w', changes + [name], names[1..]);
        if r.outcome.Abort? && r.outcome.failure.MissingFile? {
          IndexOfTail(names, r.outcome.failure.name);
        }
      }
    }
  }

  /** When the pass-1 copy loop aborts on a name, it is the first name missing
      from the repository, and the local directory holds the repository copy of
      every name visited before it and is unchanged elsewhere. */
  lemma {:induction false} CopyToLocalAbortState(w: World, names: seq<Name>)
    decreases |names|
    ensures var r := CopyToLocal(w, names);
            r.outcome.Abort? && r.outcome.failure.MissingFile? ==>
              var k := IndexOf(names, r.outcome.failure.name);
              && k < |names|
              && (forall n :: n in names[..k] ==> n in w.repo)
              && forall n :: Get(r.after.local, n) == if n in names[..k] then Get(w.repo, n) else Get(w.local, n)
  {
    if names != [] && names[0] in w.repo {
      var r := CopyToLocal(w, names);
      var w' := PushToLocal(w, RepoDir, LocalDir, names[0]).after;
      CopyToLocalAbortState(w', names[1..]);
      CopyToLocalEffect(w', names[1..]);
      if r.outcome.Abort? && !r.outcome.failure.EmptyListing? {
        IndexOfTail(names, r.outcome.failure.name);
      }
    }
  }

  /** When the upload loop aborts on a name, it is the first name without a
      remote object or a repository file; every name visited before it has been
      uploaded and the other remote objects are unchanged. */
  lemma {:induction false} UploadAllAbortState(w: World, names: seq<Name>)
    decreases |names|
    ensures var r := UploadAll(w, names);
            r.outcome.Abort? && !r.outcome.failure.EmptyListing? ==>
              var k := IndexOf(names, r.outcome.failure.name);
              && k < |names|
              && (forall n :: n in names[..k] ==> n in w.remote && n in w.repo)
              && forall n :: Get(r.after.remote, n) == if n in names[..k] then Get(w.repo, n) else Get(w.remote, n)
  {
    if names != [] && names[0] in w.remote && names[0] in w.repo {
      var r := UploadAll(w, names);
      var w' := PushToDrive(w, names[0]).after;
      UploadAllAbortState(w', names[1..]);
      UploadAllEffect(w', names[1..]);
      if r.outcome.Abort? && !r.outcome.failure.EmptyListing? {
        IndexOfTail(names, r.outcome.failure.name);
      }
    }
  }

  /** Pass 1, remote to repository to local. */
  function Pull(w: World): Run
  {
    var listing := Listing(w.remote);
    if listing == [] then Run(Abort(EmptyListing), w)
    else
      var (repo', changes) := PullScan(w.remote, w.repo, [], listing);
      var w1 := w.(repo := repo');
      if changes == [] then Run(Done, w1)
      else match CommitToGit(w1, changes, PullMessage)
        case Run(Abort(f), w2) => Run(Abort(f), w2)
        case Run(Done, w2) => CopyToLocal(w2, changes)
  }

  /** Pass 2, local to repository to remote. */
  function PushBack(w: World): Run
  {
    var scan := LocalScan(w, [], Tracked);
    if scan.outcome.Abort? || scan.changes == [] then Run(scan.outcome, scan.after)
    else match CommitToGit(scan.after, scan.changes, PushMessage)
      case Run(Abort(f), w2) => Run(Abort(f), w2)
      case Run(Done, w2) => UploadAll(w2, scan.changes)
  }

  /** One cycle: pass 1, then, unless it aborted, pass 2 on what pass 1 left. */
  function Cycle(w: World): Run
  {
    match Pull(w)
    case Run(Abort(f), w1) => Run(Abort(f), w1)
    case Run(Done, w1) => PushBack(w1)
  }
}
