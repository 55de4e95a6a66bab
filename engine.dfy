/** The reconciliation cycle as the program runs it: a syncer object holds the
    remote store, the repository's working tree, the local directory and the
    commit log, and its methods overwrite them in place, step by step, with the
    loops of the program. Each method is proved to leave exactly the world that
    the corresponding function of `Replicas` or `Reconcile` describes, so every
    property proved of those functions holds of the running cycle. */
module Engine {
  import opened Fingerprints
  import opened Replicas
  import opened Reconcile

  class Syncer {
    var remote: Store
    var repo: Store
    var local: Store
    var log: seq<Commit>

    /** The replicas and the log as a value. */
    function View(): World
      reads this
    {
      World(remote, repo, local, log)
    }

    constructor (w: World)
      ensures View() == w
    {
      remote, repo, local, log := w.remote, w.repo, w.local, w.log;
    }

    /** saveFile: the downloaded content replaces the repository file. */
    method SaveFile(name: Name, data: Content)
      modifies this
      ensures View() == Replicas.SaveFile(old(View()), name, data)
    {
      repo := repo[name := data];
    }

    /** pushToLocal: read the whole file from one directory, write it to the
        other; a missing source file aborts. */
    method PushToLocal(from: Dir, to: Dir, name: Name) returns (out: Outcome)
      modifies this
      ensures Run(out, View()) == Replicas.PushToLocal(old(View()), from, to, name)
    {
      var source := if from == RepoDir then repo else local;
      if name !in source {
        return Abort(MissingFile(from, name));
      }
      var bytesRead := source[name];
      if to == RepoDir {
        repo := repo[name := bytesRead];
      } else {
        local := local[name := bytesRead];
      }
      out := Done;
    }

    /** pushToDrive: find the remote object of that name, open the repository
        file and upload its content over the object's. */
    method PushToDrive(name: Name) returns (out: Outcome)
      modifies this
      ensures Run(out, View()) == Replicas.PushToDrive(old(View()), name)
    {
      if name !in remote {
        return Abort(NoRemoteObject(name));
      }
      if name !in repo {
        return Abort(MissingFile(RepoDir, name));
      }
      remote := remote[name := repo[name]];
      out := Done;
    }

    /** commitToGit: nothing for an empty change list; otherwise stage each
        change in turn and append one commit. */
    method CommitToGit(changes: seq<Name>, msg: string) returns (out: Outcome)
      modifies this
      ensures Run(out, View()) == Replicas.CommitToGit(old(View()), changes, msg)
    {
      if |changes| == 0 {
        return Done;
      }
      var index: Store := map[];
      var i := 0;
      while i < |changes|
        invariant 0 <= i <= |changes|
        invariant View() == old(View())
        invariant Stage(repo, index, changes[i..]) == Stage(repo, map[], changes)
      {
        var filename := changes[i];
        if filename !in repo {
          return Abort(MissingFile(RepoDir, filename));
        }
        index := index[filename := repo[filename]];
        i := i + 1;
      }
      log := log + [Commit(msg, changes, index)];
      out := Done;
    }

    /** One reconciliation cycle: pass 1, then pass 2 unless pass 1 aborted. */
    method Cycle() returns (out: Outcome)
      modifies this
      ensures Run(out, View()) == Reconcile.Cycle(old(View()))
    {
      out := PullPass();
      if out.Abort? {
        return;
      }
      out := PushPass();
    }

    /** Pass 1 of the cycle, remote store to repository to local directory: the
        listed objects whose digest differs from the repository file's are saved
        over it and collected in a change list; a non-empty list is committed
        once and each of its files copied to the local directory. An empty
        listing aborts. */
    method PullPass() returns (out: Outcome)
      modifies this
      ensures Run(out, View()) == Pull(old(View()))
    {
      var changes: seq<Name> := [];
      var commitRequired := false;
      out := Done;
      var listing := Listing(remote);
      if |listing| == 0 {
        return Abort(EmptyListing);
      }
      ghost var w0 := View();
      var i := 0;
      while i < |listing|
        invariant 0 <= i <= |listing|
        invariant remote == w0.remote && local == w0.local && log == w0.log
        invariant PullScan(remote, repo, changes, listing[i..]) == PullScan(w0.remote, w0.repo, [], listing)
        invariant commitRequired <==> changes != []
      {
        var name := listing[i];
        assert listing[i..][1..] == listing[i + 1..];
        if ContentMd5(remote[name]) != FileMd5(Get(repo, name)) {
          SaveFile(name, remote[name]);
          commitRequired := true;
          changes := changes + [name];
        }
        i := i + 1;
      }
      assert listing[|listing|..] == [];
      if commitRequired {
        out := CommitToGit(changes, PullMessage);
        if out.Abort? {
          return;
        }
        out := CopyChanges(changes);
      }
    }

    /** The copy loop of pass 1: each committed file is copied from the
        repository over the local file, stopping at the first failure. */
    method CopyChanges(changes: seq<Name>) returns (out: Outcome)
      modifies this
      ensures Run(out, View()) == CopyToLocal(old(View()), changes)
    {
      out := Done;
      ghost var w0 := View();
      var j := 0;
      while j < |changes|
        invariant 0 <= j <= |changes|
        invariant out == Done
        invariant CopyToLocal(View(), changes[j..]) == CopyToLocal(w0, changes)
      {
        assert changes[j..][1..] == changes[j + 1..];
        out := PushToLocal(RepoDir, LocalDir, changes[j]);
        if out.Abort? {
          return;
        }
        j := j + 1;
      }
      assert changes[|changes|..] == [];
    }

    /** Pass 2 of the cycle, local directory to repository to remote store: each
        tracked file whose local fingerprint differs from the repository's is
        copied over the repository file and collected in a change list; a
        non-empty list is committed once and each of its files uploaded over the
        remote object of that name. */
    method PushPass() returns (out: Outcome)
      modifies this
      ensures Run(out, View()) == PushBack(old(View()))
    {
      var files := Tracked;
      var changes: seq<Name> := [];
      var commitRequired := false;
      out := Done;
      ghost var w0 := View();
      var k := 0;
      while k < |files|
        invariant 0 <= k <= |files|
        invariant out == Done
        invariant LocalScan(View(), changes, files[k..]) == LocalScan(w0, [], files)
        invariant commitRequired <==> changes != []
      {
        var filename := files[k];
        assert files[k..][1..] == files[k + 1..];
        if FileMd5(Get(local, filename)) != FileMd5(Get(repo, filename)) {
          out := PushToLocal(LocalDir, RepoDir, filename);
          if out.Abort? {
            assert LocalScan(w0, [], files) == Scan(out, View(), changes);
            assert PushBack(w0) == Run(out, View());
            return;
          }
          changes := changes + [filename];
          commitRequired := true;
        }
        k := k + 1;
      }
      assert files[|files|..] == [];
      assert LocalScan(w0, [], files) == Scan(Done, View(), changes);
      if commitRequired {
        out := CommitToGit(changes, PushMessage);
        if out.Abort? {
          assert PushBack(w0) == Run(out, View());
          return;
        }
        out := UploadChanges(changes);
        assert PushBack(w0) == Run(out, View());
      } else {
        assert PushBack(w0) == Run(out, View());
      }
    }

    /** The upload loop of pass 2: each committed file is pushed from the
        repository to the remote object of that name, stopping at the first
        failure. */
    method UploadChanges(changes: seq<Name>) returns (out: Outcome)
      modifies this
      ensures Run(out, View()) == UploadAll(old(View()), changes)
    {
      out := Done;
      ghost var w0 := View();
      var j := 0;
      while j < |changes|
        invariant 0 <= j <= |changes|
        invariant out == Done
        invariant UploadAll(View(), changes[j..]) == UploadAll(w0, changes)
      {
        assert changes[j..][1..] == changes[j + 1..];
        out := PushToDrive(changes[j]);
        if out.Abort? {
          return;
        }
        j := j + 1;
      }
      assert changes[|changes|..] == [];
    }
  }
}
