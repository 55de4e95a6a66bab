/** The three replicas of the tracked files, the commit log of the repository,
    and the single-file operations the reconciliation cycle is built from:
    `saveFile`, `pushToLocal`, `pushToDrive` and `commitToGit`. Each operation is
    a function from the world before to a `Run`: whether it completed or aborted
    the program, and the world as it is afterwards (on an abort, as it was left
    at that moment: nothing is rolled back). */
module Replicas {
  import opened Wrappers
  import opened Fingerprints

  /** A bare file name such as "todo.txt"; joining it to a directory and taking
      the base name of a path are the identity here. */
  type Name = string

  /** One replica: file name to content. A missing key is a missing file. */
  type Store = map<Name, Content>

  /** The two directories on this machine: the repository's working tree and the
      local working directory. */
  datatype Dir = RepoDir | LocalDir

  /** One commit: its message, the names staged for it in staging order, and the
      content each staged name had in the repository when it was staged. */
  datatype Commit = Commit(message: string, files: seq<Name>, staged: Store)

  /** The remote store (object name to content), the repository's working tree,
      the local directory and the repository's commit log, oldest first. */
  datatype World = World(remote: Store, repo: Store, local: Store, log: seq<Commit>)

  /** Why a cycle aborts: the remote listing was empty; a file to be read, staged
      or uploaded was missing in a directory; or no remote object has the name to
      upload to (the program indexes the first element of an empty listing). */
  datatype Failure = EmptyListing | MissingFile(dir: Dir, name: Name) | NoRemoteObject(name: Name)

  datatype Outcome = Done | Abort(failure: Failure)

  /** What a step leaves behind: its outcome and the world afterwards. */
  datatype Run = Run(outcome: Outcome, after: World)

  /** The file `n` of a replica, `None` when it is missing. */
  function Get(s: Store, n: Name): Option<Content>
  {
    if n in s then Some(s[n]) else None
  }

  /** The files of one of the two directories. */
  function Files(w: World, d: Dir): Store
  {
    match d
    case RepoDir => w.repo
    case LocalDir => w.local
  }

  /** The world with the files of directory `d` replaced by `s`. */
  function WithFiles(w: World, d: Dir, s: Store): (w': World)
    ensures Files(w', d) == s
    ensures forall e :: e != d ==> Files(w', e) == Files(w, e)
    ensures w'.remote == w.remote && w'.log == w.log
  {
    match d
    case RepoDir => w.(repo := s)
    case LocalDir => w.(local := s)
  }

  /** saveFile: the repository file `name` is created or truncated and then holds
      the downloaded content; nothing else changes. */
  function SaveFile(w: World, name: Name, data: Content): (w': World)
    ensures FileMd5(Get(w'.repo, name)) == ContentMd5(data)
    ensures forall n :: n != name ==> Get(w'.repo, n) == Get(w.repo, n)
    ensures w'.remote == w.remote && w'.local == w.local && w'.log == w.log
  {
    w.(repo := w.repo[name := data])
  }

  /** pushToLocal(from, to, name): the whole file `name` of directory `from` is
      read and written over (or as) the file `name` of directory `to`. Reading a
      missing file is fatal, and then nothing has been written. */
  function PushToLocal(w: World, from: Dir, to: Dir, name: Name): (r: Run)
    ensures r.outcome == Done <==> name in Files(w, from)
    ensures r.outcome.Abort? ==> r == Run(Abort(MissingFile(from, name)), w)
    ensures r.outcome == Done ==>
              FileMd5(Get(Files(r.after, to), name)) == FileMd5(Get(Files(w, from), name))
    ensures forall n :: n != name ==> Get(Files(r.after, to), n) == Get(Files(w, to), n)
    ensures forall e :: e != to ==> Files(r.after, e) == Files(w, e)
    ensures r.after.remote == w.remote && r.after.log == w.log
  {
    if name !in Files(w, from) then Run(Abort(MissingFile(from, name)), w)
    else Run(Done, WithFiles(w, to, Files(w, to)[name := Files(w, from)[name]]))
  }

  /** pushToDrive(name): the remote listing for `name` must hold an object (the
      program takes its first element), and the repository file `name` must open;
      then that object's content is replaced by the repository file's. Objects are
      never created or removed. */
  function PushToDrive(w: World, name: Name): (r: Run)
    ensures r.outcome == Done <==> name in w.remote && name in w.repo
    ensures r.outcome.Abort? ==> r.after == w
    ensures r.outcome.Abort? && name !in w.remote ==> r.outcome.failure == NoRemoteObject(name)
    ensures r.outcome.Abort? && name in w.remote ==> r.outcome.failure == MissingFile(RepoDir, name)
    ensures r.outcome == Done ==> Get(r.after.remote, name) == Get(w.repo, name)
    ensures forall n :: n != name ==> Get(r.after.remote, n) == Get(w.remote, n)
    ensures r.after.remote.Keys == w.remote.Keys
    ensures r.after.repo == w.repo && r.after.local == w.local && r.after.log == w.log
  {
    if name !in w.remote then Run(Abort(NoRemoteObject(name)), w)
    else if name !in w.repo then Run(Abort(MissingFile(RepoDir, name)), w)
    else Run(Done, w.(remote := w.remote[name := w.repo[name]]))
  }

  /** The staging loop of commitToGit: each name, in order, is added to the index
      with its repository content; adding a name with no repository file is fatal.
      `index` is what earlier iterations staged. */
  function Stage(repo: Store, index: Store, names: seq<Name>): (r: Result<Store, Failure>)
    decreases |names|
    ensures r.Ok? <==> forall n :: n in names ==> n in repo
    ensures r.Ok? ==> forall n :: n in r.value <==> n in index || n in names
    ensures r.Ok? ==> forall n :: n in names ==> r.value[n] == repo[n]
    ensures r.Ok? ==> forall n :: n in index && n !in names ==> r.value[n] == index[n]
    ensures r.Err? ==> r.error.MissingFile? && r.error.dir == RepoDir
    ensures r.Err? ==> r.error.name in names && r.error.name !in repo
  {
    if names == [] then Ok(index)
    else if names[0] !in repo then Err(MissingFile(RepoDir, names[0]))
    else Stage(repo, index[names[0] := repo[names[0]]], names[1..])
  }

  /** commitToGit(changes, msg): nothing at all for an empty change list;
      otherwise every change is staged by name and exactly one commit with the
      message and the staged contents is appended to the log. No replica
      changes. */
  function CommitToGit(w: World, changes: seq<Name>, msg: string): (r: Run)
    ensures changes == [] ==> r == Run(Done, w)
    ensures r.outcome == Done <==> forall n :: n in changes ==> n in w.repo
    ensures r.outcome.Abort? ==> r.after == w
    ensures r.outcome.Abort? ==> r.outcome.failure.MissingFile? && r.outcome.failure.dir == RepoDir
    ensures r.outcome.Abort? ==> r.outcome.failure.name in changes && r.outcome.failure.name !in w.repo
    ensures r.outcome == Done && changes != [] ==> LogGrewBy(w.log, r.after.log, msg, changes, w.repo)
    ensures r.after.remote == w.remote && r.after.repo == w.repo && r.after.local == w.local
    ensures r.after.log == w.log || |r.after.log| == |w.log| + 1
  {
    if changes == [] then Run(Done, w)
    else match Stage(w.repo, map[], changes)
      case Err(f) => Run(Abort(f), w)
      case Ok(index) => Run(Done, w.(log := w.log + [Commit(msg, changes, index)]))
  }

  /** `after` is `before` with one more commit, whose message is `msg`, whose
      staged names are `files` in that order, and which records for each of them
      its content in `repo`. */
  ghost predicate LogGrewBy(before: seq<Commit>, after: seq<Commit>, msg: string, files: seq<Name>, repo: Store)
  {
    && |after| == |before| + 1
    && after[..|before|] == before
    && after[|before|].message == msg
    && after[|before|].files == files
    && (forall n :: n in after[|before|].staged <==> n in files)
    && (forall n :: n in files ==> Get(after[|before|].staged, n) == Get(repo, n))
  }
}
