/**
 * `process` and `main`: resolve the chain key, plan the archive, hand the
 * command line to `tar`, and map the outcome to the program's exit code.
 */
module Backup {
  import opened Wrappers
  import opened Text
  import opened Paths
  import opened Naming
  import opened Resolver
  import opened Invoker
  import opened Options

  /**
   * What one run observes of the outside world: the entries of `{base}/fs`
   * the glob scans, the paths `os.path.exists` reports, the `strftime`
   * stamp, the `uuid4().hex` key, whether the exclusion list can be read,
   * and what `os.path.getsize` finds when it reads the archive after `tar`.
   */
  datatype World = World(listing: seq<string>, existing: set<string>, stamp: string, freshKey: string,
                         excludeReadable: bool, archive: SizeRead)

  /**
   * The outcome of `os.path.getsize(archive_file)`: a size, `FileNotFoundError`
   * when `tar` left no archive, or another `OSError` (a directory on the path
   * that cannot be searched, say).
   */
  datatype SizeRead = Sized | Absent | Inaccessible

  /** The key a run of `process` archives under. */
  function RunKey(pathBase: string, name: string, force: bool, w: World): string
  {
    ChainKey(name, Join(pathBase, "fs"), w.listing, force, w.freshKey).key
  }

  /** The archive a run of `process` writes. */
  function RunArchive(pathBase: string, name: string, force: bool, w: World): string
  {
    var pathFs := Join(pathBase, "fs");
    var key := RunKey(pathBase, name, force, w);
    ArchivePath(pathFs, name, key, w.stamp, SnapshotPath(pathFs, name, key) in w.existing)
  }

  /** The command line a run of `process` hands to `tar`. */
  function RunArgv(pathBase: string, name: string, targetDir: string, includes: seq<string>,
                   exclude: Option<string>, force: bool, w: World): seq<string>
  {
    var pathFs := Join(pathBase, "fs");
    var key := RunKey(pathBase, name, force, w);
    TarArgv(RunArchive(pathBase, name, force, w), SnapshotPath(pathFs, name, key), targetDir, Passed(exclude), includes)
  }

  /** The exclusion list stops the run before `tar` (missing, or present but unreadable). */
  predicate ExcludeBlocks(exclude: Option<string>, w: World)
  {
    ExcludeMissing(exclude, w.existing) || ExcludeUnreadable(exclude, w.existing, w.excludeReadable)
  }

  /**
   * `process`: `tar` is called exactly when the exclusion list does not stop
   * the run; the result is the archive path, the `FileNotFoundError` of
   * a missing list or of an archive `tar` did not leave behind, or another
   * error for an unreadable list or an archive whose size cannot be read.
   */
  method Process(pathBase: string, name: string, targetDir: string, includes: seq<string>,
                 exclude: Option<string>, force: bool, w: World)
    returns (tarCall: Option<seq<string>>, r: Result<string, Failure>)
    ensures tarCall.Some? <==> !ExcludeBlocks(exclude, w)
    ensures tarCall.Some? ==> tarCall.value == RunArgv(pathBase, name, targetDir, includes, exclude, force, w)
    ensures r == if ExcludeMissing(exclude, w.existing) then Failure(FileNotFound(exclude.value))
                 else if ExcludeUnreadable(exclude, w.existing, w.excludeReadable) then Failure(OtherError)
                 else match w.archive
                      case Sized => Success(RunArchive(pathBase, name, force, w))
                      case Absent => Failure(FileNotFound(RunArchive(pathBase, name, force, w)))
                      case Inaccessible => Failure(OtherError)
  {
    var pathFs := Join(pathBase, "fs");
    var resolution := ResolveKey(name, pathFs, w.listing, force, w.freshKey);
    var planned := BackupTarget(resolution.key, pathFs, name, includes, targetDir, exclude,
                                w.stamp, w.existing, w.excludeReadable);
    if planned.Failure? {
      return None, Failure(planned.error);
    }
    tarCall := Some(planned.value.argv);
    match w.archive
    case Sized =>
      r := Success(planned.value.archive);
    case Absent =>
      r := Failure(FileNotFound(planned.value.archive));
    case Inaccessible =>
      r := Failure(OtherError);
  }

  /** `if name and target:` */
  predicate Truthy(o: Option<string>)
  {
    o.Some? && o.value != ""
  }

  predicate Runnable(cfg: Config)
  {
    Truthy(cfg.name) && Truthy(cfg.target)
  }

  /** The exception handlers of `main`: 0 on success, 3 for `FileNotFoundError`, 4 for any other. */
  function ExitCode(r: Result<string, Failure>): (code: int)
    ensures code == 0 <==> r.Success?
    ensures code == 3 <==> r.Failure? && r.error.FileNotFound?
    ensures code == 4 <==> r == Failure(OtherError)
  {
    match r
    case Success(_) => 0
    case Failure(FileNotFound(_)) => 3
    case Failure(OtherError) => 4
  }

  /**
   * `main`: `parsed` is what `getopt` returns, `None` when it raises
   * `GetoptError`. Returns the exit code and the `tar` command line, if run.
   */
  method Entry(parsed: Option<seq<(string, string)>>, w: World) returns (code: int, tarCall: Option<seq<string>>)
    ensures parsed.None? ==> code == 2 && tarCall.None?
    ensures parsed.Some? && !Runnable(Configure(parsed.value)) ==> code == 1 && tarCall.None?
    ensures parsed.Some? && Runnable(Configure(parsed.value)) ==>
              var cfg := Configure(parsed.value);
              var name := cfg.name.value;
              && code == (if ExcludeMissing(cfg.exclude, w.existing) then 3
                          else if ExcludeUnreadable(cfg.exclude, w.existing, w.excludeReadable) then 4
                          else match w.archive
                               case Sized => 0
                               case Absent => 3
                               case Inaccessible => 4)
              && (tarCall.Some? <==> !ExcludeBlocks(cfg.exclude, w))
              && (tarCall.Some? ==>
                    tarCall.value == RunArgv(cfg.base, name, cfg.target.value, DefaultIncludes(cfg.includes),
                                             cfg.exclude, cfg.force, w))
  {
    if parsed.None? {
      return 2, None;
    }
    var cfg := FoldOptions(parsed.value);
    var files := cfg.includes;
    if |files| == 0 {
      files := files + ["."];
    }
    if Truthy(cfg.name) && Truthy(cfg.target) {
      var r;
      tarCall, r := Process(cfg.base, cfg.name.value, cfg.target.value, files, cfg.exclude, cfg.force, w);
      code := ExitCode(r);
    } else {
      code, tarCall := 1, None;
    }
  }

  /** First run in an empty directory: a fresh key, a full archive, a new snapshot file. */
  lemma FirstRunIsFull(pathBase: string, name: string, w: World)
    requires forall e :: e in w.listing ==> !GlobFull(name, e)
    requires SnapshotPath(Join(pathBase, "fs"), name, w.freshKey) !in w.existing
    ensures RunKey(pathBase, name, false, w) == w.freshKey
    ensures RunArchive(pathBase, name, false, w) == Join(Join(pathBase, "fs"), ArchiveName(name, w.freshKey, w.stamp, false))
  {
    NoCandidateFresh(name, Join(pathBase, "fs"), w.listing, w.freshKey);
  }

  /**
   * A later unforced run whose newest full archive is that of chain `key`,
   * with the chain's snapshot in place, writes an incremental archive of `key`.
   */
  lemma LaterRunIsIncremental(pathBase: string, name: string, key: string, first: string, w: World)
    requires Entries(w.listing) && IsKey(key) && IsStamp(first)
    requires ArchiveName(name, key, first, false) in w.listing
    requires forall e :: e in w.listing && GlobFull(name, e) ==> LexLe(e, ArchiveName(name, key, first, false))
    requires SnapshotPath(Join(pathBase, "fs"), name, key) in w.existing
    ensures RunKey(pathBase, name, false, w) == key
    ensures RunArchive(pathBase, name, false, w) == Join(Join(pathBase, "fs"), ArchiveName(name, key, w.stamp, true))
  {
    ChainContinues(name, Join(pathBase, "fs"), w.listing, key, first, w.freshKey);
  }

  /** A forced run archives under the fresh key whatever the directory holds. */
  lemma ForcedRunIgnoresListing(pathBase: string, name: string, targetDir: string, includes: seq<string>,
                                 exclude: Option<string>, w: World, listing: seq<string>)
    ensures RunKey(pathBase, name, true, w) == w.freshKey
    ensures RunArgv(pathBase, name, targetDir, includes, exclude, true, w) ==
            RunArgv(pathBase, name, targetDir, includes, exclude, true, w.(listing := listing))
  {
  }
}
