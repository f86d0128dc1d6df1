/**
 * `backup_target`: names the snapshot and archive files of one run, checks
 * the exclusion list and builds the argument list handed to `tar`.
 */
module Invoker {
  import opened Wrappers
  import opened Paths
  import opened Naming

  /** The exceptions a run can end with: `FileNotFoundError`, or any other. */
  datatype Failure = FileNotFound(path: string) | OtherError

  /** What one archiving run would do: its two files and the `tar` command line. */
  datatype Invocation = Invocation(snapshot: string, archive: string, incremental: bool, argv: seq<string>)

  const TarBinary := "/usr/bin/tar"

  /** `os.path.join(path_fs, "{name}_{key}.snar")` */
  function SnapshotPath(pathFs: string, name: string, key: string): string
  {
    Join(pathFs, SnarName(name, key))
  }

  /** `os.path.join(path_fs, "{name}_{key}_{dt}_{tag}.tgz")` */
  function ArchivePath(pathFs: string, name: string, key: string, stamp: string, incremental: bool): string
  {
    Join(pathFs, ArchiveName(name, key, stamp, incremental))
  }

  /** `if exclude_file:` holds: a value was given and it is not the empty string. */
  predicate Given(exclude: Option<string>)
  {
    exclude.Some? && exclude.value != ""
  }

  /** The exclusion list that reaches `tar`, if any. */
  function Passed(exclude: Option<string>): Option<string>
  {
    if Given(exclude) then exclude else None
  }

  predicate ExcludeMissing(exclude: Option<string>, existing: set<string>)
  {
    Given(exclude) && exclude.value !in existing
  }

  /** The list exists but `open`/`readlines` fails on it (a directory, no permission, bad encoding). */
  predicate ExcludeUnreadable(exclude: Option<string>, existing: set<string>, readable: bool)
  {
    Given(exclude) && exclude.value in existing && !readable
  }

  /**
   * The `tar` command line: the fixed prefix, `-X list` when a list is
   * passed, then the include paths in their given order.
   */
  function TarArgv(archive: string, snapshot: string, targetDir: string, exclude: Option<string>, files: seq<string>): (argv: seq<string>)
    ensures |argv| == 10 + (if exclude.Some? then 2 else 0) + |files|
    ensures argv[..10] == [TarBinary, "-c", "--one-file-system", "-z", "-f", archive, "-g", snapshot, "-C", targetDir]
    ensures exclude.Some? ==> argv[10..12] == ["-X", exclude.value]
    ensures argv[|argv| - |files|..] == files
  {
    var prefix := [TarBinary, "-c", "--one-file-system", "-z", "-f", archive, "-g", snapshot, "-C", targetDir];
    var excluded := if exclude.Some? then ["-X", exclude.value] else [];
    assert (prefix + excluded + files)[..10] == prefix;
    prefix + excluded + files
  }

  /**
   * `backup_target` up to the `tar` call: incremental exactly when the
   * snapshot file exists; a given but missing exclusion list raises
   * `FileNotFoundError` before anything is run.
   */
  method BackupTarget(key: string, pathFs: string, name: string, files: seq<string>, targetDir: string,
                      exclude: Option<string>, stamp: string, existing: set<string>, excludeReadable: bool)
    returns (r: Result<Invocation, Failure>)
    ensures ExcludeMissing(exclude, existing) ==> r == Failure(FileNotFound(exclude.value))
    ensures ExcludeUnreadable(exclude, existing, excludeReadable) ==> r == Failure(OtherError)
    ensures r.Success? <==> !ExcludeMissing(exclude, existing) && !ExcludeUnreadable(exclude, existing, excludeReadable)
    ensures r.Success? ==>
              var snapshot := SnapshotPath(pathFs, name, key);
              var incremental := snapshot in existing;
              var archive := ArchivePath(pathFs, name, key, stamp, incremental);
              r.value == Invocation(snapshot, archive, incremental, TarArgv(archive, snapshot, targetDir, Passed(exclude), files))
  {
    var snapshot := SnapshotPath(pathFs, name, key);
    var incremental := snapshot in existing;
    var archive := ArchivePath(pathFs, name, key, stamp, incremental);
    var cmd := [TarBinary, "-c", "--one-file-system", "-z", "-f", archive, "-g", snapshot, "-C", targetDir];
    if exclude.Some? && exclude.value != "" {
      if exclude.value in existing {
        cmd := cmd + ["-X"];
        cmd := cmd + [exclude.value];
        if !excludeReadable {
          return Failure(OtherError);
        }
      } else {
        return Failure(FileNotFound(exclude.value));
      }
    }
    cmd := cmd + files;
    r := Success(Invocation(snapshot, archive, incremental, cmd));
  }

  /** One snapshot file per chain: distinct keys never share a snapshot path. */
  lemma SnapshotPerKey(pathFs: string, name: string, k1: string, k2: string)
    requires SnapshotPath(pathFs, name, k1) == SnapshotPath(pathFs, name, k2)
    ensures k1 == k2
  {
    var s1 := SnarName(name, k1);
    var s2 := SnarName(name, k2);
    assert IsAbsolute(s1) == IsAbsolute(s2) by {
      if |name| > 0 {
        assert s1[0] == name[0] == s2[0];
      } else {
        assert s1[0] == '_' == s2[0];
      }
    }
    JoinInjective(pathFs, s1, s2);
    assert k1 == s1[|name| + 1..|s1| - 5];
    assert k2 == s2[|name| + 1..|s2| - 5];
  }

  /** Archives of runs that differ in key, stamp or tag never share a path. */
  lemma ArchivePerRun(pathFs: string, name: string, k1: string, t1: string, inc1: bool, k2: string, t2: string, inc2: bool)
    requires IsKey(k1) && IsKey(k2) && IsStamp(t1) && IsStamp(t2)
    requires ArchivePath(pathFs, name, k1, t1, inc1) == ArchivePath(pathFs, name, k2, t2, inc2)
    ensures k1 == k2 && t1 == t2 && inc1 == inc2
  {
    var a1 := ArchiveName(name, k1, t1, inc1);
    var a2 := ArchiveName(name, k2, t2, inc2);
    assert IsAbsolute(a1) == IsAbsolute(a2) by {
      if |name| > 0 {
        assert a1[0] == name[0] == a2[0];
      } else {
        assert a1[0] == '_' == a2[0];
      }
    }
    JoinInjective(pathFs, a1, a2);
    var n := |name|;
    assert k1 == a1[n + 1..n + 33] && k2 == a2[n + 1..n + 33];
    assert t1 == a1[n + 34..n + 53] && t2 == a2[n + 34..n + 53];
    assert Tag(inc1) == a1[n + 54..n + 58] && Tag(inc2) == a2[n + 54..n + 58];
  }

  /**
   * Round trip from the invoker to the resolver: the full archive a run writes
   * is named so that `basename` and the strict pattern give back its key.
   */
  lemma FullArchiveCarriesKey(pathFs: string, name: string, key: string, stamp: string)
    requires '/' !in name && IsKey(key) && IsStamp(stamp)
    ensures Basename(ArchivePath(pathFs, name, key, stamp, false)) == ArchiveName(name, key, stamp, false)
    ensures Parse(name, Basename(ArchivePath(pathFs, name, key, stamp, false))) == Some(FullBackup(key, stamp))
  {
    ArchiveNameIsEntry(name, key, stamp, false);
    BasenameJoin(pathFs, ArchiveName(name, key, stamp, false));
    ParseArchiveName(name, key, stamp);
  }
}
