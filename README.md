# backup.py in Dafny

A model of `backup.py`, a small script that takes periodic backups with GNU
`tar`. A backup belongs to a *chain*. A chain starts with a full archive and
continues with incremental ones. All archives of a chain share a 32-hex-digit
*key* and one `tar` snapshot file, `{base}/fs/{name}_{key}.snar`. A chain is
never stored as a record. The program finds it again from the file names of
earlier full archives, `{name}_{key}_{YYYY-MM-DD-HH-MM-SS}_full.tgz`.

The model covers the three parts of the script:

- **Key resolution** (`process`). This is module `Resolver`, built on the file-name convention in `Naming`.
  - With `--force`, the fresh key is used.
  - Otherwise the glob `name*_full.tgz` is sorted in descending order and only its first entry is matched against the strict pattern.
  - On a match its key is reused. Otherwise a fresh key is used.
- **Archive naming and the `tar` command line** (`backup_target`). This is module `Invoker`.
  - The archive is tagged `incr` exactly when the snapshot file already exists.
  - The command is a fixed prefix, then `-X list` when an exclusion list is given and exists, then the include paths.
  - A given but missing exclusion list raises `FileNotFoundError` before `tar` runs.
- **Option folding and exit codes** (`main`). These are modules `Options` and `Backup`.
  - The last `-n`, `-t`, `-b` or `-e` wins.
  - `-i` values accumulate in order, and there is a `.` default.
  - The exit code is 1 without a name and a target, 2 for bad options, 3 for `FileNotFoundError`, 4 for any other error, and 0 otherwise.

Everything the script gets from outside becomes an input, collected in `Backup.World`:

- the entries of `{base}/fs` that the glob scans;
- the set of paths `os.path.exists` reports;
- the `strftime` stamp;
- the `uuid4().hex` key;
- whether the exclusion list can be read;
- what `os.path.getsize` finds when it reads the archive: a size, no file, or another `OSError` (`Backup.SizeRead`).

`tar` itself is represented only by the command line handed to it.

Python details that the model keeps:

- `str` ordering is code point by code point (`Text.LexLe`).
- `os.path.join` and `os.path.basename` follow `posixpath` (`Paths`).
- `glob` skips dot-entries unless the pattern starts with a dot.
- The regex `$` also matches before a final newline.
- The truthiness tests `if exclude_file:` and `if name and target:` treat an empty string as absent.

The program ignores `tar`'s exit status. A missing archive is noticed only when `os.path.getsize` raises `FileNotFoundError`. That exception is caught by the `FileNotFoundError` handler, so the run exits with 3, not with the generic 4 of other failures (backup.py:60, backup.py:97-99). Any other `OSError` from `getsize`, such as a `PermissionError` on the archive's directory, reaches the generic handler and gives 4 (backup.py:103-105).

## Model

| member | source | states |
|---|---|---|
| Naming.Parse | backup.py:48-51 | The strict pattern accepts a name only if it is `name_KEY_STAMP_full.tgz`, optionally followed by one newline. KEY must be 32 characters of `[a-f0-9]` and STAMP must have the form `dddd-dd-dd-dd-dd-dd`. The captured key is exactly the 32 characters after `name_`. Being a function, the parse is deterministic. |
| Naming.ParseArchiveName | backup.py:48-51 | Round trip: take any name, a well-formed key and a well-formed stamp. Formatting them as a full-archive name and parsing the result gives back the same key and stamp. |
| Naming.IncrementalNeverParses | backup.py:48 | An `_incr.tgz` archive name is never accepted as a full backup. |
| Resolver.Candidates | backup.py:44 | The glob result holds `join(path_fs, e)` for exactly the directory entries `e` that match `name*_full.tgz`. |
| Resolver.Greatest | backup.py:44-46 | The head of the descending sort is an element of the list and is at or above every element in Python string order. |
| Resolver.GreatestFirst | backup.py:44-46 | The scan returns the head of `sorted(files, reverse=True)`, that is, `Greatest(files)`. |
| Resolver.ChainKey | backup.py:43-58 | A forced run gets the fresh key and does not reuse it. A reused key is always a well-formed 32-hex key. A key that is not reused is the fresh one. |
| Resolver.ResolveKey | backup.py:40-58 | The key-resolution steps of `process` compute exactly `ChainKey`. |
| Resolver.GreatestEntryDecides | backup.py:44-51 | Take an unforced run. The greatest glob match alone decides the key. If it parses, its key is reused. If not, the fresh key is used, even when other matches would parse. |
| Resolver.NoCandidateFresh | backup.py:45-57 | When no entry matches the glob, the fresh key is used. |
| Resolver.FullArchiveGlobbed | backup.py:44 | Every full archive name matches the glob `name*_full.tgz`. No incremental archive name does. |
| Resolver.ChainContinues | backup.py:44-51 | Suppose a full archive written with key K is the greatest glob match. Then the next unforced run reuses K. |
| Resolver.KeyOrdersNames | backup.py:44 | Take two full-archive names of the same backup name whose well-formed keys differ. The first sorts at or below the second exactly when its key does, whatever the stamps. |
| Resolver.ExtendedNameSortsAfter | backup.py:44-48 | Extend the name by one character above `_`. An archive of that name matches the glob, sorts after this name's archives, and fails the strict pattern. |
| Resolver.OlderChainWins | backup.py:44-46 | Finding 1, as written: an older chain whose key sorts higher is resumed instead of the newer chain. The corrected resolver picks the newer chain on the same directory. |
| Resolver.PrefixNameCrowdsOut | backup.py:44-48 | Finding 2, as written: a full archive of an extended name hides this name's valid full archive, and a fresh key is used. The corrected resolver resumes the valid chain. |
| Resolver.LatestSpec | backup.py:44-51 | The corrected selection finds a full backup exactly when some glob match passes the strict pattern. The backup it finds is one of them, and its stamp is at or above the stamp of every other one. |
| Resolver.LatestChainKey | backup.py:43-58 | Corrected resolver. A forced run gets the fresh key. An unforced run reuses a key exactly when some full backup of this name passes the strict pattern. The reused key is that of the backup with the newest stamp. |
| Invoker.TarArgv | backup.py:20-29 | The command starts with `/usr/bin/tar -c --one-file-system -z -f ARCHIVE -g SNAR -C TARGET`. Then comes `-X LIST` only when a list is passed. Then come the include paths in their order. The length is 10, plus 2 with a list, plus the number of includes. |
| Invoker.BackupTarget | backup.py:14-36 | The snapshot path is `join(path_fs, name_key.snar)`. The archive path is `join(path_fs, name_key_stamp_TAG.tgz)`, where TAG is `incr` exactly when the snapshot path exists. A given but missing list raises `FileNotFoundError(list)`. A present but unreadable list raises another error. In both cases no command is produced. Otherwise the result is the command `TarArgv`. |
| Invoker.SnapshotPerKey | backup.py:17 | Two different keys never share a snapshot file. |
| Invoker.ArchivePerRun | backup.py:19 | Two runs whose key, stamp or tag differ never write the same archive path. |
| Invoker.FullArchiveCarriesKey | backup.py:47-51 | Round trip from writer to reader: the basename of a full archive path parses back to the run's key and stamp. |
| Options.FoldOptions | backup.py:65-85 | The option loop yields exactly `Configure(opts)`. Name, target, base and exclude come from the last option of their kind. Base defaults to `/backup`. Includes are all `-i` values in order. Force is set when any `-f` occurs. |
| Options.LastWins | backup.py:73-83 | If the option at index i has no later option of its kind, its argument is the value. |
| Options.LastArgAbsent | backup.py:65-83 | A value stays unset exactly when no option of its kind occurs. |
| Options.IncludesAppend | backup.py:84-85 | Include paths accumulate. Folding `a + b` gives the includes of `a` followed by those of `b`. |
| Options.DefaultIncludes | backup.py:86-87 | With no `-i`, the include list becomes `["."]`. A non-empty list is kept as is. |
| Backup.Process | backup.py:39-61 | `tar` is called exactly when the exclusion list does not stop the run. Its command is the one built from the resolved key. The result is the archive path when `getsize` finds the archive. It is `FileNotFoundError` for a missing list or a missing archive. It is another error for an unreadable list or an archive whose size `getsize` cannot read. |
| Backup.ExitCode | backup.py:93-105 | Exit code 0 exactly on success, 3 exactly on `FileNotFoundError`, 4 exactly on any other error. |
| Backup.Entry | backup.py:64-105 | Bad options give 2. A missing or empty name or target gives 1 and no `tar`. Otherwise the code is 3 for a missing list (with no `tar`) or a missing archive, 4 for an unreadable list or an archive `getsize` cannot read, and 0 when `getsize` reads the archive. The `tar` command uses the folded configuration and the default includes. |
| Backup.FirstRunIsFull | backup.py:39-59 | With no full backup in the directory and no snapshot file for the fresh key, the run writes a full archive under the fresh key. |
| Backup.LaterRunIsIncremental | backup.py:39-59 | Suppose the greatest full archive belongs to chain K and K's snapshot exists. Then the next unforced run writes an incremental archive of K. |
| Backup.ForcedRunIgnoresListing | backup.py:43-59 | A forced run uses the fresh key. Its `tar` command does not depend on the directory listing. |

## Left out

- The `tar` process (backup.py:35). Only the command line handed to it is modelled. Its effect on the disk appears only as `World.archive`, the outcome of the size read. Its exit status is ignored by the program too.
- A failure to start `tar` at all, for example a missing `/usr/bin/tar` raising from `subprocess.call`. The model assumes `tar` starts.
- Real filesystem access. `glob`, `os.path.exists`, `open`/`readlines` of the exclusion list and `os.path.getsize` become the fields of `World`. The model does not tie these fields to each other. For example, the listing and the set of existing paths are independent inputs.
- `uuid.uuid4()` and `datetime.now()`. The key and the stamp are inputs. `Process` works for any strings. The chain lemmas assume a well-formed key and stamp.
- Console output. This includes the echo of the exclusion patterns (backup.py:25-26) and the progress lines. `sys.exit` becomes the returned code.
- The internals of `getopt.getopt`. The model takes the `(opt, arg)` pairs it returns, or `None` when it raises `GetoptError`. Positional arguments are ignored by the program as well.
- `path_conf` (backup.py:42). It is computed and passed along but never used.
- Naming.Parse: matches `name` literally. The program pastes `name` unescaped into the regex (backup.py:48). A name containing regex metacharacters such as `+`, `(`, `[` or `|` behaves differently in the program.
- Naming.Parse: `\d` is modelled as the ASCII digits. Python's `\d` also accepts other Unicode decimal digits.
- Resolver.GlobFull: matches `name` literally. The program pastes `name` unescaped into the glob (backup.py:44). Glob metacharacters (`*`, `?`, `[`) in the name, or in the base directory, are not modelled.
- Resolver.GreatestFirst: computes only the head of `sorted(..., reverse=True)`. The rest of the sorted list is never read (backup.py:46).

## Findings

`Backup.Process` and `Backup.Entry` keep the resolver as written, so that they describe the program. `Resolver.LatestChainKey` is the corrected resolver, and its property is proved in its own contract and in `Resolver.LatestSpec`.

| source | as written | input that shows it | evidently intended | confidence | as-written member | corrected member |
|---|---|---|---|---|---|---|
| backup.py:44-46 | Full-archive names are sorted as whole strings. The key comes before the stamp, so the greatest key wins, not the newest backup. | Name `db`, directory holding `db_ffff…f_2024-01-01-00-00-00_full.tgz` and `db_0000…0_2024-02-01-00-00-00_full.tgz` (a chain started later with `-f`). The next unforced run resumes the older `ffff…f` chain. | Resume the chain of the most recent full backup of this name. | high; not executed | Resolver.OlderChainWins | Resolver.LatestChainKey |
| backup.py:44-48 | The glob `name*` also returns full archives of longer names. Only the greatest entry is parsed. | Name `db`, directory holding `db_aaaa…a_2024-01-01-00-00-00_full.tgz` and `dbx_bbbb…b_2024-01-01-00-00-00_full.tgz`. `dbx_…` sorts first and fails the strict pattern, so a fresh key is used. | Consider only full backups of this name that pass the strict pattern. | high; not executed | Resolver.PrefixNameCrowdsOut | Resolver.LatestChainKey |
