/**
 * The file-name convention of the backup directory: the snapshot file
 * `{name}_{key}.snar`, the archives `{name}_{key}_{stamp}_{full|incr}.tgz`,
 * and the strict full-backup pattern the resolver matches against.
 */
module Naming {
  import opened Wrappers

  /** One character of `[a-f0-9]`. */
  predicate IsHexDigit(c: char)
  {
    ('0' <= c <= '9') || ('a' <= c <= 'f')
  }

  /** A chain key: 32 lower-case hex characters, the form `uuid4().hex` produces. */
  predicate IsKey(k: string)
  {
    |k| == 32 && forall i :: 0 <= i < |k| ==> IsHexDigit(k[i])
  }

  predicate IsDigit(c: char)
  {
    '0' <= c <= '9'
  }

  /** Position `i` of a `%Y-%m-%d-%H-%M-%S` stamp holds a dash or a digit. */
  predicate StampCharOk(i: int, c: char)
  {
    if i == 4 || i == 7 || i == 10 || i == 13 || i == 16 then c == '-' else IsDigit(c)
  }

  /** A timestamp `dddd-dd-dd-dd-dd-dd`. */
  predicate IsStamp(t: string)
  {
    |t| == 19 && forall i :: 0 <= i < |t| ==> StampCharOk(i, t[i])
  }

  function Tag(incremental: bool): string
  {
    if incremental then "incr" else "full"
  }

  /** `"{0}_{1}.snar".format(name, key)` */
  function SnarName(name: string, key: string): string
  {
    name + "_" + key + ".snar"
  }

  /** `"{0}_{1}_{2}_{3}.tgz".format(name, key, dt, tag)` */
  function ArchiveName(name: string, key: string, stamp: string, incremental: bool): string
  {
    name + "_" + key + "_" + stamp + "_" + Tag(incremental) + ".tgz"
  }

  /** What the strict pattern captures from a full-backup name. */
  datatype FullBackup = FullBackup(key: string, stamp: string)

  const FullSuffix := "_full.tgz"

  /** Length of everything after the name in a well-formed full-backup name. */
  const TailLength := 62

  /**
   * `b` is exactly `name _ key _ stamp _full.tgz`; the key sits at
   * `|name|+1 .. |name|+33` and the stamp at `|name|+34 .. |name|+53`.
   */
  predicate ExactFull(name: string, b: string)
  {
    var n := |name|;
    && |b| == n + TailLength
    && b[..n] == name
    && b[n] == '_'
    && IsKey(b[n + 1..n + 33])
    && b[n + 33] == '_'
    && IsStamp(b[n + 34..n + 53])
    && b[n + 53..] == FullSuffix
  }

  function Fields(name: string, b: string): FullBackup
    requires ExactFull(name, b)
  {
    FullBackup(b[|name| + 1..|name| + 33], b[|name| + 34..|name| + 53])
  }

  lemma ExactFullShape(name: string, b: string)
    requires ExactFull(name, b)
    ensures b == ArchiveName(name, Fields(name, b).key, Fields(name, b).stamp, false)
  {
    var n := |name|;
    var fb := Fields(name, b);
    assert b == b[..n] + [b[n]] + b[n + 1..n + 33] + [b[n + 33]] + b[n + 34..n + 53] + b[n + 53..];
  }

  /**
   * `re.search("^" + name + "_([a-f0-9]{32})_\d{4}-\d{2}-\d{2}-\d{2}-\d{2}-\d{2}_full\.tgz$", b)`
   * for a name matched literally. Python's `$` also matches just before a
   * final newline, so a name with one trailing "\n" matches too.
   */
  function Parse(name: string, b: string): (r: Option<FullBackup>)
    ensures r.Some? ==> IsKey(r.value.key) && IsStamp(r.value.stamp)
    ensures r.Some? ==> |b| >= |name| + 33 && r.value.key == b[|name| + 1..|name| + 33]
    ensures r.Some? ==>
              var full := ArchiveName(name, r.value.key, r.value.stamp, false);
              b == full || b == full + "\n"
    ensures r.None? ==> !ExactFull(name, b)
  {
    if ExactFull(name, b) then
      ExactFullShape(name, b);
      Some(Fields(name, b))
    else if |b| > 0 && b[|b| - 1] == '\n' && ExactFull(name, b[..|b| - 1]) then
      var b' := b[..|b| - 1];
      ExactFullShape(name, b');
      assert b == b' + "\n";
      Some(Fields(name, b'))
    else
      None
  }

  /** Round trip: the name of a full backup parses back to its key and stamp. */
  lemma {:induction false} ParseArchiveName(name: string, key: string, stamp: string)
    requires IsKey(key) && IsStamp(stamp)
    ensures Parse(name, ArchiveName(name, key, stamp, false)) == Some(FullBackup(key, stamp))
  {
    var b := ArchiveName(name, key, stamp, false);
    var n := |name|;
    assert b == name + "_" + key + "_" + stamp + FullSuffix;
    assert b[..n] == name;
    assert b[n + 1..n + 33] == key;
    assert b[n + 34..n + 53] == stamp;
    assert b[n + 53..] == FullSuffix;
    assert ExactFull(name, b);
  }

  /** An incremental archive never passes for a full backup. */
  lemma IncrementalNeverParses(name: string, key: string, stamp: string)
    ensures Parse(name, ArchiveName(name, key, stamp, true)).None?
  {
    var b := ArchiveName(name, key, stamp, true);
    assert b[|b| - 1] == 'z';
    var pre := name + "_" + key + "_" + stamp;
    assert b == pre + "_incr.tgz";
    assert b[|b| - 9 + 1] == 'i';
  }

  /** Names built from a '/'-free backup name are plain directory entries. */
  lemma ArchiveNameIsEntry(name: string, key: string, stamp: string, incremental: bool)
    requires '/' !in name && IsKey(key) && IsStamp(stamp)
    ensures '/' !in ArchiveName(name, key, stamp, incremental)
  {
  }
}
