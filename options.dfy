/**
 * The option fold of `main`: the `(opt, arg)` pairs `getopt` returns are
 * folded into the run's configuration.
 */
module Options {
  import opened Wrappers

  /** `opt in (short, long)` */
  predicate IsFlag(opt: string, short: string, long: string)
  {
    opt == short || opt == long
  }

  /** The argument of the last `short`/`long` option, if there is one. */
  function LastArg(opts: seq<(string, string)>, short: string, long: string): Option<string>
    decreases |opts|
  {
    if opts == [] then None
    else if IsFlag(opts[|opts| - 1].0, short, long) then Some(opts[|opts| - 1].1)
    else LastArg(opts[..|opts| - 1], short, long)
  }

  /** The arguments of every `-i`/`--include`, in order. */
  function Includes(opts: seq<(string, string)>): seq<string>
    decreases |opts|
  {
    if opts == [] then []
    else
      var rest := Includes(opts[..|opts| - 1]);
      if IsFlag(opts[|opts| - 1].0, "-i", "--include") then rest + [opts[|opts| - 1].1] else rest
  }

  predicate ForceGiven(opts: seq<(string, string)>)
  {
    exists i :: 0 <= i < |opts| && IsFlag(opts[i].0, "-f", "--force")
  }

  const DefaultBase := "/backup"

  function OrDefault(o: Option<string>, d: string): string
  {
    if o.Some? then o.value else d
  }

  /** The configuration `main` has once its loop is done; `None` stands for the initial `False`. */
  datatype Config = Config(name: Option<string>, target: Option<string>, base: string,
                           exclude: Option<string>, includes: seq<string>, force: bool)

  function Configure(opts: seq<(string, string)>): Config
  {
    Config(LastArg(opts, "-n", "--name"), LastArg(opts, "-t", "--target"),
           OrDefault(LastArg(opts, "-b", "--base"), DefaultBase),
           LastArg(opts, "-e", "--exclude"), Includes(opts), ForceGiven(opts))
  }

  /** The `for opt, arg in opts` loop of `main` (backup.py:65-85). */
  method FoldOptions(opts: seq<(string, string)>) returns (cfg: Config)
    ensures cfg == Configure(opts)
  {
    var name: Option<string> := None;
    var files: seq<string> := [];
    var force := false;
    var target: Option<string> := None;
    var base := DefaultBase;
    var exclude: Option<string> := None;
    for i := 0 to |opts|
      invariant name == LastArg(opts[..i], "-n", "--name")
      invariant target == LastArg(opts[..i], "-t", "--target")
      invariant base == OrDefault(LastArg(opts[..i], "-b", "--base"), DefaultBase)
      invariant exclude == LastArg(opts[..i], "-e", "--exclude")
      invariant files == Includes(opts[..i])
      invariant force == ForceGiven(opts[..i])
    {
      assert opts[..i + 1][..i] == opts[..i];
      var (opt, arg) := opts[i];
      if IsFlag(opt, "-n", "--name") {
        name := Some(arg);
      } else if IsFlag(opt, "-b", "--base") {
        base := arg;
      } else if IsFlag(opt, "-f", "--force") {
        force := true;
      } else if IsFlag(opt, "-t", "--target") {
        target := Some(arg);
      } else if IsFlag(opt, "-e", "--exclude") {
        exclude := Some(arg);
      } else if IsFlag(opt, "-i", "--include") {
        files := files + [arg];
      }
    }
    assert opts[..|opts|] == opts;
    cfg := Config(name, target, base, exclude, files, force);
  }

  /** The last wins: the option at `i`, with none of its kind after it, gives the value. */
  lemma {:induction false} LastWins(opts: seq<(string, string)>, short: string, long: string, i: int)
    requires 0 <= i < |opts| && IsFlag(opts[i].0, short, long)
    requires forall j :: i < j < |opts| ==> !IsFlag(opts[j].0, short, long)
    ensures LastArg(opts, short, long) == Some(opts[i].1)
    decreases |opts|
  {
    if i < |opts| - 1 {
      LastWins(opts[..|opts| - 1], short, long, i);
    }
  }

  /** No value without an option of that kind, and an option of that kind always gives one. */
  lemma {:induction false} LastArgAbsent(opts: seq<(string, string)>, short: string, long: string)
    ensures LastArg(opts, short, long).None? <==> forall i :: 0 <= i < |opts| ==> !IsFlag(opts[i].0, short, long)
    decreases |opts|
  {
    if opts != [] {
      LastArgAbsent(opts[..|opts| - 1], short, long);
    }
  }

  /** Include paths accumulate: folding two runs of options concatenates their includes in order. */
  lemma {:induction false} IncludesAppend(a: seq<(string, string)>, b: seq<(string, string)>)
    ensures Includes(a + b) == Includes(a) + Includes(b)
    decreases |b|
  {
    if b == [] {
      assert a + b == a;
    } else {
      var init := b[..|b| - 1];
      assert (a + b)[..|a + b| - 1] == a + init;
      IncludesAppend(a, init);
    }
  }

  /** `if len(files) == 0: files.append(".")` */
  function DefaultIncludes(files: seq<string>): (r: seq<string>)
    ensures files == [] ==> r == ["."]
    ensures files != [] ==> r == files
  {
    if |files| == 0 then ["."] else files
  }
}
