/**
 * The chain-key resolver of `process`: pick up the key of the last full
 * backup of this name, or start a new chain with a fresh key.
 */
module Resolver {
  import opened Wrappers
  import opened Text
  import opened Paths
  import opened Naming

  /** The directory listing holds plain entry names, none containing '/'. */
  predicate Entries(listing: seq<string>)
  {
    forall e :: e in listing ==> '/' !in e
  }

  /**
   * Entry `e` matches the glob `name*_full.tgz` (with `name` taken literally).
   * `glob` skips entries that start with '.' unless the pattern does too.
   */
  predicate GlobFull(name: string, e: string)
  {
    && |e| >= |name| + |FullSuffix|
    && e[..|name|] == name
    && e[|e| - |FullSuffix|..] == FullSuffix
    && (|e| > 0 && e[0] == '.' ==> |name| > 0 && name[0] == '.')
  }

  /** `glob(os.path.join(path_fs, name + "*_full.tgz"))`, in listing order. */
  function Candidates(name: string, pathFs: string, listing: seq<string>): (r: seq<string>)
    ensures forall e :: e in listing && GlobFull(name, e) ==> Join(pathFs, e) in r
    ensures forall p :: p in r ==> exists e :: e in listing && GlobFull(name, e) && p == Join(pathFs, e)
    decreases |listing|
  {
    if listing == [] then []
    else
      var rest := Candidates(name, pathFs, listing[1..]);
      if GlobFull(name, listing[0]) then [Join(pathFs, listing[0])] + rest else rest
  }

  /** The first element of `sorted(s, reverse=True)`: the greatest string of `s`. */
  function Greatest(s: seq<string>): (r: string)
    requires |s| > 0
    ensures r in s
    ensures forall x :: x in s ==> LexLe(x, r)
    decreases |s|
  {
    if |s| == 1 then
      LexRefl(s[0]);
      s[0]
    else
      var init := s[..|s| - 1];
      var last := s[|s| - 1];
      var g := Greatest(init);
      assert s == init + [last];
      LexTotal(g, last);
      LexRefl(last);
      if LexLe(g, last) then
        LexTransFrom(g, last);
        last
      else
        g
  }

  /** `sorted(files, reverse=True).pop(0)`: scans for the head of the descending order. */
  method GreatestFirst(files: seq<string>) returns (first: string)
    requires |files| > 0
    ensures first == Greatest(files)
  {
    first := files[0];
    var i := 1;
    while i < |files|
      invariant 1 <= i <= |files|
      invariant first == Greatest(files[..i])
    {
      assert files[..i + 1][..i] == files[..i];
      if LexLe(first, files[i]) {
        first := files[i];
      }
      i := i + 1;
    }
    assert files[..i] == files;
  }

  /** The key `process` uses, and whether it continues an existing chain. */
  datatype Resolution = Resolution(key: string, reused: bool)

  /**
   * The resolution `process` makes: forced runs take the fresh key; otherwise
   * only the greatest candidate is matched against the strict pattern.
   */
  function ChainKey(name: string, pathFs: string, listing: seq<string>, force: bool, freshKey: string): (r: Resolution)
    ensures force ==> r == Resolution(freshKey, false)
    ensures r.reused ==> IsKey(r.key)
    ensures !r.reused ==> r.key == freshKey
  {
    if force then Resolution(freshKey, false)
    else
      var cands := Candidates(name, pathFs, listing);
      if |cands| == 0 then Resolution(freshKey, false)
      else
        match Parse(name, Basename(Greatest(cands)))
        case Some(fb) => Resolution(fb.key, true)
        case None => Resolution(freshKey, false)
  }

  /** Key resolution as `process` runs it (backup.py:40-58). */
  method ResolveKey(name: string, pathFs: string, listing: seq<string>, force: bool, freshKey: string)
    returns (r: Resolution)
    ensures r == ChainKey(name, pathFs, listing, force, freshKey)
  {
    var key: Option<string> := None;
    if !force {
      var files := Candidates(name, pathFs, listing);
      if |files| > 0 {
        var lastFile := GreatestFirst(files);
        var last := Basename(lastFile);
        var m := Parse(name, last);
        if m.Some? {
          key := Some(m.value.key);
        }
      }
    }
    if key.None? {
      r := Resolution(freshKey, false);
    } else {
      r := Resolution(key.value, true);
    }
  }

  /**
   * Unforced, the resolution depends on one entry only: the greatest entry
   * matching the glob. Its strict parse decides, whatever the other entries are.
   */
  lemma GreatestEntryDecides(name: string, pathFs: string, listing: seq<string>, freshKey: string, b: string)
    requires Entries(listing)
    requires b in listing && GlobFull(name, b)
    requires forall e :: e in listing && GlobFull(name, e) ==> LexLe(e, b)
    ensures ChainKey(name, pathFs, listing, false, freshKey) ==
            match Parse(name, b)
            case Some(fb) => Resolution(fb.key, true)
            case None => Resolution(freshKey, false)
  {
    var cands := Candidates(name, pathFs, listing);
    var pb := Join(pathFs, b);
    assert pb in cands;
    var g := Greatest(cands);
    var e :| e in listing && GlobFull(name, e) && g == Join(pathFs, e);
    EntryIsRelative(e);
    EntryIsRelative(b);
    LexCommonPrefix(DirPrefix(pathFs), e, b);
    LexAntisym(g, pb);
    BasenameJoin(pathFs, b);
  }

  /** With no entry matching the glob, a fresh key starts a new chain. */
  lemma NoCandidateFresh(name: string, pathFs: string, listing: seq<string>, freshKey: string)
    requires forall e :: e in listing ==> !GlobFull(name, e)
    ensures ChainKey(name, pathFs, listing, false, freshKey) == Resolution(freshKey, false)
  {
    var cands := Candidates(name, pathFs, listing);
    if |cands| > 0 {
      assert cands[0] in cands;
    }
  }

  /** Every full-backup archive the program writes is found by the glob. */
  lemma FullArchiveGlobbed(name: string, key: string, stamp: string)
    requires IsKey(key) && IsStamp(stamp)
    ensures GlobFull(name, ArchiveName(name, key, stamp, false))
    ensures !GlobFull(name, ArchiveName(name, key, stamp, true))
  {
    var full := ArchiveName(name, key, stamp, false);
    assert full == name + ("_" + key + "_" + stamp + FullSuffix);
    assert full[|full| - |FullSuffix|..] == FullSuffix;
    var incr := ArchiveName(name, key, stamp, true);
    assert incr[|incr| - 8] == 'i';
  }

  /**
   * Chain continuation: when a full archive written with `key` is the greatest
   * glob match in the directory, the next unforced run reuses `key`.
   */
  lemma ChainContinues(name: string, pathFs: string, listing: seq<string>, key: string, stamp: string, freshKey: string)
    requires Entries(listing) && IsKey(key) && IsStamp(stamp)
    requires ArchiveName(name, key, stamp, false) in listing
    requires forall e :: e in listing && GlobFull(name, e) ==> LexLe(e, ArchiveName(name, key, stamp, false))
    ensures ChainKey(name, pathFs, listing, false, freshKey) == Resolution(key, true)
  {
    FullArchiveGlobbed(name, key, stamp);
    ParseArchiveName(name, key, stamp);
    GreatestEntryDecides(name, pathFs, listing, freshKey, ArchiveName(name, key, stamp, false));
  }

  /*
   * The resolution the design intends: continue the chain of the most recent
   * full backup of THIS name. Among the glob matches that pass the strict
   * pattern, the one with the greatest stamp wins (a later entry wins a tie).
   * Fixed-width `dddd-dd-dd-dd-dd-dd` stamps sort chronologically.
   */

  /** The newest strictly-matching full backup in the listing, if any. */
  function Latest(name: string, listing: seq<string>): Option<FullBackup>
    decreases |listing|
  {
    if listing == [] then None
    else
      var prev := Latest(name, listing[..|listing| - 1]);
      var e := listing[|listing| - 1];
      var here := if GlobFull(name, e) then Parse(name, e) else None;
      if here.None? then prev
      else if prev.None? || LexLe(prev.value.stamp, here.value.stamp) then here
      else prev
  }

  /** The full backups of this name the strict pattern accepts. */
  predicate Accepted(name: string, e: string)
  {
    GlobFull(name, e) && Parse(name, e).Some?
  }

  lemma {:induction false} LatestSpec(name: string, listing: seq<string>)
    ensures Latest(name, listing).Some? <==> exists e :: e in listing && Accepted(name, e)
    ensures Latest(name, listing).Some? ==>
              exists e :: e in listing && Accepted(name, e) && Parse(name, e) == Latest(name, listing)
    ensures Latest(name, listing).Some? ==>
              forall e :: e in listing && Accepted(name, e) ==>
                LexLe(Parse(name, e).value.stamp, Latest(name, listing).value.stamp)
    decreases |listing|
  {
    if listing != [] {
      var init := listing[..|listing| - 1];
      var e := listing[|listing| - 1];
      assert listing == init + [e];
      LatestSpec(name, init);
      var prev := Latest(name, init);
      if Accepted(name, e) && prev.None? {
        LexRefl(Parse(name, e).value.stamp);
      }
      if Accepted(name, e) && prev.Some? {
        var here := Parse(name, e).value;
        LexRefl(here.stamp);
        LexTotal(prev.value.stamp, here.stamp);
        if LexLe(prev.value.stamp, here.stamp) {
          LexTransFrom(prev.value.stamp, here.stamp);
        }
      }
    }
  }

  /** `Latest` over a two-entry listing. */
  lemma LatestOfTwo(name: string, a: string, b: string)
    ensures Latest(name, [a, b]) ==
            if Accepted(name, b) && (!Accepted(name, a) || LexLe(Parse(name, a).value.stamp, Parse(name, b).value.stamp))
            then Parse(name, b)
            else if Accepted(name, a) then Parse(name, a) else None
  {
    assert [a, b][..1] == [a];
    assert [a][..0] == [];
    assert Latest(name, [a]) == if Accepted(name, a) then Parse(name, a) else None;
  }

  /** The corrected resolver: forced runs start a chain, otherwise the newest chain of this name continues. */
  function LatestChainKey(name: string, listing: seq<string>, force: bool, freshKey: string): (r: Resolution)
    ensures force ==> r == Resolution(freshKey, false)
    ensures !force ==> (r.reused <==> exists e :: e in listing && Accepted(name, e))
    ensures r.reused ==> IsKey(r.key)
    ensures r.reused ==>
              exists e :: e in listing && Accepted(name, e) && Parse(name, e).value.key == r.key &&
                forall e' :: e' in listing && Accepted(name, e') ==>
                  LexLe(Parse(name, e').value.stamp, Parse(name, e).value.stamp)
    ensures !r.reused ==> r.key == freshKey
  {
    LatestSpec(name, listing);
    if force then Resolution(freshKey, false)
    else
      match Latest(name, listing)
      case Some(fb) => Resolution(fb.key, true)
      case None => Resolution(freshKey, false)
  }

  /** Two full-backup names of one backup name with different keys sort by their keys, whatever their stamps. */
  lemma KeyOrdersNames(name: string, k1: string, t1: string, k2: string, t2: string)
    requires IsKey(k1) && IsKey(k2) && k1 != k2
    ensures LexLe(ArchiveName(name, k1, t1, false), ArchiveName(name, k2, t2, false)) == LexLe(k1, k2)
  {
    var p := name + "_";
    var s1 := "_" + t1 + FullSuffix;
    var s2 := "_" + t2 + FullSuffix;
    assert ArchiveName(name, k1, t1, false) == p + (k1 + s1);
    assert ArchiveName(name, k2, t2, false) == p + (k2 + s2);
    LexCommonPrefix(p, k1 + s1, k2 + s2);
    LexHeadsDecide(k1, s1, k2, s2);
  }

  /** A backup name extended by a character above '_' sorts after every full backup of the name. */
  lemma ExtendedNameSortsAfter(name: string, c: char, k: string, t: string, k2: string, t2: string)
    requires '_' < c
    ensures LexLe(ArchiveName(name, k, t, false), ArchiveName(name + [c], k2, t2, false))
    ensures GlobFull(name, ArchiveName(name + [c], k2, t2, false))
    ensures Parse(name, ArchiveName(name + [c], k2, t2, false)).None?
  {
    var other := ArchiveName(name + [c], k2, t2, false);
    var xOwn := "_" + k + "_" + t + FullSuffix;
    var xOther := [c] + "_" + k2 + "_" + t2 + FullSuffix;
    assert ArchiveName(name, k, t, false) == name + xOwn;
    assert other == name + xOther;
    LexFirstDiffers(xOwn, xOther);
    LexCommonPrefix(name, xOwn, xOther);
    assert other[|name|] == c;
    assert other[..|name|] == name;
    assert other[|other| - |FullSuffix|..] == FullSuffix;
  }

  /**
   * As written, the descending sort compares the key before the stamp: after a
   * forced new chain whose key sorts lower, the next run resumes the OLDER chain.
   */
  lemma OlderChainWins(name: string, pathFs: string, kOld: string, tOld: string, kNew: string, tNew: string, freshKey: string)
    requires '/' !in name
    requires IsKey(kOld) && IsStamp(tOld) && IsKey(kNew) && IsStamp(tNew)
    requires LexLe(tOld, tNew) && tOld != tNew
    requires LexLe(kNew, kOld) && kNew != kOld
    ensures var listing := [ArchiveName(name, kOld, tOld, false), ArchiveName(name, kNew, tNew, false)];
            && ChainKey(name, pathFs, listing, false, freshKey) == Resolution(kOld, true)
            && LatestChainKey(name, listing, false, freshKey) == Resolution(kNew, true)
  {
    var older := ArchiveName(name, kOld, tOld, false);
    var newer := ArchiveName(name, kNew, tNew, false);
    ArchiveNameIsEntry(name, kOld, tOld, false);
    ArchiveNameIsEntry(name, kNew, tNew, false);
    FullArchiveGlobbed(name, kOld, tOld);
    FullArchiveGlobbed(name, kNew, tNew);
    ParseArchiveName(name, kOld, tOld);
    ParseArchiveName(name, kNew, tNew);
    KeyOrdersNames(name, kNew, tNew, kOld, tOld);
    LexRefl(older);
    GreatestEntryDecides(name, pathFs, [older, newer], freshKey, older);
    LatestOfTwo(name, older, newer);
  }

  /**
   * As written, the glob `name*` also catches another backup whose name extends
   * this one (`dbx` for `db`); when it sorts first, the real chain is ignored.
   */
  lemma PrefixNameCrowdsOut(name: string, c: char, pathFs: string, k: string, t: string, k2: string, t2: string, freshKey: string)
    requires '/' !in name && '_' < c
    requires IsKey(k) && IsStamp(t) && IsKey(k2) && IsStamp(t2)
    ensures var listing := [ArchiveName(name, k, t, false), ArchiveName(name + [c], k2, t2, false)];
            && ChainKey(name, pathFs, listing, false, freshKey) == Resolution(freshKey, false)
            && LatestChainKey(name, listing, false, freshKey) == Resolution(k, true)
  {
    var own := ArchiveName(name, k, t, false);
    var other := ArchiveName(name + [c], k2, t2, false);
    ArchiveNameIsEntry(name, k, t, false);
    ArchiveNameIsEntry(name + [c], k2, t2, false);
    FullArchiveGlobbed(name, k, t);
    ParseArchiveName(name, k, t);
    ExtendedNameSortsAfter(name, c, k, t, k2, t2);
    LexRefl(other);
    GreatestEntryDecides(name, pathFs, [own, other], freshKey, other);
    LatestOfTwo(name, own, other);
  }
}
