/** Python's ordering of `str` values, which `sorted` uses. */
module Text {

  /** `a <= b` on Python strings: code point by code point, a proper prefix sorts first. */
  predicate LexLe(a: string, b: string)
    decreases |a|
  {
    |a| == 0 || (|b| > 0 && (a[0] < b[0] || (a[0] == b[0] && LexLe(a[1..], b[1..]))))
  }

  lemma {:induction false} LexRefl(a: string)
    ensures LexLe(a, a)
    decreases |a|
  {
    if |a| > 0 {
      LexRefl(a[1..]);
    }
  }

  lemma {:induction false} LexTotal(a: string, b: string)
    ensures LexLe(a, b) || LexLe(b, a)
    decreases |a|
  {
    if |a| > 0 && |b| > 0 && a[0] == b[0] {
      LexTotal(a[1..], b[1..]);
    }
  }

  lemma {:induction false} LexTrans(a: string, b: string, c: string)
    requires LexLe(a, b) && LexLe(b, c)
    ensures LexLe(a, c)
    decreases |a|
  {
    if |a| > 0 && a[0] == b[0] && b[0] == c[0] {
      LexTrans(a[1..], b[1..], c[1..]);
    }
  }

  lemma {:induction false} LexAntisym(a: string, b: string)
    requires LexLe(a, b) && LexLe(b, a)
    ensures a == b
    decreases |a|
  {
    if |a| > 0 {
      LexAntisym(a[1..], b[1..]);
      assert a == [a[0]] + a[1..];
      assert b == [b[0]] + b[1..];
    }
  }

  /** Every string at or below `b` is at or below anything above `b`. */
  lemma LexTransFrom(b: string, c: string)
    requires LexLe(b, c)
    ensures forall a :: LexLe(a, b) ==> LexLe(a, c)
  {
    forall a | LexLe(a, b) ensures LexLe(a, c) {
      LexTrans(a, b, c);
    }
  }

  /** A shared prefix does not change the order of two strings. */
  lemma {:induction false} LexCommonPrefix(c: string, x: string, y: string)
    ensures LexLe(c + x, c + y) == LexLe(x, y)
    decreases |c|
  {
    if |c| > 0 {
      assert (c + x)[1..] == c[1..] + x;
      assert (c + y)[1..] == c[1..] + y;
      LexCommonPrefix(c[1..], x, y);
    } else {
      assert c + x == x && c + y == y;
    }
  }

  /** Two different heads of equal length decide the order, whatever follows them. */
  lemma {:induction false} LexHeadsDecide(x1: string, s1: string, x2: string, s2: string)
    requires |x1| == |x2| && x1 != x2
    ensures LexLe(x1 + s1, x2 + s2) == LexLe(x1, x2)
    decreases |x1|
  {
    assert (x1 + s1)[0] == x1[0] && (x2 + s2)[0] == x2[0];
    if x1[0] == x2[0] {
      assert x1 == [x1[0]] + x1[1..] && x2 == [x2[0]] + x2[1..];
      assert (x1 + s1)[1..] == x1[1..] + s1;
      assert (x2 + s2)[1..] == x2[1..] + s2;
      LexHeadsDecide(x1[1..], s1, x2[1..], s2);
    }
  }

  /** Strings that first differ at their first character are ordered by it. */
  lemma LexFirstDiffers(x: string, y: string)
    requires |x| > 0 && |y| > 0 && x[0] < y[0]
    ensures LexLe(x, y) && !LexLe(y, x)
  {
  }
}

/** The `posixpath` helpers the program calls: `os.path.join` and `os.path.basename`. */
module Paths {

  /** The directory part `os.path.join(a, b)` keeps when `b` is relative. */
  function DirPrefix(a: string): string
  {
    if a == "" || a[|a| - 1] == '/' then a else a + "/"
  }

  predicate IsAbsolute(p: string)
  {
    |p| > 0 && p[0] == '/'
  }

  /** `os.path.join(a, b)`: an absolute `b` replaces `a`, otherwise one separator is inserted. */
  function Join(a: string, b: string): string
  {
    if IsAbsolute(b) then b else DirPrefix(a) + b
  }

  /** `os.path.basename(p)`: everything after the last '/'. */
  function Basename(p: string): string
    decreases |p|
  {
    if p == "" || p[|p| - 1] == '/' then "" else Basename(p[..|p| - 1]) + [p[|p| - 1]]
  }

  lemma {:induction false} BasenameAfterDir(q: string, b: string)
    requires q == "" || q[|q| - 1] == '/'
    requires '/' !in b
    ensures Basename(q + b) == b
    decreases |b|
  {
    if b == "" {
      assert q + b == q;
    } else {
      var last := |b| - 1;
      assert (q + b)[..|q + b| - 1] == q + b[..last];
      BasenameAfterDir(q, b[..last]);
      assert b[..last] + [b[last]] == b;
    }
  }

  /** A directory entry never holds '/', so `os.path.join` never treats it as absolute. */
  lemma EntryIsRelative(b: string)
    requires '/' !in b
    ensures !IsAbsolute(b) && Join("", b) == b
  {
    if |b| > 0 { assert b[0] in b; }
  }

  /** A directory entry joined onto any directory is recovered by `basename`. */
  lemma BasenameJoin(a: string, b: string)
    requires '/' !in b
    ensures Basename(Join(a, b)) == b
  {
    EntryIsRelative(b);
    BasenameAfterDir(DirPrefix(a), b);
  }

  /** Two names that are both relative or both absolute land on different paths in one directory. */
  lemma JoinInjective(a: string, x: string, y: string)
    requires IsAbsolute(x) == IsAbsolute(y)
    requires Join(a, x) == Join(a, y)
    ensures x == y
  {
    if !IsAbsolute(x) {
      var d := DirPrefix(a);
      assert x == (d + x)[|d|..];
      assert y == (d + y)[|d|..];
    }
  }
}
