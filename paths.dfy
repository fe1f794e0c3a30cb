/** Path strings as `os.path` builds and splits them: the POSIX rules of
    `posixpath.join` and `posixpath.dirname`, over the separator of the
    platform the program runs on. */
module Paths {

  /** The two values of `os.name` the code distinguishes. */
  datatype Os = Posix | Nt

  /** `os.path.sep` */
  function Sep(os: Os): char {
    if os == Nt then '\\' else '/'
  }

  /** `os.path.join(a, b)`: an absolute `b` replaces `a`; otherwise one
      separator is put between them unless `a` is empty or already ends
      with one. */
  function Join(sep: char, a: string, b: string): (r: string)
    ensures b != "" && b[0] == sep ==> r == b
    ensures (b == "" || b[0] != sep) && a != "" && a[|a| - 1] != sep ==> r == a + [sep] + b
    ensures (b == "" || b[0] != sep) && (a == "" || a[|a| - 1] == sep) ==> r == a + b
    ensures |b| <= |r|
  {
    if b != "" && b[0] == sep then b
    else if a == "" || a[|a| - 1] == sep then a + b
    else a + [sep] + b
  }

  /** `os.path.join(a, b)` ends with `b`. */
  lemma JoinEndsWith(sep: char, a: string, b: string)
    ensures |b| <= |Join(sep, a, b)| && Join(sep, a, b)[|Join(sep, a, b)| - |b|..] == b
  {
    var r := Join(sep, a, b);
    if !(b != "" && b[0] == sep) {
      var prefix := if a == "" || a[|a| - 1] == sep then a else a + [sep];
      assert r == prefix + b;
    }
  }

  /** One past the index of the last `sep` in `p`, or 0 when there is none. */
  function AfterLastSep(p: string, sep: char): (i: nat)
    ensures i <= |p|
    ensures i > 0 ==> p[i - 1] == sep
    ensures forall j :: i <= j < |p| ==> p[j] != sep
  {
    if p == "" then 0
    else if p[|p| - 1] == sep then |p|
    else AfterLastSep(p[..|p| - 1], sep)
  }

  /** `s.rstrip(c)` */
  function RStripChar(s: string, c: char): (r: string)
    ensures |r| <= |s| && r == s[..|r|]
    ensures r != "" ==> r[|r| - 1] != c
    ensures forall j :: |r| <= j < |s| ==> s[j] == c
  {
    if s != "" && s[|s| - 1] == c then RStripChar(s[..|s| - 1], c) else s
  }

  /** `os.path.dirname(p)`: everything up to the last separator, with
      trailing separators removed unless only separators are left. */
  function Dirname(sep: char, p: string): (r: string)
    ensures |r| <= |p| && r == p[..|r|]
  {
    var head := p[..AfterLastSep(p, sep)];
    if head != "" && exists j :: 0 <= j < |head| && head[j] != sep then RStripChar(head, sep) else head
  }

  /** `os.path.basename(p)`: what follows the last separator. */
  function Basename(sep: char, p: string): (r: string)
    ensures |r| <= |p| && r == p[|p| - |r|..]
    ensures forall i :: 0 <= i < |r| ==> r[i] != sep
    ensures |r| < |p| ==> p[|p| - |r| - 1] == sep
  {
    p[AfterLastSep(p, sep)..]
  }

  /** When `p` ends with `sep` followed by a last component `name` free of
      separators, and `dir` does not end with a separator, `dirname` and
      `basename` take `p` apart into `dir` and `name`. */
  lemma SplitLastComponent(sep: char, dir: string, name: string)
    requires dir != "" && dir[|dir| - 1] != sep
    requires sep !in name
    ensures Dirname(sep, dir + [sep] + name) == dir
    ensures Basename(sep, dir + [sep] + name) == name
  {
    var p := dir + [sep] + name;
    LastSepPosition(p, sep, |dir| + 1);
    var head := p[..|dir| + 1];
    assert head == dir + [sep];
    assert head[|dir| - 1] != sep;
    assert RStripChar(head, sep) == RStripChar(dir, sep);
    assert p[|dir| + 1..] == name;
  }

  lemma {:induction false} LastSepPosition(p: string, sep: char, i: nat)
    requires 0 < i <= |p| && p[i - 1] == sep
    requires forall j :: i <= j < |p| ==> p[j] != sep
    ensures AfterLastSep(p, sep) == i
    decreases |p|
  {
    if i < |p| {
      LastSepPosition(p[..|p| - 1], sep, i);
    }
  }
}
