/** The few Python `str` operations the modelled code relies on (`strip`,
    `split`, `splitlines`, `replace`, `in`), written out so that their
    behaviour on edge cases (empty strings, separators at the ends, Unicode
    whitespace) is explicit. */
module PyStr {

  datatype Option<T> = None | Some(value: T)

  /** Python's `str.isspace` for one character: the characters `strip()`
      removes when called without arguments. */
  predicate IsSpace(c: char) {
    var n := c as int;
    (0x09 <= n <= 0x0D) || (0x1C <= n <= 0x20) || n == 0x85 || n == 0xA0 ||
    n == 0x1680 || (0x2000 <= n <= 0x200A) || n == 0x2028 || n == 0x2029 ||
    n == 0x202F || n == 0x205F || n == 0x3000
  }

  predicate AllSpace(s: string) {
    forall i :: 0 <= i < |s| ==> IsSpace(s[i])
  }

  lemma AllSpaceCons(c: char, t: string)
    requires IsSpace(c) && AllSpace(t)
    ensures AllSpace([c] + t)
  {
    assert forall i :: 1 <= i < |t| + 1 ==> ([c] + t)[i] == t[i - 1];
  }

  lemma AllSpaceSnoc(t: string, c: char)
    requires AllSpace(t) && IsSpace(c)
    ensures AllSpace(t + [c])
  {
    assert forall i :: 0 <= i < |t| ==> (t + [c])[i] == t[i];
  }

  /** No leading and no trailing whitespace. */
  predicate IsStripped(s: string) {
    s == "" || (!IsSpace(s[0]) && !IsSpace(s[|s| - 1]))
  }

  /** `s.lstrip()`: the longest suffix of `s` not starting with whitespace. */
  function LStrip(s: string): (r: string)
    ensures |r| <= |s| && r == s[|s| - |r|..]
    ensures AllSpace(s[..|s| - |r|])
    ensures r != "" ==> !IsSpace(r[0])
    decreases |s|
  {
    if s != "" && IsSpace(s[0]) then
      var r := LStrip(s[1..]);
      var dropped := s[1..][..|s| - 1 - |r|];
      assert s[..|s| - |r|] == [s[0]] + dropped;
      AllSpaceCons(s[0], dropped);
      r
    else s
  }

  /** `s.rstrip()`: the longest prefix of `s` not ending with whitespace. */
  function RStrip(s: string): (r: string)
    ensures |r| <= |s| && r == s[..|r|]
    ensures AllSpace(s[|r|..])
    ensures r != "" ==> !IsSpace(r[|r| - 1])
    decreases |s|
  {
    if s != "" && IsSpace(s[|s| - 1]) then
      var r := RStrip(s[..|s| - 1]);
      var dropped := s[..|s| - 1][|r|..];
      assert s[|r|..] == dropped + [s[|s| - 1]];
      AllSpaceSnoc(dropped, s[|s| - 1]);
      r
    else s
  }

  /** `s.strip()` */
  function Strip(s: string): string {
    RStrip(LStrip(s))
  }

  /** `s` with every character satisfying `drop` deleted, order kept. */
  function Without(s: string, drop: char -> bool): (r: string)
    ensures |r| <= |s|
    ensures forall i :: 0 <= i < |r| ==> !drop(r[i])
  {
    if s == "" then ""
    else (if drop(s[0]) then "" else [s[0]]) + Without(s[1..], drop)
  }

  function DelSpace(s: string): string {
    Without(s, IsSpace)
  }

  /** `s.replace(c, "")` for a one-character `c`. */
  function DelChar(s: string, c: char): string {
    Without(s, x => x == c)
  }

  /** `s.replace(a, b)` for one-character `a` and `b`. */
  function ReplaceChar(s: string, a: char, b: char): (r: string)
    ensures |r| == |s|
    ensures forall i :: 0 <= i < |s| ==> r[i] == if s[i] == a then b else s[i]
  {
    if s == "" then "" else [if s[0] == a then b else s[0]] + ReplaceChar(s[1..], a, b)
  }

  /** `"".join(ss)` */
  function Concat(ss: seq<string>): string {
    if ss == [] then "" else ss[0] + Concat(ss[1..])
  }

  /** `sep.join(ss)` */
  function JoinStr(ss: seq<string>, sep: string): string {
    if ss == [] then "" else if |ss| == 1 then ss[0] else ss[0] + sep + JoinStr(ss[1..], sep)
  }

  /** `c.join(ss)` for a one-character separator `c`: `JoinStr` with a
      one-character string (`JoinWithIsJoinStr`), written over the character
      so that `split(c)`'s proofs can take the separator apart. */
  function JoinWith(ss: seq<string>, c: char): string {
    if ss == [] then ""
    else if |ss| == 1 then ss[0]
    else ss[0] + [c] + JoinWith(ss[1..], c)
  }

  lemma {:induction false} JoinWithIsJoinStr(ss: seq<string>, c: char)
    ensures JoinWith(ss, c) == JoinStr(ss, [c])
  {
    if |ss| > 1 {
      JoinWithIsJoinStr(ss[1..], c);
    }
  }

  /** `s.split(c)` for a one-character separator `c`: never empty, the
      pieces contain no `c`, there is one more piece than there are
      occurrences of `c`, and joining the pieces with `c` gives `s` back.
      Free of `c` and joined back to `s`, the pieces are the ones between
      consecutive occurrences of `c`. */
  function SplitChar(s: string, c: char): (r: seq<string>)
    ensures |r| >= 1
    ensures forall i :: 0 <= i < |r| ==> c !in r[i]
    ensures |r| == 1 + (|s| - |DelChar(s, c)|)
    ensures JoinWith(r, c) == s
    decreases |s|
  {
    if s == "" then [""]
    else
      var rest := SplitChar(s[1..], c);
      assert s == [s[0]] + s[1..];
      if s[0] == c then
        var r := [""] + rest;
        assert r[1..] == rest;
        r
      else
        var r := [[s[0]] + rest[0]] + rest[1..];
        assert |r| > 1 ==> r[1..] == rest[1..] && JoinWith(rest, c) == rest[0] + [c] + JoinWith(rest[1..], c);
        r
  }

  /** The first piece of `s.split(c)` is what precedes the first `c`. */
  lemma {:induction false} SplitCharFirst(a: string, c: char, b: string)
    requires c !in a
    ensures SplitChar(a + [c] + b, c)[0] == a
    decreases |a|
  {
    var s := a + [c] + b;
    if a != "" {
      assert s[1..] == a[1..] + [c] + b;
      SplitCharFirst(a[1..], c, b);
      assert s[0] == a[0] && a == [a[0]] + a[1..];
    } else {
      assert s[0] == c;
    }
  }

  /** The first piece of `s.split(c)` is the longest prefix of `s` free of
      `c`: it stops at a `c`, or at the end of `s`. */
  lemma SplitCharHead(s: string, c: char)
    ensures var h := SplitChar(s, c)[0];
      && |h| <= |s| && h == s[..|h|] && c !in h
      && (|h| < |s| ==> s[|h|] == c)
      && (c !in s ==> h == s)
  {
    var r := SplitChar(s, c);
    if |r| >= 2 {
      assert s == r[0] + [c] + JoinWith(r[1..], c);
      assert s[|r[0]|] == c;
    }
  }

  /** `sep` occurs in `s` starting at index `j`. */
  predicate OccursAt(s: string, sep: string, j: int) {
    0 <= j && j + |sep| <= |s| && s[j..j + |sep|] == sep
  }

  /** Index of the first occurrence of `sep` in `s`, if any. */
  function Find(s: string, sep: string): (r: Option<nat>)
    ensures r.Some? ==> OccursAt(s, sep, r.value)
    ensures r.Some? ==> forall j :: 0 <= j < r.value ==> !OccursAt(s, sep, j)
    ensures r.None? ==> forall j :: !OccursAt(s, sep, j)
    decreases |s|
  {
    if |s| < |sep| then None
    else if sep <= s then
      assert s[0..|sep|] == sep;
      Some(0)
    else
      assert !OccursAt(s, sep, 0) by { assert s[..|sep|] != sep; }
      ShiftOccurs(s, sep);
      match Find(s[1..], sep)
      case None => None
      case Some(i) => Some(i + 1)
  }

  lemma ShiftOccurs(s: string, sep: string)
    requires s != ""
    ensures forall j :: 1 <= j ==> (OccursAt(s, sep, j) <==> OccursAt(s[1..], sep, j - 1))
  {
    forall j | 1 <= j ensures OccursAt(s, sep, j) <==> OccursAt(s[1..], sep, j - 1) {
      if j + |sep| <= |s| {
        var t := s[1..];
        var here, there := s[j..j + |sep|], t[j - 1..j - 1 + |sep|];
        assert here == there by {
          forall k | 0 <= k < |sep| ensures here[k] == there[k] {
            assert s[j + k] == t[j - 1 + k];
          }
        }
      }
    }
  }

  /** Python's `sep in s`. */
  predicate Contains(s: string, sep: string) {
    Find(s, sep).Some?
  }

  /** Every character of `sep` appears in a string that contains `sep`. */
  lemma OccurrenceShowsChars(s: string, sep: string, k: nat)
    requires k < |sep|
    ensures Contains(s, sep) ==> sep[k] in s
  {
    if Contains(s, sep) {
      var j := Find(s, sep).value;
      assert s[j..j + |sep|][k] == sep[k];
      assert s[j + k] == sep[k];
    }
  }

  /** `r` is what follows the last occurrence of `sep` in `s`: a suffix of
      `s` holding no `sep`; all of `s` when `s` has no `sep`, and otherwise
      what comes straight after an occurrence of `sep`. This fixes `r` only
      for a separator that cannot overlap itself, such as `release`: for
      `aa` in `aaa` both `a` (what `split` gives) and `""` satisfy it. */
  ghost predicate LastPiece(s: string, sep: string, r: string) {
    && |r| <= |s| && r == s[|s| - |r|..]
    && !Contains(r, sep)
    && if Contains(s, sep) then |sep| <= |s| - |r| && OccursAt(s, sep, |s| - |r| - |sep|) else r == s
  }

  /** `s.split(sep)[-1]`: what follows the last occurrence of `sep`, the
      occurrences being found left to right without overlap. The contract is
      `LastPiece`, which is exact for separators that cannot overlap
      themselves. */
  function AfterLast(s: string, sep: string): (r: string)
    requires sep != ""
    ensures LastPiece(s, sep, r)
    decreases |s|
  {
    match Find(s, sep)
    case None => s
    case Some(i) =>
      var t := s[i + |sep|..];
      var r := AfterLast(t, sep);
      if Contains(t, sep) then
        AfterLaterPiece(s, sep, i, r);
        r
      else
        AfterOnlyPiece(s, sep, i);
        r
  }

  /** When the tail after the first occurrence at `i` holds `sep` too, the
      last piece of the tail is the last piece of `s`. */
  lemma AfterLaterPiece(s: string, sep: string, i: nat, r: string)
    requires Find(s, sep) == Some(i)
    requires var t := s[i + |sep|..];
      && !Contains(r, sep)
      && |r| <= |t| && r == t[|t| - |r|..] && |sep| <= |t| - |r| && OccursAt(t, sep, |t| - |r| - |sep|)
    ensures LastPiece(s, sep, r)
  {
    SuffixOccurs(s, sep, i + |sep|, r);
    LaterPiece(s, sep, r);
  }

  /** An occurrence of `sep` just before a suffix `r` of `s[k..]` is one
      just before the suffix `r` of `s`. */
  lemma SuffixOccurs(s: string, sep: string, k: nat, r: string)
    requires k <= |s| && |r| <= |s| - k && r == s[k..][|s| - k - |r|..]
    requires |sep| <= |s| - k - |r| && OccursAt(s[k..], sep, |s| - k - |r| - |sep|)
    ensures r == s[|s| - |r|..] && |sep| <= |s| - |r| && OccursAt(s, sep, |s| - |r| - |sep|)
  {
    SuffixOfSuffix(s, k, r);
    OccursShift(s, sep, k, |s| - k - |r| - |sep|);
  }

  /** When the tail after the first occurrence at `i` holds no `sep`, it is
      the last piece of `s`. */
  lemma AfterOnlyPiece(s: string, sep: string, i: nat)
    requires Find(s, sep) == Some(i) && !Contains(s[i + |sep|..], sep)
    ensures LastPiece(s, sep, s[i + |sep|..])
  {
    LaterPiece(s, sep, s[i + |sep|..]);
  }

  /** A suffix of a suffix of `s` is a suffix of `s`. */
  lemma SuffixOfSuffix(s: string, k: nat, r: string)
    requires k <= |s| && |r| <= |s| - k && r == s[k..][|s| - k - |r|..]
    ensures r == s[|s| - |r|..]
  {
  }

  /** A suffix free of `sep` that follows an occurrence of `sep` in `s` is
      the last piece of `s`. */
  lemma LaterPiece(s: string, sep: string, r: string)
    requires Contains(s, sep) && !Contains(r, sep)
    requires |sep| <= |s| - |r| && r == s[|s| - |r|..] && OccursAt(s, sep, |s| - |r| - |sep|)
    ensures LastPiece(s, sep, r)
  {
  }

  /** `sep` found in `s[off..]` at `j` is found in `s` at `off + j`. */
  lemma OccursShift(s: string, sep: string, off: nat, j: int)
    requires off <= |s| && OccursAt(s[off..], sep, j)
    ensures OccursAt(s, sep, off + j)
  {
    assert s[off + j..off + j + |sep|] == s[off..][j..j + |sep|];
  }

  /** A string in which `sep` occurs somewhere contains `sep`. */
  lemma OccursContains(s: string, sep: string, j: int)
    requires OccursAt(s, sep, j)
    ensures Contains(s, sep)
  {
    var f := Find(s, sep);
    assert f.None? ==> !OccursAt(s, sep, j);
  }

  /** `sep` found in `s` at `j` is found in `s[k..]` at `j - k`. */
  lemma OccursInSuffix(s: string, sep: string, j: int, k: nat)
    requires OccursAt(s, sep, j) && k <= j
    ensures OccursAt(s[k..], sep, j - k) && Contains(s[k..], sep)
  {
    assert s[k..][j - k..j - k + |sep|] == s[j..j + |sep|];
    OccursContains(s[k..], sep, j - k);
  }

  /** The characters `str.splitlines` breaks on (`\r\n` counts as one break). */
  predicate IsLineBreak(c: char) {
    var n := c as int;
    (0x0A <= n <= 0x0D) || (0x1C <= n <= 0x1E) || n == 0x85 || n == 0x2028 || n == 0x2029
  }

  /** Index of the first line break in `s`, or `|s|`. */
  function LineEnd(s: string): (i: nat)
    ensures i <= |s| && (i < |s| ==> IsLineBreak(s[i]))
    ensures forall j :: 0 <= j < i ==> !IsLineBreak(s[j])
  {
    if s == "" || IsLineBreak(s[0]) then 0 else 1 + LineEnd(s[1..])
  }

  /** One line terminator: a line-break character, or `\r\n` taken together. */
  predicate IsTerminator(e: string) {
    e == "\r\n" || (|e| == 1 && IsLineBreak(e[0]))
  }

  predicate NoLineBreak(line: string) {
    forall j :: 0 <= j < |line| ==> !IsLineBreak(line[j])
  }

  /** The text of lines paired with their terminators. */
  function Unsplit(ps: seq<(string, string)>): string {
    if ps == [] then "" else ps[0].0 + ps[0].1 + Unsplit(ps[1..])
  }

  /** `r` is a division of `s` into lines and terminators as `splitlines` makes it. */
  ghost predicate LinesOf(s: string, r: seq<(string, string)>) {
    && Unsplit(r) == s
    && (forall k :: 0 <= k < |r| ==> NoLineBreak(r[k].0))
    && (forall k :: 0 <= k < |r| ==> IsTerminator(r[k].1) || (k == |r| - 1 && r[k].1 == "" && r[k].0 != ""))
    && (forall k :: 0 <= k < |r| - 1 && r[k].1 == "\r" ==> !("\n" <= Unsplit(r[k + 1..])))
  }

  /** `s.splitlines(keepends=True)`, each line paired with its terminator.
      The lines and terminators make up `s`; no line holds a line break;
      every line has a terminator except possibly a non-empty last one; and
      a lone `\r` never stands before a `\n` (the two form one terminator). */
  function SplitLinesEnds(s: string): (r: seq<(string, string)>)
    ensures Unsplit(r) == s
    ensures r == [] <==> s == ""
    ensures forall k :: 0 <= k < |r| ==> NoLineBreak(r[k].0)
    ensures forall k :: 0 <= k < |r| ==> IsTerminator(r[k].1) || (k == |r| - 1 && r[k].1 == "" && r[k].0 != "")
    ensures forall k :: 0 <= k < |r| - 1 && r[k].1 == "\r" ==> !("\n" <= Unsplit(r[k + 1..]))
    decreases |s|
  {
    if s == "" then []
    else
      var i := LineEnd(s);
      if i == |s| then
        var r := [(s, "")];
        assert Unsplit(r) == s + "" + Unsplit([]);
        r
      else
        var width := if s[i] == '\r' && i + 1 < |s| && s[i + 1] == '\n' then 2 else 1;
        var rest := SplitLinesEnds(s[i + width..]);
        assert LinesOf(s[i + width..], rest);
        ConsLine(s, i, width, rest);
        [(s[..i], s[i..i + width])] + rest
  }

  /** The first line and its terminator, put before a division of the rest. */
  lemma ConsLine(s: string, i: nat, width: nat, rest: seq<(string, string)>)
    requires i < |s| && i == LineEnd(s)
    requires width == if s[i] == '\r' && i + 1 < |s| && s[i + 1] == '\n' then 2 else 1
    requires LinesOf(s[i + width..], rest)
    ensures LinesOf(s, [(s[..i], s[i..i + width])] + rest)
  {
    ConsUnsplit(s, i, i + width, rest);
    LineAndTerminator(s, i, width);
    CrAlone(s, i, width, rest);
    ConsLineParts(s, s[..i], s[i..i + width], s[i + width..], rest);
  }

  /** The first line holds no break and is followed by one terminator. */
  lemma LineAndTerminator(s: string, i: nat, width: nat)
    requires i < |s| && i == LineEnd(s)
    requires width == if s[i] == '\r' && i + 1 < |s| && s[i + 1] == '\n' then 2 else 1
    ensures NoLineBreak(s[..i]) && IsTerminator(s[i..i + width])
  {
    if width == 2 {
      assert s[i..i + width] == "\r\n";
    } else {
      assert s[i..i + width] == [s[i]];
    }
  }

  /** A lone `\r` terminator is not followed by `\n`. */
  lemma CrAlone(s: string, i: nat, width: nat, rest: seq<(string, string)>)
    requires i < |s| && width == if s[i] == '\r' && i + 1 < |s| && s[i + 1] == '\n' then 2 else 1
    requires Unsplit(rest) == s[i + width..]
    ensures s[i..i + width] == "\r" ==> !("\n" <= Unsplit(rest))
  {
    if s[i..i + width] == "\r" {
      assert width == 1 && s[i] == '\r';
      if i + 1 < |s| {
        assert s[i + 1..][0] == s[i + 1];
      }
    }
  }

  lemma ConsUnsplit(s: string, i: nat, j: nat, rest: seq<(string, string)>)
    requires i <= j <= |s| && Unsplit(rest) == s[j..]
    ensures Unsplit([(s[..i], s[i..j])] + rest) == s
  {
    UnsplitCons((s[..i], s[i..j]), rest);
    assert s == s[..i] + s[i..j] + s[j..];
  }

  lemma UnsplitCons(p: (string, string), rest: seq<(string, string)>)
    ensures Unsplit([p] + rest) == p.0 + p.1 + Unsplit(rest)
  {
    assert ([p] + rest)[1..] == rest;
  }

  lemma ConsLineParts(s: string, line: string, end: string, t: string, rest: seq<(string, string)>)
    requires NoLineBreak(line) && IsTerminator(end)
    requires end == "\r" ==> !("\n" <= Unsplit(rest))
    requires Unsplit([(line, end)] + rest) == s
    requires LinesOf(t, rest)
    ensures LinesOf(s, [(line, end)] + rest)
  {
    var r := [(line, end)] + rest;
    assert r[1..] == rest;
    forall k | 1 <= k < |r| ensures r[k] == rest[k - 1] && r[k + 1..] == rest[k..] {
    }
  }

  /** `s.splitlines()`: the lines of `SplitLinesEnds(s)` without their
      terminators; a final terminator does not start an extra empty line. */
  function SplitLines(s: string): (r: seq<string>)
    ensures |r| == |SplitLinesEnds(s)|
    ensures r == [] <==> s == ""
    ensures forall k :: 0 <= k < |r| ==> r[k] == SplitLinesEnds(s)[k].0 && NoLineBreak(r[k])
  {
    var ps := SplitLinesEnds(s);
    seq(|ps|, k requires 0 <= k < |ps| => ps[k].0)
  }

  // ---------------------------------------------------------------------
  // Lemmas

  lemma {:induction false} WithoutAppend(a: string, b: string, drop: char -> bool)
    ensures Without(a + b, drop) == Without(a, drop) + Without(b, drop)
    decreases |a|
  {
    if a != "" {
      assert (a + b)[0] == a[0];
      assert (a + b)[1..] == a[1..] + b;
      WithoutAppend(a[1..], b, drop);
    } else {
      assert a + b == b;
    }
  }

  lemma {:induction false} WithoutNone(s: string, drop: char -> bool)
    requires forall i :: 0 <= i < |s| ==> drop(s[i])
    ensures Without(s, drop) == ""
    decreases |s|
  {
    if s != "" {
      WithoutNone(s[1..], drop);
    }
  }

  lemma {:induction false} DelCharAppend(a: string, b: string, c: char)
    ensures DelChar(a + b, c) == DelChar(a, c) + DelChar(b, c)
    decreases |a|
  {
    if a != "" {
      assert (a + b)[0] == a[0];
      assert (a + b)[1..] == a[1..] + b;
      DelCharAppend(a[1..], b, c);
    } else {
      assert a + b == b;
    }
  }

  /** Deleting `c` from `a + [c] + b` when neither part holds `c`. */
  lemma DelCharAround(a: string, b: string, c: char)
    requires c !in a && c !in b
    ensures DelChar(a + [c] + b, c) == a + b
  {
    DelCharAppend(a + [c], b, c);
    DelCharAppend(a, [c], c);
    DelCharKeeps(a, c);
    DelCharKeeps(b, c);
    assert [c][1..] == "";
    assert DelChar([c], c) == "";
    assert DelChar(a + [c], c) == a;
  }

  lemma {:induction false} DelCharKeeps(s: string, c: char)
    requires c !in s
    ensures DelChar(s, c) == s
    decreases |s|
  {
    if s != "" {
      assert c !in s[1..] by { assert forall i :: 0 <= i < |s| - 1 ==> s[1..][i] == s[i + 1]; }
      DelCharKeeps(s[1..], c);
      assert s == [s[0]] + s[1..];
    }
  }

  lemma {:induction false} WithoutEmpty(s: string, drop: char -> bool)
    requires Without(s, drop) == ""
    ensures forall i :: 0 <= i < |s| ==> drop(s[i])
    decreases |s|
  {
    if s != "" {
      WithoutEmpty(s[1..], drop);
      forall i | 0 <= i < |s| ensures drop(s[i]) {
        if i > 0 { assert s[i] == s[1..][i - 1]; }
      }
    }
  }

  /** Stripping only removes whitespace: the non-whitespace content is kept. */
  lemma StripKeepsContent(s: string)
    ensures DelSpace(Strip(s)) == DelSpace(s)
  {
    LStripKeepsContent(s);
    RStripKeepsContent(LStrip(s));
  }

  lemma {:induction false} LStripKeepsContent(s: string)
    ensures DelSpace(LStrip(s)) == DelSpace(s)
    decreases |s|
  {
    if s != "" && IsSpace(s[0]) {
      LStripKeepsContent(s[1..]);
      assert DelSpace(s) == DelSpace(s[1..]);
    }
  }

  lemma {:induction false} RStripKeepsContent(s: string)
    ensures DelSpace(RStrip(s)) == DelSpace(s)
    decreases |s|
  {
    if s != "" && IsSpace(s[|s| - 1]) {
      var init := s[..|s| - 1];
      RStripKeepsContent(init);
      assert s == init + [s[|s| - 1]];
      WithoutAppend(init, [s[|s| - 1]], IsSpace);
      assert DelSpace([s[|s| - 1]]) == "";
    }
  }

  lemma StripIsStripped(s: string)
    ensures IsStripped(Strip(s))
  {
    var l := LStrip(s);
    var r := RStrip(l);
    if r != "" {
      assert r[0] == l[0];
    }
  }

  /** A string ending with a non-blank character survives `lstrip` non-empty. */
  lemma {:induction false} LStripSolid(s: string)
    requires s != "" && !IsSpace(s[|s| - 1])
    ensures LStrip(s) != ""
    decreases |s|
  {
    if IsSpace(s[0]) {
      var t := s[1..];
      assert t != "" && t[|t| - 1] == s[|s| - 1];
      LStripSolid(t);
    }
  }

  /** `rstrip` leaves a string ending with a non-blank character alone. */
  lemma RStripSolid(s: string)
    requires s != "" && !IsSpace(s[|s| - 1])
    ensures RStrip(s) == s
  {
  }

  /** Text after a non-blank string is not stripped by `lstrip`. */
  lemma {:induction false} LStripAppend(a: string, b: string)
    requires LStrip(a) != ""
    ensures LStrip(a + b) == LStrip(a) + b
    decreases |a|
  {
    assert a != "";
    assert (a + b)[0] == a[0];
    if IsSpace(a[0]) {
      assert (a + b)[1..] == a[1..] + b;
      LStripAppend(a[1..], b);
    }
  }

  /** Stripping a stripped string changes nothing. */
  lemma StripStripped(s: string)
    requires IsStripped(s)
    ensures Strip(s) == s
  {
  }

  /** `s.strip()` is empty exactly when `s` is all whitespace. */
  lemma {:induction false} StripEmptyIff(s: string)
    ensures Strip(s) == "" <==> DelSpace(s) == ""
  {
    StripKeepsContent(s);
    var l := LStrip(s);
    if Strip(s) == "" {
      assert DelSpace("") == "";
    } else {
      var r := Strip(s);
      assert r == [r[0]] + r[1..];
      WithoutAppend([r[0]], r[1..], IsSpace);
    }
  }

  lemma {:induction false} ConcatAppend(xs: seq<string>, ys: seq<string>)
    ensures Concat(xs + ys) == Concat(xs) + Concat(ys)
    decreases |xs|
  {
    if xs != [] {
      assert (xs + ys)[0] == xs[0];
      assert (xs + ys)[1..] == xs[1..] + ys;
      ConcatAppend(xs[1..], ys);
    } else {
      assert xs + ys == ys;
    }
  }

  lemma ConcatSnoc(xs: seq<string>, x: string)
    ensures Concat(xs + [x]) == Concat(xs) + x
  {
    ConcatAppend(xs, [x]);
    assert Concat([x]) == x + Concat([]);
  }

  /** Joining the pieces of `s.split(c)` gives `s` with every `c` removed. */
  lemma {:induction false} SplitCharConcat(s: string, c: char)
    ensures Concat(SplitChar(s, c)) == DelChar(s, c)
    decreases |s|
  {
    if s != "" {
      SplitCharConcat(s[1..], c);
      var rest := SplitChar(s[1..], c);
      if s[0] != c {
        var pieces := [[s[0]] + rest[0]] + rest[1..];
        assert Concat(pieces) == [s[0]] + rest[0] + Concat(rest[1..]);
        assert Concat(rest) == rest[0] + Concat(rest[1..]);
      }
    }
  }
}
