/** The PyTorch bootstrap script: keep a consistent torch / torchvision /
    torchaudio installation, otherwise read the CUDA release from
    `nvcc --version`, pick the matching wheel index and install from it.
    The output of `nvcc`, the installed versions and the outcome of the
    install command are inputs. */
module TorchInstall {
  import opened PyStr

  /** The packages that must agree on their version. */
  const Packages: seq<string> := ["torch", "torchvision", "torchaudio"]

  // ---------------------------------------------------------------------
  // CUDA detection

  /** `line.split("release")[-1].strip().split(",")[0].replace(".", "")` */
  function CudaFromLine(line: string): (r: string)
    ensures '.' !in r
  {
    DelChar(SplitChar(Strip(AfterLast(line, "release")), ',')[0], '.')
  }

  /** An occurrence of `release` at `p` has `r` at `p` and nowhere else. */
  lemma ReleaseLetters(s: string, p: int)
    requires OccursAt(s, "release", p)
    ensures s[p] == 'r'
    ensures forall j :: p < j < p + 7 ==> s[j] != 'r'
  {
    assert s[p] == s[p..p + 7][0];
    forall j | p < j < p + 7 ensures s[j] != 'r' {
      assert s[j] == s[p..p + 7][j - p];
    }
  }

  /** Two occurrences of `release` never overlap: its first letter `r`
      appears nowhere else in it. */
  lemma ReleaseApart(s: string, p: int, q: int)
    requires OccursAt(s, "release", p) && OccursAt(s, "release", q)
    ensures p == q || p + 7 <= q || q + 7 <= p
  {
    ReleaseLetters(s, p);
    ReleaseLetters(s, q);
  }

  /** On a line `prefix + "release" + rest` whose `rest` has no further
      `release`, the version is read from `rest`: stripped, cut at the
      first `,`, with its dots removed. */
  lemma ReleaseLine(prefix: string, rest: string)
    requires !Contains(rest, "release")
    ensures AfterLast(prefix + "release" + rest, "release") == rest
    ensures CudaFromLine(prefix + "release" + rest) == DelChar(SplitChar(Strip(rest), ',')[0], '.')
  {
    var line, p := prefix + "release" + rest, |prefix|;
    ReleaseAt(prefix, rest);
    AfterSoleRelease(line, p);
  }

  lemma ReleaseAt(prefix: string, rest: string)
    ensures var line := prefix + "release" + rest;
      OccursAt(line, "release", |prefix|) && line[|prefix| + 7..] == rest
  {
    var line, p := prefix + "release" + rest, |prefix|;
    assert line[p..p + 7] == "release";
    assert line[p + 7..] == rest;
  }

  /** After an occurrence of `release` with none following it, the last
      `release` is that one. */
  lemma AfterSoleRelease(line: string, p: int)
    requires OccursAt(line, "release", p) && !Contains(line[p + 7..], "release")
    ensures AfterLast(line, "release") == line[p + 7..]
  {
    var sep := "release";
    OccursContains(line, sep, p);
    var r := AfterLast(line, sep);
    var st := |line| - |r|;
    assert r == line[st..] && !Contains(r, sep);
    var q := st - 7;
    assert OccursAt(line, sep, q);
    assert p < st by {
      if st <= p {
        OccursInSuffix(line, sep, p, st);
        assert false;
      }
    }
    assert q < p + 7 by {
      if q >= p + 7 {
        OccursInSuffix(line, sep, q, p + 7);
        assert false;
      }
    }
    ReleaseApart(line, p, q);
  }

  /** A line of `nvcc --version` such as `Cuda compilation tools, release
      12.8, V12.8.89` gives the major and minor version run together
      (`"128"`), whatever precedes `release`. */
  lemma ReleaseVersionLine(prefix: string, major: string, minor: string, tail: string)
    requires major != "" && !IsSpace(major[0]) && tail != "" && !IsSpace(tail[|tail| - 1])
    requires '.' !in major && ',' !in major && '.' !in minor && ',' !in minor
    requires 'r' !in major && 'r' !in minor && 'r' !in tail
    ensures var rest := " " + major + "." + minor + "," + tail;
      CudaFromLine(prefix + "release" + rest) == major + minor
  {
    var rest := " " + major + "." + minor + "," + tail;
    VersionField(major, minor, tail);
    NotInAppend(" ", major, 'r');
    NotInAppend(" " + major, ".", 'r');
    NotInAppend(" " + major + ".", minor, 'r');
    NotInAppend(" " + major + "." + minor, ",", 'r');
    NotInAppend(" " + major + "." + minor + ",", tail, 'r');
    NoRelease(rest);
    ReleaseLine(prefix, rest);
  }

  /** The line `nvcc --version` prints for CUDA 12.8 gives `"128"`. */
  lemma NvccReleaseLine(prefix: string)
    ensures CudaFromLine(prefix + "release" + " 12.8, V12.8.89") == "128"
  {
    var major, minor, tail := "12", "8", " V12.8.89";
    assert " 12.8, V12.8.89" == " " + major + "." + minor + "," + tail;
    ReleaseVersionLine(prefix, major, minor, tail);
  }

  lemma NotInAppend(a: string, b: string, c: char)
    requires c !in a && c !in b
    ensures c !in a + b
  {
  }

  /** Without an `r` there is no `release`. */
  lemma NoRelease(s: string)
    requires 'r' !in s
    ensures !Contains(s, "release")
  {
    OccurrenceShowsChars(s, "release", 0);
  }

  /** What follows `release` on such a line, ` <major>.<minor>, <rest>`,
      gives the digits of `major` and `minor` run together. */
  lemma VersionField(major: string, minor: string, tail: string)
    requires major != "" && !IsSpace(major[0]) && tail != "" && !IsSpace(tail[|tail| - 1])
    requires '.' !in major && ',' !in major && '.' !in minor && ',' !in minor
    ensures DelChar(SplitChar(Strip(" " + major + "." + minor + "," + tail), ',')[0], '.') == major + minor
  {
    var field := major + "." + minor;
    var t := field + [','] + tail;
    var line := " " + major + "." + minor + "," + tail;
    assert line[1..] == t;
    assert LStrip(line) == t by {
      assert IsSpace(line[0]);
      assert LStrip(t) == t;
    }
    assert Strip(line) == t;
    SplitCharFirst(field, ',', tail);
    DotDropped(major, minor);
  }

  /** `"<major>.<minor>".replace(".", "")` */
  lemma DotDropped(major: string, minor: string)
    requires '.' !in major && '.' !in minor
    ensures DelChar(major + "." + minor, '.') == major + minor
  {
    DelCharAround(major, minor, '.');
  }

  /** `v` is what `detect_cuda_version` returns for the `nvcc` output
      `nvcc` (`None` when the command is missing or fails): nothing when no
      line mentions `release`, otherwise the version read from the first
      line that does. */
  ghost predicate DetectedFrom(nvcc: Option<string>, v: Option<string>) {
    match nvcc
    case None => v.None?
    case Some(output) =>
      var lines := SplitLines(output);
      match v
      case None => forall i :: 0 <= i < |lines| ==> !Contains(lines[i], "release")
      case Some(version) =>
        exists i :: 0 <= i < |lines| && Contains(lines[i], "release")
          && (forall j :: 0 <= j < i ==> !Contains(lines[j], "release"))
          && version == CudaFromLine(lines[i])
  }

  /** The first line mentioning `release` gives the version. */
  lemma DetectedAt(output: string, i: nat)
    requires var lines := SplitLines(output);
      i < |lines| && Contains(lines[i], "release") && forall j :: 0 <= j < i ==> !Contains(lines[j], "release")
    ensures DetectedFrom(Some(output), Some(CudaFromLine(SplitLines(output)[i])))
  {
  }

  /** `detect_cuda_version()` on the output of `nvcc --version`. */
  method DetectCudaVersion(nvcc: Option<string>) returns (v: Option<string>)
    ensures DetectedFrom(nvcc, v)
    ensures v.Some? ==> '.' !in v.value
  {
    if nvcc.None? {
      return None;
    }
    var lines := SplitLines(nvcc.value);
    for i := 0 to |lines|
      invariant forall j :: 0 <= j < i ==> !Contains(lines[j], "release")
    {
      if Contains(lines[i], "release") {
        DetectedAt(nvcc.value, i);
        return Some(CudaFromLine(lines[i]));
      }
    }
    return None;
  }

  // ---------------------------------------------------------------------
  // Index selection and the install command

  const IndexRoot := "https://download.pytorch.org/whl/"

  /** `get_index_url(cuda_version)`: the nightly index for CUDA 12.8, the
      stable ones for 12.1 and 11.8, the CPU index otherwise. */
  function GetIndexUrl(cuda: Option<string>): (url: string)
    ensures cuda == Some("128") ==> url == IndexRoot + "nightly/cu128"
    ensures cuda == Some("121") ==> url == IndexRoot + "cu121"
    ensures cuda == Some("118") ==> url == IndexRoot + "cu118"
    ensures cuda !in {Some("128"), Some("121"), Some("118")} ==> url == IndexRoot + "cpu"
  {
    if cuda == Some("128") then IndexRoot + "nightly/cu128"
    else if cuda == Some("121") then IndexRoot + "cu121"
    else if cuda == Some("118") then IndexRoot + "cu118"
    else IndexRoot + "cpu"
  }

  /** The command `install_torch(index_url)` runs: `--pre` is added exactly
      when the index is a nightly one. */
  function InstallCommand(indexUrl: string): (cmd: seq<string>)
    ensures |cmd| >= 8 && cmd[..8] == ["uv", "pip", "install", "torch", "torchvision", "torchaudio", "--index-url", indexUrl]
    ensures |cmd| == (if Contains(indexUrl, "nightly") then 9 else 8)
    ensures |cmd| == 9 ==> cmd[8] == "--pre"
  {
    var base := ["uv", "pip", "install", "torch", "torchvision", "torchaudio", "--index-url", indexUrl];
    if Contains(indexUrl, "nightly") then base + ["--pre"] else base
  }

  /** `install_torch(index_url)`: `exit` is the status the script exits
      with when the command fails, `None` when it completes. */
  method InstallTorch(indexUrl: string, commandSucceeds: bool) returns (cmd: seq<string>, exit: Option<int>)
    ensures cmd == InstallCommand(indexUrl)
    ensures exit == if commandSucceeds then None else Some(1)
  {
    cmd := InstallCommand(indexUrl);
    exit := if commandSucceeds then None else Some(1);
  }

  lemma NightlyOnlyFor128(cuda: Option<string>)
    ensures Contains(GetIndexUrl(cuda), "nightly") <==> cuda == Some("128")
  {
    var url := GetIndexUrl(cuda);
    if cuda == Some("128") {
      assert OccursAt(url, "nightly", |IndexRoot|);
    } else {
      // the stable and CPU index URLs have no `i`
      assert 'i' !in IndexRoot;
      assert url == IndexRoot + "cu121" || url == IndexRoot + "cu118" || url == IndexRoot + "cpu";
      OccurrenceShowsChars(url, "nightly", 1);
    }
  }

  /** Composed with the index choice, `--pre` is passed only for CUDA 12.8. */
  lemma PreReleaseOnlyFor128(cuda: Option<string>)
    ensures |InstallCommand(GetIndexUrl(cuda))| == 9 <==> cuda == Some("128")
    ensures cuda == Some("128") ==> InstallCommand(GetIndexUrl(cuda))[8] == "--pre"
  {
    NightlyOnlyFor128(cuda);
  }

  // ---------------------------------------------------------------------
  // Compatibility of the installed packages

  /** `v.split("+")[0]`: the version without its local `+` suffix. */
  function BaseVersion(v: string): (r: string)
    ensures |r| <= |v| && r == v[..|r|] && '+' !in r
    ensures |r| < |v| ==> v[|r|] == '+'
    ensures '+' !in v ==> r == v
  {
    SplitCharHead(v, '+');
    SplitChar(v, '+')[0]
  }

  /** All three packages are installed and their base versions agree. */
  ghost predicate Compatible(installed: map<string, string>) {
    && "torch" in installed && "torchvision" in installed && "torchaudio" in installed
    && BaseVersion(installed["torch"]) == BaseVersion(installed["torchvision"])
    && BaseVersion(installed["torch"]) == BaseVersion(installed["torchaudio"])
  }

  /** `len(set(versions)) == 1` holds exactly for a non-empty list of equal versions. */
  lemma SingleDistinct(vs: seq<string>)
    ensures |set v | v in vs| == 1 <==> vs != [] && forall i :: 0 <= i < |vs| ==> vs[i] == vs[0]
  {
    var s := set v | v in vs;
    if vs != [] && forall i :: 0 <= i < |vs| ==> vs[i] == vs[0] {
      assert s == {vs[0]};
    } else if vs == [] {
      assert s == {};
    } else {
      var i :| 0 <= i < |vs| && vs[i] != vs[0];
      assert {vs[0], vs[i]} <= s;
      assert |{vs[0], vs[i]}| == 2;
      SubsetCard({vs[0], vs[i]}, s);
    }
  }

  lemma SubsetCard(a: set<string>, b: set<string>)
    requires a <= b
    ensures |a| <= |b|
  {
    assert b == a + (b - a);
  }

  /** Three versions form a one-element set exactly when they are all equal. */
  lemma AgreeThree(a: string, b: string, c: string)
    ensures |set v | v in [a, b, c]| == 1 <==> a == b && a == c
  {
    var vs := [a, b, c];
    SingleDistinct(vs);
    assert (forall i :: 0 <= i < |vs| ==> vs[i] == vs[0]) <==> a == b && a == c by {
      assert vs[0] == a && vs[1] == b && vs[2] == c;
    }
  }

  /** `_compatible_torch_installed()` over the installed distributions and their versions. */
  method CompatibleTorchInstalled(installed: map<string, string>) returns (ok: bool)
    ensures ok <==> Compatible(installed)
  {
    var versions: seq<string> := [];
    for i := 0 to |Packages|
      invariant |versions| == i
      invariant forall j :: 0 <= j < i ==> Packages[j] in installed && versions[j] == BaseVersion(installed[Packages[j]])
    {
      var pkg := Packages[i];
      if pkg !in installed {
        assert !Compatible(installed);
        return false;
      }
      versions := versions + [BaseVersion(installed[pkg])];
    }
    assert Packages[0] == "torch" && Packages[1] == "torchvision" && Packages[2] == "torchaudio";
    assert versions == [BaseVersion(installed["torch"]), BaseVersion(installed["torchvision"]), BaseVersion(installed["torchaudio"])];
    AgreeThree(versions[0], versions[1], versions[2]);
    ok := |set v | v in versions| == 1;
  }

  // ---------------------------------------------------------------------
  // The script

  /** The `__main__` block: `issued` lists the install commands run and
      `exitCode` the status the script ends with. */
  method RunScript(installed: map<string, string>, nvcc: Option<string>, installSucceeds: bool)
    returns (cuda: Option<string>, issued: seq<seq<string>>, exitCode: int)
    ensures Compatible(installed) ==> issued == [] && exitCode == 0 && cuda.None?
    ensures !Compatible(installed) ==>
      && DetectedFrom(nvcc, cuda)
      && issued == [InstallCommand(GetIndexUrl(cuda))]
      && exitCode == (if installSucceeds then 0 else 1)
  {
    var ok := CompatibleTorchInstalled(installed);
    if ok {
      return None, [], 0;
    }
    cuda := DetectCudaVersion(nvcc);
    var cmd, exit := InstallTorch(GetIndexUrl(cuda), installSucceeds);
    issued := [cmd];
    exitCode := if exit.Some? then exit.value else 0;
  }
}
