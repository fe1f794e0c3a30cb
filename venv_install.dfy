/** Installing packages into the private virtual environment
    `~/.hybrid_tts/venv`: the environment is created on first use, then pip
    is run with that environment's interpreter. Whether the directory
    exists and whether each command succeeds are inputs; the commands the
    module runs are kept in a log. */
module VenvInstall {
  import opened Paths

  /** The argument of `install_package_in_venv`: one name, or an iterable of names. */
  datatype PackageArg = OneName(name: string) | Names(names: seq<string>)

  /** What `subprocess.check_call` does: return, or raise `CalledProcessError`
      for the command that failed. */
  datatype CallOutcome = Success | CalledProcessError(cmd: seq<string>)

  /** `Path.home() / ".hybrid_tts" / "venv"` */
  function VenvDir(home: string, os: Os): (dir: string)
    ensures |dir| >= 4 && dir[|dir| - 4..] == "venv"
  {
    JoinEndsWith(Sep(os), Join(Sep(os), home, ".hybrid_tts"), "venv");
    Join(Sep(os), Join(Sep(os), home, ".hybrid_tts"), "venv")
  }

  /** Below a home directory written without a trailing separator, the
      environment is the directory `venv` inside `home/.hybrid_tts`. */
  lemma VenvDirLayout(home: string, os: Os)
    requires home != "" && home[|home| - 1] != Sep(os)
    ensures var sep, dir := Sep(os), VenvDir(home, os);
      && dir == home + ([sep] + ".hybrid_tts" + [sep] + "venv")
      && Basename(sep, dir) == "venv"
      && Dirname(sep, dir) == home + [sep] + ".hybrid_tts"
      && Dirname(sep, Dirname(sep, dir)) == home
  {
    assert Sep(os) !in "venv" && Sep(os) !in ".hybrid_tts";
    TwoLevels(Sep(os), home, ".hybrid_tts", "venv");
  }

  /** The folder holding the interpreter: `Scripts` on `nt`, `bin` otherwise. */
  function Folder(os: Os): string {
    if os == Nt then "Scripts" else "bin"
  }

  /** The interpreter's file name: `python.exe` on `nt`, `python` otherwise. */
  function Exe(os: Os): string {
    if os == Nt then "python.exe" else "python"
  }

  /** `_venv_python()`: `VENV_DIR / folder / exe`. */
  function VenvPython(venvDir: string, os: Os): (python: string)
    ensures |Exe(os)| <= |python| && python[|python| - |Exe(os)|..] == Exe(os)
  {
    JoinEndsWith(Sep(os), Join(Sep(os), venvDir, Folder(os)), Exe(os));
    Join(Sep(os), Join(Sep(os), venvDir, Folder(os)), Exe(os))
  }

  /** The interpreter is `Scripts\python.exe` inside the environment on
      `nt` and `bin/python` elsewhere. */
  lemma VenvPythonLayout(venvDir: string, os: Os)
    requires venvDir != "" && venvDir[|venvDir| - 1] != Sep(os)
    ensures os == Nt ==> VenvPython(venvDir, os) == venvDir + "\\Scripts\\python.exe"
    ensures os == Posix ==> VenvPython(venvDir, os) == venvDir + "/bin/python"
  {
    var sep := Sep(os);
    var parent := venvDir + [sep] + Folder(os);
    assert Join(sep, venvDir, Folder(os)) == parent;
    assert parent[|parent| - 1] != sep;
    assert VenvPython(venvDir, os) == parent + [sep] + Exe(os);
    Reassociate(venvDir, [sep], Folder(os), [sep], Exe(os));
    PlatformSuffixes();
  }

  lemma PlatformSuffixes()
    ensures [Sep(Nt)] + Folder(Nt) + [Sep(Nt)] + Exe(Nt) == "\\Scripts\\python.exe"
    ensures [Sep(Posix)] + Folder(Posix) + [Sep(Posix)] + Exe(Posix) == "/bin/python"
  {
  }

  /** `dirname` and `basename` find the interpreter two levels below the
      environment, in the platform's folder. */
  lemma VenvPythonComponents(venvDir: string, os: Os)
    requires venvDir != "" && venvDir[|venvDir| - 1] != Sep(os)
    ensures var sep, py := Sep(os), VenvPython(venvDir, os);
      && Basename(sep, py) == Exe(os)
      && Dirname(sep, py) == venvDir + [sep] + Folder(os)
      && Dirname(sep, Dirname(sep, py)) == venvDir
  {
    assert Sep(os) !in Exe(os) && Sep(os) !in Folder(os);
    TwoLevels(Sep(os), venvDir, Folder(os), Exe(os));
  }

  /** `dir / a / b` for separator-free components `a` and `b`. */
  lemma TwoLevels(sep: char, dir: string, a: string, b: string)
    requires dir != "" && dir[|dir| - 1] != sep
    requires a != "" && sep !in a && b != "" && sep !in b
    ensures var p := Join(sep, Join(sep, dir, a), b);
      && p == dir + ([sep] + a + [sep] + b)
      && Basename(sep, p) == b
      && Dirname(sep, p) == dir + [sep] + a
      && Dirname(sep, Dirname(sep, p)) == dir
  {
    var parent := dir + [sep] + a;
    assert Join(sep, dir, a) == parent;
    assert parent[|parent| - 1] == a[|a| - 1];
    assert Join(sep, parent, b) == parent + [sep] + b;
    Reassociate(dir, [sep], a, [sep], b);
    SplitLastComponent(sep, parent, b);
    SplitLastComponent(sep, dir, a);
  }

  lemma Reassociate(s1: string, s2: string, s3: string, s4: string, s5: string)
    ensures s1 + s2 + s3 + s4 + s5 == s1 + (s2 + s3 + s4 + s5)
  {
  }

  /** `[package] if isinstance(package, str) else package` */
  function PackageList(p: PackageArg): (r: seq<string>)
    ensures p.OneName? ==> r == [p.name]
    ensures p.Names? ==> r == p.names
  {
    match p
    case OneName(name) => [name]
    case Names(names) => names
  }

  /** `[sys.executable, "-m", "venv", str(VENV_DIR)]` */
  function VenvCommand(executable: string, venvDir: string): seq<string> {
    [executable, "-m", "venv", venvDir]
  }

  /** `[str(python_exe), "-m", "pip", "install", *package]`: the packages
      follow the fixed prefix in their order. */
  function PipCommand(python: string, packages: seq<string>): (r: seq<string>)
    ensures |r| == 4 + |packages|
    ensures r[..4] == [python, "-m", "pip", "install"] && r[4..] == packages
  {
    [python, "-m", "pip", "install"] + packages
  }

  /** What the module knows about the world: whether the environment
      exists, and the commands run so far, oldest first. */
  datatype Machine = Machine(venvExists: bool, issued: seq<seq<string>>)

  /** `_ensure_venv()`: the creation command is run exactly when the
      environment is missing, and the environment exists afterwards exactly
      when the call returns normally. */
  function EnsureVenvStep(m: Machine, executable: string, venvDir: string, creationSucceeds: bool): (r: (Machine, CallOutcome))
    ensures |r.0.issued| == |m.issued| + (if m.venvExists then 0 else 1)
    ensures r.0.issued[..|m.issued|] == m.issued
    ensures !m.venvExists ==> r.0.issued[|m.issued|] == VenvCommand(executable, venvDir)
    ensures r.1 == Success <==> r.0.venvExists
    ensures m.venvExists ==> r.0.venvExists
    ensures !m.venvExists ==> (r.1 == Success <==> creationSucceeds)
    ensures r.1.CalledProcessError? ==> r.1.cmd == VenvCommand(executable, venvDir)
  {
    if m.venvExists then (m, Success)
    else
      var cmd := VenvCommand(executable, venvDir);
      if creationSucceeds then (Machine(true, m.issued + [cmd]), Success)
      else (Machine(false, m.issued + [cmd]), CalledProcessError(cmd))
  }

  /** `install_package_in_venv(package)`: ensure the environment, then run
      pip with its interpreter `python` (`_venv_python()`); the first failing
      command is raised. */
  function InstallStep(m: Machine, executable: string, venvDir: string, python: string, package: PackageArg,
                       creationSucceeds: bool, pipSucceeds: bool): (r: (Machine, CallOutcome))
    ensures r.0.venvExists <==> m.venvExists || creationSucceeds
    ensures r.1 == Success <==> (m.venvExists || creationSucceeds) && pipSucceeds
    ensures |r.0.issued| > |m.issued| && r.0.issued[..|m.issued|] == m.issued
    ensures r.1.CalledProcessError? ==>
      r.1.cmd == (if m.venvExists || creationSucceeds then PipCommand(python, PackageList(package)) else VenvCommand(executable, venvDir))
  {
    var (m1, o1) := EnsureVenvStep(m, executable, venvDir, creationSucceeds);
    if o1.CalledProcessError? then (m1, o1)
    else
      var cmd := PipCommand(python, PackageList(package));
      (m1.(issued := m1.issued + [cmd]), if pipSucceeds then Success else CalledProcessError(cmd))
  }

  /** Once the environment has been ensured, ensuring it again runs nothing. */
  lemma EnsureVenvOnce(m: Machine, executable: string, venvDir: string, first: bool, second: bool)
    requires EnsureVenvStep(m, executable, venvDir, first).1 == Success
    ensures var m1 := EnsureVenvStep(m, executable, venvDir, first).0;
      EnsureVenvStep(m1, executable, venvDir, second) == (m1, Success)
  {
  }

  /** The commands one install adds to the log: the creation command only
      when the environment was missing, the pip command only once it exists,
      and the outcome names the first command that failed. */
  lemma InstallCommands(m: Machine, executable: string, venvDir: string, python: string, package: PackageArg,
                        creationSucceeds: bool, pipSucceeds: bool)
    ensures var (m1, outcome) := InstallStep(m, executable, venvDir, python, package, creationSucceeds, pipSucceeds);
      var create, pip := VenvCommand(executable, venvDir), PipCommand(python, PackageList(package));
      && |m1.issued| >= |m.issued| && m1.issued[..|m.issued|] == m.issued
      && (m.venvExists ==> m1.issued[|m.issued|..] == [pip] && (outcome == Success <==> pipSucceeds))
      && (!m.venvExists && creationSucceeds ==> m1.issued[|m.issued|..] == [create, pip] && (outcome == Success <==> pipSucceeds))
      && (!m.venvExists && !creationSucceeds ==> m1.issued[|m.issued|..] == [create] && outcome == CalledProcessError(create))
      && (outcome.CalledProcessError? && m1.venvExists ==> outcome.cmd == pip)
      && (pip in m1.issued[|m.issued|..] ==> m1.venvExists)
  {
    var (m1, outcome) := InstallStep(m, executable, venvDir, python, package, creationSucceeds, pipSucceeds);
    var create, pip := VenvCommand(executable, venvDir), PipCommand(python, PackageList(package));
    var n, failed := |m.issued|, if pipSucceeds then Success else CalledProcessError(pip);
    if m.venvExists {
      assert EnsureVenvStep(m, executable, venvDir, creationSucceeds) == (m, Success);
      assert (m1, outcome) == (Machine(true, m.issued + [pip]), failed);
      assert m1.issued[n..] == [pip];
    } else if creationSucceeds {
      assert EnsureVenvStep(m, executable, venvDir, creationSucceeds) == (Machine(true, m.issued + [create]), Success);
      assert (m1, outcome) == (Machine(true, m.issued + [create] + [pip]), failed);
      assert m1.issued[n..] == [create, pip];
    } else {
      assert (m1, outcome) == (Machine(false, m.issued + [create]), CalledProcessError(create));
      assert m1.issued[n..] == [create];
      assert pip[2] != create[2];
    }
  }

  /** After an install whose environment step succeeded, another install
      runs only its pip command. */
  lemma InstallAgainOnlyPip(m: Machine, executable: string, venvDir: string, python: string, first: PackageArg, second: PackageArg,
                            creation1: bool, pip1: bool, creation2: bool, pip2: bool)
    requires InstallStep(m, executable, venvDir, python, first, creation1, pip1).0.venvExists
    ensures var m1 := InstallStep(m, executable, venvDir, python, first, creation1, pip1).0;
      InstallStep(m1, executable, venvDir, python, second, creation2, pip2).0.issued
        == m1.issued + [PipCommand(python, PackageList(second))]
  {
    var m1 := InstallStep(m, executable, venvDir, python, first, creation1, pip1).0;
    assert EnsureVenvStep(m1, executable, venvDir, creation2) == (m1, Success);
  }

  /** The module's state: the environment directory and the interpreter
      that creates it are fixed; whether the directory exists and the log of
      commands change. */
  class Installer {
    const os: Os
    const executable: string
    const venvDir: string
    /** `_venv_python()`, which depends only on `VENV_DIR` and `os.name`. */
    const python: string
    var venvExists: bool
    var issued: seq<seq<string>>

    function State(): Machine
      reads this
    {
      Machine(venvExists, issued)
    }

    /** `home` is `Path.home()`, `executable` is `sys.executable`. */
    constructor (os: Os, home: string, executable: string, venvExists: bool)
      ensures this.os == os && this.executable == executable && venvDir == VenvDir(home, os)
      ensures python == VenvPython(venvDir, os)
      ensures State() == Machine(venvExists, [])
    {
      var dir := VenvDir(home, os);
      this.os := os;
      this.executable := executable;
      this.venvDir := dir;
      this.python := VenvPython(dir, os);
      this.venvExists := venvExists;
      this.issued := [];
    }

    /** `_ensure_venv()` */
    method EnsureVenv(creationSucceeds: bool) returns (outcome: CallOutcome)
      modifies this
      ensures (State(), outcome) == EnsureVenvStep(old(State()), executable, venvDir, creationSucceeds)
      ensures old(venvExists) ==> issued == old(issued) && outcome == Success
    {
      if !venvExists {
        var cmd := VenvCommand(executable, venvDir);
        issued := issued + [cmd];
        if !creationSucceeds {
          return CalledProcessError(cmd);
        }
        venvExists := true;
      }
      return Success;
    }

    /** `install_package_in_venv(package)` */
    method InstallPackageInVenv(package: PackageArg, creationSucceeds: bool, pipSucceeds: bool) returns (outcome: CallOutcome)
      modifies this
      ensures (State(), outcome) == InstallStep(old(State()), executable, venvDir, python, package, creationSucceeds, pipSucceeds)
    {
      ghost var m0 := State();
      outcome := EnsureVenv(creationSucceeds);
      ghost var m1 := State();
      assert (m1, outcome) == EnsureVenvStep(m0, executable, venvDir, creationSucceeds);
      if outcome.CalledProcessError? {
        return;
      }
      var packages: seq<string>;
      if package.OneName? {
        packages := [package.name];
      } else {
        packages := package.names;
      }
      assert packages == PackageList(package);
      var cmd := PipCommand(python, packages);
      issued := issued + [cmd];
      outcome := if pipSucceeds then Success else CalledProcessError(cmd);
      assert InstallStep(m0, executable, venvDir, python, package, creationSucceeds, pipSucceeds)
          == (m1.(issued := m1.issued + [cmd]), outcome);
    }
  }
}
