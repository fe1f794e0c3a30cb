/** `replace_path_sep` and `_create_base_filename`: a title is turned into a
    filename-safe snippet and combined with the date and the model name
    into `output_path/base/base`. */
module BaseFilename {
  import opened PyStr
  import opened Paths

  /** The characters the regular expression `[^A-Za-z0-9._-]` leaves alone. */
  predicate IsFileChar(c: char) {
    ('A' <= c <= 'Z') || ('a' <= c <= 'z') || ('0' <= c <= '9') || c == '.' || c == '_' || c == '-'
  }

  predicate AllFileChars(s: string) {
    forall i :: 0 <= i < |s| ==> IsFileChar(s[i])
  }

  /** `re.sub(r"[^A-Za-z0-9._-]", "_", s)` */
  function SubstituteOthers(s: string): (r: string)
    ensures |r| == |s|
    ensures forall i :: 0 <= i < |s| ==> r[i] == if IsFileChar(s[i]) then s[i] else '_'
  {
    if s == "" then "" else [if IsFileChar(s[0]) then s[0] else '_'] + SubstituteOthers(s[1..])
  }

  /** `replace_path_sep(title)`, `None` being the absent title. */
  function ReplacePathSep(title: Option<string>, os: Os): (r: string)
    ensures r != "" && AllFileChars(r)
    ensures title.None? ==> r == "None"
    ensures title.Some? && DelSpace(title.value) == "" ==> r == "None"
    ensures title.Some? && DelSpace(title.value) != "" ==>
      var s := Strip(title.value);
      |r| == |s| && forall i :: 0 <= i < |s| ==> r[i] == if IsFileChar(s[i]) then s[i] else '_'
  {
    match title
    case None => "None"
    case Some(t) =>
      StripEmptyIff(t);
      var sanitized := Sanitize(t, os);
      if sanitized == "" then "None" else sanitized
  }

  /** `re.sub(r"[^A-Za-z0-9._-]", "_", title.strip().replace(os.path.sep, "_"))` */
  function Sanitize(t: string, os: Os): (r: string)
    ensures |r| == |Strip(t)|
    ensures forall i :: 0 <= i < |r| ==> r[i] == if IsFileChar(Strip(t)[i]) then Strip(t)[i] else '_'
  {
    assert !IsFileChar(Sep(os));
    SubstituteOthers(ReplaceChar(Strip(t), Sep(os), '_'))
  }

  /** Sanitising an already sanitised snippet returns it unchanged. */
  lemma ReplacePathSepIdempotent(title: Option<string>, os: Os)
    ensures ReplacePathSep(Some(ReplacePathSep(title, os)), os) == ReplacePathSep(title, os)
  {
    var r := ReplacePathSep(title, os);
    FileCharsFixed(r, os);
    assert Sanitize(r, os) == r;
  }

  /** A snippet made of file-name characters is stripped, has no separator
      and is left alone by the substitution. */
  lemma FileCharsFixed(s: string, os: Os)
    requires s != "" && AllFileChars(s)
    ensures Strip(s) == s
    ensures ReplaceChar(s, Sep(os), '_') == s
    ensures SubstituteOthers(s) == s
  {
    assert IsFileChar(s[0]) && IsFileChar(s[|s| - 1]);
    StripStripped(s);
    assert !IsFileChar(Sep(os));
  }

  /** The separator replaced first would be replaced by the regular
      expression anyway, so the snippet is the same on every platform. */
  lemma ReplacePathSepPortable(title: Option<string>)
    ensures ReplacePathSep(title, Posix) == ReplacePathSep(title, Nt)
  {
    if title.Some? {
      assert Sanitize(title.value, Posix) == Sanitize(title.value, Nt);
    }
  }

  /** `base = f"{date}__{model}__{replace_path_sep(title)}"` */
  function BaseName(title: Option<string>, model: string, date: string, os: Os): string {
    date + "__" + model + "__" + ReplacePathSep(title, os)
  }

  /** `_create_base_filename(title, output_path, model, date)` */
  function CreateBaseFilename(title: Option<string>, outputPath: string, model: string, date: string, os: Os): (r: string)
    ensures var base := BaseName(title, model, date, os);
      |base| <= |r| && r[|r| - |base|..] == base
  {
    var base := BaseName(title, model, date, os);
    JoinEndsWith(Sep(os), Join(Sep(os), outputPath, base), base);
    Join(Sep(os), Join(Sep(os), outputPath, base), base)
  }

  /** The date and the model supply the only separators a base name can hold. */
  lemma BaseNameHasNoSep(title: Option<string>, model: string, date: string, os: Os)
    requires Sep(os) !in date && Sep(os) !in model
    ensures var base := BaseName(title, model, date, os);
      base != "" && base[0] != Sep(os) && Sep(os) !in base && base[|base| - 1] != Sep(os)
  {
    var sep, t := Sep(os), ReplacePathSep(title, os);
    assert !IsFileChar(sep);
    forall i | 0 <= i < |t| ensures t[i] != sep {
      assert IsFileChar(t[i]);
    }
    assert sep !in "__";
    var base := BaseName(title, model, date, os);
    assert base == date + "__" + model + "__" + t;
    assert sep !in base;
    assert base[0] in base && base[|base| - 1] in base;
  }

  /** The file name is `base` inside the directory `output_path/base`:
      `dirname` of the result is `os.path.join(output_path, base)` (the
      directory `create_base_filename` creates) and its last component is
      `base`, as long as the date and the model contain no separator. */
  lemma BaseFilenameLayout(title: Option<string>, outputPath: string, model: string, date: string, os: Os)
    requires Sep(os) !in date && Sep(os) !in model
    ensures var base, sep := BaseName(title, model, date, os), Sep(os);
      var path := CreateBaseFilename(title, outputPath, model, date, os);
      && path == Join(sep, outputPath, base) + [sep] + base
      && Dirname(sep, path) == Join(sep, outputPath, base)
      && Basename(sep, path) == base
      && (outputPath != "" && outputPath[|outputPath| - 1] != sep ==> Join(sep, outputPath, base) == outputPath + [sep] + base)
  {
    var sep := Sep(os);
    var base := BaseName(title, model, date, os);
    BaseNameHasNoSep(title, model, date, os);
    var dir := Join(sep, outputPath, base);
    JoinEndsWith(sep, outputPath, base);
    assert dir[|dir| - 1] == base[|base| - 1];
    assert CreateBaseFilename(title, outputPath, model, date, os) == Join(sep, dir, base);
    SplitLastComponent(sep, dir, base);
  }
}
