/** The translation catalogue: language metadata read from a resources
    directory and a per-user directory, merged into a code -> display-name
    map, and the lookup of a compiled `<code>.qm` translation file. The
    file system is given as values: a directory is the list of its entries,
    each with the JSON document it holds, if it can be read as one. */
module Languages {
  import opened PyStr
  import opened JsonValue
  import opened Paths

  /** A directory entry. `content` is `None` when opening or parsing the
      file raises (it is not readable, not valid JSON, or a directory). */
  datatype Entry = Entry(name: string, content: Option<Json>)

  /** The name of the catalogue file; without it every `*.json` file describes one language. */
  const MetaFile := "languages.json"

  /** The entry called `name`, if the directory has one. */
  function FindEntry(dir: seq<Entry>, name: string): (r: Option<Entry>)
    ensures r.Some? ==> r.value in dir && r.value.name == name
    ensures r.None? <==> forall i :: 0 <= i < |dir| ==> dir[i].name != name
  {
    if dir == [] then None else if dir[0].name == name then Some(dir[0]) else FindEntry(dir[1..], name)
  }

  /** The names `glob("*.json")` matches. */
  predicate IsJsonName(name: string) {
    |name| >= 5 && name[|name| - 5..] == ".json"
  }

  /** `Path(name).stem` for a name ending in `.json`: a name that is only
      the suffix counts as a hidden file and keeps it. */
  function Stem(name: string): (r: string)
    requires IsJsonName(name)
    ensures r != ""
    ensures |name| > 5 ==> r + ".json" == name
    ensures |name| == 5 ==> r == name
  {
    if |name| > 5 then name[..|name| - 5] else name
  }

  // ---------------------------------------------------------------------
  // The three metadata shapes, each as the (code, name) pair one element
  // contributes, or None when the element is skipped.

  /** Dict form: every member, the value passed through `str()`. */
  function MemberPair(m: (string, Json)): Option<(string, string)> {
    Some((m.0, Str(m.1)))
  }

  /** List form: a dict item with a truthy `code` and a truthy `name` or,
      failing that, `language`. */
  function ItemPair(item: Json): (r: Option<(string, string)>)
    ensures r.Some? <==> (item.JObject? && Truthy(Get(item.members, "code")) &&
      Truthy(OrElse(Get(item.members, "name"), Get(item.members, "language"))))
    ensures r.Some? && Truthy(Get(item.members, "name")) ==> r.value.1 == Str(Get(item.members, "name").value)
  {
    if !item.JObject? then None
    else
      var code := Get(item.members, "code");
      var name := OrElse(Get(item.members, "name"), Get(item.members, "language"));
      if Truthy(code) && Truthy(name) then Some((Str(code.value), Str(name.value))) else None
  }

  /** Per-file form: a `*.json` file other than the catalogue holding a
      dict; its code is `code` or else the file stem, its name `language`
      or else `name`. */
  function FilePair(e: Entry): (r: Option<(string, string)>)
    ensures r.Some? ==> IsJsonName(e.name) && e.name != MetaFile && e.content.Some? && e.content.value.JObject?
    ensures r.Some? && !Truthy(Get(e.content.value.members, "code")) ==> r.value.0 == Stem(e.name)
    ensures r.Some? && Truthy(Get(e.content.value.members, "language")) ==>
      r.value.1 == Str(Get(e.content.value.members, "language").value)
    ensures r.Some? && Truthy(Get(e.content.value.members, "code")) ==>
      r.value.0 == Str(Get(e.content.value.members, "code").value)
    ensures r.Some? <==> (IsJsonName(e.name) && e.name != MetaFile && e.content.Some? && e.content.value.JObject? &&
      Truthy(OrElse(Get(e.content.value.members, "language"), Get(e.content.value.members, "name"))))
    ensures r.Some? && !Truthy(Get(e.content.value.members, "language")) ==>
      r.value.1 == Str(Get(e.content.value.members, "name").value)
  {
    if !IsJsonName(e.name) || e.name == MetaFile then None
    else match e.content
      case None => None
      case Some(info) =>
        if !info.JObject? then None
        else
          var code := OrElse(Get(info.members, "code"), Some(JStr(Stem(e.name))));
          var name := OrElse(Get(info.members, "language"), Get(info.members, "name"));
          if Truthy(code) && Truthy(name) then Some((Str(code.value), Str(name.value))) else None
  }

  /** `languages[code] = name` for the pair of every element in turn:
      later elements overwrite earlier ones with the same code. */
  function Gather<T>(xs: seq<T>, pair: T -> Option<(string, string)>): map<string, string> {
    if xs == [] then map[]
    else
      var m := Gather(xs[..|xs| - 1], pair);
      match pair(xs[|xs| - 1])
      case None => m
      case Some(p) => m[p.0 := p.1]
  }

  /** `_load_language_meta(directory)` */
  function LanguageMeta(dir: seq<Entry>): map<string, string> {
    match FindEntry(dir, MetaFile)
    case Some(langFile) =>
      (match langFile.content
       case Some(JObject(members)) => Gather(members, MemberPair)
       case Some(JArray(items)) => Gather(items, ItemPair)
       case _ => map[])
    case None => Gather(dir, FilePair)
  }

  /** `_load_language_meta(directory)`, loop by loop. */
  method LoadLanguageMeta(dir: seq<Entry>) returns (languages: map<string, string>)
    ensures languages == LanguageMeta(dir)
  {
    languages := map[];
    var langFile := FindEntry(dir, MetaFile);
    if langFile.Some? {
      var data := langFile.value.content;
      if data.Some? && data.value.JObject? {
        var members := data.value.members;
        for i := 0 to |members|
          invariant languages == Gather(members[..i], MemberPair)
        {
          assert members[..i + 1][..i] == members[..i];
          languages := languages[members[i].0 := Str(members[i].1)];
        }
        assert members[..|members|] == members;
      } else if data.Some? && data.value.JArray? {
        var items := data.value.items;
        for i := 0 to |items|
          invariant languages == Gather(items[..i], ItemPair)
        {
          assert items[..i + 1][..i] == items[..i];
          var item := items[i];
          if item.JObject? {
            var code := Get(item.members, "code");
            var name := OrElse(Get(item.members, "name"), Get(item.members, "language"));
            if Truthy(code) && Truthy(name) {
              languages := languages[Str(code.value) := Str(name.value)];
            }
          }
        }
        assert items[..|items|] == items;
      }
    } else {
      for i := 0 to |dir|
        invariant languages == Gather(dir[..i], FilePair)
      {
        assert dir[..i + 1][..i] == dir[..i];
        var meta := dir[i];
        if !IsJsonName(meta.name) || meta.name == MetaFile || meta.content.None? {
          continue;
        }
        var info := meta.content.value;
        if !info.JObject? {
          continue;
        }
        var code := OrElse(Get(info.members, "code"), Some(JStr(Stem(meta.name))));
        var name := OrElse(Get(info.members, "language"), Get(info.members, "name"));
        if Truthy(code) && Truthy(name) {
          languages := languages[Str(code.value) := Str(name.value)];
        }
      }
      assert dir[..|dir|] == dir;
    }
  }

  // ---------------------------------------------------------------------
  // What the loaders keep

  predicate Yields<T>(pair: T -> Option<(string, string)>, x: T, code: string) {
    pair(x).Some? && pair(x).value.0 == code
  }

  /** A code is in the gathered map exactly when some element yields it,
      and its name is the one of the last element that does. */
  lemma {:induction false} GatherSpec<T>(xs: seq<T>, pair: T -> Option<(string, string)>, code: string)
    ensures code in Gather(xs, pair) <==> exists i :: 0 <= i < |xs| && Yields(pair, xs[i], code)
    ensures code in Gather(xs, pair) ==> exists i :: (0 <= i < |xs| && pair(xs[i]) == Some((code, Gather(xs, pair)[code]))
      && forall j :: i < j < |xs| ==> !Yields(pair, xs[j], code))
  {
    if xs != [] {
      var init, last := xs[..|xs| - 1], xs[|xs| - 1];
      GatherSpec(init, pair, code);
      var m := Gather(xs, pair);
      if Yields(pair, last, code) {
        assert pair(xs[|xs| - 1]) == Some((code, m[code]));
      } else {
        assert code in m <==> code in Gather(init, pair);
        if code in m {
          var i :| 0 <= i < |init| && pair(init[i]) == Some((code, Gather(init, pair)[code]))
            && forall j :: i < j < |init| ==> !Yields(pair, init[j], code);
          assert xs[i] == init[i];
          assert forall j :: i < j < |xs| ==> !Yields(pair, xs[j], code) by {
            forall j | i < j < |xs| ensures !Yields(pair, xs[j], code) {
              if j < |xs| - 1 { assert xs[j] == init[j]; }
            }
          }
        }
        forall i | 0 <= i < |init| && Yields(pair, init[i], code) ensures code in m {
          assert xs[i] == init[i];
        }
        assert forall i :: 0 <= i < |xs| - 1 ==> xs[i] == init[i];
      }
    }
  }

  /** An element that yields nothing leaves the result as if it were absent. */
  lemma {:induction false} GatherSkip<T>(xs: seq<T>, x: T, ys: seq<T>, pair: T -> Option<(string, string)>)
    requires pair(x).None?
    ensures Gather(xs + [x] + ys, pair) == Gather(xs + ys, pair)
    decreases |ys|
  {
    if ys == [] {
      assert (xs + [x] + ys)[..|xs|] == xs;
      assert xs + ys == xs;
    } else {
      var init, last := ys[..|ys| - 1], ys[|ys| - 1];
      GatherSkip(xs, x, init, pair);
      assert (xs + [x] + ys)[..|xs + [x] + ys| - 1] == xs + [x] + init;
      assert (xs + ys)[..|xs + ys| - 1] == xs + init;
    }
  }

  /** Dict-form `languages.json`: every member is copied, its value through `str()`. */
  lemma DictFormCopies(dir: seq<Entry>, members: seq<(string, Json)>, code: string)
    requires FindEntry(dir, MetaFile).Some? && FindEntry(dir, MetaFile).value.content == Some(JObject(members))
    ensures code in LanguageMeta(dir) <==> Get(members, code).Some?
    ensures code in LanguageMeta(dir) ==> LanguageMeta(dir)[code] == Str(Get(members, code).value)
  {
    GatherSpec(members, MemberPair, code);
    var m := LanguageMeta(dir);
    if code in m {
      var i :| 0 <= i < |members| && MemberPair(members[i]) == Some((code, m[code]))
        && forall j :: i < j < |members| ==> !Yields(MemberPair, members[j], code);
      GetLast(members, code, i);
    } else {
      forall i | 0 <= i < |members| ensures members[i].0 != code {
        assert !Yields(MemberPair, members[i], code);
      }
    }
  }

  /** List-form `languages.json`: a code is present exactly when some dict
      item has it as a truthy `code` with a truthy `name` or `language`; its
      name is that of the last such item, `name` preferred to `language`.
      Items that are not dicts contribute nothing. */
  lemma ListFormSelects(dir: seq<Entry>, items: seq<Json>, code: string)
    requires FindEntry(dir, MetaFile).Some? && FindEntry(dir, MetaFile).value.content == Some(JArray(items))
    ensures code in LanguageMeta(dir) <==> exists i :: 0 <= i < |items| && Yields(ItemPair, items[i], code)
    ensures code in LanguageMeta(dir) ==> exists i :: (0 <= i < |items| && items[i].JObject?
      && Truthy(Get(items[i].members, "code")) && Str(Get(items[i].members, "code").value) == code
      && (var name := OrElse(Get(items[i].members, "name"), Get(items[i].members, "language"));
          Truthy(name) && LanguageMeta(dir)[code] == Str(name.value))
      && forall j :: i < j < |items| ==> !Yields(ItemPair, items[j], code))
  {
    GatherSpec(items, ItemPair, code);
  }

  /** Per-file form (no `languages.json`): a code is present exactly when
      some other `*.json` dict file yields it, and its name comes from the
      last such file. */
  lemma PerFileSelects(dir: seq<Entry>, code: string)
    requires FindEntry(dir, MetaFile).None?
    ensures code in LanguageMeta(dir) <==> exists i :: 0 <= i < |dir| && Yields(FilePair, dir[i], code)
    ensures code in LanguageMeta(dir) ==> exists i :: (0 <= i < |dir| && FilePair(dir[i]) == Some((code, LanguageMeta(dir)[code]))
      && forall j :: i < j < |dir| ==> !Yields(FilePair, dir[j], code))
  {
    GatherSpec(dir, FilePair, code);
  }

  /** A file that cannot be read, does not parse, or does not hold a dict
      is skipped without affecting what the other files contribute. */
  lemma FailingFileSkipped(before: seq<Entry>, bad: Entry, after: seq<Entry>)
    requires FindEntry(before + after, MetaFile).None? && bad.name != MetaFile
    requires bad.content.None? || !bad.content.value.JObject?
    ensures LanguageMeta(before + [bad] + after) == LanguageMeta(before + after)
  {
    var dir := before + [bad] + after;
    forall i | 0 <= i < |dir| ensures dir[i].name != MetaFile {
      if i < |before| { assert dir[i] == (before + after)[i]; }
      else if i > |before| { assert dir[i] == (before + after)[i - 1]; }
    }
    GatherSkip(before, bad, after, FilePair);
  }

  /** A `languages.json` that cannot be read or parsed yields an empty map, no error. */
  lemma BrokenCatalogueIgnored(dir: seq<Entry>)
    requires FindEntry(dir, MetaFile).Some? && FindEntry(dir, MetaFile).value.content.None?
    ensures LanguageMeta(dir) == map[]
  {
  }

  // ---------------------------------------------------------------------
  // Merging and lookup

  /** The merge of `get_available_languages` over the loaded maps `res`
      (resources) and `u` (user directory): user entries only for codes the
      resources lack, and English alone when nothing was found. */
  function MergeLanguages(res: map<string, string>, userDirExists: bool, u: map<string, string>): (r: map<string, string>)
    ensures r != map[]
    ensures forall k :: k in r <==>
      || k in res
      || (userDirExists && k in u)
      || (k == "en" && res == map[] && (!userDirExists || u == map[]))
    ensures forall k :: k in r ==>
      r[k] == (if k in res then res[k] else if userDirExists && k in u then u[k] else "English")
    ensures r == map["en" := "English"] <==>
      (res == map[] && (!userDirExists || u == map[]))
      || (res == map["en" := "English"] && (!userDirExists || u.Keys <= {"en"}))
      || (res == map[] && userDirExists && u == map["en" := "English"])
  {
    var merged := if userDirExists then res + map k | k in u && k !in res :: u[k] else res;
    if merged == map[] then
      var english := map["en" := "English"];
      assert "en" in english;
      english
    else merged
  }

  /** `get_available_languages()`: the resources catalogue, plus the user
      catalogue's codes it lacks when the user directory exists, and English
      alone when both yield nothing. */
  function AvailableLanguages(resources: seq<Entry>, userDirExists: bool, user: seq<Entry>): (r: map<string, string>)
    ensures r != map[]
    ensures forall k :: k in r <==>
      || k in LanguageMeta(resources)
      || (userDirExists && k in LanguageMeta(user))
      || (k == "en" && LanguageMeta(resources) == map[] && (!userDirExists || LanguageMeta(user) == map[]))
    ensures forall k :: k in r ==>
      r[k] == (if k in LanguageMeta(resources) then LanguageMeta(resources)[k]
               else if userDirExists && k in LanguageMeta(user) then LanguageMeta(user)[k]
               else "English")
    ensures r == map["en" := "English"] <==>
      (LanguageMeta(resources) == map[] && (!userDirExists || LanguageMeta(user) == map[]))
      || (LanguageMeta(resources) == map["en" := "English"] && (!userDirExists || LanguageMeta(user).Keys <= {"en"}))
      || (LanguageMeta(resources) == map[] && userDirExists && LanguageMeta(user) == map["en" := "English"])
  {
    MergeLanguages(LanguageMeta(resources), userDirExists, LanguageMeta(user))
  }


  /** With no language found anywhere the catalogue is exactly English. */
  lemma EnglishFallback(resources: seq<Entry>, userDirExists: bool, user: seq<Entry>)
    requires LanguageMeta(resources) == map[] && (!userDirExists || LanguageMeta(user) == map[])
    ensures AvailableLanguages(resources, userDirExists, user) == map["en" := "English"]
  {
  }

  /** A per-file entry `fr.json` holding `{"name": "French"}` contributes
      the code taken from its stem and that name. */
  lemma FrenchFile()
    ensures FilePair(Entry("fr.json", Some(JObject([("name", JStr("French"))])))) == Some(("fr", "French"))
  {
    var ms := [("name", JStr("French"))];
    assert ms[..0] == [];
    assert Get(ms, "code") == None && Get(ms, "language") == None;
    assert Get(ms, "name") == Some(JStr("French"));
    assert Stem("fr.json") == "fr";
  }

  /** `base / f"{code}.qm"` */
  function QmPath(base: string, code: string, os: Os): string {
    Join(Sep(os), base, code + ".qm")
  }

  /** `find_qm_file(code)`: the user directory's file first, then the
      resources one, `None` when neither exists. */
  method FindQmFile(code: string, userDir: string, resourcesDir: string, existing: set<string>, os: Os)
    returns (r: Option<string>)
    ensures QmPath(userDir, code, os) in existing ==> r == Some(QmPath(userDir, code, os))
    ensures QmPath(userDir, code, os) !in existing && QmPath(resourcesDir, code, os) in existing ==>
      r == Some(QmPath(resourcesDir, code, os))
    ensures QmPath(userDir, code, os) !in existing && QmPath(resourcesDir, code, os) !in existing ==> r == None
  {
    var bases := [userDir, resourcesDir];
    for i := 0 to |bases|
      invariant i > 0 ==> QmPath(userDir, code, os) !in existing
      invariant i > 1 ==> QmPath(resourcesDir, code, os) !in existing
    {
      var qm := QmPath(bases[i], code, os);
      assert qm == if i == 0 then QmPath(userDir, code, os) else QmPath(resourcesDir, code, os);
      if qm in existing {
        return Some(qm);
      }
    }
    return None;
  }
}
