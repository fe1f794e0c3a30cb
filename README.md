# TTS WebUI (PySide6): a verified model of its core helpers

This project models, in Dafny, the parts of the TTS WebUI desktop
application (a PySide6 front end for several text-to-speech engines) that
make decisions about text, file names and installations, and proves
properties about them:

- **Text chunker** (`Chunker`) is `_chunk_text` of the Chatterbox backend on
  its fallback path. The text is split into sentences at every `.`. The
  stripped, non-blank sentences are then packed greedily into chunks of at
  most 280 characters, and a chunk is only flushed once it holds 20.
  `ChunkText` keeps the source's two loops. It is proved equal to the
  function `Chunks`, and the following are proved of `Chunks`:
  - the bounds;
  - content preservation up to whitespace and `.`;
  - the empty result.
- **Output file names** (`BaseFilename`, over `Paths`):
  - `replace_path_sep` turns a title into a file-name-safe snippet;
  - `_create_base_filename` builds `output_path/base/base`.
- **Translation catalogue** (`Languages`, over `JsonValue`):
  - `_load_language_meta` reads a directory's language metadata. This is
    a `languages.json` in dict or list form, or one `*.json` file per
    language.
  - `get_available_languages` merges the resources and user catalogues,
    falling back to English.
  - `find_qm_file` finds the compiled translation file, user directory
    first.
- **PyTorch bootstrap** (`TorchInstall`) is the script `install_torch.py`:
  - it checks that torch, torchvision and torchaudio agree on their
    version;
  - it reads the CUDA release from `nvcc --version`;
  - it picks the wheel index and builds the `uv pip install` command.
- **Private virtual environment** (`VenvInstall`): the environment under
  `~/.hybrid_tts/venv` is created on first use, then pip runs inside it.
  The class `Installer` holds the existence flag and the log of commands
  issued. Its methods are proved against the state-machine functions
  `EnsureVenvStep` and `InstallStep`. `_venv_python()` depends only on
  `VENV_DIR` and `os.name`, so the installer computes it once, as the
  constant `python`.
- **Backend registry** (`Backends`): the name → entry-point dictionary and
  `available_backends()`.

`PyStr` models the Python `str` operations the code relies on:
- `strip` with Python's whitespace set;
- `split` on one character;
- `split(sep)[-1]`;
- `splitlines`;
- `in`;
- `replace`.

`Paths` models `os.path.join`, `dirname` and `basename` over the platform
separator.

External effects are inputs of the model:
- the output of `nvcc`;
- the installed distributions and their versions;
- whether a directory or file exists;
- the JSON documents in a directory;
- whether each subprocess succeeds;
- the home directory and `sys.executable`;
- `os.name` (the `Os` parameter).

## Model

| member | source | states |
|---|---|---|
| Chunker.ChunkText | gui_pyside6/backend/chatterbox_backend.py:6-35 | The two loops compute `Chunks(text)`. Every chunk has 1 to 280 characters, and all but the last have at least 20. Deleting whitespace from the concatenated chunks gives the text with whitespace and `.` deleted. There are no chunks exactly when the text is only whitespace and `.`. |
| Chunker.PackLoop | gui_pyside6/backend/chatterbox_backend.py:18-32 | The outer loop, with the inner one inside it, leaves exactly the chunks and accumulator of `Pack(sentences)`. |
| Chunker.ChunksBounded | gui_pyside6/backend/chatterbox_backend.py:22-34 | No chunk is empty or longer than 280 characters, and every chunk but the last has at least 20. |
| Chunker.PackBounded | gui_pyside6/backend/chatterbox_backend.py:18-32 | After any number of sentences, the accumulator has at most 280 characters and every emitted chunk has 20 to 280. |
| Chunker.AbsorbBounded | gui_pyside6/backend/chatterbox_backend.py:19-32 | One outer iteration preserves those bounds. It covers all three cases: the sentence fits; the accumulator of at least 20 is flushed; the short accumulator is merged. |
| Chunker.DrainBounded | gui_pyside6/backend/chatterbox_backend.py:30-32 | If every chunk already emitted has 20 to 280 characters, then after the inner loop every chunk still does and at most 280 characters are left. |
| Chunker.DrainSlices | gui_pyside6/backend/chatterbox_backend.py:30-32 | The inner loop keeps the chunks already emitted as a prefix, adds only slices of exactly 280 characters, and leaves at most 280. |
| Chunker.JoinStripped | gui_pyside6/backend/chatterbox_backend.py:22-29 | Let the accumulator end in a non-space, and join it with a stripped non-blank sentence. An empty accumulator gives the sentence alone. Otherwise the result is the accumulator stripped on the left, one space, then the sentence. An already stripped accumulator is thus joined to the sentence by exactly one space. |
| Chunker.PackEndsSolid | gui_pyside6/backend/chatterbox_backend.py:18-32 | After any number of sentences the accumulator is empty or ends in a non-space. |
| Chunker.PackJoins | gui_pyside6/backend/chatterbox_backend.py:22-32 | When a sentence is merged, the accumulator becomes the sentence alone (if it was empty) or the old accumulator stripped on the left, a space and the sentence. The result is then cut into 280-character slices. |
| Chunker.ChunksKeepContent | gui_pyside6/backend/chatterbox_backend.py:12-34 | Whitespace aside, the chunks concatenated are the text without its `.` characters, in order. |
| Chunker.PackContent | gui_pyside6/backend/chatterbox_backend.py:18-32 | Whitespace aside, the chunks so far plus the accumulator are the sentences consumed, concatenated. |
| Chunker.DrainContent | gui_pyside6/backend/chatterbox_backend.py:30-32 | Slicing the accumulator into chunks neither loses nor reorders characters. |
| Chunker.JoinContent | gui_pyside6/backend/chatterbox_backend.py:23 | Joining with a space and stripping keeps the non-whitespace characters of both parts. |
| Chunker.SentencesContent | gui_pyside6/backend/chatterbox_backend.py:12 | Whitespace aside, the sentences concatenated are the text without `.`. |
| Chunker.ReplaceKeepsContent | gui_pyside6/backend/chatterbox_backend.py:12 | Turning newlines into spaces changes nothing once whitespace and `.` are deleted. |
| Chunker.PackBlank | gui_pyside6/backend/chatterbox_backend.py:19-21 | Blank sentences are skipped: sentences that are all whitespace leave nothing emitted and an empty accumulator. |
| Chunker.ChunksEmptyIff | gui_pyside6/backend/chatterbox_backend.py:19-35 | The result is `[]` if and only if the text is only whitespace and `.`. |
| PyStr.StripKeepsContent | gui_pyside6/backend/chatterbox_backend.py:19 | `strip` only removes whitespace. |
| PyStr.StripEmptyIff | gui_pyside6/backend/chatterbox_backend.py:19-21 | A stripped string is empty exactly when the original is all whitespace. |
| PyStr.StripIsStripped | gui_pyside6/backend/chatterbox_backend.py:19 | The result of `strip` has no whitespace at either end. |
| PyStr.ReplaceChar | gui_pyside6/backend/chatterbox_backend.py:12 | `replace` keeps the length and changes exactly the occurrences of the replaced character. |
| PyStr.SplitCharConcat | gui_pyside6/backend/chatterbox_backend.py:12 | Splitting at `.` and concatenating the pieces gives the text without its `.` characters. |
| PyStr.SplitChar | gui_pyside6/backend/chatterbox_backend.py:12 | `split(c)` gives at least one piece, and no piece contains `c`. There is one more piece than there are occurrences of `c`. Joining the pieces with `c` gives the string back. |
| PyStr.JoinWithIsJoinStr | gui_pyside6/backend/chatterbox_backend.py:12 | Joining with the character `c` is `sep.join` with the one-character string `c`, so the join that `split(c)` inverts is the same `join` that `repr()` of a list uses. |
| PyStr.SplitCharFirst | gui_pyside6/install_torch.py:10 | When `c` first occurs right after `a`, the first piece of `split(c)` is `a`. |
| PyStr.AfterLast | gui_pyside6/install_torch.py:10 | `s.split(sep)[-1]` is a suffix of `s` that does not contain `sep`. When `s` contains `sep`, an occurrence of `sep` ends exactly where that suffix begins. Otherwise the suffix is all of `s`. This fixes the result for any separator that cannot overlap itself, `release` among them. |
| PyStr.SplitCharHead | gui_pyside6/install_torch.py:10 | `s.split(c)[0]` is a prefix of `s` free of `c`, followed in `s` by a `c` or by nothing. It is all of `s` when `s` has no `c`. |
| PyStr.Find | gui_pyside6/install_torch.py:9 | The substring test finds the first occurrence of the pattern, or reports that there is none at any position. |
| PyStr.SplitLines | gui_pyside6/install_torch.py:8 | The lines are those of `SplitLinesEnds` without their terminators, in the same number, so none contains a line-break character. There are no lines exactly when the text is empty. |
| PyStr.SplitLinesEnds | gui_pyside6/install_torch.py:8 | The lines and their terminators make up the text again, and no line holds a line break. Every line has one terminator, except possibly a non-empty last line. A lone `\r` terminator is never followed by `\n`. The result is empty exactly when the text is. |
| BaseFilename.ReplacePathSep | gui_pyside6/utils/create_base_filename.py:24-33 | The result is never empty and uses only `A-Za-z0-9._-`. It is `"None"` for a missing or blank title. Otherwise it is the stripped title, character for character, with every other character made `_`. |
| BaseFilename.Sanitize | gui_pyside6/utils/create_base_filename.py:29-31 | The result is the stripped title, of the same length, with exactly the characters outside `A-Za-z0-9._-` turned into `_`. The separator is one of them, so the result does not depend on which separator the platform uses. |
| BaseFilename.SubstituteOthers | gui_pyside6/utils/create_base_filename.py:31 | The substitution keeps the length and replaces exactly the characters outside the whitelist by `_`. |
| BaseFilename.ReplacePathSepIdempotent | gui_pyside6/utils/create_base_filename.py:24-33 | Sanitising a sanitised snippet leaves it unchanged. |
| BaseFilename.ReplacePathSepPortable | gui_pyside6/utils/create_base_filename.py:29-31 | The snippet is the same whether the separator is `/` or `\`. |
| BaseFilename.BaseNameHasNoSep | gui_pyside6/utils/create_base_filename.py:9 | When the date and model have no separator, the base name has none and is not empty. |
| BaseFilename.BaseFilenameLayout | gui_pyside6/utils/create_base_filename.py:6-21 | When neither the date nor the model name contains the platform separator, the path is `join(output_path, base)`, a separator, then `base`. Its `dirname` is the directory `create_base_filename` creates, and its `basename` is `base`. |
| BaseFilename.CreateBaseFilename | gui_pyside6/utils/create_base_filename.py:6-10 | The returned path ends with `base`, which is `date__model__snippet`. |
| Paths.Join | gui_pyside6/utils/create_base_filename.py:10 | Three cases. A second part that starts with the separator (absolute) is the result. Otherwise, a non-empty first part that does not end in the separator gives the first part, one separator, then the second. Otherwise (the first part empty or ending in the separator) the result is the two parts concatenated. |
| Paths.JoinEndsWith | gui_pyside6/utils/create_base_filename.py:10 | `os.path.join(a, b)` always ends with `b`. |
| Paths.Dirname | gui_pyside6/utils/create_base_filename.py:18 | `os.path.dirname(p)` is a prefix of `p`. |
| Paths.Basename | gui_pyside6/utils/create_base_filename.py:18 | `os.path.basename(p)` is a suffix of `p` without a separator, preceded in `p` by a separator unless it is all of `p`. |
| Paths.SplitLastComponent | gui_pyside6/utils/create_base_filename.py:18 | `dirname` and `basename` split `dir/name` back into `dir` and `name`. |
| JsonValue.Get | gui_pyside6/utils/languages.py:23-24 | `dict.get` returns `None` exactly when no member has the key. Otherwise it returns the value of a member with that key. |
| JsonValue.GetLast | gui_pyside6/utils/languages.py:17-19 | A repeated key reads as its last member, as `json.load` keeps it. |
| JsonValue.DictMembers | gui_pyside6/utils/languages.py:17 | The dict `json.load` builds from an object's members. Every key of the document appears once, with the value of its last member. Keys appear in the order of their first member, and every entry is a member of the document. |
| JsonValue.RepeatedKeyDict | gui_pyside6/utils/languages.py:17 | An object naming the same key twice becomes a dict holding that key once, with the second value. |
| JsonValue.NatStr | gui_pyside6/utils/languages.py:19 | The decimal form of a natural number is non-empty and made of digits only, with no leading zero. Its value is the number. |
| JsonValue.IntStr | gui_pyside6/utils/languages.py:19 | The decimal form of an integer starts with `-` exactly when the integer is negative. The rest is non-empty and made of digits only, with no leading zero, and its value is the integer's magnitude. |
| JsonValue.Repr | gui_pyside6/utils/languages.py:19 | `repr()` gives `None`, `True` and `False` for those values and the decimal form for an integer. A string gets matching quotes, one of `'` and `"`, and `Unescape` of what lies between them is the string. A string with nothing to escape is that string in single quotes. A list is wrapped in `[]` and a dict in `{}`. |
| JsonValue.QuoteRepr | gui_pyside6/utils/languages.py:19 | `repr()` of a string uses single quotes, or double quotes when the string holds a `'` and no `"`. `Unescape` of the text between the quotes gives the string back, and a string with nothing to escape appears as it is. |
| JsonValue.EscapeRoundTrip | gui_pyside6/utils/languages.py:19 | `Unescape` undoes the escaping inside either quote. |
| JsonValue.ReprList | gui_pyside6/utils/languages.py:19 | `repr()` of a list is the `repr()` of each item, joined by `", "`, in brackets. |
| JsonValue.ReprDict | gui_pyside6/utils/languages.py:17-19 | `repr()` of a dict is its members as `json.load` keeps them, each written `key: value` with the key's `repr()`, joined by `", "`, in braces. |
| JsonValue.Str | gui_pyside6/utils/languages.py:19 | `str()` of a string is the string itself. Any other value gives its `repr()`. |
| JsonValue.RepeatedKeyStr | gui_pyside6/utils/languages.py:17-19 | `str()` of the loaded `{"x": 1, "x": 2}` is `{'x': 2}`. |
| JsonValue.OrElse | gui_pyside6/utils/languages.py:24 | `a or b` is `a` when `a` is truthy and `b` otherwise. |
| Languages.FindEntry | gui_pyside6/utils/languages.py:13-14 | Finds the catalogue file when the directory has one, and reports none exactly when no entry has that name. |
| Languages.ItemPair | gui_pyside6/utils/languages.py:21-26 | A list item counts exactly when it is a dict with a truthy `code` and a truthy `name` or `language`. `name` is preferred. |
| Languages.FilePair | gui_pyside6/utils/languages.py:30-41 | A file counts exactly when it is a `*.json` dict file other than `languages.json` whose `language`, or failing that `name`, is truthy. The code is `str(code)` when `code` is truthy, else the file stem. The name is `str(language)` when `language` is truthy, else `str(name)`. |
| Languages.Stem | gui_pyside6/utils/languages.py:36 | `Path.stem` of a `*.json` name is never empty. It is the name without `.json`, except that a name that is just `.json` is its own stem. |
| Languages.FrenchFile | gui_pyside6/utils/languages.py:30-39 | `fr.json` holding `{"name": "French"}` yields code `fr` and name `French`. |
| Languages.LoadLanguageMeta | gui_pyside6/utils/languages.py:11-42 | The three loops compute `LanguageMeta(dir)`. |
| Languages.GatherSpec | gui_pyside6/utils/languages.py:19-39 | A code ends up in the map exactly when some element yields it. Its name comes from the last such element. |
| Languages.GatherSkip | gui_pyside6/utils/languages.py:27-28 | An element that yields nothing is as if absent. |
| Languages.DictFormCopies | gui_pyside6/utils/languages.py:18-19 | A dict-form catalogue is copied member by member, with values passed through `str()`. |
| Languages.ListFormSelects | gui_pyside6/utils/languages.py:20-26 | A list-form catalogue keeps exactly the qualifying dict items, the last one winning per code. |
| Languages.PerFileSelects | gui_pyside6/utils/languages.py:29-39 | Without a catalogue, exactly the qualifying `*.json` files contribute, the last one winning per code. |
| Languages.FailingFileSkipped | gui_pyside6/utils/languages.py:33-41 | A per-language file that fails to load or is not a dict changes nothing. |
| Languages.BrokenCatalogueIgnored | gui_pyside6/utils/languages.py:14-28 | An unreadable `languages.json` yields an empty map, not an error. |
| Languages.AvailableLanguages | gui_pyside6/utils/languages.py:45-53 | A code is listed exactly when the resources have it, or the user directory exists and has it, or it is `en` and no language was found at all. A resources name wins over a user one, and the fallback name is `English`. The result is never empty. It is exactly `{"en": "English"}` in the listed cases. |
| Languages.MergeLanguages | gui_pyside6/utils/languages.py:47-53 | For any two loaded maps, the same membership, values and `{"en": "English"}` cases as `AvailableLanguages`. User entries enter only under codes the resources lack, and English only when both are empty. |
| Languages.EnglishFallback | gui_pyside6/utils/languages.py:51-52 | With no language found anywhere, the result is English alone. |
| Languages.FindQmFile | gui_pyside6/utils/languages.py:56-62 | Returns the user directory's `.qm` file if it exists, else the resources one, else `None`. |
| TorchInstall.CudaFromLine | gui_pyside6/install_torch.py:10-11 | The extracted version has no `.`. Its value on a line with a `release` field is stated by `ReleaseLine` and `ReleaseVersionLine`. |
| TorchInstall.ReleaseLine | gui_pyside6/install_torch.py:10-11 | Take a line `prefix + "release" + rest` whose `rest` does not contain `release`. Then `split("release")[-1]` is `rest`. The version is the first `,`-field of the stripped `rest`, with its `.` characters removed. |
| TorchInstall.AfterSoleRelease | gui_pyside6/install_torch.py:10 | When no `release` follows an occurrence of `release`, `split("release")[-1]` is the text after that occurrence. |
| TorchInstall.ReleaseVersionLine | gui_pyside6/install_torch.py:10-11 | A line `prefix + "release <major>.<minor>,<tail>"` yields `major + minor`. |
| TorchInstall.NvccReleaseLine | gui_pyside6/install_torch.py:11 | The nvcc line ending in `release 12.8, V12.8.89` yields `"128"`, whatever precedes `release`. |
| TorchInstall.DetectedAt | gui_pyside6/install_torch.py:8-11 | Returning the version of the first line that mentions `release` is what `DetectedFrom` describes. |
| TorchInstall.DetectCudaVersion | gui_pyside6/install_torch.py:5-14 | No output gives `None`. Otherwise the version comes from the first line mentioning `release`, and it is `None` when no line does. |
| TorchInstall.GetIndexUrl | gui_pyside6/install_torch.py:16-25 | CUDA `"128"` selects the nightly `cu128` index. `"121"` and `"118"` select their own indices. Every other version, and no version, selects the CPU index. |
| TorchInstall.InstallCommand | gui_pyside6/install_torch.py:29-35 | The fixed eight-word `uv pip install … --index-url <url>` prefix, plus `--pre` exactly when the URL contains `nightly`. |
| TorchInstall.InstallTorch | gui_pyside6/install_torch.py:27-43 | Runs that command and exits with status 1 exactly when it fails. |
| TorchInstall.NightlyOnlyFor128 | gui_pyside6/install_torch.py:16-25 | The chosen index is a nightly one if and only if the CUDA version is `"128"`. |
| TorchInstall.PreReleaseOnlyFor128 | gui_pyside6/install_torch.py:16-35 | `--pre` is passed if and only if CUDA is `"128"`. |
| TorchInstall.SingleDistinct | gui_pyside6/install_torch.py:55 | `len(set(versions)) == 1` holds exactly when the list is non-empty and all its versions are equal. |
| TorchInstall.CompatibleTorchInstalled | gui_pyside6/install_torch.py:45-60 | True exactly when all three packages are installed and their versions before `+` agree. |
| TorchInstall.BaseVersion | gui_pyside6/install_torch.py:53 | `v.split("+")[0]` is the longest prefix of `v` without `+`: it ends at the first `+`, or is all of `v` when there is none. |
| TorchInstall.AgreeThree | gui_pyside6/install_torch.py:55 | The set of three versions has one element exactly when the three are equal. |
| TorchInstall.RunScript | gui_pyside6/install_torch.py:62-68 | A compatible installation exits 0 without building or running a command. Otherwise exactly one install command runs, for the detected CUDA version, and the exit status reflects whether it succeeded. |
| VenvInstall.VenvDirLayout | gui_pyside6/utils/install_utils.py:10 | The environment is `home/.hybrid_tts/venv`, and `dirname` and `basename` find those components. |
| VenvInstall.VenvDir | gui_pyside6/utils/install_utils.py:10 | `VENV_DIR` ends in `venv`. |
| VenvInstall.VenvPython | gui_pyside6/utils/install_utils.py:18-21 | `_venv_python()` ends with the platform's interpreter name. |
| VenvInstall.VenvPythonLayout | gui_pyside6/utils/install_utils.py:18-21 | The interpreter is `VENV_DIR\Scripts\python.exe` on `nt` and `VENV_DIR/bin/python` elsewhere. |
| VenvInstall.VenvPythonComponents | gui_pyside6/utils/install_utils.py:18-21 | The interpreter's name is the platform's executable. It sits in the platform's folder, directly inside the environment. |
| VenvInstall.PackageList | gui_pyside6/utils/install_utils.py:26-27 | A single name becomes a one-element list, and a list keeps its order. |
| VenvInstall.PipCommand | gui_pyside6/utils/install_utils.py:29 | The command is `[python, "-m", "pip", "install"]` followed by the packages. |
| VenvInstall.EnsureVenvStep | gui_pyside6/utils/install_utils.py:13-15 | The creation command is issued exactly when the environment is missing, and the log is otherwise untouched. The call returns normally exactly when the environment exists afterwards. For a missing environment, that is exactly when creation succeeds. A failure carries the creation command. |
| VenvInstall.InstallStep | gui_pyside6/utils/install_utils.py:24-29 | Afterwards the environment exists exactly when it existed or creation succeeded. The call succeeds exactly when the environment exists and pip succeeds. The log only grows. A failure names the pip command when the environment exists, and the creation command otherwise. |
| VenvInstall.EnsureVenvOnce | gui_pyside6/utils/install_utils.py:13-15 | A second `_ensure_venv` after a successful one issues nothing. |
| VenvInstall.InstallCommands | gui_pyside6/utils/install_utils.py:24-29 | One install adds `[create, pip]`, `[pip]` or `[create]`, by case. Pip runs only once the environment exists. The error raised names the first command that failed. |
| VenvInstall.InstallAgainOnlyPip | gui_pyside6/utils/install_utils.py:24-29 | Once an install has created the environment, the next install issues only its pip command. |
| VenvInstall.Installer.constructor | gui_pyside6/utils/install_utils.py:10-21 | The environment directory is `VenvDir(home, os)` and the interpreter is `VenvPython` of it. The log starts empty. |
| VenvInstall.Installer.EnsureVenv | gui_pyside6/utils/install_utils.py:13-15 | The new state and outcome are those of `EnsureVenvStep`. An existing environment changes nothing. |
| VenvInstall.Installer.InstallPackageInVenv | gui_pyside6/utils/install_utils.py:24-29 | The new state and outcome are those of `InstallStep`. |
| Backends.Keys | gui_pyside6/backend/__init__.py:8-9 | `list(d.keys())` lists the keys in insertion order, one per entry. |
| Backends.Lookup | gui_pyside6/backend/__init__.py:3-5 | A name is found exactly when some entry has it, and the value found is that entry's. |
| Backends.AvailableBackends | gui_pyside6/backend/__init__.py:8-9 | `available_backends()` returns `["pyttsx3"]`. |
| Backends.KeysOfDictionary | gui_pyside6/backend/__init__.py:3-9 | For a dictionary, a name is listed if and only if it maps to something, and no name is listed twice. |
| Backends.AvailableBackendsSpec | gui_pyside6/backend/__init__.py:3-9 | `available_backends()` is `["pyttsx3"]`. The registry has distinct keys, and a name is listed exactly when it is registered. |
| Backends.PyttsxRegistered | gui_pyside6/backend/__init__.py:1-5 | `pyttsx3` maps to the pyttsx `synthesize_to_file` entry point. |

## Left out

- The nltk sentence tokenizer path of `_chunk_text`: it is a foreign library, so only the `.`-split fallback is modelled.
- The speech-synthesis backends, the HTTP API server, the Qt user interface and the preferences store are not part of this model.
- The output that `_compatible_torch_installed`, `install_torch` and the script `print`: printing is not modelled.
- `create_base_filename`'s `os.makedirs`: this is a file-system effect. `BaseFilenameLayout` states which directory it creates.
- Path syntax: `Paths.Join` and `Paths.Dirname` follow the POSIX rules with the platform separator. So the model leaves out:
  - Windows drive letters;
  - UNC paths;
  - the `/` that Windows also accepts;
  - the normalisation `pathlib` applies (collapsing `//` and `.`).
- File names are case-sensitive in the model. `glob("*.json")` on a case-insensitive file system is not modelled.
- The order of the directory listing is the order of the `seq<Entry>`. `glob`'s own order is not modelled.
- Parsing is left out: a JSON document is given already parsed, and one that fails to parse is `None`. JSON numbers other than integers are not modelled.
- PyStr.AfterLast: its contract `LastPiece` fixes the result only for a separator that cannot overlap itself. For `aa` in `aaa` it admits both `a` (what Python gives) and `""`. The one separator the core uses, `release`, cannot overlap itself (`TorchInstall.AfterSoleRelease`).
- `repr()` escapes: `JsonValue.Repr` escapes backslash, the quote, `\n`, `\r` and `\t`. It does not render other non-printable characters as `\x..`/`\u....`.
- Python dicts keep insertion order, but the language maps are Dafny `map`s. So the order of `get_available_languages()`'s keys is not modelled, only their set and values.
- In `TorchInstall.DetectCudaVersion`, a missing `nvcc` and a failing `nvcc` are one input (`None`), as the source treats them alike. Only `FileNotFoundError` and `CalledProcessError` are caught (gui_pyside6/install_torch.py:12); any other `OSError`, such as a `PermissionError` on a non-executable `nvcc`, propagates out of `detect_cuda_version`, and the model has no such outcome.
- In `TorchInstall.InstallTorch`, only a failure of `uv` itself is modelled (it exits with status 1). A missing `uv` executable raises `FileNotFoundError` instead, and that is not modelled.
- VenvInstall.EnsureVenvStep: a failed `python -m venv` is modelled as leaving no environment. A partly created directory, which would count as existing next time, is not modelled.
- The registry must not change when `available_backends` is called. In the model it is a constant, so this holds by construction and needs no lemma.
- A test in the repository expects a `gtts` backend to be registered. The registry in `gui_pyside6/backend/__init__.py` holds only `pyttsx3`, and the model follows the code.
