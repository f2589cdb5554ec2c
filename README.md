# where-is, modelled in Dafny

where-is keeps a small database of named entries. Each entry records where a
program keeps its configuration files. An entry is a name plus an ordered
list of location templates. A template is a list of path segments, and a
segment may hold a `{HOME}` placeholder. The database is an ordered list of
entries kept as JSON in one backing file. The command layer can find an
entry by name, add one and remove one. It also checks that at most one
database option is given, and it opens (and if need be creates) the database.
A few helpers pick the configuration folder for the platform, show a flag in
colour, and choose a text editor.

The project has six modules:

- `Wrappers`: `Option`, `Result` and `Outcome`.
- `Json`: the serialiser the stored form goes through. It follows `json.dumps`
  with its default settings:
  - `", "` and `": "` as separators;
  - ASCII-only output: two-character escapes for quote, backslash, `\b`, `\f`,
    `\n`, `\r` and `\t`; `\uXXXX` for every other character outside printable
    ASCII, other control characters included; surrogate pairs above U+FFFF.

  A parser for that canonical text proves the serialiser inverts: reading a
  serialised value back gives the same value.
- `Entries`:
  - `Entry` and its stored forms (`to_dict`, `to_json`).
  - Placeholder substitution, taken to be `str.format_map` on plain field
    names (an assumption, see below).
  - Joining segments the way `os.path.join` does on POSIX, under the root.
  - `locations` and `locations_exists`.
  - The entry the test suite uses.
- `Catalog`:
  - The database as a `class Database` whose `file` field is what reading
    the backing file yields: no file, a list of entries, or text that does
    not parse.
  - `add`/`+=` and `remove`/`-=`, and the scoped (`with`) form.
  - The test suite's scenarios, as methods.
- `Cli`: `_get_entry`, `_eval_db_opts`, `_get_database`, `_add_entry`,
  `_rm_entry`, and the choice of action in `cli_database`.
- `Utils`: `config_folder`, `format_bool` and `get_text_editor`.

Some inputs become parameters:

- the home directory, and the `APPDATA` and `EDITOR` variables;
- the platform name;
- the program lookup `shutil.which`, as a function;
- the file system, as the set of existing paths;
- whether creating the backing file is permitted;
- the seed entries' templates;
- what the user types.

`whereis/database.py` holds the real `Database` and `Entry`, and it is not part
of this model. Their behaviour is taken from what `whereis/tests/test_core.py`
asserts and what `whereis/cli.py` relies on. These are assumptions:

- The JSON text is `json.dumps` of the dictionary form. The test's expected
  text uses that function's default separators.
- A stored list whose entries repeat a name does not parse (`EntryParseError`).
- A location is each segment put through `str.format_map` with the
  environment (`HOME` mapped to the home directory), then all segments joined
  with `os.path.join("/", …)`. The test's expected locations are built that way.
- Every way formatting a segment can fail counts as a `FormatMapError`. That
  covers an unknown key, a lone or unbalanced brace, an empty field and a
  numeric (positional) field such as `{0}`. Python itself raises `KeyError`
  for the first and `ValueError` for the others.
- `str(entry)`, which the log message at `whereis/cli.py:30` builds whether or
  not verbose output is on, resolves the entry's locations. So it raises
  `FormatMapError` exactly when they fail to resolve. `Cli.Lookup`'s answer
  of nothing for such an entry rests on this.
- A new database is seeded with exactly two entries: one named "grub", then
  one named "zsh". The test only asserts that the entries are non-empty and
  carry those names.

## Model

| member | source | states |
|---|---|---|
| Entries.ToDict | whereis/tests/test_core.py:17-26 | the dictionary form is an object with `name` first, then `locations`, holding as many templates as the entry has |
| Entries.DictRoundTrip | whereis/tests/test_core.py:26 | the dictionary form keeps the templates unresolved and loses nothing: reading it back gives the same entry |
| Entries.SampleDict | whereis/tests/test_core.py:15-26 | the test's entry maps to name "Test" and locations `[["{HOME}", "johndoe"], ["etc"]]` |
| Entries.JsonOfTwoTemplates | whereis/tests/test_core.py:16 | an entry with one two-segment and one one-segment template is written as `{"name": …, "locations": [[…, …], […]]}`, with `", "` and `": "` separators |
| Entries.SampleJson | whereis/tests/test_core.py:16-27 | the test entry's JSON text is exactly `{"name": "Test", "locations": [["{HOME}", "johndoe"], ["etc"]]}` |
| Json.ParseSerialize | whereis/tests/test_core.py:27 | the JSON text of any value reads back as that value |
| Json.SerializeInjective | whereis/tests/test_core.py:27 | two values have the same JSON text exactly when they are equal |
| Json.EscapePlainString | whereis/tests/test_core.py:16 | a string of printable ASCII characters other than quote and backslash is written unescaped |
| Entries.JsonRoundTrip | whereis/tests/test_core.py:27 | reading an entry's JSON text back gives the same entry |
| Entries.EqualIffSameJson | whereis/tests/test_core.py:30-35 | two entries are equal exactly when their JSON texts are equal |
| Entries.SampleEquality | whereis/tests/test_core.py:30-35 | the test entry equals a copy with the same name and templates; it differs from `NotEqual`, and so does its JSON text |
| Entries.FormatField | whereis/tests/test_core.py:23 | `{KEY}` in a segment becomes the environment's value for KEY; an unknown key fails with `UnknownKey(KEY)`; a numeric field fails as malformed and is never looked up |
| Entries.FormatPlain | whereis/tests/test_core.py:24 | a segment without braces is left as it is |
| Entries.FormatEscapeBraces | whereis/tests/test_core.py:22-25 | doubled braces format to single braces, so every segment text can be produced |
| Entries.JoinAbsoluteResets | whereis/tests/test_core.py:23 | when joining, an absolute part discards everything joined before it |
| Entries.JoinUnderRoot | whereis/tests/test_core.py:23-24 | separator-free segments joined under the root give `/` followed by the segments one separator apart |
| Entries.Resolve | whereis/tests/test_core.py:22-25 | a template that resolves gives an absolute path |
| Entries.LocationsInOrder | whereis/tests/test_core.py:22-25 | locations succeed exactly when every template resolves; they then hold one path per template, in template order, each absolute; otherwise the error is one template's error |
| Entries.TraverseFailure | whereis/tests/test_core.py:22-25 | when resolution fails, the error reported is the first failing template's |
| Entries.SampleLocations | whereis/tests/test_core.py:22-25 | the test entry's locations are `os.path.join("/", home, "johndoe")` and `os.path.join("/", "etc")`, that is `home/johndoe` and `/etc` |
| Entries.LocationsExists | whereis/tests/test_core.py:38-44 | `locations_exists()` has exactly the resolved locations as keys, and maps each to whether that path exists |
| Entries.ProbeFollowsFileSystem | whereis/tests/test_core.py:41-44 | creating the file at a resolved location turns its probe from false to true |
| Catalog.Read | whereis/cli.py:70-74 | the entries property succeeds exactly on a stored list with unique names, and then yields that list; a missing file fails |
| Catalog.DefaultEntries | whereis/tests/test_core.py:55-57 | a new database holds entries, each named "grub" or "zsh", with unique names |
| Catalog.AddTo | whereis/tests/test_core.py:66-72 | add fails with `EntryExists` exactly when the name is taken; otherwise the entry is appended |
| Catalog.RemoveFrom | whereis/tests/test_core.py:80-86 | remove fails with `EntryNotFound` exactly when no stored entry equals the one given |
| Catalog.Rewrite | whereis/tests/test_core.py:71-72 | a refused change leaves the backing file as it was |
| Catalog.AddKeepsNamesUnique | whereis/tests/test_core.py:66-70 | a successful add keeps names unique and stores the entry |
| Catalog.AddSameNameFails | whereis/tests/test_core.py:71-72 | after an add, adding any entry with that name fails with `EntryExists` |
| Catalog.AddThenRemove | whereis/tests/test_core.py:79-81 | removing an entry just added gives back the list as it was before |
| Catalog.RemoveFirstAt | whereis/tests/test_core.py:80 | remove cuts out exactly the first occurrence of the entry |
| Catalog.RemoveLeavesNone | whereis/tests/test_core.py:80-84 | after a remove in a list with unique names, no equal entry is left, and the list is the old one minus that entry |
| Catalog.Database.constructor | whereis/tests/test_core.py:50-52 | a database keeps the location it was given |
| Catalog.Database.Exists | whereis/tests/test_core.py:53-54 | `exists()` holds exactly when the backing file is present |
| Catalog.Database.Entries | whereis/tests/test_core.py:55 | readable entries are exactly what the backing file stores, with unique names |
| Catalog.Database.Create | whereis/cli.py:62-69 | creating writes the seed entries, or fails with `PermissionDenied` and changes nothing |
| Catalog.Database.Add | whereis/tests/test_core.py:67-72 | `add` and `+=` change the file and report as `AddTo` on its readable entries; an unreadable file is left alone |
| Catalog.Database.Remove | whereis/tests/test_core.py:80-86 | `remove` and `-=` change the file and report as `RemoveFrom` on its readable entries |
| Catalog.Database.Enter | whereis/tests/test_core.py:51-53 | entering the scope creates a missing backing file with the seed entries and leaves an existing one alone |
| Catalog.Database.Exit | whereis/tests/test_core.py:59 | leaving the scope deletes the backing file |
| Catalog.ScopedDatabase | whereis/tests/test_core.py:49-59 | inside the scope the location is kept, the file exists, its entries are non-empty and named "grub" or "zsh"; after the scope the file is gone |
| Catalog.AddTwiceSteps | whereis/tests/test_core.py:66-72 | the add scenario's three calls: two adds append, and the repeated add fails and changes nothing |
| Catalog.AddToDatabase | whereis/tests/test_core.py:62-72 | both added entries are stored, and adding the first again fails with `EntryExists` |
| Catalog.AddRemoveSteps | whereis/tests/test_core.py:78-86 | the remove scenario's calls: add then remove gives back the seed list, and a second remove fails |
| Catalog.RemoveFromDatabase | whereis/tests/test_core.py:75-86 | the entry is gone after `remove` and after `-=`, and removing it once more fails with `EntryNotFound` |
| Cli.FirstNamed | whereis/cli.py:26-31 | the scan's stopping point: the first position whose entry has the name, and no entry has it when there is none |
| Cli.Lookup | whereis/cli.py:23-42 | a found entry is in the database and has the name asked for |
| Cli.LookupIsFirstMatch | whereis/cli.py:26-42 | the lookup finds nothing exactly when no entry has the name, or the first with the name fails to format; otherwise it is the first entry with the name |
| Cli.GetEntry | whereis/cli.py:23-42 | the loop returns the lookup's answer, whatever `no_err` is |
| Cli.EvalDbOptsPairwise | whereis/cli.py:45-56 | the options are accepted exactly when no two of info, add, remove and delete are set |
| Cli.Opened | whereis/cli.py:60-64 | a missing backing file is created holding a list; an existing one is kept as it is |
| Cli.GetDatabase | whereis/cli.py:59-77 | no database exactly when creation was refused or the entries do not parse; otherwise a database at the location, created if missing, with readable entries |
| Cli.AddedEntryKeepsUnique | whereis/cli.py:83-97 | adding through the command layer keeps names unique, and a free name's entry is stored |
| Cli.AddEntry | whereis/cli.py:80-97 | returns false and changes nothing when the name is taken; otherwise appends the entry with the typed templates in order and returns true |
| Cli.RemovedEntryDropsFound | whereis/cli.py:100-106 | removing through the command layer drops exactly the entry the lookup found, and nothing when it found none |
| Cli.RmEntry | whereis/cli.py:100-106 | the database afterwards is the list without the entry the lookup found, or unchanged |
| Cli.DispatchPrecedence | whereis/cli.py:164-180 | nothing happens when the options conflict or there is no database; otherwise info comes before add, add before remove, and anything else shows help |
| Cli.AcceptedOptionsChooseTheirAction | whereis/cli.py:164-180 | with accepted options, each set option gets its own action, and `--delete` alone only shows help |
| Cli.DefaultLocation | whereis/cli.py:152-154 | the default database location is `config_folder()` as written: it ends in the `where-is` folder, and a platform other than Mac and Windows (Darwin included) gets home/.config/where-is |
| Cli.CliDatabase | whereis/cli.py:150-180 | the database is opened before the options are checked; the action follows the precedence; add and remove change the file as `_add_entry` and `_rm_entry` do, and the other actions leave it as opened |
| Utils.ConfigFolder | whereis/utils.py:26-45 | the folder always ends in `where-is`; a name other than Linux, Mac and Windows gets the Linux folder |
| Utils.ConfigFolderTable | whereis/utils.py:36-45 | Linux gets home/.config/where-is, Mac gets home/Library/Preferences/where-is, Windows gets APPDATA/where-is with an unset APPDATA written "None" and an empty one adding no component, and any other name gets the Linux folder |
| Utils.DarwinGetsLinuxFolder | whereis/utils.py:38 | the name macOS reports, "Darwin", gets home/.config/where-is and not Library/Preferences |
| Utils.ConfigFolderCorrected | whereis/utils.py:36-45 | "Darwin" gets home/Library/Preferences/where-is; every other name gets what the table gives; the folder ends in `where-is` |
| Utils.FormatBool | whereis/utils.py:101-102 | true shows as `[green4 italic]True`, false as `[red italic]False` |
| Utils.FormatBoolInjective | whereis/utils.py:101-102 | the flag can be read back from what is shown |
| Utils.EditorCandidates | whereis/utils.py:61-76 | `$EDITOR` (empty when unset) comes first, then the thirteen known editors in order |
| Utils.FirstFoundIsFirst | whereis/utils.py:77-84 | an editor is found exactly when some candidate's lookup succeeds, and it is the lookup of the earliest such candidate |
| Utils.GetTextEditor | whereis/utils.py:60-84 | the loop returns the lookup of the first candidate found, or nothing |

## Left out

- Output is not modelled: `levels.*` messages, `rich` printing, `_log` and the verbose flag, the version banner and `root`.
- `--info` prints the database. That is modelled only as the `ShowInfo` action; the table rendering and its `FormatMapError` message are not modelled.
- The `find` command (cli.py:133-147) is not modelled. It is `_get_database` followed by `_get_entry`, and both are modelled.
- `_add_entry`'s `input()` loop ended by Ctrl-C, and the splitting of each typed location with `Path(...).parts`, are not modelled. The typed name and the already-split templates are parameters.
- pathlib's normalisation of the resolved paths (repeated or trailing separators) is not modelled. Locations are the strings `os.path.join` gives.
- Placeholder substitution covers plain field names, numeric fields and doubled braces only. Format specs (`:`), conversions (`!`), and attribute or index lookups (`.`, `[`) in a field are not modelled: such a field is looked up as a plain key.
- Which formatting failures `database.py` turns into `FormatMapError` is not modelled. Every failure is taken to be one, so a failure that would crash the program is modelled as a lookup that finds nothing.
- An `APPDATA` value that holds separators is kept as one path component. pathlib would split it into several.
- Cli.AddEntry: stores an entry under any typed name, the empty name included. An `Entry` that rejects an empty name (`InvalidEntryError`) would live in `database.py`, and `whereis/cli.py:80-97` makes no such check.
- `whereis/database.py` is not part of this model. The JSON it actually accepts is not modelled: the parser reads only the canonical text the serialiser writes.
- The exact cases in which `database.py` raises `EntryParseError` are not modelled. A backing file is either a list of entries or `Unreadable`, and a list that repeats a name counts as unreadable.
- The seed entries' locations are parameters.
- The file system, `Path.home()`, `os.getenv`, `platform.system()` and `shutil.which` are parameters.
- `generate_string`, `sp_call`, `bytes_to_string`, the exception hook in `whereis/__init__.py`, `whereis/__main__.py` and the empty command stubs in `whereis/clityper.py` are not modelled. They involve randomness, subprocesses, codecs and process exit, or contain no logic.
- `--delete` deletes nothing in `cli_database`: with the options accepted, it only shows help. The model follows the code, not the description of the option.
- Cli.GetEntry: requires the entries to be readable. `_get_database` has already checked this before any lookup, and an unreadable file would raise in the source.
- Cli.AddEntry: requires the entries to be readable, for the same reason.
- Cli.RmEntry: requires the entries to be readable, for the same reason.

## Findings

| source | as written | input that shows it | evidently intended | confidence | as-written member | corrected member |
|---|---|---|---|---|---|---|
| whereis/utils.py:38 | the macOS folder is stored under the key "Mac", but `platform.system()` reports "Darwin" on macOS, so that key is never looked up | `config_folder("Darwin")` returns home/.config/where-is | macOS gets home/Library/Preferences/where-is | high, not executed | Utils.DarwinGetsLinuxFolder | Utils.ConfigFolderCorrected |
