# Launcher entry registry — a Dafny model

This project models the core of a small desktop launcher (`Launcher_main.py`).
The launcher keeps an ordered list of entries, each either an application
(a file path to start) or a category separator. The list is saved as a JSON
document, `launcher_data.json`, and up to ten backup generations are kept
beside it (`.bak1` … `.bak10`). The user adds, edits, deletes and reorders
entries; a reorder reported by the list widget is checked before it is
applied. Activating an entry starts it in a way chosen by its file extension.

The model has seven modules, one file each:

- `wrappers.dfy` (`Wrappers`): the `Option` type used for lookups and absent files.
- `text.dfy` (`Text`): Python's `str.strip()` over its full whitespace set, and
  `str.lower()` on ASCII letters.
- `paths.dfy` (`Paths`): the Windows path functions the program calls.
  These are `ntpath.basename`, `ntpath.dirname` and `ntpath.splitext`, with
  both `\` and `/` as separators and an optional `X:` drive.
- `entries.dfy` (`Entries`): the value type `LauncherEntry`, its factories
  `from_file` and `create_separator`, and the checks of the entry form
  (`EntryDialog.get_entry`).
- `persistence.dfy` (`Persistence`): the data document and its backup
  generations.
  - Pure functions describe serialisation, tolerant loading and rotation.
  - The class `Store` holds the document (`current`) and an `array` of ten
    generation slots.
  - Its methods `LoadEntries`, `GetBackupFiles`, `RestoreFromBackup`,
    `BackupDataFile` and `SaveEntries` are proved against those functions.
- `registry.dfy` (`Registry`): the list of entries and the operations on it.
  - Functions and lemmas cover lookup, delete and reorder reconciliation.
  - The class `EntryRegistry` holds `MainWindow.entries` and the `Store`, and
    its methods (add, edit, delete, save order) change both.
- `launch.dfy` (`Launch`): `_run_entry` as a function from an entry to a
  `Plan`.

Files, uuid generation, `os.path.abspath`, `os.path.exists`,
`sys.platform` and the user's answers to dialogs are all parameters. A file
on disk is modelled by what `json.load` makes of it (`Persistence.Document`).

Two behaviours of the code are worth stating on their own, because a
reader might expect otherwise:

- A reorder report that names ids no entry has is **not** refused. The
  unknown ids are dropped, and the rest is applied if all checks pass
  (`Registry.ReconcileFollowsReport`).
- A loaded record without a `name` key is **not** dropped. It becomes an
  entry named "" (`Persistence.EntryOf`). A record is skipped only when it
  is not a JSON object.

## Model

| member | source | states |
|---|---|---|
| Text.StripStart | Launcher_main.py:403-404 | the result is a suffix of the input; it does not start with whitespace; everything removed is whitespace |
| Text.StripEnd | Launcher_main.py:403-404 | the result is a prefix of the input; it does not end with whitespace; everything removed is whitespace |
| Text.IsSpace | Launcher_main.py:403-404 | the characters Python's `str.isspace()` accepts, which are the characters `strip()` removes (a definition; it has no contract of its own) |
| Text.Strip | Launcher_main.py:403-404 | `str.strip()` as `lstrip` followed by `rstrip` (no contract of its own; what it returns is stated by `Text.StripIsTrimmed`, `Text.StripIsInfix` and `Text.StripEmptyIffAllSpace`) |
| Text.StripIsTrimmed | Launcher_main.py:403-404 | what `strip()` returns has no whitespace at either end |
| Text.StripIsInfix | Launcher_main.py:403-404 | `strip()` returns an infix of its input, and only whitespace is cut off on either side |
| Text.StripEmptyIffAllSpace | Launcher_main.py:407-421 | a field strips to "" exactly when it is all whitespace, which is the emptiness test the form applies |
| Text.StripTrimmed | Launcher_main.py:403-404 | stripping an already trimmed string changes nothing |
| Text.StripIdempotent | Launcher_main.py:403-404 | `strip()` twice equals `strip()` once |
| Text.LowerChar | Launcher_main.py:680 | upper-case ASCII letters map to their lower-case letter; every other character is kept |
| Text.Lower | Launcher_main.py:680 | lower-casing keeps the length and lower-cases each character |
| Paths.DriveLength | Launcher_main.py:63 | the drive is the first two characters exactly when the second is a colon; otherwise there is none |
| Paths.AfterLastSep | Launcher_main.py:63 | the last component starts just after a separator, or at 0, and holds no separator |
| Paths.RFind | Launcher_main.py:680 | the position found holds the character and no later position does; -1 when it is absent |
| Paths.StripTrailingSeps | Launcher_main.py:681 | the result is a prefix that does not end in a separator, and only separators are dropped |
| Paths.Basename | Launcher_main.py:63 | the basename is the suffix of the path that starts after the drive and after the last separator: it holds no separator, and it is either everything after the drive or is preceded by a separator |
| Paths.Dirname | Launcher_main.py:681 | the drive followed by the head's directory text (no contract of its own; `Paths.SplitParts` and `Paths.DirnameBasenameSplit` with the contracts of `Paths.Basename` and `Paths.DirOfHead` determine it, since the drive is fixed by `DriveLength`, the tail by `Basename` and so the head, and the head's directory by `DirOfHead`: the path without its basename and without the separators before it, unless those separators are all the head holds) |
| Paths.DirOfHead | Launcher_main.py:681 | `head.rstrip(seps) or head`: a prefix of the head followed only by separators; a head made only of separators is kept whole, and any other head loses its trailing separators so that the result does not end in one; empty only when the head is empty |
| Paths.SplitParts | Launcher_main.py:681 | a path is drive + head + tail, where the drive is the path's `X:` drive (its first `DriveLength` characters); the dirname is the drive plus the head's directory; the basename is the tail and holds no separator |
| Paths.DirnameBasenameSplit | Launcher_main.py:63 | a path is its dirname, a run of separators (returned as `seps`) and its basename, and the basename holds no separator |
| Paths.DirnameEmptyIff | Launcher_main.py:681 | the dirname is empty exactly for a bare file name: no drive and no separator |
| Paths.ExtStart | Launcher_main.py:680 | the extension starts inside the last component, at a dot, or at the end of the path when there is none |
| Paths.Ext | Launcher_main.py:680 | the extension is empty, or it is a dot followed by characters that are neither dots nor separators |
| Paths.Root | Launcher_main.py:63 | the root followed by the extension is the whole path |
| Paths.AfterLastSepAppend | Launcher_main.py:680 | appending text without separators does not move the start of the last component |
| Paths.ExtSplits | Launcher_main.py:680 | a non-empty extension ".x" splits the path into a root that has a stem, a dot and x |
| Paths.ExtOfAppend | Launcher_main.py:680 | a root with a stem followed by ".x" has extension ".x" |
| Paths.ExtIff | Launcher_main.py:680 | the extension is ".x" if and only if the path is a root with a stem followed by ".x" |
| Entries.FromFile | Launcher_main.py:61-70 | a dropped file gives an "app" entry with the fresh id, the absolute path and an empty description; its name plus the extension is the file's basename, and the name holds no separator |
| Entries.CreateSeparator | Launcher_main.py:72-80 | a separator entry with the fresh id, the given name, no path and no description |
| Entries.Validate | Launcher_main.py:402-425 | each rejection (blank name; application without a path; missing path not confirmed) happens if and only if its condition holds; accepted fields are the stripped texts, with no path and type "separator" for a category and type "app" otherwise |
| Entries.GetEntry | Launcher_main.py:402-433 | an entry comes back exactly when validation accepts; its name and description are the stripped form texts, its path is the stripped path text for an application and "" for a category; it is well-formed (trimmed non-empty name, trimmed description, a separator without a path or an application with a trimmed non-empty path); an edit keeps the edited entry's id and a new entry gets the fresh id |
| Entries.WithFields | Launcher_main.py:427-432 | the form's name, path, description and type replace the entry's, and the id stays (no contract of its own; `Entries.GetEntry` and `Entries.ResubmitUnchanged` state its effect) |
| Entries.PrefilledForm | Launcher_main.py:348-372 | the edit dialog shows the entry's name, path and description, and selects "category" for a separator (no contract of its own; used by `Entries.ResubmitUnchanged`) |
| Entries.GetEntryIgnoresPrefill | Launcher_main.py:514-525 | a dialog pre-filled from the dropped file's entry, which carries the fresh id, gives the same result as an empty dialog with the same form text |
| Entries.ResubmitUnchanged | Launcher_main.py:334-433 | saving the edit dialog of a well-formed entry without touching it gives back the same entry |
| Persistence.EntryOf | Launcher_main.py:94-102 | each field comes from its key when the record has it; otherwise the defaults apply: the fresh id, "" for name, path and description, and "app" for the type |
| Persistence.RecordOf | Launcher_main.py:160 | `asdict`: the five fields under their attribute names (no contract of its own; `Persistence.LoadAfterSave` shows the loader reads each record back as the entry) |
| Persistence.Serialize | Launcher_main.py:155-162 | the saved document is an object whose "entries" array has one element per entry |
| Persistence.Records | Launcher_main.py:160 | one record per entry |
| Persistence.ParseItems | Launcher_main.py:92-103 | loading yields one entry per JSON object in the array, so never more entries than elements |
| Persistence.Loaded | Launcher_main.py:83-107 | a missing file, unparseable text, a top level that is not an object, or a missing or non-array "entries" value all load as no entries; an "entries" array loads as `ParseItems` of its elements |
| Persistence.ParseItemAt | Launcher_main.py:92-103 | an object element becomes the entry at the position counted by the objects before it, so survivors keep their order and fields |
| Persistence.LoadAfterSave | Launcher_main.py:83-162 | round trip: loading what `save_entries(es)` wrote gives back `es`, field for field and in order |
| Persistence.ParseRecords | Launcher_main.py:92-103 | reading back the records of a list of entries gives that list |
| Persistence.Rotated | Launcher_main.py:132-152 | after a rotation, generation 1 holds the document and generation g holds the old generation g-1 (2 ≤ g ≤ 9); generation 10 holds the old generation 9 when it existed and otherwise keeps its content |
| Persistence.RotateIfPresent | Launcher_main.py:132-152 | without a data document the backups stay as they are; with one, they are `Rotated` with that document, so generation 1 becomes it |
| Persistence.BackupsAfter | Launcher_main.py:155-162 | a run of saves leaves ten generation slots |
| Persistence.BackupsAfterSaves | Launcher_main.py:132-162 | after N saves starting from no backups, generation k+1 holds the document as it was k+1 saves ago when k < N, and does not exist otherwise |
| Persistence.PresentCountPrefix | Launcher_main.py:110-118 | when exactly the first m slots exist, m generations exist |
| Persistence.BackupCount | Launcher_main.py:132-162 | bounded history: after N ≥ 1 saves, min(N, 10) generations exist, and generation 1 is the state just before the latest save |
| Persistence.SaveExtendsHistory | Launcher_main.py:155-162 | one more `save_entries` on a store whose backups are those a history of saves left extends that history by the written document, which ties `Persistence.BackupCount` to `Persistence.Store.SaveEntries` |
| Persistence.ReadItems | Launcher_main.py:92-104 | the loop over the "entries" array returns exactly `ParseItems` of the array |
| Persistence.Store.LoadEntries | Launcher_main.py:83-107 | returns exactly `Loaded` of the current document: the array loop for an "entries" array, no entries otherwise |
| Persistence.Store.GetBackupFiles | Launcher_main.py:110-118 | the generations returned are exactly the existing ones, strictly ascending, and there are at most 10 of them |
| Persistence.Store.RestoreFromBackup | Launcher_main.py:121-129 | succeeds if and only if the generation exists; the document then becomes a copy of it, and otherwise nothing changes |
| Persistence.Store.BackupDataFile | Launcher_main.py:132-152 | the in-place renaming loop leaves the slots as `Rotated` of the old slots when the document exists, and as they were otherwise |
| Persistence.Store.SaveEntries | Launcher_main.py:155-162 | the backups are rotated from the old document, then the document becomes `Serialize(es)` |
| Registry.CardElements | Launcher_main.py:601-612 | a list has at most as many distinct ids as elements, and exactly as many if and only if it has no repeats |
| Registry.DistinctIdsAppend | Launcher_main.py:524-525 | appending an entry whose id is new keeps the ids distinct |
| Registry.FirstIndex | Launcher_main.py:500-504 | the first position that holds the id |
| Registry.LastIndex | Launcher_main.py:613 | the last position that holds the id, which is the entry the id-to-entry dictionary keeps |
| Registry.UniqueById | Launcher_main.py:613 | with distinct ids, each entry is the one the dictionary keeps for its id |
| Registry.Without | Launcher_main.py:578 | deleting never makes the list longer; `Registry.WithoutMembers` states which entries stay |
| Registry.WithoutShrinks | Launcher_main.py:578 | deleting an id some entry has removes at least one entry |
| Registry.WithoutMembers | Launcher_main.py:578 | delete keeps exactly the entries with another id |
| Registry.WithoutConcat | Launcher_main.py:578 | delete filters each part of a concatenation on its own, so relative order is kept |
| Registry.WithoutUnknown | Launcher_main.py:578 | deleting an id no entry has changes nothing |
| Registry.WithoutDistinct | Launcher_main.py:578 | with distinct ids, delete keeps them distinct and removes exactly one entry when the id is present, none otherwise |
| Registry.Truthy | Launcher_main.py:592-599 | the collected ids are exactly the reported ids that are not empty |
| Registry.OrderedIds | Launcher_main.py:592-599 | the collecting loop returns `Truthy` of the report, which holds no empty id |
| Registry.Restrict | Launcher_main.py:613-614 | keeps exactly the reported ids that are known, and adds no repeats |
| Registry.Project | Launcher_main.py:613-614 | the resolved list is never longer than the report |
| Registry.ProjectFollowsReport | Launcher_main.py:613-614 | the resolved list carries the known reported ids in reported order, and each element is a current entry |
| Registry.ProjectLength | Launcher_main.py:613-619 | with a repeat-free report, the resolved list is as long as the number of known ids reported |
| Registry.ProjectHas | Launcher_main.py:613-614 | a known reported id resolves to the entry the dictionary keeps for it |
| Registry.ProjectCongruent | Launcher_main.py:613-614 | two lists that map every id to the same entry resolve a report identically |
| Registry.Reconcile | Launcher_main.py:601-619 | the checks of `_save_current_order` in the code's order (no contract of its own; each outcome is characterised by `Registry.ReconcileCases`) |
| Registry.ReconcileCases | Launcher_main.py:601-619 | Incomplete if and only if some current entry's id was not reported; Duplicate if and only if the report is complete but repeats an id; SizeMismatch if and only if the report is complete without repeats but the current ids are not distinct; Applied in every other case |
| Registry.MultiplicityOne | Launcher_main.py:613-619 | with distinct ids, every entry occurs at most once |
| Registry.ReconcilePermutes | Launcher_main.py:613-619 | an applied reorder is a permutation of the current entries, with distinct ids |
| Registry.ReconcileFollowsReport | Launcher_main.py:613-614 | the applied order lists the reported known ids in reported order; unknown ids are dropped |
| Registry.ReconcileIdempotent | Launcher_main.py:590-619 | applying the same report to the order it produced reproduces that order |
| Registry.EntryRegistry.Save | Launcher_main.py:155-162 | the store then holds the current list, and the backups were rotated from the state before |
| Registry.EntryRegistry.constructor | Launcher_main.py:442-449 | the list starts as `Loaded` of the store's document |
| Registry.EntryRegistry.FindById | Launcher_main.py:500-504 | nothing if and only if no entry has the id; otherwise the first entry with it |
| Registry.EntryRegistry.Append | Launcher_main.py:524-525 | the entry is appended at the end and the list is saved |
| Registry.EntryRegistry.AddEntry | Launcher_main.py:514-526 | the result is the form's `GetEntry`; when refused, neither the list nor the store changes; when accepted, the entry is appended and the list saved; a fresh id keeps the ids distinct |
| Registry.EntryRegistry.EditEntry | Launcher_main.py:528-538 | nothing happens for an unknown id or a refused form; otherwise the first entry with the id is replaced by the form's `GetEntry`, in place, and the list is saved; the sequence of ids never changes |
| Registry.EntryRegistry.DeleteEntry | Launcher_main.py:549-580 | when no entry has the id or the deletion is not confirmed, neither the list nor the store changes; otherwise the list becomes the entries with another id, is shorter than before, and is saved |
| Registry.EntryRegistry.SaveCurrentOrder | Launcher_main.py:590-619 | the outcome is `Reconcile` of the list and the non-empty reported ids; an applied order replaces the list and is saved, and any other outcome changes neither the list nor the store |
| Launch.WorkingDir | Launcher_main.py:681 | there is no working directory if and only if the path is a bare file name; otherwise it is the non-empty dirname |
| Launch.Extension | Launcher_main.py:680 | the lower-cased `splitext` extension (no contract of its own; `Launch.ExtensionIs` characterises it) |
| Launch.Classify | Launcher_main.py:683-693 | which of the three branches the extension selects (no contract of its own; `Launch.PythonIff` and `Launch.ConsoleIff` characterise it) |
| Launch.Resolve | Launcher_main.py:672-699 | separators start nothing; a missing path gives a warning; .py/.pyw files run in a Python console, .exe/.bat/.cmd files run directly in a console, and each happens if and only if its extension class holds; other files are opened by the system on Windows and spawned elsewhere; each plan carries the entry's path and the dirname as working directory (the corrected plan; the code as written is `Launch.ResolveAsWritten`, see "## Findings") |
| Launch.LowerDot | Launcher_main.py:680 | lower-casing passes over a leading dot |
| Launch.ExtensionSplits | Launcher_main.py:680 | a lower-cased extension ".x" means the path ends with a stem, a dot and a suffix that lower-cases to x |
| Launch.ExtensionOfSuffix | Launcher_main.py:680 | a path ending like that has lower-cased extension ".x" |
| Launch.ExtensionIs | Launcher_main.py:680 | the lower-cased extension is ".x" if and only if the path ends with such a suffix |
| Launch.ExtensionIsLiteral | Launcher_main.py:680 | proof helper: `Launch.ExtensionIs` for a dotted extension given as a literal |
| Launch.PythonIff | Launcher_main.py:683 | a file runs as a Python script if and only if its name ends in ".py" or ".pyw", in any letter case |
| Launch.ConsoleIff | Launcher_main.py:687 | a file runs as a console program if and only if its name ends in ".exe", ".bat" or ".cmd", in any letter case |
| Launch.LaunchesOnlyExisting | Launcher_main.py:673-679 | something is started if and only if the entry is not a separator and its path exists |
| Launch.ResolveAsWritten | Launcher_main.py:683-686 | as written, a Python plan always changes directory; every other plan is the intended one |
| Launch.AsWrittenDiffers | Launcher_main.py:681-686 | the as-written plan differs from the intended one if and only if it is a Python script given as a bare file name; the console is then sent to "None" |
| Launch.BareScriptChangesToNone | Launcher_main.py:681-686 | for an existing bare ".py" name, the code as written changes to "None", while the intended plan stays in the starting directory |
| Launch.ToolScriptIsBare | Launcher_main.py:681-686 | "tool.py" is such a bare script name |

## Left out

- The Qt user interface: list rendering, context menus, drag and drop, and the restore dialog. Only what they hand to the core is modelled: a form, a confirmation, a reported id order, a generation number.
- The Cancel button of the entry dialog. It changes nothing, which is the same outcome as a refused form (`None`).
- `EntryDialog._browse`: filling the path (and a blank name) from a file chooser only shapes the form text.
- `_handle_files_dropped` and the `from_path` branch of `add_entry_dialog`. The dropped file's entry only pre-fills the form. Since it carries the fresh id, `Entries.GetEntryIgnoresPrefill` shows that `AddEntry` with the resulting form covers it. Empty dropped paths are skipped by the loop, which is not modelled.
- Registry.EntryRegistry.EditEntry: the edited entry is modelled as a value that replaces the first entry with the id. The source mutates that object in place. No other list position can alias it, because a reorder with repeated ids is refused.
- JSON text, encoding and indentation. A document is modelled by its parse result, and record values are strings only; a non-string value under a key is not modelled.
- Errors while reading the data file (permissions, a bad encoding). The code loads an empty list for them, as it does for a corrupt file, so `Persistence.Loaded` would return the same; the model has no value for an unreadable file.
- I/O failures in the middle of a save or rotation (a failed rename or copy). Each file operation is modelled as succeeding.
- `restore_from_backup` is given a generation number rather than a file path. A copy that fails for another reason than a missing generation is not modelled.
- uuid generation, `os.path.abspath`, `os.path.exists` and `sys.platform` are parameters.
- The command strings `_run_entry` builds: window title, quoting, `pause`. Also `subprocess.Popen`, `os.startfile` and the error box for a failed start. The plan records only what is started and in which directory.
- UNC paths (`\\server\share`) in `ntpath`. Only `X:` drives are modelled.
- Paths.Dirname, Paths.Basename, Paths.Ext, Entries.FromFile, Launch.Resolve: the path functions follow Windows `ntpath` as it splits paths up to Python 3.11, on every platform, including the `Spawn` plan for non-Windows systems. Elsewhere the program's `os.path` is `posixpath`, where `\` is an ordinary character and there are no drives. So an existing `x\.py` runs as a Python script there but is `OtherFile` here, `d\f` gets no working directory there but `d` here, and `from_file("/h/a\b.py")` names the entry `a\b` there but `b` here. Since Python 3.12, `ntpath.split` keeps only the root separator after a drive, so the dirname of `C:\\x` (two separators) is `C:\` there and `C:\\` here.
- Text.Lower, Text.LowerChar: Python's `str.lower` on non-ASCII letters. The model lower-cases ASCII only. This is exact for the extensions compared, which are ASCII.
- Reorder with a missing id also rebuilds the widget list. That is a display effect, and the entries are untouched as modelled.

## Findings

| source | as written | input that shows it | evidently intended | confidence | as-written member | corrected member |
|---|---|---|---|---|---|---|
| Launcher_main.py:683-686 | the Python branch puts `cwd` into `cd /d "{cwd}"` without checking it; for a bare file name `cwd` is None, so the console runs `cd /d "None"`, which fails, and `&&` keeps the script from running | an application entry with path "tool.py" that exists in the launcher's working directory | skip the `cd` when there is no directory, as the .exe/.bat/.cmd branch (687-693) does | medium, not executed | Launch.ResolveAsWritten, Launch.BareScriptChangesToNone | Launch.Resolve |
