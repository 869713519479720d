# check_packages, modelled in Dafny

`src/check_packages.py` is a command-line helper for a Python project:

- it finds the project's virtual environment;
- it asks that environment's `pip` which distributions are installed;
- it works out which module names each distribution provides;
- it scans every `.py` file of the project for `import` statements;
- depending on the action, it reports the installed distributions that no file uses (`identify`), or it also deletes their lines from `requirements.txt` and uninstalls them (`remove`). The `generate` action hands the interpreter on to `generate_requirements`.

This project models that decision logic on values and proves what it computes. Outside effects become inputs:

- The file system is split in three:
  - the set of paths that exist;
  - the directory walk, as the list of `(directory, file names)` entries `os.walk` yields;
  - the project's files, each given by the outcome of reading and parsing it.
- `pip list --format=freeze` is given by its exit status and its standard output.
- Package metadata is a map from a distribution name to the lines of its `top_level.txt`.
- `os.name` is a platform parameter: `Posix` or `Nt`.
- `requirements.txt` is given as the list of lines `readlines` returns, or as absent.

`CheckPackages.Run` ties all of this together and returns what one invocation does as an `Outcome`.

Modules, one per file:

| module | models |
|---|---|
| `Wrappers` | `Option` |
| `Text` | `str.lower` (ASCII), `str.split` with a separator, `str.join`, `str.strip`, `startswith` and `endswith` |
| `Paths` | `os.path.join` and `os.path.dirname` for POSIX and Windows paths |
| `Virtualenv` | `find_virtualenv`, and the exclusion prefix `main` derives from its result |
| `Imports` | `find_imports_in_file` |
| `Scanner` | `find_used_packages` |
| `Resolver` | `get_import_names`, and the loop of `main` that collects every installed import name |
| `PipList` | the output parse of `get_pip_installed_packages` |
| `Order` | Python's string order and `list.sort()` |
| `Reconcile` | the list of unused distributions built and sorted in `main` |
| `Requirements` | `remove_from_requirements` |
| `CheckPackages` | `main` |

The model follows the code as written, including three behaviours that are easy to misread:

- **Import names can be empty.** A distribution need not yield any import name. The code returns an empty list when `top_level.txt` exists but is empty. `Resolver.GetImportNames` does the same, and `Resolver.ProvidedNamesAreLower` shows that such a distribution provides no name.
- **A line for a used name can be removed.** A line can go even for a distribution whose name the project imports. The code decides only by the distribution's own import names. If another distribution provides a module with the same name, the line goes; `CheckPackages.UsedNameCanBeUnused` and `CheckPackages.PinnedLineRemoved` show this.
- **The probe and prefix on POSIX.** On POSIX the probed interpreter is `<venv>/Scripts/bin/python`, because `Scripts` is joined on every platform. The exclusion prefix is therefore `<venv>/Scripts`. The model keeps both as written: see `Virtualenv.ProbeLayout` and `CheckPackages.PosixLibraryScanned`.

## Model

| member | source | states |
|---|---|---|
| `Text.Lower` | src/check_packages.py:22 | `.lower()` keeps the length and lowers each character on its own (ASCII capitals only) |
| `Text.LowerIsLower` | src/check_packages.py:51-53 | a lowered name holds no capital, and lowering it again changes nothing |
| `Text.LowerKeepsSeparatorOut` | src/check_packages.py:64 | lowering a name part that holds no `==` cannot create one |
| `Text.FindFrom` | src/check_packages.py:22 | the first position from `k` on where the separator occurs, or none when it does not occur |
| `Text.Split` | src/check_packages.py:22 | `split(sep)`: at least one piece, none containing `sep`; the first piece is the text before the first `sep` (all of it when there is none), and `sep` occurs nowhere earlier |
| `Text.SplitFirstAt` | src/check_packages.py:88 | when the first `sep` is at `k`, the first piece is `s[..k]` |
| `Text.Contains` | src/check_packages.py:64 | `sep in s`: `sep` occurs at some position of `s` |
| `Text.JoinWith` | src/check_packages.py:64 | `sep.join(pieces)`, the inverse that `JoinSplit` relates `split` to |
| `Text.JoinSplit` | src/check_packages.py:64 | `sep.join(s.split(sep)) == s`: splitting loses nothing |
| `Text.TrimStart` | src/check_packages.py:64 | `lstrip`: drops leading characters that satisfy the given test |
| `Text.TrimEnd` | src/check_packages.py:88 | `rstrip`: drops trailing characters that satisfy the given test |
| `Text.Strip` | src/check_packages.py:64 | `strip()`: leading and then trailing Python whitespace removed |
| `Text.StartsWith` | src/check_packages.py:36 | `str.startswith` |
| `Text.EndsWith` | src/check_packages.py:39 | `str.endswith` |
| `Text.TrimStartShape` | src/check_packages.py:64 | `lstrip` removes exactly the longest prefix of dropped characters |
| `Text.TrimEndShape` | src/check_packages.py:88 | `rstrip` removes exactly the longest suffix of dropped characters |
| `Text.StripIsInfix` | src/check_packages.py:64 | `strip()` leaves a contiguous piece of the input; only whitespace is cut; the result neither starts nor ends with whitespace |
| `Text.StripAllSpace` | src/check_packages.py:64 | all-whitespace text strips to the empty string |
| `Text.StripIgnoresTrailingSpace` | src/check_packages.py:64 | appended whitespace does not change what a string strips to |
| `Paths.Join` | src/check_packages.py:40 | `os.path.join(a, b)`: an absolute `b` replaces `a`; otherwise one separator is inserted unless `a` is empty or already ends in one |
| `Paths.JoinShape` | src/check_packages.py:40 | `os.path.join(a, b)` ends with `b`, starts with `a` when `b` is relative, and inserts exactly one separator when neither side has one |
| `Paths.Dirname` | src/check_packages.py:120 | `os.path.dirname`: the text up to the last separator, with trailing separators removed unless only separators are left |
| `Paths.DirnameOfChild` | src/check_packages.py:120 | `dirname(p + sep + name) == p` for a separator-free name |
| `Virtualenv.VenvDir` | src/check_packages.py:74 | `os.path.join(project_root, d)` for the candidate `d` |
| `Virtualenv.Probe` | src/check_packages.py:75 | `os.path.join(venv_path, 'Scripts', 'python.exe' or 'bin/python')` |
| `Virtualenv.Probes` | src/check_packages.py:72-75 | the four probed paths, one per candidate in the order `venv`, `env`, `.venv`, `.env` |
| `Virtualenv.FirstExisting` | src/check_packages.py:73-78 | the first probe that exists, or none |
| `Virtualenv.FirstExistingFromIsFirst` | src/check_packages.py:73-78 | the reported path is the earliest probe that exists, and there is none exactly when no probe exists |
| `Virtualenv.FindVirtualenv` | src/check_packages.py:71-78 | the loop returns the first existing probe in the order `venv`, `env`, `.venv`, `.env`, or nothing when no probe exists; a returned path exists |
| `Virtualenv.ExclusionPrefix` | src/check_packages.py:120 | `os.path.dirname(os.path.dirname(venv_python))` |
| `Virtualenv.ProbeLayout` | src/check_packages.py:75 | the probe is `<venv>/Scripts/bin/python` on POSIX and `<venv>\Scripts\python.exe` on Windows; the exclusion prefix (line 120) is `<venv>/Scripts` on POSIX and `<venv>` on Windows |
| `Imports.Read` | src/check_packages.py:12-17 | the outcome of opening and parsing `filepath`; a path the file system lacks cannot be read |
| `Imports.RootName` | src/check_packages.py:22 | `name.split('.')[0].lower()`, used for `import` names (line 22) and `from` modules (line 25) |
| `Imports.RootNameShape` | src/check_packages.py:22 | a root name is the lowered text before the first `.`, so it holds no `.` and no capital |
| `Imports.PlainRootName` | src/check_packages.py:25 | a lower-case name without `.` is its own root |
| `Imports.NamesRoots` | src/check_packages.py:21-23 | the roots of the names of one `import` node |
| `Imports.NodeImports` | src/check_packages.py:20-26 | what one node adds: the roots of its names, the root of a non-empty `from` module, or nothing |
| `Imports.NodesImports` | src/check_packages.py:19-26 | the union over the nodes `ast.walk` visits |
| `Imports.FileImports` | src/check_packages.py:14-27 | the nodes' names for a parsed file, and the empty set otherwise |
| `Imports.NodesImportsMembership` | src/check_packages.py:19-26 | a name is collected exactly when some `import` node has a dotted name with that root, or some `from` node with a non-empty module has that root |
| `Imports.FileImportsShape` | src/check_packages.py:14-17 | a file contributes only when it parses; each name it contributes holds no `.` and no capital |
| `Imports.FindImportsInFile` | src/check_packages.py:11-30 | the loop collects exactly the file's import roots; a syntax error or a read failure gives the empty set |
| `Scanner.Excluded` | src/check_packages.py:36 | `venv_path and root.startswith(venv_path)`: a raw string-prefix test |
| `Scanner.IsSource` | src/check_packages.py:39 | `file.endswith('.py')` |
| `Scanner.ScannedImports` | src/check_packages.py:39-41 | the imports of `os.path.join(root, file)` for a `.py` file, and nothing for any other file |
| `Scanner.FilesUsed` | src/check_packages.py:38-42 | the installed imports of the files of one directory |
| `Scanner.EntryUsed` | src/check_packages.py:36-42 | what one walk entry adds; nothing when it is excluded |
| `Scanner.UsedNames` | src/check_packages.py:34-42 | the union over the walk entries |
| `Scanner.FilesUsedMembership` | src/check_packages.py:38-42 | in a directory that is not excluded, a name is found exactly when it is installed and some `.py` file there imports it |
| `Scanner.EntryUsedMembership` | src/check_packages.py:36-42 | a walk entry contributes a name exactly when the name is installed and a scanned file of the entry imports it; an excluded entry contributes nothing |
| `Scanner.UsedNamesMembership` | src/check_packages.py:32-44 | a name is used exactly when it is installed and some scanned `.py` file imports it. Scanned means: under a walked directory that does not start with the non-empty exclusion prefix |
| `Scanner.UsedNamesWithin` | src/check_packages.py:42 | the used names are always a subset of the installed import names |
| `Scanner.ScanFiles` | src/check_packages.py:38-42 | the inner loop adds the installed imports of each `.py` file of one directory |
| `Scanner.FindUsedPackages` | src/check_packages.py:32-44 | the walk loop returns exactly the used names, a subset of the installed import names |
| `Resolver.TopLevel` | src/check_packages.py:48-50 | the lines of `top_level.txt` for a distribution, when it has one |
| `Resolver.LowerAll` | src/check_packages.py:51 | one lowered entry per `top_level.txt` line, in order |
| `Resolver.GetImportNames` | src/check_packages.py:46-56 | without `top_level.txt`: exactly the lowered distribution name. With it: one lowered entry per line, so none for an empty file |
| `Resolver.Provides` | src/check_packages.py:117 | `n in get_import_names(pkg)` |
| `Resolver.InstalledImportNames` | src/check_packages.py:114-117 | every name some installed distribution provides |
| `Resolver.ProvidedNamesAreLower` | src/check_packages.py:50-53 | every provided import name is lowered; a distribution with an empty `top_level.txt` provides none |
| `Resolver.CollectImportNames` | src/check_packages.py:114-117 | the loop yields exactly the names some installed distribution provides, whatever order the set is visited in |
| `PipList.PackageName` | src/check_packages.py:64 | `line.split('==')[0].lower()` |
| `PipList.ListingLines` | src/check_packages.py:64 | `stdout.strip().split('\n')` |
| `PipList.ParsePipList` | src/check_packages.py:61-64 | a non-zero exit status gives no names; no parsed name contains `==` |
| `PipList.PackageNameShape` | src/check_packages.py:64 | a listed name is the lowered text of its line before the first `==`; no `==` starts at any earlier position |
| `PipList.ListingLinesShape` | src/check_packages.py:64 | the listing lines are newline-free and join back to the stripped output |
| `PipList.EmptyListing` | src/check_packages.py:64 | an empty or all-whitespace listing parses to the set holding only the empty name |
| `PipList.TrailingWhitespaceIgnored` | src/check_packages.py:64 | trailing whitespace after the listing does not change the parsed set |
| `Order.LessIrreflexive` | src/check_packages.py:124 | no string sorts before itself |
| `Order.LessTransitive` | src/check_packages.py:124 | Python's string order is transitive |
| `Order.LessTotal` | src/check_packages.py:124 | of two different strings, one sorts before the other |
| `Order.StrictlyAscendingUnique` | src/check_packages.py:124 | two strictly ascending lists with the same members are equal |
| `Order.Insert` | src/check_packages.py:124 | one insertion pass extends the sorted prefix by one element, leaves the elements after it untouched, and keeps every element as often as before |
| `Order.Sort` | src/check_packages.py:124 | `list.sort()` leaves the list sorted and a permutation of what it was |
| `Order.Less` | src/check_packages.py:124 | Python's string comparison: code-point lexicographic order |
| `Reconcile.IsUnused` | src/check_packages.py:122 | `not any(name in used_packages for name in get_import_names(pkg))` |
| `Reconcile.IsUnusedList` | src/check_packages.py:122-124 | strictly ascending, and holding exactly the installed distributions that are unused |
| `Reconcile.UnusedPackages` | src/check_packages.py:122-124 | the list is strictly ascending and holds exactly the installed distributions none of whose import names is used |
| `Reconcile.UnusedListUnique` | src/check_packages.py:122-124 | only one list meets that description, so the report does not depend on set iteration order |
| `Requirements.RequirementName` | src/check_packages.py:88 | `line.split('==')[0].lower().strip()` |
| `Requirements.Keeps` | src/check_packages.py:89 | `package_name not in unused_packages` |
| `Requirements.KeptLines` | src/check_packages.py:87-90 | the lines that are written back, in order |
| `Requirements.KeptLinesAppend` | src/check_packages.py:87-90 | lines are decided one at a time: the rewrite of a concatenation is the concatenation of the rewrites |
| `Requirements.KeptLinesCounts` | src/check_packages.py:87-90 | a line is kept as often as it occurs when its name is not unused, and never otherwise |
| `Requirements.KeptLinesMembership` | src/check_packages.py:88-90 | a kept line is an input line whose name is not among the unused names, and conversely |
| `Requirements.KeptLinesIdempotent` | src/check_packages.py:80-90 | removing the same list a second time changes nothing |
| `Requirements.RemoveFromRequirements` | src/check_packages.py:80-90 | with no `requirements.txt` nothing is written; otherwise exactly the kept lines are written, unchanged and in order |
| `CheckPackages.Installed` | src/check_packages.py:113 | `get_pip_installed_packages(venv_python)` on the given pip result |
| `CheckPackages.Used` | src/check_packages.py:120-121 | `used_packages` for the prefix derived from the interpreter |
| `CheckPackages.Run` | src/check_packages.py:105-136 | returns no environment exactly when no probe exists. Otherwise: `identify` reports the unused list for the installed, resolved and scanned names, with the prefix from line 120; `remove` also rewrites the manifest with that list; `generate` passes on the interpreter; any other action does nothing |
| `CheckPackages.PosixLibraryScanned` | src/check_packages.py:120 | on POSIX the environment's own `lib` directory is not excluded from the scan |
| `CheckPackages.NtSiblingExcluded` | src/check_packages.py:36 | on Windows any directory whose path merely begins with the environment's path, such as a sibling `venv_old`, is excluded |
| `CheckPackages.PinnedName` | src/check_packages.py:88 | a `name==version` line is attributed to `name`, dotted names included |
| `CheckPackages.PinnedLineRemoved` | src/check_packages.py:80-90 | removing one of two pinned distributions keeps the other line exactly as it was |
| `CheckPackages.OwnNamesProvided` | src/check_packages.py:114-117 | without any `top_level.txt`, the installed import names are the lower-case distribution names themselves |
| `CheckPackages.SampleFileImports` | src/check_packages.py:19-26 | a file with `import a` and `from b import ...` imports exactly `a` and `b` |
| `CheckPackages.SampleUsed` | src/check_packages.py:32-44 | scanning a project whose only file is that one finds `a` and `b` |
| `CheckPackages.SampleProjectUsed` | src/check_packages.py:114-121 | with `a`, `b` and `c` installed and no `top_level.txt`, that project uses exactly `a` and `b` |
| `CheckPackages.SampleProjectUnused` | src/check_packages.py:119-124 | in that project with `a`, `b` and `c` installed, the report is exactly `[c]` |
| `CheckPackages.UsedNameCanBeUnused` | src/check_packages.py:122 | a distribution is unused when its own import names are unused, even if its name is a used module provided by another distribution |

## Left out

- Running `pip`: the `pip list` call (line 60), the `pip uninstall -y` calls (line 133) and their errors, including an interpreter that cannot be started, are not modelled. The listing is an input, and `CheckPackages.Run` returns the ordered list of names it would uninstall.
- `generate_requirements` (lines 92-103) runs `pip freeze` and writes its output; it is only I/O. `CheckPackages.Run` returns the interpreter it would be given.
- Reading and writing files, `os.path.exists` and `os.walk` are inputs: the set of existing paths, the walk entries and the map of parsed files.
  - The model does not read or write files. It does not cover the `errors='ignore'` decoding or how `readlines` splits `requirements.txt`.
  - It does not cover a failure while writing, which would leave the file truncated.
- Python's parser: `ast.parse` and `ast.walk` are replaced by the list of nodes visited, of which only the two import forms matter. A syntax error and a read failure are distinct outcomes.
- `importlib.metadata`: the `top_level.txt` lookup is an input. The splitting of that file into lines by `splitlines` is not modelled. A metadata lookup failure looks the same as a missing file.
- Exception handlers and every `print` are left out. Only the handlers with a defined fallback are modelled: the unreadable file and the metadata failure.
- Imports.FindImportsInFile: `str.lower` is modelled for ASCII capitals only; Unicode case mapping is not modelled.
- Paths.Dirname: Windows drive letters and UNC prefixes are not modelled in `os.path.join` or `os.path.dirname`.
- `text=True` newline translation of pip's output is not modelled; the output is taken as already decoded text.
- Order.Sort: CPython's `list.sort` is Timsort, and the model sorts by insertion. Both are deterministic stable sorts, so their results agree on the lists sorted here.
