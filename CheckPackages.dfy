/**
 * `main`: one invocation of the checker. Everything it reads from outside
 * (which paths exist, what `pip list` printed, package metadata, the
 * directory walk, the project's files, `requirements.txt`) is an
 * `Environment`, and everything it does is returned as an `Outcome`.
 */
module CheckPackages {
  import opened Wrappers
  import opened Text
  import opened Paths
  import opened Imports
  import opened Scanner
  import opened Resolver
  import opened PipList
  import opened Virtualenv
  import opened Reconcile
  import opened Requirements

  /** The world as one invocation sees it. */
  datatype Environment = Environment(
    platform: Platform,
    existing: set<string>,          // the paths `os.path.exists` accepts
    pipReturnCode: int,             // exit status of `pip list --format=freeze`
    pipStdout: string,              // and its standard output
    meta: Metadata,                 // `top_level.txt` of each distribution that has one
    walk: seq<WalkEntry>,           // `os.walk(project_root)`
    fs: FileSystem,                 // the project's files, parsed
    manifest: Option<seq<string>>)  // the lines of `requirements.txt`, when it exists

  /** What one invocation does. */
  datatype Outcome =
    | NoVirtualenv                  // reports that no virtual environment was found
    | Identified(unused: seq<string>)
      // prints one "Unused package" line per name, in this order
    | Removed(unused: seq<string>, written: Option<seq<string>>)
      // rewrites `requirements.txt` with `written` (None: no such file),
      // then runs `pip uninstall -y` once per name of `unused`, in this order
    | Generated(venvPython: string)  // runs `generate_requirements` with this interpreter
    | NoAction                       // any other action: nothing after the lookups

  /** `get_pip_installed_packages(venv_python)`. */
  function Installed(env: Environment): set<string> {
    ParsePipList(env.pipReturnCode, env.pipStdout)
  }

  /** `used_packages` once the interpreter `venvPython` is known. */
  function Used(env: Environment, venvPython: string): set<string> {
    UsedNames(env.platform, env.fs, InstalledImportNames(Installed(env), env.meta),
      ExclusionPrefix(env.platform, venvPython), env.walk)
  }

  /**
   * `main(action, project_root)`. Without an interpreter nothing else
   * happens. With one, "identify" and "remove" report the sorted list of
   * installed distributions none of whose import names the project uses;
   * "remove" also drops their lines from `requirements.txt` and uninstalls
   * them in that order; "generate" hands the interpreter on; any other
   * action does nothing more.
   */
  method Run(action: string, root: string, env: Environment) returns (outcome: Outcome)
    ensures FirstExisting(env.platform, root, env.existing).None? <==> outcome == NoVirtualenv
    ensures FirstExisting(env.platform, root, env.existing).Some? ==>
      var venvPython := FirstExisting(env.platform, root, env.existing).value;
      && (action == "identify" ==>
            outcome.Identified? && IsUnusedList(outcome.unused, Installed(env), env.meta, Used(env, venvPython)))
      && (action == "remove" ==>
            && outcome.Removed?
            && IsUnusedList(outcome.unused, Installed(env), env.meta, Used(env, venvPython))
            && outcome.written.None? == env.manifest.None?
            && (env.manifest.Some? ==> outcome.written.value == KeptLines(env.manifest.value, outcome.unused)))
      && (action == "generate" ==> outcome == Generated(venvPython))
      && (action != "identify" && action != "remove" && action != "generate" ==> outcome == NoAction)
  {
    var venvPython := FindVirtualenv(env.platform, root, env.existing);
    if venvPython.None? {
      return NoVirtualenv;
    }
    var installed := ParsePipList(env.pipReturnCode, env.pipStdout);
    var importNames := CollectImportNames(installed, env.meta);
    if action == "identify" || action == "remove" {
      var venvPath := ExclusionPrefix(env.platform, venvPython.value);
      var used := FindUsedPackages(env.platform, env.fs, env.walk, importNames, venvPath);
      var unused := UnusedPackages(installed, env.meta, used);
      if action == "identify" {
        outcome := Identified(unused);
      } else {
        var written := RemoveFromRequirements(unused, env.manifest);
        outcome := Removed(unused, written);
      }
    } else if action == "generate" {
      outcome := Generated(venvPython.value);
    } else {
      outcome := NoAction;
    }
  }

  /**
   * On POSIX the exclusion prefix is `<venv>/Scripts`, so the environment's
   * own `lib` directory, where its installed packages live, is scanned.
   */
  lemma PosixLibraryScanned(root: string, k: nat, rest: string)
    requires k < |Candidates|
    ensures !Excluded(VenvDir(Posix, root, k) + "/lib" + rest, ExclusionPrefix(Posix, Probe(Posix, root, k)))
  {
    var v := VenvDir(Posix, root, k);
    var prefix := v + "/Scripts";
    ProbeLayout(Posix, root, k);
    assert ExclusionPrefix(Posix, Probe(Posix, root, k)) == prefix;
    var d := v + "/lib" + rest;
    assert d[|v| + 1] == 'l' && prefix[|v| + 1] == 'S';
  }

  /**
   * The exclusion is a plain string-prefix test: on Windows a sibling
   * directory whose name merely begins with the environment's name (say
   * `venv_old` beside `venv`) is skipped as well.
   */
  lemma NtSiblingExcluded(root: string, k: nat, suffix: string)
    requires k < |Candidates|
    ensures Excluded(VenvDir(Nt, root, k) + suffix, ExclusionPrefix(Nt, Probe(Nt, root, k)))
  {
    ProbeLayout(Nt, root, k);
    VenvDirEnd(Nt, root, k);
  }

  /**
   * A name as pinned in `requirements.txt`: non-empty, lower-case, without
   * `=` or surrounding whitespace (dots allowed, as in `zope.interface`).
   */
  predicate PinnableName(name: string) {
    && name != []
    && '=' !in name
    && !IsSpace(name[0]) && !IsSpace(name[|name| - 1])
    && Lowered(name)
  }

  /** A plain module and distribution name: pinnable and without `.`. */
  predicate PlainName(name: string) {
    PinnableName(name) && '.' !in name
  }

  /** `name` holds no capital letter. */
  predicate Lowered(name: string) {
    forall i :: 0 <= i < |name| ==> !IsUpper(name[i])
  }

  /** A line pinning a plain `name` with `==` is attributed to `name`. */
  lemma PinnedName(name: string, version: string)
    requires PinnableName(name)
    ensures RequirementName(name + "==" + version) == name
  {
    var line := name + "==" + version;
    assert OccursAt(line, "==", |name|) by {
      assert line[|name|..|name| + 2] == "==";
    }
    forall j: nat | j < |name|
      ensures !OccursAt(line, "==", j)
    {
      assert line[j] == name[j];
      if j + 2 <= |line| {
        assert line[j..j + 2][0] == line[j];
      }
    }
    SplitFirstAt(line, "==", |name|);
    assert line[..|name|] == name;
    LowerOfLower(name);
    StripUnpadded(name);
  }

  /**
   * Removing one pinned distribution from a two-line `requirements.txt`
   * keeps the other line exactly as it was, newline and version included.
   */
  lemma PinnedLineRemoved(gone: string, v: string, kept: string, w: string)
    requires PinnableName(gone) && PinnableName(kept) && gone != kept
    ensures KeptLines([gone + "==" + v, kept + "==" + w], [gone]) == [kept + "==" + w]
  {
    var a, b := gone + "==" + v, kept + "==" + w;
    PinnedName(gone, v);
    PinnedName(kept, w);
    assert !Keeps([gone], a);
    assert Keeps([gone], b);
    KeptLinesAppend([a], [b], [gone]);
    assert [a] + [b] == [a, b];
  }

  /** The one-file project: `import <a>`, `from <b> import ...`, and any other node. */
  function SampleNodes(a: string, b: string): seq<Node> {
    [Import([a]), ImportFrom(Some(b)), Other]
  }

  /** Without any `top_level.txt`, each distribution of plain name provides its own name. */
  lemma OwnNamesProvided(installed: set<string>)
    requires forall p :: p in installed ==> Lowered(p)
    ensures InstalledImportNames(installed, map[]) == installed
  {
    OwnNamesCovered(installed);
    OwnNamesOnly(installed);
  }

  /** Every installed distribution of lower-case name provides its name. */
  lemma OwnNamesCovered(installed: set<string>)
    requires forall p :: p in installed ==> Lowered(p)
    ensures installed <= InstalledImportNames(installed, map[])
  {
    forall p | p in installed
      ensures p in InstalledImportNames(installed, map[])
    {
      OwnNameProvided(p);
      assert p in GetImportNames(p, TopLevel(map[], p));
    }
  }

  /** And no other name is provided. */
  lemma OwnNamesOnly(installed: set<string>)
    requires forall p :: p in installed ==> Lowered(p)
    ensures InstalledImportNames(installed, map[]) <= installed
  {
    forall n | n in InstalledImportNames(installed, map[])
      ensures n in installed
    {
      var p :| p in installed && n in GetImportNames(p, TopLevel(map[], p));
      OwnNameProvided(p);
    }
  }

  /** Without a `top_level.txt`, a distribution of lower-case name provides exactly its own name. */
  lemma OwnNameProvided(p: string)
    requires Lowered(p)
    ensures GetImportNames(p, TopLevel(map[], p)) == [p]
  {
    LowerOfLower(p);
  }

  /** The file imports exactly `a` and `b`. */
  lemma SampleFileImports(a: string, b: string)
    requires PlainName(a) && PlainName(b)
    ensures FileImports(Parsed(SampleNodes(a, b))) == {a, b}
  {
    var nodes := SampleNodes(a, b);
    PlainRootName(a);
    PlainRootName(b);
    assert [a][..0] == [];
    assert NamesRoots([a]) == {a};
    assert nodes[..0] == [];
    assert nodes[..1][..0] == [];
    assert NodesImports(nodes[..1]) == {a};
    assert nodes[..2][..1] == nodes[..1];
    assert NodesImports(nodes[..2]) == {a, b};
    assert nodes[..3] == nodes;
    assert nodes[..3][..2] == nodes[..2];
  }

  /** Scanning a project whose only file is `<root>/app.py` finds its installed imports. */
  lemma SampleUsed(root: string, venvPath: string, a: string, b: string, installed: set<string>)
    requires root != [] && root[|root| - 1] != '/'
    requires !Excluded(root, venvPath)
    requires PlainName(a) && PlainName(b) && a in installed && b in installed
    ensures UsedNames(Posix, map[root + "/app.py" := Parsed(SampleNodes(a, b))], installed,
      venvPath, [WalkEntry(root, ["app.py"])]) == {a, b}
  {
    var fs := map[root + "/app.py" := Parsed(SampleNodes(a, b))];
    assert Join(Posix, root, "app.py") == root + "/app.py";
    assert IsSource("app.py");
    SampleFileImports(a, b);
    assert ScannedImports(Posix, fs, root, "app.py") == {a, b};
    assert ["app.py"][..0] == [];
    assert FilesUsed(Posix, fs, installed, root, ["app.py"]) == {a, b};
    assert EntryUsed(Posix, fs, installed, venvPath, WalkEntry(root, ["app.py"])) == {a, b};
    var walk := [WalkEntry(root, ["app.py"])];
    assert walk[..0] == [];
  }

  /**
   * A project whose only file `app.py` does `import a` and `from b import
   * ...`, with `a`, `b` and `c` installed and no `top_level.txt` anywhere
   * (say `requests`, `flask` and `pytest`): exactly `c` is reported.
   */
  lemma SampleProjectUnused(root: string, venvPath: string, a: string, b: string, c: string, xs: seq<string>)
    requires root != [] && root[|root| - 1] != '/'
    requires !Excluded(root, venvPath)
    requires PlainName(a) && PlainName(b) && PlainName(c) && c != a && c != b
    requires IsUnusedList(xs, {a, b, c}, map[],
      UsedNames(Posix, map[root + "/app.py" := Parsed(SampleNodes(a, b))],
        InstalledImportNames({a, b, c}, map[]), venvPath, [WalkEntry(root, ["app.py"])]))
    ensures xs == [c]
  {
    SampleProjectUsed(root, venvPath, a, b, c);
    OnlyUnimportedUnused(a, b, c);
    UnusedListUnique(xs, [c], {a, b, c}, map[], {a, b});
  }

  /** In the sample project, with `a`, `b` and `c` installed, exactly `a` and `b` are used. */
  lemma SampleProjectUsed(root: string, venvPath: string, a: string, b: string, c: string)
    requires root != [] && root[|root| - 1] != '/'
    requires !Excluded(root, venvPath)
    requires PlainName(a) && PlainName(b) && PlainName(c)
    ensures UsedNames(Posix, map[root + "/app.py" := Parsed(SampleNodes(a, b))],
      InstalledImportNames({a, b, c}, map[]), venvPath, [WalkEntry(root, ["app.py"])]) == {a, b}
  {
    assert Lowered(a) && Lowered(b) && Lowered(c);
    OwnNamesProvided({a, b, c});
    SampleUsed(root, venvPath, a, b, {a, b, c});
  }

  /** With `a` and `b` used and no `top_level.txt`, the unused list of `{a, b, c}` is `[c]`. */
  lemma OnlyUnimportedUnused(a: string, b: string, c: string)
    requires PlainName(a) && PlainName(b) && PlainName(c) && c != a && c != b
    ensures IsUnusedList([c], {a, b, c}, map[], {a, b})
  {
    var meta: Metadata := map[];
    LowerOfLower(a);
    LowerOfLower(b);
    LowerOfLower(c);
    assert GetImportNames(a, TopLevel(meta, a)) == [a];
    assert GetImportNames(b, TopLevel(meta, b)) == [b];
    assert GetImportNames(c, TopLevel(meta, c)) == [c];
    assert !IsUnused(meta, {a, b}, a);
    assert !IsUnused(meta, {a, b}, b);
  }

  /**
   * A distribution counts as unused when none of its own import names is
   * used, even if its name is itself a module name the project imports from
   * some other distribution: `pkg` ships only `lib`, while `other` provides
   * the module `pkg` that the project uses. `pkg` is reported, and
   * `PinnedLineRemoved` shows its pinned line then leaves `requirements.txt`.
   */
  lemma UsedNameCanBeUnused(pkg: string, lib: string, other: string)
    requires PlainName(pkg) && PlainName(lib) && lib != pkg && other != pkg
    ensures IsUnused(map[pkg := [lib], other := [pkg]], {pkg}, pkg)
    ensures !IsUnused(map[pkg := [lib], other := [pkg]], {pkg}, other)
  {
    var meta: Metadata := map[pkg := [lib], other := [pkg]];
    LowerOfLower(lib);
    LowerOfLower(pkg);
    assert GetImportNames(pkg, TopLevel(meta, pkg)) == [lib];
    assert GetImportNames(other, TopLevel(meta, other)) == [pkg];
  }
}
