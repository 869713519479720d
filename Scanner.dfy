/**
 * `find_used_packages`: the installed import names that the project's
 * Python files import. The directory walk is given as the sequence of
 * entries `os.walk` would produce, and file contents as a `FileSystem`.
 */
module Scanner {
  import opened Text
  import opened Paths
  import opened Imports

  /** One step of `os.walk`: a directory path and the names of the files directly in it. */
  datatype WalkEntry = WalkEntry(root: string, files: seq<string>)

  /**
   * `venv_path and root.startswith(venv_path)`: a non-empty prefix excludes
   * every directory whose path starts with it as a string, whether or not
   * the match ends at a separator.
   */
  predicate Excluded(root: string, venvPath: string) {
    venvPath != [] && StartsWith(root, venvPath)
  }

  /** `file.endswith('.py')`. */
  predicate IsSource(file: string) {
    EndsWith(file, ".py")
  }

  /** The names file `file` of directory `root` imports, if it is read at all. */
  function ScannedImports(pl: Platform, fs: FileSystem, root: string, file: string): set<string> {
    if IsSource(file) then FileImports(Read(fs, Join(pl, root, file))) else {}
  }

  /** File `file` of directory `root` is scanned and imports `x`. */
  predicate UsedIn(pl: Platform, fs: FileSystem, venvPath: string, root: string, file: string, x: string) {
    !Excluded(root, venvPath) && x in ScannedImports(pl, fs, root, file)
  }

  /** What scanning the files of one directory adds: their imports that are installed. */
  function FilesUsed(pl: Platform, fs: FileSystem, installed: set<string>, root: string, files: seq<string>): set<string> {
    if files == [] then {}
    else
      FilesUsed(pl, fs, installed, root, files[..|files| - 1])
        + ScannedImports(pl, fs, root, files[|files| - 1]) * installed
  }

  /** What one walk entry adds: nothing when its directory is excluded. */
  function EntryUsed(pl: Platform, fs: FileSystem, installed: set<string>, venvPath: string, e: WalkEntry): set<string> {
    if Excluded(e.root, venvPath) then {} else FilesUsed(pl, fs, installed, e.root, e.files)
  }

  /** The set `find_used_packages` returns for this walk. */
  function UsedNames(pl: Platform, fs: FileSystem, installed: set<string>, venvPath: string, walk: seq<WalkEntry>): set<string> {
    if walk == [] then {}
    else UsedNames(pl, fs, installed, venvPath, walk[..|walk| - 1]) + EntryUsed(pl, fs, installed, venvPath, walk[|walk| - 1])
  }

  lemma {:induction false} FilesUsedMembership(pl: Platform, fs: FileSystem, installed: set<string>, venvPath: string, root: string, files: seq<string>, x: string)
    requires !Excluded(root, venvPath)
    ensures x in FilesUsed(pl, fs, installed, root, files) <==>
      x in installed && exists j :: 0 <= j < |files| && UsedIn(pl, fs, venvPath, root, files[j], x)
  {
    if files != [] {
      var init := files[..|files| - 1];
      FilesUsedMembership(pl, fs, installed, venvPath, root, init, x);
      if exists j :: 0 <= j < |init| && UsedIn(pl, fs, venvPath, root, init[j], x) {
        var j :| 0 <= j < |init| && UsedIn(pl, fs, venvPath, root, init[j], x);
        assert files[j] == init[j];
      }
      if exists j :: 0 <= j < |files| && UsedIn(pl, fs, venvPath, root, files[j], x) {
        var j :| 0 <= j < |files| && UsedIn(pl, fs, venvPath, root, files[j], x);
        if j < |init| {
          assert init[j] == files[j];
        }
      }
    }
  }

  /** Some file of entry `e` is scanned and imports `x`. */
  predicate EntryUses(pl: Platform, fs: FileSystem, venvPath: string, e: WalkEntry, x: string) {
    exists j :: 0 <= j < |e.files| && UsedIn(pl, fs, venvPath, e.root, e.files[j], x)
  }

  /** A name comes from an entry exactly when it is installed and one of the entry's scanned files imports it. */
  lemma EntryUsedMembership(pl: Platform, fs: FileSystem, installed: set<string>, venvPath: string, e: WalkEntry, x: string)
    ensures x in EntryUsed(pl, fs, installed, venvPath, e) <==> x in installed && EntryUses(pl, fs, venvPath, e, x)
  {
    if !Excluded(e.root, venvPath) {
      FilesUsedMembership(pl, fs, installed, venvPath, e.root, e.files, x);
    }
  }

  /**
   * A name is used exactly when it is installed and some `.py` file of some
   * walked directory that the prefix does not exclude imports it. So the
   * result is a subset of the installed names, files under an excluded
   * directory contribute nothing, and files of any other extension are not read.
   */
  lemma {:induction false} UsedNamesMembership(pl: Platform, fs: FileSystem, installed: set<string>, venvPath: string, walk: seq<WalkEntry>, x: string)
    ensures x in UsedNames(pl, fs, installed, venvPath, walk) <==>
      x in installed && exists i :: 0 <= i < |walk| && EntryUses(pl, fs, venvPath, walk[i], x)
  {
    if walk != [] {
      var init := walk[..|walk| - 1];
      UsedNamesMembership(pl, fs, installed, venvPath, init, x);
      EntryUsedMembership(pl, fs, installed, venvPath, walk[|walk| - 1], x);
      if exists i :: 0 <= i < |init| && EntryUses(pl, fs, venvPath, init[i], x) {
        var i :| 0 <= i < |init| && EntryUses(pl, fs, venvPath, init[i], x);
        assert walk[i] == init[i];
      }
      if exists i :: 0 <= i < |walk| && EntryUses(pl, fs, venvPath, walk[i], x) {
        var i :| 0 <= i < |walk| && EntryUses(pl, fs, venvPath, walk[i], x);
        if i < |init| {
          assert init[i] == walk[i];
        }
      }
    }
  }

  /** Scanning one more file of a directory adds that file's installed imports. */
  lemma FilesUsedStep(pl: Platform, fs: FileSystem, installed: set<string>, root: string, files: seq<string>, j: nat)
    requires j < |files|
    ensures FilesUsed(pl, fs, installed, root, files[..j + 1])
      == FilesUsed(pl, fs, installed, root, files[..j]) + ScannedImports(pl, fs, root, files[j]) * installed
  {
    assert files[..j + 1][..j] == files[..j];
  }

  /** Walking one more entry adds what that entry contributes. */
  lemma UsedNamesStep(pl: Platform, fs: FileSystem, installed: set<string>, venvPath: string, walk: seq<WalkEntry>, i: nat)
    requires i < |walk|
    ensures UsedNames(pl, fs, installed, venvPath, walk[..i + 1])
      == UsedNames(pl, fs, installed, venvPath, walk[..i]) + EntryUsed(pl, fs, installed, venvPath, walk[i])
  {
    assert walk[..i + 1][..i] == walk[..i];
  }

  /** The inner loop of `find_used_packages`: the `.py` files of one directory. */
  method ScanFiles(pl: Platform, fs: FileSystem, installed: set<string>, root: string, files: seq<string>)
    returns (found: set<string>)
    ensures found == FilesUsed(pl, fs, installed, root, files)
  {
    found := {};
    var j := 0;
    while j < |files|
      invariant 0 <= j <= |files|
      invariant found == FilesUsed(pl, fs, installed, root, files[..j])
    {
      FilesUsedStep(pl, fs, installed, root, files, j);
      var file := files[j];
      if IsSource(file) {
        var imports := FindImportsInFile(fs, Join(pl, root, file));
        found := found + imports * installed;
      }
      j := j + 1;
    }
    assert files[..j] == files;
  }

  /**
   * `find_used_packages`: for every walked directory outside the excluded
   * prefix, read every `.py` file and add the installed names it imports.
   */
  method FindUsedPackages(pl: Platform, fs: FileSystem, walk: seq<WalkEntry>, installed: set<string>, venvPath: string)
    returns (used: set<string>)
    ensures used == UsedNames(pl, fs, installed, venvPath, walk)
    ensures used <= installed
  {
    used := {};
    var i := 0;
    while i < |walk|
      invariant 0 <= i <= |walk|
      invariant used == UsedNames(pl, fs, installed, venvPath, walk[..i])
    {
      UsedNamesStep(pl, fs, installed, venvPath, walk, i);
      var root, files := walk[i].root, walk[i].files;
      if !Excluded(root, venvPath) {
        var found := ScanFiles(pl, fs, installed, root, files);
        used := used + found;
      }
      i := i + 1;
    }
    assert walk[..i] == walk;
    UsedNamesWithin(pl, fs, installed, venvPath, walk);
  }

  /** Only installed names are ever found. */
  lemma UsedNamesWithin(pl: Platform, fs: FileSystem, installed: set<string>, venvPath: string, walk: seq<WalkEntry>)
    ensures UsedNames(pl, fs, installed, venvPath, walk) <= installed
  {
    forall x | x in UsedNames(pl, fs, installed, venvPath, walk)
      ensures x in installed
    {
      UsedNamesMembership(pl, fs, installed, venvPath, walk, x);
    }
  }
}
