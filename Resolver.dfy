/**
 * `get_import_names`: the module names an installed distribution makes
 * importable, and the set of all such names over the installed
 * distributions (the loop in `main` that fills `installed_import_names`).
 * Package metadata is reduced to a map from a distribution name to the
 * lines of its `top_level.txt`; a name without an entry stands for a
 * distribution without that file or one whose metadata lookup failed.
 */
module Resolver {
  import opened Wrappers
  import opened Text

  /** Distribution name to the lines of its `top_level.txt`. */
  type Metadata = map<string, seq<string>>

  /** The lines of `top_level.txt` for `pkg`, when there is such a file. */
  function TopLevel(meta: Metadata, pkg: string): Option<seq<string>> {
    if pkg in meta then Some(meta[pkg]) else None
  }

  /** `[name.lower() for name in lines]`: each line lowered, one entry per line, in order. */
  function LowerAll(lines: seq<string>): (r: seq<string>)
    ensures |r| == |lines|
    ensures forall i :: 0 <= i < |lines| ==> r[i] == Lower(lines[i])
  {
    if lines == [] then [] else [Lower(lines[0])] + LowerAll(lines[1..])
  }

  /**
   * `get_import_names`: with a `top_level.txt`, one lowered entry per line
   * in order (none at all for an empty file); without one, exactly the
   * lowered distribution name.
   */
  function GetImportNames(pkg: string, topLevel: Option<seq<string>>): (r: seq<string>)
    ensures topLevel.None? ==> r == [Lower(pkg)]
    ensures topLevel.Some? ==> |r| == |topLevel.value|
    ensures topLevel.Some? ==> forall i :: 0 <= i < |r| ==> r[i] == Lower(topLevel.value[i])
  {
    match topLevel
    case None => [Lower(pkg)]
    case Some(lines) => LowerAll(lines)
  }

  /** Distribution `pkg` provides import name `n`. */
  predicate Provides(meta: Metadata, pkg: string, n: string) {
    n in GetImportNames(pkg, TopLevel(meta, pkg))
  }

  /** `installed_import_names`: every name some installed distribution provides. */
  function InstalledImportNames(installed: set<string>, meta: Metadata): set<string> {
    set pkg, n | pkg in installed && n in GetImportNames(pkg, TopLevel(meta, pkg)) :: n
  }

  /**
   * Every provided name is lowered, so it holds no capital; and a
   * distribution whose `top_level.txt` is empty provides no name at all,
   * so it can never be found used.
   */
  lemma ProvidedNamesAreLower(meta: Metadata, pkg: string, n: string)
    requires Provides(meta, pkg, n)
    ensures forall i :: 0 <= i < |n| ==> !IsUpper(n[i])
    ensures pkg in meta ==> meta[pkg] != []
  {
    var names := GetImportNames(pkg, TopLevel(meta, pkg));
    var i :| 0 <= i < |names| && names[i] == n;
    if pkg in meta {
      LowerIsLower(meta[pkg][i]);
    } else {
      LowerIsLower(pkg);
    }
  }

  /**
   * The loop of `main` over the installed distributions: add the import
   * names of each one, in whatever order the set yields them.
   */
  method CollectImportNames(installed: set<string>, meta: Metadata) returns (names: set<string>)
    ensures names == InstalledImportNames(installed, meta)
    ensures forall n :: n in names <==> exists pkg :: pkg in installed && Provides(meta, pkg, n)
  {
    names := {};
    var rest := installed;
    while rest != {}
      invariant rest <= installed
      invariant names == InstalledImportNames(installed - rest, meta)
      decreases rest
    {
      var pkg :| pkg in rest;
      var provided := GetImportNames(pkg, TopLevel(meta, pkg));
      assert InstalledImportNames(installed - (rest - {pkg}), meta)
          == InstalledImportNames(installed - rest, meta) + (set n | n in provided);
      names := names + (set n | n in provided);
      rest := rest - {pkg};
    }
    assert installed - rest == installed;
  }
}
