/**
 * Locating the project's virtual environment (`find_virtualenv`) and the
 * exclusion prefix `main` derives from the interpreter path it returns.
 * The file system is reduced to the set of paths that exist.
 */
module Virtualenv {
  import opened Wrappers
  import opened Text
  import opened Paths

  /** The directory names probed under the project root, in this order. */
  const Candidates: seq<string> := ["venv", "env", ".venv", ".env"]

  /** What is joined after `Scripts`: `python.exe` on Windows, `bin/python` elsewhere. */
  function ExecutableName(pl: Platform): string {
    if pl == Nt then "python.exe" else "bin/python"
  }

  /** `os.path.join(project_root, d)` for candidate `k`. */
  function VenvDir(pl: Platform, root: string, k: nat): string
    requires k < |Candidates|
  {
    Join(pl, root, Candidates[k])
  }

  /** The interpreter path probed for candidate `k`: `join(venv_path, 'Scripts', exe)`. */
  function Probe(pl: Platform, root: string, k: nat): string
    requires k < |Candidates|
  {
    Join(pl, Join(pl, VenvDir(pl, root, k), "Scripts"), ExecutableName(pl))
  }

  /** The interpreter paths probed, one per candidate, in order. */
  function Probes(pl: Platform, root: string): (r: seq<string>)
    ensures |r| == |Candidates|
    ensures forall k :: 0 <= k < |Candidates| ==> r[k] == Probe(pl, root, k)
  {
    seq(|Candidates|, k requires 0 <= k < |Candidates| => Probe(pl, root, k))
  }

  /** The first of `probes`, from index `k` on, that exists. */
  function FirstExistingFrom(probes: seq<string>, existing: set<string>, k: nat): Option<string>
    decreases |probes| - k
  {
    if k >= |probes| then None
    else if probes[k] in existing then Some(probes[k])
    else FirstExistingFrom(probes, existing, k + 1)
  }

  /** The interpreter `find_virtualenv` reports, as a function of what exists. */
  function FirstExisting(pl: Platform, root: string, existing: set<string>): Option<string> {
    FirstExistingFrom(Probes(pl, root), existing, 0)
  }

  /**
   * The reported path is the earliest probe that exists; there is none
   * exactly when no probe exists.
   */
  lemma {:induction false} FirstExistingFromIsFirst(probes: seq<string>, existing: set<string>, k: nat)
    returns (found: nat)
    requires k <= |probes|
    ensures FirstExistingFrom(probes, existing, k).None? <==>
      forall j :: k <= j < |probes| ==> probes[j] !in existing
    ensures FirstExistingFrom(probes, existing, k).Some? ==>
      && k <= found < |probes|
      && FirstExistingFrom(probes, existing, k) == Some(probes[found])
      && probes[found] in existing
      && forall j :: k <= j < found ==> probes[j] !in existing
    decreases |probes| - k
  {
    found := k;
    if k < |probes| && probes[k] !in existing {
      found := FirstExistingFromIsFirst(probes, existing, k + 1);
    }
  }

  /**
   * `find_virtualenv`: probe the candidates in order and return the first
   * interpreter path that exists, or nothing.
   */
  method FindVirtualenv(pl: Platform, root: string, existing: set<string>) returns (r: Option<string>)
    ensures r == FirstExisting(pl, root, existing)
    ensures r.None? <==> forall k :: 0 <= k < |Candidates| ==> Probe(pl, root, k) !in existing
    ensures r.Some? ==> r.value in existing
  {
    ghost var probes := Probes(pl, root);
    ghost var found := FirstExistingFromIsFirst(probes, existing, 0);
    var k := 0;
    while k < |Candidates|
      invariant 0 <= k <= |Candidates|
      invariant forall j :: 0 <= j < k ==> probes[j] !in existing
    {
      var executable := Probe(pl, root, k);
      assert executable == probes[k];
      if executable in existing {
        assert found == k;
        return Some(executable);
      }
      k := k + 1;
    }
    return None;
  }

  /** `os.path.dirname(os.path.dirname(venv_python))`, the prefix `main` excludes from the scan. */
  function ExclusionPrefix(pl: Platform, executable: string): string {
    Dirname(pl, Dirname(pl, executable))
  }

  /** Every candidate directory path is non-empty and ends in `v`, not in a separator. */
  lemma VenvDirEnd(pl: Platform, root: string, k: nat)
    requires k < |Candidates|
    ensures VenvDir(pl, root, k) != [] && VenvDir(pl, root, k)[|VenvDir(pl, root, k)| - 1] == 'v'
  {
    var d := Candidates[k];
    assert d[|d| - 1] == 'v' by {
      assert k == 0 || k == 1 || k == 2 || k == 3;
    }
    JoinShape(pl, root, d);
  }

  /** The probe is the candidate directory, a separator, `Scripts`, a separator and the executable name. */
  lemma ProbeShape(pl: Platform, root: string, k: nat)
    requires k < |Candidates|
    ensures pl == Posix ==> Probe(pl, root, k) == VenvDir(pl, root, k) + "/Scripts/bin/python"
    ensures pl == Nt ==> Probe(pl, root, k) == VenvDir(pl, root, k) + "\\Scripts\\python.exe"
  {
    var v := VenvDir(pl, root, k);
    VenvDirEnd(pl, root, k);
    if pl == Posix {
      JoinTwice(pl, v, "Scripts", "bin/python");
      assert [Sep(pl)] + "Scripts" + [Sep(pl)] + "bin/python" == "/Scripts/bin/python";
    } else {
      JoinTwice(pl, v, "Scripts", "python.exe");
      assert [Sep(pl)] + "Scripts" + [Sep(pl)] + "python.exe" == "\\Scripts\\python.exe";
    }
  }

  /** Two `dirname` steps from `<v>/Scripts/bin/python` reach `<v>/Scripts`. */
  lemma PosixPrefixOf(v: string)
    requires v != [] && v[|v| - 1] == 'v'
    ensures ExclusionPrefix(Posix, v + "/Scripts/bin/python") == v + "/Scripts"
  {
    var scripts := v + "/Scripts";
    assert v + "/Scripts/bin/python" == (scripts + "/bin") + [Sep(Posix)] + "python";
    DirnameOfChild(Posix, scripts + "/bin", "python");
    assert scripts + "/bin" == scripts + [Sep(Posix)] + "bin";
    DirnameOfChild(Posix, scripts, "bin");
  }

  /** Two `dirname` steps from `<v>\Scripts\python.exe` reach `<v>`. */
  lemma NtPrefixOf(v: string)
    requires v != [] && v[|v| - 1] == 'v'
    ensures ExclusionPrefix(Nt, v + "\\Scripts\\python.exe") == v
  {
    var scripts := v + "\\Scripts";
    assert v + "\\Scripts\\python.exe" == scripts + [Sep(Nt)] + "python.exe";
    DirnameOfChild(Nt, scripts, "python.exe");
    assert scripts == v + [Sep(Nt)] + "Scripts";
    DirnameOfChild(Nt, v, "Scripts");
  }

  /**
   * What is probed and excluded, written out. On POSIX the probe is
   * `<venv>/Scripts/bin/python` (the `Scripts` component is joined on every
   * platform) and the exclusion prefix is `<venv>/Scripts`; on Windows the
   * probe is `<venv>\Scripts\python.exe` and the prefix is `<venv>` itself.
   */
  lemma ProbeLayout(pl: Platform, root: string, k: nat)
    requires k < |Candidates|
    ensures pl == Posix ==> Probe(pl, root, k) == VenvDir(pl, root, k) + "/Scripts/bin/python"
    ensures pl == Posix ==> ExclusionPrefix(pl, Probe(pl, root, k)) == VenvDir(pl, root, k) + "/Scripts"
    ensures pl == Nt ==> Probe(pl, root, k) == VenvDir(pl, root, k) + "\\Scripts\\python.exe"
    ensures pl == Nt ==> ExclusionPrefix(pl, Probe(pl, root, k)) == VenvDir(pl, root, k)
  {
    VenvDirEnd(pl, root, k);
    ProbeShape(pl, root, k);
    if pl == Posix {
      PosixPrefixOf(VenvDir(pl, root, k));
    } else {
      NtPrefixOf(VenvDir(pl, root, k));
    }
  }
}
