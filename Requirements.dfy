/**
 * `remove_from_requirements`: rewriting `requirements.txt` without the
 * lines of unused distributions. The file is given as its lines (with
 * their line endings, as `readlines` returns them), or as absent.
 */
module Requirements {
  import opened Wrappers
  import opened Text

  /** `line.split('==')[0].lower().strip()`: the normalised distribution name of a line. */
  function RequirementName(line: string): string {
    Strip(Lower(Split(line, "==")[0]))
  }

  /** A line is written back unless its name is in the unused list. */
  predicate Keeps(unused: seq<string>, line: string) {
    RequirementName(line) !in unused
  }

  /** `Keeps` as a function value. */
  function Keeper(unused: seq<string>): string -> bool {
    line => Keeps(unused, line)
  }

  /** The lines `keep` accepts, in their original order. */
  function Filter(lines: seq<string>, keep: string -> bool): seq<string> {
    if lines == [] then []
    else
      var last := lines[|lines| - 1];
      Filter(lines[..|lines| - 1], keep) + (if keep(last) then [last] else [])
  }

  /** The lines `remove_from_requirements` writes back. */
  function KeptLines(lines: seq<string>, unused: seq<string>): seq<string> {
    Filter(lines, Keeper(unused))
  }

  lemma {:induction false} FilterAppend(a: seq<string>, b: seq<string>, keep: string -> bool)
    ensures Filter(a + b, keep) == Filter(a, keep) + Filter(b, keep)
    decreases |b|
  {
    if b == [] {
      assert a + b == a;
    } else {
      var init := b[..|b| - 1];
      assert (a + b)[..|a + b| - 1] == a + init;
      FilterAppend(a, init, keep);
    }
  }

  lemma {:induction false} FilterCounts(lines: seq<string>, keep: string -> bool, line: string)
    ensures multiset(Filter(lines, keep))[line] == if keep(line) then multiset(lines)[line] else 0
  {
    if lines != [] {
      var init := lines[..|lines| - 1];
      var last := lines[|lines| - 1];
      FilterCounts(init, keep, line);
      assert lines == init + [last];
    }
  }

  lemma {:induction false} FilterIdempotent(lines: seq<string>, keep: string -> bool)
    ensures Filter(Filter(lines, keep), keep) == Filter(lines, keep)
  {
    if lines != [] {
      var init := lines[..|lines| - 1];
      var last := lines[|lines| - 1];
      FilterIdempotent(init, keep);
      var tail := if keep(last) then [last] else [];
      FilterAppend(Filter(init, keep), tail, keep);
      if keep(last) {
        assert Filter(tail, keep) == Filter([], keep) + [last];
      }
    }
  }

  /**
   * The rewrite works line by line, keeping the original order: the kept
   * lines of two consecutive parts are the kept lines of each, one after the
   * other, and a single line is kept exactly when its name is not unused.
   */
  lemma KeptLinesAppend(a: seq<string>, b: seq<string>, unused: seq<string>)
    ensures KeptLines(a + b, unused) == KeptLines(a, unused) + KeptLines(b, unused)
    ensures forall line :: KeptLines([line], unused) == if Keeps(unused, line) then [line] else []
  {
    FilterAppend(a, b, Keeper(unused));
    forall line
      ensures KeptLines([line], unused) == if Keeps(unused, line) then [line] else []
    {
      assert [line][..0] == [];
      assert Keeper(unused)(line) == Keeps(unused, line);
      assert Filter([line], Keeper(unused)) == Filter([], Keeper(unused)) + (if Keeps(unused, line) then [line] else []);
    }
  }

  /**
   * Each line is kept as often as it occurs when its name is not unused,
   * and dropped everywhere otherwise: exactly the lines of unused
   * distributions go, and a line of any other distribution never does.
   */
  lemma KeptLinesCounts(lines: seq<string>, unused: seq<string>, line: string)
    ensures multiset(KeptLines(lines, unused))[line] ==
      if Keeps(unused, line) then multiset(lines)[line] else 0
  {
    FilterCounts(lines, Keeper(unused), line);
  }

  /** A kept line is a line of the input whose name is not unused, and conversely. */
  lemma KeptLinesMembership(lines: seq<string>, unused: seq<string>, line: string)
    ensures line in KeptLines(lines, unused) <==> line in lines && Keeps(unused, line)
  {
    KeptLinesCounts(lines, unused, line);
    assert line in KeptLines(lines, unused) <==> line in multiset(KeptLines(lines, unused));
    assert line in lines <==> line in multiset(lines);
  }

  /** Rewriting a second time with the same list drops nothing more. */
  lemma KeptLinesIdempotent(lines: seq<string>, unused: seq<string>)
    ensures KeptLines(KeptLines(lines, unused), unused) == KeptLines(lines, unused)
  {
    FilterIdempotent(lines, Keeper(unused));
  }

  /**
   * `remove_from_requirements`: with no manifest, nothing is written;
   * otherwise the manifest is rewritten with the lines that are kept.
   */
  method RemoveFromRequirements(unused: seq<string>, manifest: Option<seq<string>>) returns (written: Option<seq<string>>)
    ensures manifest.None? ==> written.None?
    ensures manifest.Some? ==> written == Some(KeptLines(manifest.value, unused))
  {
    if manifest.None? {
      return None;
    }
    var lines := manifest.value;
    var output: seq<string> := [];
    var i := 0;
    while i < |lines|
      invariant 0 <= i <= |lines|
      invariant output == KeptLines(lines[..i], unused)
    {
      assert lines[..i + 1][..i] == lines[..i];
      var line := lines[i];
      var packageName := RequirementName(line);
      if packageName !in unused {
        output := output + [line];
      }
      i := i + 1;
    }
    assert lines[..i] == lines;
    return Some(output);
  }
}
