/**
 * The parse in `get_pip_installed_packages`: turning the exit status and
 * the output of `pip list --format=freeze` into the set of installed
 * distribution names. Running pip is not modelled; its result is the input.
 */
module PipList {
  import opened Text

  /** `line.split('==')[0].lower()`: the lowered name part of a `name==version` line. */
  function PackageName(line: string): string {
    Lower(Split(line, "==")[0])
  }

  /** `stdout.strip().split('\n')`. */
  function ListingLines(stdout: string): seq<string> {
    Split(Strip(stdout), "\n")
  }

  /** The parse: no names when pip failed, else the name of every listed line. */
  function ParsePipList(returncode: int, stdout: string): (r: set<string>)
    ensures returncode != 0 ==> r == {}
    ensures forall x :: x in r ==> !Contains(x, "==")
  {
    if returncode != 0 then {}
    else
      var lines := ListingLines(stdout);
      assert forall k :: 0 <= k < |lines| ==> !Contains(PackageName(lines[k]), "==") by {
        forall k | 0 <= k < |lines| {
          LowerKeepsSeparatorOut(Split(lines[k], "==")[0], "==");
        }
      }
      set line | line in lines :: PackageName(line)
  }

  /**
   * The name of a line is the lowered text before its first `==` (all of
   * the line when it has none).
   */
  lemma PackageNameShape(line: string)
    ensures var r := PackageName(line);
      && |r| <= |line|
      && r == Lower(line[..|r|])
      && (|r| == |line| || OccursAt(line, "==", |r|))
      && !Contains(line[..|r|], "==")
      && forall j: nat :: j < |r| ==> !OccursAt(line, "==", j)
  {
    var head := Split(line, "==")[0];
    assert line[..|head|] == head;
  }

  /**
   * The listing lines are the newline-free pieces of the stripped output,
   * and together they are all of it.
   */
  lemma ListingLinesShape(stdout: string)
    ensures JoinWith(ListingLines(stdout), "\n") == Strip(stdout)
    ensures forall k :: 0 <= k < |ListingLines(stdout)| ==> '\n' !in ListingLines(stdout)[k]
  {
    JoinSplit(Strip(stdout), "\n");
    var lines := ListingLines(stdout);
    forall k | 0 <= k < |lines|
      ensures '\n' !in lines[k]
    {
      ContainsChar(lines[k], '\n');
    }
  }

  /** An empty (or all-whitespace) listing parses to the set holding the empty name. */
  lemma EmptyListing(stdout: string)
    requires forall i :: 0 <= i < |stdout| ==> IsSpace(stdout[i])
    ensures ParsePipList(0, stdout) == {""}
  {
    StripAllSpace(stdout);
    assert !Contains("", "\n");
    assert ListingLines(stdout) == [""];
    assert !Contains("", "==");
    assert PackageName("") == "";
  }

  /** Trailing whitespace after the listing does not change the parse. */
  lemma TrailingWhitespaceIgnored(returncode: int, stdout: string, w: string)
    requires forall i :: 0 <= i < |w| ==> IsSpace(w[i])
    ensures ParsePipList(returncode, stdout + w) == ParsePipList(returncode, stdout)
  {
    StripIgnoresTrailingSpace(stdout, w);
  }
}
