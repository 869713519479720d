/**
 * `find_imports_in_file`: the top-level module names one Python file
 * imports. The parser is not part of the model: a file is given by the
 * outcome of reading and parsing it, and a parsed file by the nodes that
 * `ast.walk` visits, of which only the two import forms matter.
 */
module Imports {
  import opened Wrappers
  import opened Text

  /** A syntax-tree node as `ast.walk` yields it. */
  datatype Node =
    | Import(names: seq<string>)         // `import a.b, c as d`: the dotted names
    | ImportFrom(moduleName: Option<string>) // `from a.b import x`; no module for `from . import x`
    | Other                              // any other node

  /** Reading and parsing one file: its nodes, a syntax error, or a read failure. */
  datatype ParseOutcome = Parsed(nodes: seq<Node>) | SyntaxError | Unreadable

  /** The project's files by path, already parsed. */
  type FileSystem = map<string, ParseOutcome>

  /** Opening `path`: a path the file system does not hold cannot be read. */
  function Read(fs: FileSystem, path: string): ParseOutcome {
    if path in fs then fs[path] else Unreadable
  }

  /** `name.split('.')[0].lower()`: the lowered root of a dotted module name. */
  function RootName(name: string): string {
    Lower(Split(name, ".")[0])
  }

  /**
   * A root name is the lowered text of `name` before its first `.` (all of
   * it when there is none): it holds no `.` and no capital.
   */
  lemma RootNameShape(name: string)
    ensures var r := RootName(name);
      && |r| <= |name|
      && r == Lower(name[..|r|])
      && (|r| == |name| || name[|r|] == '.')
      && '.' !in name[..|r|]
      && '.' !in r
      && forall i :: 0 <= i < |r| ==> !IsUpper(r[i])
  {
    var head := Split(name, ".")[0];
    assert name[..|head|] == head;
    LowerKeepsSeparatorOut(head, ".");
    ContainsChar(head, '.');
    ContainsChar(Lower(head), '.');
    LowerIsLower(head);
    if |head| < |name| {
      assert OccursAt(name, ".", |head|);
      assert name[|head|..|head| + 1][0] == name[|head|];
    }
  }

  /** A lower-case name without a `.` is its own root. */
  lemma PlainRootName(name: string)
    requires '.' !in name
    requires forall i :: 0 <= i < |name| ==> !IsUpper(name[i])
    ensures RootName(name) == name
  {
    ContainsChar(name, '.');
    LowerOfLower(name);
  }

  /** The root names of the dotted names of one `import` statement, in order. */
  function NamesRoots(names: seq<string>): set<string> {
    if names == [] then {}
    else NamesRoots(names[..|names| - 1]) + {RootName(names[|names| - 1])}
  }

  /** The names one node contributes. */
  function NodeImports(n: Node): set<string> {
    match n
    case Import(names) => NamesRoots(names)
    case ImportFrom(moduleName) =>
      if moduleName.Some? && moduleName.value != [] then {RootName(moduleName.value)} else {}
    case Other => {}
  }

  /** The names a sequence of nodes contributes. */
  function NodesImports(nodes: seq<Node>): set<string> {
    if nodes == [] then {}
    else NodesImports(nodes[..|nodes| - 1]) + NodeImports(nodes[|nodes| - 1])
  }

  /** The set `find_imports_in_file` returns for a file with this outcome. */
  function FileImports(outcome: ParseOutcome): set<string> {
    match outcome
    case Parsed(nodes) => NodesImports(nodes)
    case _ => {}
  }

  /** Node `n` imports `x`: as the root of one of its names, or of its non-empty `from` module. */
  predicate ImportsName(n: Node, x: string) {
    match n
    case Import(names) => exists j :: 0 <= j < |names| && x == RootName(names[j])
    case ImportFrom(moduleName) => moduleName.Some? && moduleName.value != [] && x == RootName(moduleName.value)
    case Other => false
  }

  lemma {:induction false} NamesRootsMembership(names: seq<string>, x: string)
    ensures x in NamesRoots(names) <==> exists j :: 0 <= j < |names| && x == RootName(names[j])
  {
    if names != [] {
      var init := names[..|names| - 1];
      var last := RootName(names[|names| - 1]);
      assert NamesRoots(names) == NamesRoots(init) + {last};
      NamesRootsMembership(init, x);
      if x in NamesRoots(init) {
        var j :| 0 <= j < |init| && x == RootName(init[j]);
        assert names[j] == init[j];
      }
      if exists j :: 0 <= j < |names| && x == RootName(names[j]) {
        var j :| 0 <= j < |names| && x == RootName(names[j]);
        if j < |init| {
          assert init[j] == names[j];
        }
      }
    }
  }

  /**
   * A parsed file imports exactly the names that one of its nodes imports;
   * the order in which the nodes are walked does not matter, and nodes of
   * other kinds, including `from . import x`, contribute nothing.
   */
  lemma {:induction false} NodesImportsMembership(nodes: seq<Node>, x: string)
    ensures x in NodesImports(nodes) <==> exists i :: 0 <= i < |nodes| && ImportsName(nodes[i], x)
  {
    if nodes != [] {
      var init := nodes[..|nodes| - 1];
      var last := nodes[|nodes| - 1];
      NodesImportsMembership(init, x);
      assert x in NodeImports(last) <==> ImportsName(last, x) by {
        if last.Import? {
          NamesRootsMembership(last.names, x);
        }
      }
      if x in NodesImports(init) {
        var i :| 0 <= i < |init| && ImportsName(init[i], x);
        assert nodes[i] == init[i];
      }
      if exists i :: 0 <= i < |nodes| && ImportsName(nodes[i], x) {
        var i :| 0 <= i < |nodes| && ImportsName(nodes[i], x);
        if i < |init| {
          assert init[i] == nodes[i];
        }
      }
    }
  }

  /**
   * Every name a file contributes is the lowered text before the first `.`
   * of a module it names, so it holds no `.` and no capital; a file that does
   * not parse or cannot be read contributes nothing.
   */
  lemma FileImportsShape(outcome: ParseOutcome, x: string)
    requires x in FileImports(outcome)
    ensures outcome.Parsed?
    ensures '.' !in x
    ensures forall i :: 0 <= i < |x| ==> !IsUpper(x[i])
  {
    NodesImportsMembership(outcome.nodes, x);
    var i :| 0 <= i < |outcome.nodes| && ImportsName(outcome.nodes[i], x);
    match outcome.nodes[i]
    case Import(names) =>
      var j :| 0 <= j < |names| && x == RootName(names[j]);
      RootNameShape(names[j]);
    case ImportFrom(moduleName) =>
      RootNameShape(moduleName.value);
  }

  /** Visiting one more node adds the names that node contributes. */
  lemma NodesImportsStep(nodes: seq<Node>, i: nat)
    requires i < |nodes|
    ensures NodesImports(nodes[..i + 1]) == NodesImports(nodes[..i]) + NodeImports(nodes[i])
  {
    assert nodes[..i + 1][..i] == nodes[..i];
  }

  /** Visiting one more name of an `import` adds its root. */
  lemma NamesRootsStep(names: seq<string>, j: nat)
    requires j < |names|
    ensures NamesRoots(names[..j + 1]) == NamesRoots(names[..j]) + {RootName(names[j])}
  {
    assert names[..j + 1][..j] == names[..j];
  }

  /**
   * `find_imports_in_file`: walk the nodes of the parsed file and collect
   * the root name of every `import` name and of every `from` module.
   */
  method FindImportsInFile(fs: FileSystem, path: string) returns (imports: set<string>)
    ensures imports == FileImports(Read(fs, path))
    ensures !Read(fs, path).Parsed? ==> imports == {}
  {
    var outcome := Read(fs, path);
    if !outcome.Parsed? {
      return {};
    }
    var nodes := outcome.nodes;
    imports := {};
    var i := 0;
    while i < |nodes|
      invariant 0 <= i <= |nodes|
      invariant imports == NodesImports(nodes[..i])
    {
      NodesImportsStep(nodes, i);
      ghost var prior := imports;
      match nodes[i] {
        case Import(names) =>
          var j := 0;
          while j < |names|
            invariant 0 <= j <= |names|
            invariant imports == prior + NamesRoots(names[..j])
          {
            NamesRootsStep(names, j);
            imports := imports + {RootName(names[j])};
            j := j + 1;
          }
          assert names[..j] == names;
        case ImportFrom(moduleName) =>
          if moduleName.Some? && moduleName.value != [] {
            imports := imports + {RootName(moduleName.value)};
          }
        case Other =>
      }
      i := i + 1;
    }
    assert nodes[..i] == nodes;
  }
}
