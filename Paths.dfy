/**
 * `os.path.join` and `os.path.dirname` for the two platforms the checker
 * tells apart through `os.name`: POSIX (`posixpath`) and Windows (`ntpath`).
 */
module Paths {
  import opened Text

  /** The value of `os.name` that matters: "nt" or anything else. */
  datatype Platform = Posix | Nt

  /** The separator `os.path.join` inserts. */
  function Sep(pl: Platform): char {
    if pl == Nt then '\\' else '/'
  }

  /** The characters a platform reads as separators (Windows accepts both slashes). */
  predicate IsSep(pl: Platform, c: char) {
    c == '/' || (pl == Nt && c == '\\')
  }

  /**
   * `os.path.join(a, b)`: a component that starts with a separator replaces
   * what came before; otherwise the components are glued with one separator,
   * unless `a` is empty or already ends with one.
   */
  function Join(pl: Platform, a: string, b: string): string {
    if b != [] && IsSep(pl, b[0]) then b
    else if a == [] || IsSep(pl, a[|a| - 1]) then a + b
    else a + [Sep(pl)] + b
  }

  /**
   * The joined path ends with `b`, and starts with `a` when `b` is relative;
   * when neither side supplies a separator at the seam, exactly one is added.
   */
  lemma JoinShape(pl: Platform, a: string, b: string)
    ensures EndsWith(Join(pl, a, b), b)
    ensures (b == [] || !IsSep(pl, b[0])) ==> a <= Join(pl, a, b)
    ensures a != [] && !IsSep(pl, a[|a| - 1]) && b != [] && !IsSep(pl, b[0]) ==>
      Join(pl, a, b) == a + [Sep(pl)] + b
  {
  }

  /** Joining two relative components onto a path that does not end in a separator. */
  lemma JoinTwice(pl: Platform, p: string, a: string, b: string)
    requires p != [] && !IsSep(pl, p[|p| - 1])
    requires a != [] && !IsSep(pl, a[0]) && !IsSep(pl, a[|a| - 1])
    requires b != [] && !IsSep(pl, b[0])
    ensures Join(pl, Join(pl, p, a), b) == p + ([Sep(pl)] + a + [Sep(pl)] + b)
  {
    var pa := p + [Sep(pl)] + a;
    assert Join(pl, p, a) == pa;
    assert pa[|pa| - 1] == a[|a| - 1];
    assert Join(pl, pa, b) == pa + [Sep(pl)] + b;
  }

  /** The length of `p` up to and including its last separator; 0 when it has none. */
  function LastSepEnd(pl: Platform, p: string): (n: nat)
    ensures n <= |p|
    ensures n > 0 ==> IsSep(pl, p[n - 1])
    ensures forall i :: n <= i < |p| ==> !IsSep(pl, p[i])
  {
    if p == [] then 0
    else if IsSep(pl, p[|p| - 1]) then |p|
    else LastSepEnd(pl, p[..|p| - 1])
  }

  /**
   * `os.path.dirname(p)`: the text up to the last separator, with the
   * trailing separators removed unless nothing but separators is left.
   */
  function Dirname(pl: Platform, p: string): string {
    var head := p[..LastSepEnd(pl, p)];
    var trimmed := TrimEnd(head, c => IsSep(pl, c));
    if trimmed == [] then head else trimmed
  }

  /**
   * The parent of a child path is the path it was built from: for a
   * non-empty `p` that does not end in a separator and a `name` without
   * separators, `dirname(p + sep + name) == p`.
   */
  lemma DirnameOfChild(pl: Platform, p: string, name: string)
    requires p != [] && !IsSep(pl, p[|p| - 1])
    requires forall i :: 0 <= i < |name| ==> !IsSep(pl, name[i])
    ensures Dirname(pl, p + [Sep(pl)] + name) == p
  {
    var q := p + [Sep(pl)] + name;
    var n := LastSepEnd(pl, q);
    assert q[|p|] == Sep(pl);
    assert n == |p| + 1;
    var head := q[..n];
    assert head == p + [Sep(pl)];
    var trimmed := TrimEnd(head, c => IsSep(pl, c));
    TrimEndShape(head, c => IsSep(pl, c));
    assert |trimmed| == |p|;
    assert trimmed == p;
  }
}
