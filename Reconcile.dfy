/**
 * The usage reconciler in `main`: the installed distributions none of
 * whose import names is used, in ascending order.
 */
module Reconcile {
  import opened Resolver
  import opened Order

  /** `not any(name in used_packages for name in get_import_names(pkg))`. */
  predicate IsUnused(meta: Metadata, used: set<string>, pkg: string) {
    forall n :: n in GetImportNames(pkg, TopLevel(meta, pkg)) ==> n !in used
  }

  /**
   * What `main` reports: strictly ascending (so without duplicates) and
   * holding exactly the installed distributions that are unused.
   */
  ghost predicate IsUnusedList(xs: seq<string>, installed: set<string>, meta: Metadata, used: set<string>) {
    && StrictlyAscending(xs)
    && forall pkg :: pkg in xs <==> pkg in installed && IsUnused(meta, used, pkg)
  }

  /**
   * There is only one such list, so two runs on the same environment and
   * sources report the same names in the same order.
   */
  lemma UnusedListUnique(xs: seq<string>, ys: seq<string>, installed: set<string>, meta: Metadata, used: set<string>)
    requires IsUnusedList(xs, installed, meta, used) && IsUnusedList(ys, installed, meta, used)
    ensures xs == ys
  {
    StrictlyAscendingUnique(xs, ys);
  }

  /**
   * The list comprehension over the installed set (in whatever order the
   * set yields its members) followed by `unused_packages.sort()`.
   */
  method UnusedPackages(installed: set<string>, meta: Metadata, used: set<string>) returns (unused: seq<string>)
    ensures IsUnusedList(unused, installed, meta, used)
  {
    var listed: seq<string> := [];
    var rest := installed;
    while rest != {}
      invariant rest <= installed
      invariant forall pkg :: pkg in listed <==> pkg in installed - rest && IsUnused(meta, used, pkg)
      invariant Distinct(listed)
      decreases rest
    {
      var pkg :| pkg in rest;
      if IsUnused(meta, used, pkg) {
        listed := listed + [pkg];
      }
      rest := rest - {pkg};
    }
    var a := new string[|listed|](k requires 0 <= k < |listed| => listed[k]);
    assert a[..] == listed;
    Sort(a);
    unused := a[..];
    DistinctByMultiset(unused, listed);
    SortedDistinctIsStrict(unused);
    forall pkg
      ensures pkg in unused <==> pkg in listed
    {
      assert pkg in unused <==> pkg in multiset(unused);
      assert pkg in listed <==> pkg in multiset(listed);
    }
  }
}
