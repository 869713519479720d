/**
 * Python's ordering of strings (code point by code point, a proper prefix
 * before the longer string) and the in-place `list.sort` that `main`
 * applies to the unused-package list.
 */
module Order {

  /** `a < b` on Python strings. */
  predicate Less(a: string, b: string) {
    if a == [] then b != []
    else if b == [] then false
    else if a[0] != b[0] then a[0] < b[0]
    else Less(a[1..], b[1..])
  }

  predicate LessEq(a: string, b: string) {
    a == b || Less(a, b)
  }

  lemma {:induction false} LessIrreflexive(a: string)
    ensures !Less(a, a)
  {
    if a != [] {
      LessIrreflexive(a[1..]);
    }
  }

  lemma {:induction false} LessAsymmetric(a: string, b: string)
    requires Less(a, b)
    ensures !Less(b, a)
  {
    if a != [] && b != [] && a[0] == b[0] {
      LessAsymmetric(a[1..], b[1..]);
    }
  }

  lemma {:induction false} LessTransitive(a: string, b: string, c: string)
    requires Less(a, b) && Less(b, c)
    ensures Less(a, c)
  {
    if a != [] && a[0] == b[0] && b[0] == c[0] {
      LessTransitive(a[1..], b[1..], c[1..]);
    }
  }

  /** Any two different strings are ordered one way or the other. */
  lemma {:induction false} LessTotal(a: string, b: string)
    requires a != b
    ensures Less(a, b) || Less(b, a)
  {
    if a != [] && b != [] && a[0] == b[0] {
      assert a == [a[0]] + a[1..] && b == [b[0]] + b[1..];
      LessTotal(a[1..], b[1..]);
    }
  }

  lemma LessEqTransitive(a: string, b: string, c: string)
    requires LessEq(a, b) && LessEq(b, c)
    ensures LessEq(a, c)
  {
    if a != b && b != c {
      LessTransitive(a, b, c);
    }
  }

  /** Each element is at most the next one. */
  predicate AdjacentSorted(s: seq<string>) {
    forall i :: 0 < i < |s| ==> LessEq(s[i - 1], s[i])
  }

  /** Every element is at most every later one. */
  predicate Sorted(s: seq<string>) {
    forall i, j :: 0 <= i < j < |s| ==> LessEq(s[i], s[j])
  }

  /** Every element is below every later one: sorted and without duplicates. */
  predicate StrictlyAscending(s: seq<string>) {
    forall i, j :: 0 <= i < j < |s| ==> Less(s[i], s[j])
  }

  predicate Distinct(s: seq<string>) {
    forall i, j :: 0 <= i < j < |s| ==> s[i] != s[j]
  }

  lemma {:induction false} AdjacentSortedIsSorted(s: seq<string>)
    requires AdjacentSorted(s)
    ensures Sorted(s)
  {
    if |s| > 1 {
      var init := s[..|s| - 1];
      assert AdjacentSorted(init);
      AdjacentSortedIsSorted(init);
      forall i | 0 <= i < |s| - 1
        ensures LessEq(s[i], s[|s| - 1])
      {
        assert LessEq(init[i], init[|init| - 1]) || i == |init| - 1;
        LessEqTransitive(s[i], s[|s| - 2], s[|s| - 1]);
      }
    }
  }

  /** A sorted sequence without duplicates is strictly ascending. */
  lemma SortedDistinctIsStrict(s: seq<string>)
    requires Sorted(s) && Distinct(s)
    ensures StrictlyAscending(s)
  {
  }

  lemma {:induction false} DistinctCounts(t: seq<string>)
    requires Distinct(t)
    ensures forall x :: multiset(t)[x] <= 1
  {
    if t != [] {
      var init := t[..|t| - 1];
      var last := t[|t| - 1];
      assert t == init + [last];
      DistinctCounts(init);
      assert last !in init;
    }
  }

  lemma RepeatedCount(s: seq<string>, i: nat, j: nat)
    requires i < j < |s| && s[i] == s[j]
    ensures multiset(s)[s[i]] >= 2
  {
    assert s == s[..j] + s[j..];
    assert s[i] in s[..j];
    assert s[j] in s[j..];
  }

  /** Rearranging a sequence without duplicates yields one without duplicates. */
  lemma DistinctByMultiset(s: seq<string>, t: seq<string>)
    requires multiset(s) == multiset(t) && Distinct(t)
    ensures Distinct(s)
  {
    DistinctCounts(t);
    forall i, j | 0 <= i < j < |s|
      ensures s[i] != s[j]
    {
      if s[i] == s[j] {
        RepeatedCount(s, i, j);
      }
    }
  }

  /**
   * A strictly ascending sequence is determined by its elements: two of them
   * holding the same strings are equal.
   */
  lemma {:induction false} StrictlyAscendingUnique(s: seq<string>, t: seq<string>)
    requires StrictlyAscending(s) && StrictlyAscending(t)
    requires forall x :: x in s <==> x in t
    ensures s == t
  {
    if t != [] {
      assert t[0] in t;
    }
    if s != [] {
      assert s[0] in s && t != [];
      assert t[0] in t;
      var k :| 0 <= k < |t| && t[k] == s[0];
      var m :| 0 <= m < |s| && s[m] == t[0];
      if k != 0 {
        if m == 0 {
          LessIrreflexive(s[0]);
        } else {
          LessAsymmetric(s[0], s[m]);
        }
      }
      assert s[0] == t[0];
      forall x
        ensures x in s[1..] <==> x in t[1..]
      {
        if x in s[1..] {
          var p :| 1 <= p < |s| && s[p] == x;
          assert x in s;
          var q :| 0 <= q < |t| && t[q] == x;
          if q == 0 {
            LessIrreflexive(x);
          }
          assert t[q] in t[1..];
        }
        if x in t[1..] {
          var p :| 1 <= p < |t| && t[p] == x;
          assert x in t;
          var q :| 0 <= q < |s| && s[q] == x;
          if q == 0 {
            LessIrreflexive(x);
          }
          assert s[q] in s[1..];
        }
      }
      StrictlyAscendingUnique(s[1..], t[1..]);
      assert s == [s[0]] + s[1..] && t == [t[0]] + t[1..];
    }
  }

  /** One swap of insertion: the element at `j`, smaller than its left neighbour, moves one place left. */
  lemma InsertStep(s: seq<string>, j: nat, i: nat)
    requires 0 < j <= i < |s|
    requires AdjacentSorted(s[..j]) && AdjacentSorted(s[j..i + 1])
    requires j < i ==> LessEq(s[j - 1], s[j + 1])
    requires Less(s[j], s[j - 1])
    ensures var s' := s[j - 1 := s[j]][j := s[j - 1]];
      && AdjacentSorted(s'[..j - 1])
      && AdjacentSorted(s'[j - 1..i + 1])
      && (0 < j - 1 ==> LessEq(s'[j - 2], s'[j]))
  {
    var s' := s[j - 1 := s[j]][j := s[j - 1]];
    assert s'[..j - 1] == s[..j - 1];
    var u, v := s'[j - 1..i + 1], s[j..i + 1];
    forall k | 0 < k < |u|
      ensures LessEq(u[k - 1], u[k])
    {
      if k >= 3 {
        assert u[k - 1] == v[k - 2] && u[k] == v[k - 1];
      }
    }
    if 0 < j - 1 {
      assert s[..j][j - 2] == s[j - 2] && s[..j][j - 1] == s[j - 1];
    }
  }

  /** Insertion stops: the prefix up to `i` is sorted again. */
  lemma InsertDone(s: seq<string>, j: nat, i: nat)
    requires 0 <= j <= i < |s|
    requires AdjacentSorted(s[..j]) && AdjacentSorted(s[j..i + 1])
    requires 0 < j ==> LessEq(s[j - 1], s[j])
    ensures AdjacentSorted(s[..i + 1])
  {
    var u := s[..i + 1];
    forall k | 0 < k < |u|
      ensures LessEq(u[k - 1], u[k])
    {
      if k < j {
        assert s[..j][k - 1] == s[k - 1] && s[..j][k] == s[k];
      } else if k > j {
        assert s[j..i + 1][k - 1 - j] == s[k - 1] && s[j..i + 1][k - j] == s[k];
      }
    }
  }

  /** Swapping two neighbours keeps every string as often as before. */
  lemma SwapKeepsMultiset(s: seq<string>, j: nat)
    requires 0 < j < |s|
    ensures multiset(s[j - 1 := s[j]][j := s[j - 1]]) == multiset(s)
  {
  }

  /**
   * One pass of insertion: with `a[..i]` sorted, move `a[i]` left past every
   * larger neighbour, leaving `a[..i + 1]` sorted and the rest untouched.
   */
  method Insert(a: array<string>, i: nat)
    requires i < a.Length && AdjacentSorted(a[..i])
    modifies a
    ensures AdjacentSorted(a[..i + 1])
    ensures a[i + 1..] == old(a[i + 1..])
    ensures multiset(a[..]) == multiset(old(a[..]))
  {
    var j := i;
    while 0 < j && Less(a[j], a[j - 1])
      invariant 0 <= j <= i
      invariant AdjacentSorted(a[..j])
      invariant AdjacentSorted(a[j..i + 1])
      invariant 0 < j < i ==> LessEq(a[j - 1], a[j + 1])
      invariant a[i + 1..] == old(a[i + 1..])
      invariant multiset(a[..]) == multiset(old(a[..]))
    {
      ghost var s := a[..];
      InsertStep(s, j, i);
      SwapKeepsMultiset(s, j);
      a[j - 1], a[j] := a[j], a[j - 1];
      assert a[..] == s[j - 1 := s[j]][j := s[j - 1]];
      j := j - 1;
    }
    if 0 < j && a[j - 1] != a[j] {
      LessTotal(a[j - 1], a[j]);
    }
    InsertDone(a[..], j, i);
  }

  /**
   * `list.sort()`: an insertion sort in place. The array ends sorted and
   * holds the same strings, each as often as before.
   */
  method Sort(a: array<string>)
    modifies a
    ensures Sorted(a[..])
    ensures multiset(a[..]) == multiset(old(a[..]))
  {
    var i := 0;
    while i < a.Length
      invariant 0 <= i <= a.Length
      invariant AdjacentSorted(a[..i])
      invariant multiset(a[..]) == multiset(old(a[..]))
    {
      Insert(a, i);
      i := i + 1;
    }
    assert a[..i] == a[..];
    AdjacentSortedIsSorted(a[..]);
  }
}
