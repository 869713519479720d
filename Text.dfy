/**
 * The Python string operations the package checker relies on, on `string`
 * (a sequence of code points): `str.lower` (ASCII letters only), `str.split`
 * with a separator, `sep.join`, `str.strip` / `str.rstrip`, `str.startswith`
 * and `str.endswith`.
 */
module Text {
  import opened Wrappers

  // ---------------------------------------------------------------- lower

  predicate IsUpper(c: char) { 'A' <= c <= 'Z' }

  predicate IsLowerLetter(c: char) { 'a' <= c <= 'z' }

  /** `str.lower` on one character; only ASCII capitals change. */
  function LowerChar(c: char): char {
    if IsUpper(c) then (c as int + 32) as char else c
  }

  /** `str.lower`, character by character. */
  function Lower(s: string): (r: string)
    ensures |r| == |s|
    ensures forall i :: 0 <= i < |s| ==> r[i] == LowerChar(s[i])
  {
    if s == [] then [] else [LowerChar(s[0])] + Lower(s[1..])
  }

  /** A lowered string has no capital left, and lowering it again changes nothing. */
  lemma LowerIsLower(s: string)
    ensures forall i :: 0 <= i < |s| ==> !IsUpper(Lower(s)[i])
    ensures Lower(Lower(s)) == Lower(s)
  {
  }

  /** A string without capitals is its own lower-case form. */
  lemma LowerOfLower(s: string)
    requires forall i :: 0 <= i < |s| ==> !IsUpper(s[i])
    ensures Lower(s) == s
  {
  }

  /**
   * Lowering cannot create an occurrence of a separator that holds no
   * lower-case letter (such as "." or "=="): every character lowers either to
   * itself or to a lower-case letter.
   */
  lemma {:induction false} LowerKeepsSeparatorOut(s: string, sep: string)
    requires forall m :: 0 <= m < |sep| ==> !IsLowerLetter(sep[m])
    requires !Contains(s, sep)
    ensures !Contains(Lower(s), sep)
  {
    if Contains(Lower(s), sep) {
      var k: nat :| k <= |s| && OccursAt(Lower(s), sep, k);
      assert k + |sep| <= |s|;
      forall m | 0 <= m < |sep|
        ensures s[k + m] == sep[m]
      {
        assert Lower(s)[k..k + |sep|][m] == Lower(s)[k + m];
      }
      assert s[k..k + |sep|] == sep;
      assert OccursAt(s, sep, k);
    }
  }

  // ----------------------------------------------------- find and split

  /** `sep` occurs in `s` starting at index `k`. */
  predicate OccursAt(s: string, sep: string, k: nat) {
    k + |sep| <= |s| && s[k..k + |sep|] == sep
  }

  /** `sep in s` for a separator string. */
  predicate Contains(s: string, sep: string) {
    exists k: nat | k <= |s| :: OccursAt(s, sep, k)
  }

  /** A one-character separator occurs exactly when the character does. */
  lemma ContainsChar(s: string, c: char)
    ensures Contains(s, [c]) <==> c in s
  {
    if c in s {
      var k :| 0 <= k < |s| && s[k] == c;
      assert OccursAt(s, [c], k);
    }
    if Contains(s, [c]) {
      var k: nat :| k <= |s| && OccursAt(s, [c], k);
      assert s[k] == s[k..k + 1][0];
    }
  }

  /** An occurrence inside a prefix of `s` is an occurrence in `s`. */
  lemma OccursInPrefix(s: string, sep: string, n: nat, k: nat)
    requires n <= |s| && OccursAt(s[..n], sep, k)
    ensures k + |sep| <= n && OccursAt(s, sep, k)
  {
    assert s[..n][k..k + |sep|] == s[k..k + |sep|];
  }

  /** `s.find(sep, k)`: the first occurrence of `sep` at or after `k`. */
  function FindFrom(s: string, sep: string, k: nat): (r: Option<nat>)
    requires |sep| > 0
    ensures r.Some? ==> k <= r.value && OccursAt(s, sep, r.value)
    ensures forall j: nat :: k <= j && (r.None? || j < r.value) ==> !OccursAt(s, sep, j)
    decreases |s| - k
  {
    if k + |sep| > |s| then None
    else if OccursAt(s, sep, k) then Some(k)
    else FindFrom(s, sep, k + 1)
  }

  /**
   * `s.split(sep)`: the pieces between the occurrences of `sep`, scanned
   * left to right. There is always at least one piece, no piece holds the
   * separator, and the first piece is the text before the first occurrence
   * (all of `s` when there is none).
   */
  function Split(s: string, sep: string): (r: seq<string>)
    requires |sep| > 0
    ensures |r| >= 1
    ensures forall i :: 0 <= i < |r| ==> !Contains(r[i], sep)
    ensures r[0] <= s
    ensures r[0] == s || OccursAt(s, sep, |r[0]|)
    ensures forall j: nat :: j < |r[0]| ==> !OccursAt(s, sep, j)
    ensures !Contains(s, sep) ==> r == [s]
    decreases |s|
  {
    match FindFrom(s, sep, 0)
    case None => [s]
    case Some(i) =>
      assert !Contains(s[..i], sep) by {
        forall k: nat | OccursAt(s[..i], sep, k)
          ensures false
        {
          OccursInPrefix(s, sep, i, k);
        }
      }
      [s[..i]] + Split(s[i + |sep|..], sep)
  }

  /** When the first occurrence of `sep` is at `k`, the first piece is the text before it. */
  lemma SplitFirstAt(s: string, sep: string, k: nat)
    requires |sep| > 0 && OccursAt(s, sep, k)
    requires forall j: nat :: j < k ==> !OccursAt(s, sep, j)
    ensures Split(s, sep)[0] == s[..k]
  {
    var r := FindFrom(s, sep, 0);
    assert r.Some?;
    assert r.value == k;
  }

  /** `sep.join(pieces)`. */
  function JoinWith(pieces: seq<string>, sep: string): string {
    if pieces == [] then []
    else if |pieces| == 1 then pieces[0]
    else pieces[0] + sep + JoinWith(pieces[1..], sep)
  }

  /** Splitting loses nothing: joining the pieces back gives the input. */
  lemma {:induction false} JoinSplit(s: string, sep: string)
    requires |sep| > 0
    ensures JoinWith(Split(s, sep), sep) == s
    decreases |s|
  {
    match FindFrom(s, sep, 0)
    case None =>
    case Some(i) =>
      var rest := s[i + |sep|..];
      var pieces := Split(rest, sep);
      JoinSplit(rest, sep);
      assert Split(s, sep) == [s[..i]] + pieces;
      assert ([s[..i]] + pieces)[1..] == pieces;
      calc {
        JoinWith(Split(s, sep), sep);
        s[..i] + sep + JoinWith(pieces, sep);
        s[..i] + s[i..i + |sep|] + rest;
        { assert s == s[..i] + s[i..i + |sep|] + rest; }
        s;
      }
  }

  // ------------------------------------------------------------- strip

  /** Python's whitespace characters, as `str.isspace` classifies them. */
  predicate IsSpace(c: char) {
    || c == ' '
    || '\t' <= c <= '\r'
    || '\U{1C}' <= c <= '\U{1F}'
    || c == '\U{85}' || c == '\U{A0}' || c == '\U{1680}'
    || '\U{2000}' <= c <= '\U{200A}'
    || c == '\U{2028}' || c == '\U{2029}' || c == '\U{202F}'
    || c == '\U{205F}' || c == '\U{3000}'
  }

  /** `s.lstrip(chars)`: drop the characters satisfying `drop` from the front. */
  function TrimStart(s: string, drop: char -> bool): string {
    if s != [] && drop(s[0]) then TrimStart(s[1..], drop) else s
  }

  /** `s.rstrip(chars)`: drop the characters satisfying `drop` from the back. */
  function TrimEnd(s: string, drop: char -> bool): string {
    if s != [] && drop(s[|s| - 1]) then TrimEnd(s[..|s| - 1], drop) else s
  }

  /**
   * `TrimStart` removes the longest prefix of dropped characters: what is
   * left is `s` from the returned index on, which does not start with one.
   */
  lemma {:induction false} TrimStartShape(s: string, drop: char -> bool) returns (n: nat)
    ensures n <= |s| && TrimStart(s, drop) == s[n..]
    ensures forall i :: 0 <= i < n ==> drop(s[i])
    ensures n < |s| ==> !drop(s[n])
  {
    if s != [] && drop(s[0]) {
      var tail := s[1..];
      var m := TrimStartShape(tail, drop);
      n := m + 1;
      assert tail[m..] == s[n..];
      forall i | 1 <= i < n
        ensures drop(s[i])
      {
        assert s[i] == tail[i - 1];
      }
    } else {
      n := 0;
    }
  }

  /** `TrimEnd` removes the longest suffix of dropped characters: a prefix of `s` is left that does not end with one. */
  lemma {:induction false} TrimEndShape(s: string, drop: char -> bool)
    ensures var r := TrimEnd(s, drop);
      && r <= s
      && (forall i :: |r| <= i < |s| ==> drop(s[i]))
      && (r != [] ==> !drop(r[|r| - 1]))
  {
    if s != [] && drop(s[|s| - 1]) {
      TrimEndShape(s[..|s| - 1], drop);
    }
  }

  /** `s.strip()`: drop leading and trailing whitespace. */
  function Strip(s: string): string {
    TrimEnd(TrimStart(s, IsSpace), IsSpace)
  }

  /**
   * `Strip(s)` is a contiguous piece of `s`, whitespace is all that was cut
   * off on either side, and the result neither starts nor ends with
   * whitespace.
   */
  lemma StripIsInfix(s: string) returns (lead: nat)
    ensures lead + |Strip(s)| <= |s|
    ensures s[lead..lead + |Strip(s)|] == Strip(s)
    ensures forall i :: 0 <= i < lead ==> IsSpace(s[i])
    ensures forall i :: lead + |Strip(s)| <= i < |s| ==> IsSpace(s[i])
    ensures Strip(s) != [] ==> !IsSpace(Strip(s)[0]) && !IsSpace(Strip(s)[|Strip(s)| - 1])
  {
    var t := TrimStart(s, IsSpace);
    lead := TrimStartShape(s, IsSpace);
    TrimEndShape(t, IsSpace);
    assert Strip(s) <= t;
  }

  /** A string that neither starts nor ends with whitespace strips to itself. */
  lemma StripUnpadded(s: string)
    requires s != [] ==> !IsSpace(s[0]) && !IsSpace(s[|s| - 1])
    ensures Strip(s) == s
  {
  }

  /** A string of whitespace only strips to the empty string. */
  lemma StripAllSpace(s: string)
    requires forall i :: 0 <= i < |s| ==> IsSpace(s[i])
    ensures Strip(s) == []
  {
    var n := TrimStartShape(s, IsSpace);
  }

  lemma {:induction false} TrimEndDropsAppended(s: string, w: string, drop: char -> bool)
    requires forall i :: 0 <= i < |w| ==> drop(w[i])
    ensures TrimEnd(s + w, drop) == TrimEnd(s, drop)
    decreases |w|
  {
    if w == [] {
      assert s + w == s;
    } else {
      var w' := w[..|w| - 1];
      assert (s + w)[..|s + w| - 1] == s + w';
      TrimEndDropsAppended(s, w', drop);
    }
  }

  lemma {:induction false} TrimStartOfAppend(s: string, w: string, drop: char -> bool)
    ensures TrimStart(s, drop) != [] ==> TrimStart(s + w, drop) == TrimStart(s, drop) + w
    ensures TrimStart(s, drop) == [] ==> TrimStart(s + w, drop) == TrimStart(w, drop)
  {
    if s == [] {
      assert s + w == w;
    } else if drop(s[0]) {
      assert (s + w)[1..] == s[1..] + w;
      TrimStartOfAppend(s[1..], w, drop);
    }
  }

  /** Whitespace appended to a string does not change what it strips to. */
  lemma StripIgnoresTrailingSpace(s: string, w: string)
    requires forall i :: 0 <= i < |w| ==> IsSpace(w[i])
    ensures Strip(s + w) == Strip(s)
  {
    TrimStartOfAppend(s, w, IsSpace);
    var n := TrimStartShape(w, IsSpace);
    if TrimStart(s, IsSpace) != [] {
      TrimEndDropsAppended(TrimStart(s, IsSpace), w, IsSpace);
    }
  }

  // ---------------------------------------------- prefixes and suffixes

  /** `s.startswith(prefix)`. */
  predicate StartsWith(s: string, prefix: string) {
    prefix <= s
  }

  /** `s.endswith(suffix)`. */
  predicate EndsWith(s: string, suffix: string) {
    |suffix| <= |s| && s[|s| - |suffix|..] == suffix
  }
}
