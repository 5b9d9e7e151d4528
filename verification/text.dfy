/**
  Plain-text primitives the viewer's search is built on: ASCII lower-casing
  (the model of `String.prototype.toLowerCase`), literal substring search
  (`indexOf` / `includes`) and the case-insensitive occurrence relation that
  every search decision is specified against.
 */
module Text {

  datatype Option<T> = None | Some(value: T)

  /** True for the 26 ASCII capital letters. */
  predicate IsUpper(c: char) {
    'A' <= c <= 'Z'
  }

  /** ASCII lower-casing of one character; every other character is kept. */
  function LowerChar(c: char): (r: char)
    ensures !IsUpper(r)
    ensures !IsUpper(c) ==> r == c
  {
    if IsUpper(c) then (c as int + 32) as char else c
  }

  /** Lower-cases a string character by character; the length never changes. */
  function Lower(s: string): string {
    seq(|s|, i requires 0 <= i < |s| => LowerChar(s[i]))
  }

  /** Lower-casing commutes with taking a slice. */
  lemma LowerSlice(s: string, i: nat, j: nat)
    requires i <= j <= |s|
    ensures Lower(s)[i..j] == Lower(s[i..j])
  {
  }

  /** Two strings are equal ignoring case when they agree position by position after lower-casing. */
  ghost predicate EqualIgnoringCase(a: string, b: string) {
    |a| == |b| && forall k :: 0 <= k < |a| ==> LowerChar(a[k]) == LowerChar(b[k])
  }

  /** Comparing lower-cased strings, as the source does, is the same as comparing ignoring case. */
  lemma LowerEqualIff(a: string, b: string)
    ensures Lower(a) == Lower(b) <==> EqualIgnoringCase(a, b)
  {
    if EqualIgnoringCase(a, b) {
      assert forall k :: 0 <= k < |a| ==> Lower(a)[k] == Lower(b)[k];
    }
    if Lower(a) == Lower(b) {
      assert forall k :: 0 <= k < |a| ==> LowerChar(a[k]) == Lower(a)[k] == Lower(b)[k] == LowerChar(b[k]);
    }
  }

  /** `needle` occurs literally in `hay` starting at index `i`. */
  predicate MatchAt(hay: string, needle: string, i: int) {
    0 <= i && i + |needle| <= |hay| && hay[i..i + |needle|] == needle
  }

  ghost predicate IsSubstring(needle: string, hay: string) {
    exists i :: MatchAt(hay, needle, i)
  }

  /** `term` occurs in `text` at index `i`, ignoring case. */
  ghost predicate OccursAt(text: string, term: string, i: int) {
    0 <= i && i + |term| <= |text| && EqualIgnoringCase(text[i..i + |term|], term)
  }

  ghost predicate ContainsIgnoringCase(text: string, term: string) {
    exists i :: OccursAt(text, term, i)
  }

  /**
    The leftmost literal occurrence of `needle` in `hay` at or after `from`,
    or None when there is none (a start point past the end finds nothing).
   */
  function IndexOf(hay: string, needle: string, from: nat): (r: Option<nat>)
    ensures r.Some? ==> from <= r.value && MatchAt(hay, needle, r.value)
    ensures r.Some? ==> forall j :: from <= j < r.value ==> !MatchAt(hay, needle, j)
    ensures r.None? ==> forall j :: from <= j ==> !MatchAt(hay, needle, j)
    decreases |hay| - from
  {
    if from + |needle| > |hay| then None
    else if hay[from..from + |needle|] == needle then Some(from)
    else IndexOf(hay, needle, from + 1)
  }

  /** Literal substring test: true exactly when `needle` is a substring of `hay`. */
  function Includes(hay: string, needle: string): (r: bool)
    ensures r <==> IsSubstring(needle, hay)
  {
    IndexOf(hay, needle, 0).Some?
  }

  /** A literal match in the lower-cased strings is an occurrence ignoring case in the originals. */
  lemma MatchAtLower(text: string, term: string, i: int)
    ensures MatchAt(Lower(text), Lower(term), i) <==> OccursAt(text, term, i)
  {
    if 0 <= i && i + |term| <= |text| {
      LowerSlice(text, i, i + |term|);
      LowerEqualIff(text[i..i + |term|], term);
    }
  }

  /** Substring test on the lower-cased text and the lower-cased term. */
  function IncludesIgnoringCase(text: string, term: string): (r: bool)
    ensures r <==> ContainsIgnoringCase(text, term)
  {
    forall i ensures MatchAt(Lower(text), Lower(term), i) <==> OccursAt(text, term, i) {
      MatchAtLower(text, term, i);
    }
    Includes(Lower(text), Lower(term))
  }

  /** The empty term occurs in every text. */
  lemma EmptyTermOccurs(text: string)
    ensures ContainsIgnoringCase(text, [])
  {
    assert OccursAt(text, [], 0);
  }

  /** An occurrence inside a prefix is an occurrence in the whole text. */
  lemma OccursInPrefix(text: string, term: string, n: nat, j: int)
    requires n <= |text|
    requires OccursAt(text[..n], term, j)
    ensures OccursAt(text, term, j) && j + |term| <= n
  {
    assert text[..n][j..j + |term|] == text[j..j + |term|];
  }

  /** An occurrence inside a suffix is an occurrence in the whole text, shifted. */
  lemma OccursInSuffix(text: string, term: string, n: nat, j: int)
    requires n <= |text|
    requires OccursAt(text[n..], term, j)
    ensures OccursAt(text, term, n + j)
  {
    assert text[n..][j..j + |term|] == text[n + j..n + j + |term|];
  }

  /**
    The scanning loop behind `indexOf`: tries every start position from the
    left and stops at the first literal match.
   */
  method IndexOfScan(hay: string, needle: string) returns (r: Option<nat>)
    ensures r == IndexOf(hay, needle, 0)
  {
    var i: nat := 0;
    while i + |needle| <= |hay|
      invariant IndexOf(hay, needle, i) == IndexOf(hay, needle, 0)
      decreases |hay| - i
    {
      if hay[i..i + |needle|] == needle {
        return Some(i);
      }
      i := i + 1;
    }
    return None;
  }
}
