/**
  Match highlighting of one line of text: the text is cut at every
  leftmost, non-overlapping occurrence of the search term (ignoring case),
  the occurrences are kept as their own pieces in their original casing, and
  each piece is marked when it equals the term ignoring case.
 */
module Highlighting {
  import opened Text

  datatype Segment = Segment(text: string, matched: bool)

  /** Concatenation of a list of strings, in order. */
  function Join(parts: seq<string>): string
    decreases |parts|
  {
    if parts == [] then [] else parts[0] + Join(parts[1..])
  }

  function Texts(segs: seq<Segment>): (r: seq<string>)
    ensures |r| == |segs|
    ensures forall k :: 0 <= k < |segs| ==> r[k] == segs[k].text
  {
    seq(|segs|, k requires 0 <= k < |segs| => segs[k].text)
  }

  /**
    The splitting the viewer performs: unmatched and matched pieces
    alternate, starting and ending with an unmatched piece (possibly empty).
   */
  function Split(text: string, term: string): (parts: seq<string>)
    requires term != []
    ensures |parts| % 2 == 1
    decreases |text|
  {
    match IndexOf(Lower(text), Lower(term), 0)
    case None => [text]
    case Some(i) => [text[..i], text[i..i + |term|]] + Split(text[i + |term|..], term)
  }

  /**
    The reference definition of the cut: each unmatched piece runs up to the
    leftmost occurrence of the term in what is left of the text, the matched
    piece after it is that occurrence, and the final piece holds no
    occurrence at all.
   */
  ghost predicate Leftmost(text: string, term: string, parts: seq<string>)
    decreases |parts|
  {
    if |parts| == 1 then
      parts[0] == text && forall j :: !OccursAt(text, term, j)
    else if |parts| < 3 then false
    else
      var n := |parts[0]|;
      && n + |term| <= |text|
      && parts[0] == text[..n]
      && parts[1] == text[n..n + |term|]
      && OccursAt(text, term, n)
      && (forall j :: 0 <= j < n ==> !OccursAt(text, term, j))
      && Leftmost(text[n + |term|..], term, parts[2..])
  }

  /** The split is the leftmost, non-overlapping cut of the text. */
  lemma {:induction false} SplitIsLeftmost(text: string, term: string)
    requires term != []
    ensures Leftmost(text, term, Split(text, term))
    decreases |text|
  {
    var parts := Split(text, term);
    match IndexOf(Lower(text), Lower(term), 0)
    case None =>
      forall j ensures !OccursAt(text, term, j) {
        MatchAtLower(text, term, j);
      }
    case Some(i) =>
      var rest := text[i + |term|..];
      assert parts == [text[..i], text[i..i + |term|]] + Split(rest, term);
      assert |parts[0]| == i && parts[2..] == Split(rest, term);
      MatchAtLower(text, term, i);
      forall j | 0 <= j < i ensures !OccursAt(text, term, j) {
        MatchAtLower(text, term, j);
      }
      SplitIsLeftmost(rest, term);
  }

  /** The first piece of a leftmost cut ends where the first occurrence starts; a single piece means no occurrence. */
  lemma LeftmostFirstCut(text: string, term: string, parts: seq<string>)
    requires Leftmost(text, term, parts)
    ensures |parts| == 1 <==> forall j :: !OccursAt(text, term, j)
    ensures |parts| != 1 ==> OccursAt(text, term, |parts[0]|)
    ensures forall j :: 0 <= j < |parts[0]| ==> !OccursAt(text, term, j)
  {
  }

  /** At most one cut is leftmost: the reference definition determines the pieces. */
  lemma {:induction false} LeftmostUnique(text: string, term: string, p: seq<string>, q: seq<string>)
    requires Leftmost(text, term, p)
    requires Leftmost(text, term, q)
    ensures p == q
    decreases |p|
  {
    LeftmostFirstCut(text, term, p);
    LeftmostFirstCut(text, term, q);
    if |p| != 1 {
      var n := |p[0]|;
      assert n == |q[0]|;
      LeftmostUnique(text[n + |term|..], term, p[2..], q[2..]);
      assert p == p[..2] + p[2..] && q == q[..2] + q[2..];
    }
  }

  /** A leftmost cut loses nothing: its pieces concatenate back to the text. */
  lemma {:induction false} LeftmostRoundTrip(text: string, term: string, parts: seq<string>)
    requires Leftmost(text, term, parts)
    ensures Join(parts) == text
    decreases |parts|
  {
    if |parts| == 1 {
      assert Join(parts) == parts[0] + Join([]);
    } else {
      var n := |parts[0]|;
      LeftmostRoundTrip(text[n + |term|..], term, parts[2..]);
      assert parts[1..][1..] == parts[2..];
      assert Join(parts) == parts[0] + (parts[1] + Join(parts[2..]));
      assert text == text[..n] + text[n..n + |term|] + text[n + |term|..];
    }
  }

  /**
    In a leftmost cut the odd-numbered pieces are occurrences of the term and
    the even-numbered pieces contain none.
   */
  lemma {:induction false} LeftmostAlternates(text: string, term: string, parts: seq<string>)
    requires term != []
    requires Leftmost(text, term, parts)
    ensures |parts| % 2 == 1
    ensures forall k :: 0 <= k < |parts| && k % 2 == 1 ==> EqualIgnoringCase(parts[k], term)
    ensures forall k :: 0 <= k < |parts| && k % 2 == 0 ==> !ContainsIgnoringCase(parts[k], term)
    decreases |parts|
  {
    if |parts| != 1 {
      var n := |parts[0]|;
      var rest := parts[2..];
      LeftmostAlternates(text[n + |term|..], term, rest);
      if ContainsIgnoringCase(parts[0], term) {
        var j :| OccursAt(parts[0], term, j);
        OccursInPrefix(text, term, n, j);
      }
      forall k | 2 <= k < |parts|
        ensures k % 2 == 1 ==> EqualIgnoringCase(parts[k], term)
        ensures k % 2 == 0 ==> !ContainsIgnoringCase(parts[k], term)
      {
        assert parts[k] == rest[k - 2];
      }
    }
  }

  /**
    `HighlightText`: the text alone, unmarked, for the empty term; otherwise
    the split pieces, each marked when its lower-cased text equals the
    lower-cased term.
   */
  function Highlight(text: string, term: string): (segs: seq<Segment>)
    ensures |segs| % 2 == 1
    ensures forall k :: 0 <= k < |segs| && segs[k].matched ==> EqualIgnoringCase(segs[k].text, term)
  {
    if term == [] then [Segment(text, false)]
    else
      var parts := Split(text, term);
      var segs := seq(|parts|, k requires 0 <= k < |parts| => Segment(parts[k], Lower(parts[k]) == Lower(term)));
      assert forall k :: 0 <= k < |segs| ==> (Lower(segs[k].text) == Lower(term) <==> EqualIgnoringCase(segs[k].text, term)) by {
        forall k | 0 <= k < |segs| {
          LowerEqualIff(segs[k].text, term);
        }
      }
      segs
  }

  /** With the empty term the text is shown unchanged, as one unmatched piece. */
  lemma HighlightEmptyTerm(text: string)
    ensures Highlight(text, []) == [Segment(text, false)]
  {
  }

  /** Concatenating the highlighted pieces in order gives back the text exactly. */
  lemma HighlightRoundTrip(text: string, term: string)
    ensures Join(Texts(Highlight(text, term))) == text
  {
    var segs := Highlight(text, term);
    if term == [] {
      assert Join(Texts(segs)) == text + Join([]);
    } else {
      assert Texts(segs) == Split(text, term);
      SplitIsLeftmost(text, term);
      LeftmostRoundTrip(text, term, Split(text, term));
    }
  }

  /**
    For a non-empty term the marking is the split's alternation: a piece is
    marked exactly when it is an occurrence, every marked piece equals the
    term ignoring case, and no unmarked piece contains the term.
   */
  lemma HighlightMarksOccurrences(text: string, term: string)
    requires term != []
    ensures var segs := Highlight(text, term);
      && |segs| % 2 == 1
      && (forall k :: 0 <= k < |segs| ==> (segs[k].matched <==> k % 2 == 1))
      && (forall k :: 0 <= k < |segs| && segs[k].matched ==> EqualIgnoringCase(segs[k].text, term))
      && (forall k :: 0 <= k < |segs| && !segs[k].matched ==> !ContainsIgnoringCase(segs[k].text, term))
  {
    var parts := Split(text, term);
    var segs := Highlight(text, term);
    SplitIsLeftmost(text, term);
    LeftmostAlternates(text, term, parts);
    forall k | 0 <= k < |segs|
      ensures segs[k].matched <==> k % 2 == 1
    {
      LowerEqualIff(parts[k], term);
      if k % 2 == 0 && EqualIgnoringCase(parts[k], term) {
        assert parts[k][0..|term|] == parts[k];
        assert OccursAt(parts[k], term, 0);
      }
    }
  }

  /**
    The splitting loop: repeatedly finds the leftmost occurrence in what is
    left of the text, emits the piece before it and the occurrence, and
    continues after the occurrence.
   */
  method SplitScan(text: string, term: string) returns (parts: seq<string>)
    requires term != []
    ensures parts == Split(text, term)
  {
    parts := [];
    var rest := text;
    while true
      invariant parts + Split(rest, term) == Split(text, term)
      decreases |rest|
    {
      var found := IndexOfScan(Lower(rest), Lower(term));
      if found.None? {
        parts := parts + [rest];
        return;
      }
      var i := found.value;
      parts := parts + [rest[..i], rest[i..i + |term|]];
      rest := rest[i + |term|..];
    }
  }

  /** The highlighting loop: splits the text, then marks each piece that equals the term ignoring case. */
  method HighlightScan(text: string, term: string) returns (segs: seq<Segment>)
    ensures segs == Highlight(text, term)
  {
    if term == [] {
      return [Segment(text, false)];
    }
    var parts := SplitScan(text, term);
    var lowerTerm := Lower(term);
    segs := [];
    var k := 0;
    while k < |parts|
      invariant k <= |parts|
      invariant |segs| == k
      invariant forall j :: 0 <= j < k ==> segs[j] == Segment(parts[j], Lower(parts[j]) == lowerTerm)
    {
      segs := segs + [Segment(parts[k], Lower(parts[k]) == lowerTerm)];
      k := k + 1;
    }
  }
}
