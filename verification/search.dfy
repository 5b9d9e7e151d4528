/**
  The decision layer of a category view: whether a category matches the
  search term, which of its elements and control measures survive the
  term, and which of the two lists the filter type shows.
 */
module Search {
  import opened Text
  import opened Framework

  /** True when at least one item of the list contains the term, comparing lower-cased text. */
  function AnyIncludes(items: seq<string>, term: string): (r: bool)
    ensures r <==> exists k :: 0 <= k < |items| && ContainsIgnoringCase(items[k], term)
    decreases |items|
  {
    if items == [] then false
    else if IncludesIgnoringCase(items[0], term) then true
    else
      var r := AnyIncludes(items[1..], term);
      assert r ==> exists k :: 0 <= k < |items| && ContainsIgnoringCase(items[k], term) by {
        if r {
          var k :| 0 <= k < |items[1..]| && ContainsIgnoringCase(items[1..][k], term);
          assert items[k + 1] == items[1..][k];
        }
      }
      assert (exists k :: 0 <= k < |items| && ContainsIgnoringCase(items[k], term)) ==> r by {
        if exists k :: 0 <= k < |items| && ContainsIgnoringCase(items[k], term) {
          var k :| 0 <= k < |items| && ContainsIgnoringCase(items[k], term);
          assert k != 0;
          assert items[1..][k - 1] == items[k];
        }
      }
      r
  }

  /**
    A category matches when the term is empty, or when its name, one of its
    elements or one of its control measures contains the term ignoring case.
   */
  function MatchesSearch(c: Category, term: string): (r: bool)
    ensures term == [] ==> r
    ensures term != [] ==>
      (r <==> || ContainsIgnoringCase(c.name, term)
              || (exists k :: 0 <= k < |c.elements| && ContainsIgnoringCase(c.elements[k], term))
              || (exists k :: 0 <= k < |c.controlMeasures| && ContainsIgnoringCase(c.controlMeasures[k], term)))
  {
    if term == [] then true
    else IncludesIgnoringCase(c.name, term) || AnyIncludes(c.elements, term) || AnyIncludes(c.controlMeasures, term)
  }

  /** The items whose lower-cased text includes the lower-cased term, in their original order. */
  function Keep(items: seq<string>, term: string): (r: seq<string>)
    ensures |r| <= |items|
    ensures forall x :: x in r ==> x in items && ContainsIgnoringCase(x, term)
    ensures forall x :: x in items && ContainsIgnoringCase(x, term) ==> x in r
    decreases |items|
  {
    if items == [] then []
    else
      var last := items[|items| - 1];
      var front := items[..|items| - 1];
      assert items == front + [last];
      Keep(front, term) + (if IncludesIgnoringCase(last, term) then [last] else [])
  }

  /** The list a category view shows for one of its lists: everything for the empty term, otherwise the items containing it. */
  function FilterItems(items: seq<string>, term: string): (r: seq<string>)
    ensures term == [] ==> r == items
    ensures |r| <= |items|
    ensures forall x :: x in r ==> x in items && ContainsIgnoringCase(x, term)
    ensures forall x :: x in items && ContainsIgnoringCase(x, term) ==> x in r
  {
    if term == [] then
      forall x ensures ContainsIgnoringCase(x, term) {
        EmptyTermOccurs(x);
      }
      items
    else Keep(items, term)
  }

  function FilteredElements(c: Category, term: string): seq<string> {
    FilterItems(c.elements, term)
  }

  function FilteredMeasures(c: Category, term: string): seq<string> {
    FilterItems(c.controlMeasures, term)
  }

  /** `a` can be obtained from `b` by deleting items, keeping the order of the rest. */
  ghost predicate IsSubsequence(a: seq<string>, b: seq<string>)
    decreases |b|
  {
    if a == [] then true
    else if b == [] then false
    else
      || (a[|a| - 1] == b[|b| - 1] && IsSubsequence(a[..|a| - 1], b[..|b| - 1]))
      || IsSubsequence(a, b[..|b| - 1])
  }

  lemma {:induction false} KeepIsSubsequence(items: seq<string>, term: string)
    ensures IsSubsequence(Keep(items, term), items)
    decreases |items|
  {
    if items != [] {
      var last := items[|items| - 1];
      var front := items[..|items| - 1];
      var r := Keep(items, term);
      KeepIsSubsequence(front, term);
      if IncludesIgnoringCase(last, term) {
        assert r[..|r| - 1] == Keep(front, term);
      } else {
        assert r == Keep(front, term);
      }
    }
  }

  /** Filtering keeps the surviving items in their original order. */
  lemma FilterIsSubsequence(items: seq<string>, term: string)
    ensures IsSubsequence(FilterItems(items, term), items)
  {
    if term == [] {
      IdentityIsSubsequence(items);
    } else {
      KeepIsSubsequence(items, term);
    }
  }

  lemma {:induction false} IdentityIsSubsequence(items: seq<string>)
    ensures IsSubsequence(items, items)
    decreases |items|
  {
    if items != [] {
      IdentityIsSubsequence(items[..|items| - 1]);
    }
  }

  lemma {:induction false} KeepMultiplicity(items: seq<string>, term: string, x: string)
    ensures multiset(Keep(items, term))[x] == if ContainsIgnoringCase(x, term) then multiset(items)[x] else 0
    decreases |items|
  {
    if items != [] {
      var last := items[|items| - 1];
      var front := items[..|items| - 1];
      assert items == front + [last];
      KeepMultiplicity(front, term, x);
    }
  }

  /**
    Filtering keeps every copy of a matching item and drops every copy of
    any other: together with the order law this pins the result down exactly.
   */
  lemma FilterMultiplicity(items: seq<string>, term: string, x: string)
    ensures multiset(FilterItems(items, term))[x] == if ContainsIgnoringCase(x, term) then multiset(items)[x] else 0
  {
    if term == [] {
      EmptyTermOccurs(x);
    } else {
      KeepMultiplicity(items, term, x);
    }
  }

  /**
    Category visibility agrees with the filtered lists: a category that
    hides itself (renders nothing) has no element and no measure left after
    filtering, and any surviving item makes the category visible.
   */
  lemma FilterAgreesWithVisibility(c: Category, term: string)
    ensures FilteredElements(c, term) != [] ==> MatchesSearch(c, term)
    ensures FilteredMeasures(c, term) != [] ==> MatchesSearch(c, term)
    ensures !MatchesSearch(c, term) ==> FilteredElements(c, term) == [] && FilteredMeasures(c, term) == []
  {
    var es := FilteredElements(c, term);
    var ms := FilteredMeasures(c, term);
    if term != [] && es != [] {
      assert es[0] in es;
      var k :| 0 <= k < |c.elements| && c.elements[k] == es[0];
    }
    if term != [] && ms != [] {
      assert ms[0] in ms;
      var k :| 0 <= k < |c.controlMeasures| && c.controlMeasures[k] == ms[0];
    }
  }

  /** Elements are shown under the all and the elements filters. */
  function ShowElements(f: FilterType): (r: bool)
    ensures r <==> f != MeasuresOnly
  {
    f == AllItems || f == ElementsOnly
  }

  /** Control measures are shown under the all and the control-measures filters. */
  function ShowMeasures(f: FilterType): (r: bool)
    ensures r <==> f != ElementsOnly
  {
    f == AllItems || f == MeasuresOnly
  }

  /** Element visibility as the viewer decides it on the stored button id. */
  function ShowElementsById(id: string): bool {
    id == FilterId(AllItems) || id == FilterId(ElementsOnly)
  }

  /** Measure visibility as the viewer decides it on the stored button id. */
  function ShowMeasuresById(id: string): bool {
    id == FilterId(AllItems) || id == FilterId(MeasuresOnly)
  }

  /**
    Deciding on the stored id agrees with deciding on the filter type it
    names, and an id that names no filter type shows neither list.
   */
  lemma ProjectionById(id: string)
    ensures ShowElementsById(id) <==> ParseFilter(id).Some? && ShowElements(ParseFilter(id).value)
    ensures ShowMeasuresById(id) <==> ParseFilter(id).Some? && ShowMeasures(ParseFilter(id).value)
    ensures ParseFilter(id).None? ==> !ShowElementsById(id) && !ShowMeasuresById(id)
  {
  }

  /**
    The filter projection: `all` shows both lists, `elements` only the
    elements, `controlMeasures` only the measures; so every filter shows at
    least one list and only `all` shows both.
   */
  lemma ProjectionTable(f: FilterType)
    ensures ShowElements(f) && ShowMeasures(f) <==> f == AllItems
    ensures ShowElements(f) && !ShowMeasures(f) <==> f == ElementsOnly
    ensures !ShowElements(f) && ShowMeasures(f) <==> f == MeasuresOnly
    ensures ShowElements(f) || ShowMeasures(f)
  {
  }

  /**
    The filtering loop: walks the list once and appends each item whose
    lower-cased text includes the lower-cased term.
   */
  method FilterScan(items: seq<string>, term: string) returns (r: seq<string>)
    ensures r == FilterItems(items, term)
  {
    if term == [] {
      return items;
    }
    r := [];
    var i := 0;
    while i < |items|
      invariant i <= |items|
      invariant r == Keep(items[..i], term)
    {
      assert items[..i + 1][..i] == items[..i];
      if IncludesIgnoringCase(items[i], term) {
        r := r + [items[i]];
      }
      i := i + 1;
    }
    assert items[..i] == items;
  }
}
