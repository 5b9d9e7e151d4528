/**
  The viewer's state and its transitions (typing in the search box, clicking
  a section header, picking a filter, clicking a category header) and the
  pure derivation of what is on screen from the document and that state.

  `expandedSection` is either no section, every section, or one section key.
  Each category view owns an `isExpanded` flag; React keeps it only while the
  category's section content is mounted, so a category's flag survives
  exactly as long as its section stays visible. The set `open` holds the
  categories whose flag is true, named by section key and position.
 */
module Viewer {
  import opened Text
  import opened Framework
  import opened Search
  import opened Highlighting

  datatype Expanded = Collapsed | ExpandAll | Expand(key: string)

  datatype CategoryRef = CategoryRef(section: string, index: nat)

  datatype ViewState = ViewState(searchTerm: string, filterType: FilterType, expanded: Expanded, open: set<CategoryRef>)

  /** Empty search, the `all` filter, no section expanded, every category closed. */
  function Initial(): (r: ViewState)
    ensures r.searchTerm == [] && r.filterType == AllItems
    ensures forall key :: !SectionVisible(r.expanded, key)
    ensures Mounted(r)
  {
    ViewState("", AllItems, Collapsed, {})
  }

  /** A section's content is rendered when it is the expanded one or every section is expanded. */
  predicate SectionVisible(e: Expanded, key: string) {
    e == ExpandAll || e == Expand(key)
  }

  /** Only categories of a visible section are mounted, so only they can hold an open flag. */
  ghost predicate Mounted(s: ViewState) {
    forall q :: q in s.open ==> SectionVisible(s.expanded, q.section)
  }

  /** The flags that survive a change of expansion to `e`: those of sections still visible. */
  function Prune(open: set<CategoryRef>, e: Expanded): (r: set<CategoryRef>)
    ensures r <= open
    ensures forall q :: q in r ==> SectionVisible(e, q.section)
    ensures e == ExpandAll ==> r == open
    ensures e == Collapsed ==> r == {}
    ensures e.Expand? ==> forall q :: q in r <==> q in open && q.section == e.key
  {
    set q | q in open && SectionVisible(e, q.section)
  }

  /** Flags already confined to visible sections all survive when the expansion stays as it is. */
  lemma PruneKeepsMounted(s: ViewState)
    requires Mounted(s)
    ensures Prune(s.open, s.expanded) == s.open
  {
  }

  /**
    `handleSearch`: stores the term; a non-empty term expands every section
    (no category loses its flag), the empty term collapses every section
    (every category loses its flag), whatever was expanded before.
   */
  function HandleSearch(s: ViewState, term: string): (t: ViewState)
    ensures t.searchTerm == term && t.filterType == s.filterType
    ensures term != [] ==> t.expanded == ExpandAll && t.open == s.open
    ensures term == [] ==> t.expanded == Collapsed && t.open == {}
    ensures forall key :: SectionVisible(t.expanded, key) <==> term != []
  {
    var e := if term != [] then ExpandAll else Collapsed;
    ViewState(term, s.filterType, e, Prune(s.open, e))
  }

  /**
    A click on the header of section `k`: collapses it when it is the one
    expanded section, otherwise makes it the one expanded section (also when
    every section was expanded).
   */
  function ToggleSection(s: ViewState, k: string): (t: ViewState)
    ensures t.searchTerm == s.searchTerm && t.filterType == s.filterType
    ensures SectionVisible(t.expanded, k) <==> s.expanded != Expand(k)
    ensures forall j :: j != k ==> !SectionVisible(t.expanded, j)
    ensures forall q :: q in t.open <==> q in s.open && q.section == k && s.expanded != Expand(k)
  {
    var e := if s.expanded == Expand(k) then Collapsed else Expand(k);
    s.(expanded := e, open := Prune(s.open, e))
  }

  /** A click on a filter button: the filter changes and nothing else does. */
  function SetFilter(s: ViewState, f: FilterType): (t: ViewState)
    ensures t.filterType == f
    ensures t.searchTerm == s.searchTerm && t.expanded == s.expanded && t.open == s.open
  {
    s.(filterType := f)
  }

  /**
    The header button of category `r` is on screen: its section is visible,
    the category exists and it matches the search (otherwise the category
    renders nothing).
   */
  function HeaderRendered(doc: Document, s: ViewState, r: CategoryRef): (b: bool)
    ensures b ==> SectionVisible(s.expanded, r.section)
    ensures b ==> exists k :: 0 <= k < |doc.sections| && doc.sections[k].0 == r.section
                             && r.index < |doc.sections[k].1.categories|
                             && MatchesSearch(doc.sections[k].1.categories[r.index], s.searchTerm)
    ensures (forall k :: 0 <= k < |doc.sections| ==> doc.sections[k].0 != r.section) ==> !b
  {
    && SectionVisible(s.expanded, r.section)
    && match Lookup(doc, r.section)
       case None => false
       case Some(sec) => r.index < |sec.categories| && MatchesSearch(sec.categories[r.index], s.searchTerm)
  }

  /** A click on a category header negates that category's flag; nothing else changes. */
  function ToggleCategory(doc: Document, s: ViewState, r: CategoryRef): (t: ViewState)
    ensures t.searchTerm == s.searchTerm && t.filterType == s.filterType && t.expanded == s.expanded
    ensures HeaderRendered(doc, s, r) ==> (r in t.open <==> r !in s.open)
    ensures !HeaderRendered(doc, s, r) ==> t == s
    ensures forall q :: q != r ==> (q in t.open <==> q in s.open)
  {
    if !HeaderRendered(doc, s, r) then s
    else if r in s.open then s.(open := s.open - {r})
    else s.(open := s.open + {r})
  }

  /** Clicking a category header twice restores the state. */
  lemma ToggleCategoryTwice(doc: Document, s: ViewState, r: CategoryRef)
    ensures ToggleCategory(doc, ToggleCategory(doc, s, r), r) == s
  {
    var t := ToggleCategory(doc, s, r);
    var u := ToggleCategory(doc, t, r);
    assert HeaderRendered(doc, t, r) == HeaderRendered(doc, s, r);
    assert u.open == s.open;
  }

  /** Clicking the header of the one expanded section twice leaves that section expanded again. */
  lemma ToggleSectionTwice(s: ViewState, k: string)
    requires s.expanded == Expand(k)
    ensures ToggleSection(ToggleSection(s, k), k).expanded == s.expanded
    ensures ToggleSection(ToggleSection(s, k), k).open == {}
  {
  }

  /** The initial state and every transition keep flags only on mounted categories. */
  lemma TransitionsKeepMounted(doc: Document, s: ViewState, term: string, k: string, f: FilterType, r: CategoryRef)
    requires Mounted(s)
    ensures Mounted(Initial())
    ensures Mounted(HandleSearch(s, term))
    ensures Mounted(ToggleSection(s, k))
    ensures Mounted(SetFilter(s, f))
    ensures Mounted(ToggleCategory(doc, s, r))
  {
  }

  /** A section key spelled "all" opens only itself: the expansion states cannot be confused. */
  lemma NoSentinelCollision(k: string)
    ensures SectionVisible(ToggleSection(Initial(), "all").expanded, k) <==> k == "all"
  {
  }

  // ---- `expandedSection` as the source stores it ----

  /** The stored value: null, or a string in which "all" also stands for every section. */
  function Stored(e: Expanded): Option<string> {
    match e
    case Collapsed => None
    case ExpandAll => Some("all")
    case Expand(k) => Some(k)
  }

  /** Visibility on the stored value: it names the section, or it is the string meaning every section. */
  predicate SectionVisibleAsWritten(stored: Option<string>, key: string) {
    stored == Some(key) || stored == Some("all")
  }

  /** A header click on the stored value: clears it when it names the section, otherwise stores the raw key. */
  function ToggleSectionAsWritten(stored: Option<string>, k: string): Option<string> {
    if stored == Some(k) then None else Some(k)
  }

  /** As written, a section keyed "all" opens every section when its header is clicked. */
  lemma SentinelCollisionAsWritten(j: string)
    ensures SectionVisibleAsWritten(ToggleSectionAsWritten(None, "all"), j)
  {
  }

  /**
    Away from the key "all", the stored value and the three-way expansion
    agree: same visibility, and a header click moves both the same way.
   */
  lemma StoredAgrees(e: Expanded, k: string, j: string)
    requires k != "all" && j != "all" && e != Expand("all")
    ensures SectionVisibleAsWritten(Stored(e), j) <==> SectionVisible(e, j)
    ensures ToggleSectionAsWritten(Stored(e), k) == Stored(ToggleSection(ViewState("", AllItems, e, {}), k).expanded)
  {
  }

  // ---- what is on screen ----

  datatype CategoryView = CategoryView(index: nat, name: string, open: bool,
                                       elements: seq<seq<Segment>>, measures: seq<seq<Segment>>)

  datatype SectionView = SectionView(key: string, title: string, expanded: bool, categories: seq<CategoryView>)

  /** The highlighted lines read, one by one, as the given items. */
  ghost predicate ReadsAs(lines: seq<seq<Segment>>, items: seq<string>) {
    |lines| == |items| && forall k :: 0 <= k < |lines| ==> Join(Texts(lines[k])) == items[k]
  }

  /** Each item of a list, highlighted against the term. */
  function HighlightAll(items: seq<string>, term: string): seq<seq<Segment>> {
    seq(|items|, k requires 0 <= k < |items| => Highlight(items[k], term))
  }

  /**
    In every line the marked pieces equal the term ignoring case, and for a
    non-empty term no unmarked piece contains it.
   */
  ghost predicate MarksTerm(lines: seq<seq<Segment>>, term: string) {
    forall k, p :: 0 <= k < |lines| && 0 <= p < |lines[k]| ==>
      && (lines[k][p].matched ==> EqualIgnoringCase(lines[k][p].text, term))
      && (term != [] && !lines[k][p].matched ==> !ContainsIgnoringCase(lines[k][p].text, term))
  }

  /** Every highlighted line marks exactly the occurrences of the term. */
  lemma HighlightAllMarks(items: seq<string>, term: string)
    ensures MarksTerm(HighlightAll(items, term), term)
  {
    var lines := HighlightAll(items, term);
    forall k: int | 0 <= k < |lines| && term != []
      ensures forall p :: 0 <= p < |Highlight(items[k], term)| && !Highlight(items[k], term)[p].matched ==>
        !ContainsIgnoringCase(Highlight(items[k], term)[p].text, term)
    {
      HighlightMarksOccurrences(items[k], term);
    }
  }

  /** Each highlighted line still reads as its item. */
  lemma HighlightAllRoundTrip(items: seq<string>, term: string)
    ensures ReadsAs(HighlightAll(items, term), items)
  {
    forall k | 0 <= k < |items| ensures Join(Texts(HighlightAll(items, term)[k])) == items[k] {
      HighlightRoundTrip(items[k], term);
    }
  }

  /**
    `CategorySection`: nothing when the category does not match; otherwise
    its header, and when its flag is set, the filtered lists the filter type
    shows, each line highlighted.
   */
  function RenderCategory(key: string, i: nat, c: Category, s: ViewState): (r: Option<CategoryView>)
    ensures r.Some? <==>
      || s.searchTerm == []
      || ContainsIgnoringCase(c.name, s.searchTerm)
      || (exists k :: 0 <= k < |c.elements| && ContainsIgnoringCase(c.elements[k], s.searchTerm))
      || (exists k :: 0 <= k < |c.controlMeasures| && ContainsIgnoringCase(c.controlMeasures[k], s.searchTerm))
    ensures r.Some? ==> r.value.index == i && r.value.name == c.name
    ensures r.Some? ==> (r.value.open <==> CategoryRef(key, i) in s.open)
    ensures r.Some? ==>
      ReadsAs(r.value.elements, if r.value.open && ShowElements(s.filterType) then FilteredElements(c, s.searchTerm) else [])
    ensures r.Some? ==>
      ReadsAs(r.value.measures, if r.value.open && ShowMeasures(s.filterType) then FilteredMeasures(c, s.searchTerm) else [])
    ensures r.Some? ==> forall k :: 0 <= k < |r.value.elements| ==>
      r.value.elements[k] == Highlight(FilteredElements(c, s.searchTerm)[k], s.searchTerm)
    ensures r.Some? ==> forall k :: 0 <= k < |r.value.measures| ==>
      r.value.measures[k] == Highlight(FilteredMeasures(c, s.searchTerm)[k], s.searchTerm)
    ensures r.Some? ==> MarksTerm(r.value.elements, s.searchTerm) && MarksTerm(r.value.measures, s.searchTerm)
  {
    if !MatchesSearch(c, s.searchTerm) then None
    else
      var open := CategoryRef(key, i) in s.open;
      HighlightAllRoundTrip(FilteredElements(c, s.searchTerm), s.searchTerm);
      HighlightAllRoundTrip(FilteredMeasures(c, s.searchTerm), s.searchTerm);
      HighlightAllMarks(FilteredElements(c, s.searchTerm), s.searchTerm);
      HighlightAllMarks(FilteredMeasures(c, s.searchTerm), s.searchTerm);
      var es := if open && ShowElements(s.filterType) then HighlightAll(FilteredElements(c, s.searchTerm), s.searchTerm) else [];
      var ms := if open && ShowMeasures(s.filterType) then HighlightAll(FilteredMeasures(c, s.searchTerm), s.searchTerm) else [];
      Some(CategoryView(i, c.name, open, es, ms))
  }

  /**
    Every element line a drawn category shows reads as one of its own
    elements, and that element contains the term ignoring case.
   */
  lemma ElementLinesContainTerm(key: string, i: nat, c: Category, s: ViewState)
    ensures RenderCategory(key, i, c, s).Some? ==>
      var lines := RenderCategory(key, i, c, s).value.elements;
      forall k :: 0 <= k < |lines| ==>
        Join(Texts(lines[k])) in c.elements && ContainsIgnoringCase(Join(Texts(lines[k])), s.searchTerm)
  {
  }

  /** The same for control measures. */
  lemma MeasureLinesContainTerm(key: string, i: nat, c: Category, s: ViewState)
    ensures RenderCategory(key, i, c, s).Some? ==>
      var lines := RenderCategory(key, i, c, s).value.measures;
      forall k :: 0 <= k < |lines| ==>
        Join(Texts(lines[k])) in c.controlMeasures && ContainsIgnoringCase(Join(Texts(lines[k])), s.searchTerm)
  {
  }

  /** The positions holding true, in increasing order. */
  function Positions(flags: seq<bool>): (r: seq<nat>)
    ensures forall j :: 0 <= j < |r| ==> r[j] < |flags| && flags[r[j]]
    ensures forall i :: 0 <= i < |flags| && flags[i] ==> i in r
    ensures forall a, b :: 0 <= a < b < |r| ==> r[a] < r[b]
    ensures (forall i :: 0 <= i < |flags| ==> flags[i]) ==> |r| == |flags|
    decreases |flags|
  {
    if flags == [] then []
    else
      var n := |flags| - 1;
      var front := Positions(flags[..n]);
      assert forall i :: 0 <= i < n ==> flags[..n][i] == flags[i];
      if flags[n] then front + [n] else front
  }

  /** Positions of the categories that match the term, in increasing order. */
  function MatchingIndices(cats: seq<Category>, term: string): (r: seq<nat>)
    ensures forall j :: 0 <= j < |r| ==> r[j] < |cats| && MatchesSearch(cats[r[j]], term)
    ensures forall i :: 0 <= i < |cats| && MatchesSearch(cats[i], term) ==> i in r
    ensures forall a, b :: 0 <= a < b < |r| ==> r[a] < r[b]
    ensures term == [] ==> |r| == |cats|
  {
    Positions(seq(|cats|, i requires 0 <= i < |cats| => MatchesSearch(cats[i], term)))
  }

  /**
    The categories of a visible section, in document order: exactly the
    matching ones, each as `RenderCategory` draws it.
   */
  function RenderCategories(key: string, cats: seq<Category>, s: ViewState): (r: seq<CategoryView>)
  {
    var idx := MatchingIndices(cats, s.searchTerm);
    seq(|idx|, j requires 0 <= j < |idx| => RenderCategory(key, idx[j], cats[idx[j]], s).value)
  }

  /**
    A visible section draws its matching categories in document order, each
    as `RenderCategory` draws it, and every matching category is drawn; with
    the empty term every category is drawn.
   */
  lemma RenderCategoriesExact(key: string, cats: seq<Category>, s: ViewState)
    ensures var r := RenderCategories(key, cats, s);
      && (forall v :: v in r ==> v.index < |cats| && RenderCategory(key, v.index, cats[v.index], s) == Some(v))
      && (forall i :: 0 <= i < |cats| && MatchesSearch(cats[i], s.searchTerm) ==> exists v :: v in r && v.index == i)
      && (forall a, b :: 0 <= a < b < |r| ==> r[a].index < r[b].index)
      && (s.searchTerm == [] ==> |r| == |cats|)
  {
    var idx := MatchingIndices(cats, s.searchTerm);
    var r := RenderCategories(key, cats, s);
    assert forall j :: 0 <= j < |r| ==> r[j].index == idx[j];
    forall i | 0 <= i < |cats| && MatchesSearch(cats[i], s.searchTerm)
      ensures exists v :: v in r && v.index == i
    {
      var j :| 0 <= j < |idx| && idx[j] == i;
      assert r[j] in r;
    }
  }

  /** The section card draws the category at position `i`. */
  ghost predicate Shows(view: SectionView, i: nat) {
    exists v :: v in view.categories && v.index == i
  }

  /**
    One section card: the header always; when the section is visible, its
    matching categories in document order, each as `RenderCategory` draws
    it; when it is not, no category at all.
   */
  function RenderSection(entry: (string, Section), s: ViewState): (r: SectionView)
    ensures r.key == entry.0 && r.title == entry.1.title
    ensures r.expanded <==> SectionVisible(s.expanded, entry.0)
    ensures forall i: nat :: i < |entry.1.categories| ==>
      (Shows(r, i) <==> SectionVisible(s.expanded, entry.0) && MatchesSearch(entry.1.categories[i], s.searchTerm))
    ensures forall v :: v in r.categories ==>
      v.index < |entry.1.categories| && RenderCategory(entry.0, v.index, entry.1.categories[v.index], s) == Some(v)
    ensures forall a, b :: 0 <= a < b < |r.categories| ==> r.categories[a].index < r.categories[b].index
  {
    var visible := SectionVisible(s.expanded, entry.0);
    RenderCategoriesExact(entry.0, entry.1.categories, s);
    SectionView(entry.0, entry.1.title, visible,
                if visible then RenderCategories(entry.0, entry.1.categories, s) else [])
  }

  /**
    The whole page: one card per section, in document order; category `i`
    of section `k` is on screen exactly when the section is visible and the
    category matches the term.
   */
  function Render(doc: Document, s: ViewState): (r: seq<SectionView>)
    ensures |r| == |doc.sections|
    ensures forall k :: 0 <= k < |r| ==> r[k].key == doc.sections[k].0
    ensures forall k, i: nat :: 0 <= k < |r| && i < |doc.sections[k].1.categories| ==>
      (Shows(r[k], i) <==> SectionVisible(s.expanded, doc.sections[k].0) && MatchesSearch(doc.sections[k].1.categories[i], s.searchTerm))
  {
    seq(|doc.sections|, k requires 0 <= k < |doc.sections| => RenderSection(doc.sections[k], s))
  }

  /**
    With unique section keys, a category's header can be clicked exactly
    when the page shows that category.
   */
  lemma HeaderRenderedIffOnScreen(doc: Document, s: ViewState, k: nat, i: nat)
    requires DistinctKeys(doc)
    requires k < |doc.sections| && i < |doc.sections[k].1.categories|
    ensures HeaderRendered(doc, s, CategoryRef(doc.sections[k].0, i)) <==> Shows(Render(doc, s)[k], i)
  {
    LookupFindsEntry(doc, k);
  }
}
