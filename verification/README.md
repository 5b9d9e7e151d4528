# Health & Safety Framework Viewer — search, filter and expansion model

The viewer shows a static health-and-safety framework. It is a document of
sections. Each section holds categories, and each category has a name, a list
of elements and a list of control measures. Under the React markup sits a
small decision layer. This project models that layer as pure Dafny functions
over immutable data and proves its laws:

- **Matching** (`matchesSearch`): a category is shown when the search term is
  empty, or when its name, one of its elements or one of its control measures
  contains the term, ignoring case.
- **Filtering** (`filteredElements`, `filteredMeasures`): each list keeps only
  the items that contain the term, in their original order.
- **Filter projection** (`showElements`, `showMeasures`): the filter button
  picks which of the two lists an open category shows.
- **Highlighting** (`HighlightText`): a line is cut at each leftmost,
  non-overlapping occurrence of the term. The occurrences are marked.
- **View state**: the search term, the filter type, which section is expanded
  (none, every section, or one key), and each category's own `isExpanded`
  flag. The transitions are typing in the search box, clicking a section
  header, clicking a filter button and clicking a category header. A render
  function derives what is on screen from the document and the state.

Files, one module each:

| file | module | contents |
|---|---|---|
| `text.dfy` | `Text` | ASCII lower-casing, literal `indexOf`/`includes`, case-insensitive occurrence |
| `framework.dfy` | `Framework` | `Category`, `Section`, `Document`, `FilterType` and its button ids |
| `search.dfy` | `Search` | matching, filtering, filter projection |
| `highlight.dfy` | `Highlighting` | splitting and marking, with the leftmost-cut reference definition |
| `viewer.dfy` | `Viewer` | view state, transitions, render derivation, the stored form of `expandedSection` |
| `scenarios.dfy` | `Scenarios` | worked examples on a one-section document |

The document is a parameter (`Document`). It is not loaded from the JSON data
file. `Object.entries` order becomes the order of `Document.sections`, and
`Object.values` order becomes the order of `Section.categories`.

Where the code and an informal reading of the viewer differ, the model follows
the code:

- **Highlight output for a match at index 0.** The split produces an empty
  leading piece. Highlighting "glov" in "Gloves" gives `""`, then `"Glov"`
  (marked), then `"es"` (`Scenarios.HighlightGlov`).
- **Lifetime of a category's `isExpanded` flag.** React keeps the flag only
  while the category's section content is mounted. Hiding a section
  (clearing the search, or clicking another section's header) throws away
  the flags of its categories. A non-empty search keeps every section
  mounted, so it keeps every flag. A filter change never touches the flags.
  The model keeps the set of open categories and prunes it to the visible
  sections after each transition (`Viewer.Prune`).

## Model

The source calls the built-in `includes`, `some`, `filter` and `split`; it
has no loops of its own. `Text.IndexOf` is the literal search behind
`includes` and behind the cuts of `split`. The members named `…Scan` are
executable loop versions of the functional definitions, each proved equal to
its definition; they cite the lines whose built-in call they implement.


| member | source | states |
|---|---|---|
| `Text.LowerEqualIff` | health-safety-framework-viewer.js:52 | two lower-cased strings are equal exactly when the originals agree position by position ignoring case |
| `Text.IndexOf` | health-safety-framework-viewer.js:69-71 | the returned index is a literal occurrence, none occurs between the start point and it, and None means no occurrence at or after the start point |
| `Text.Includes` | health-safety-framework-viewer.js:69-71 | `includes` is true exactly when the needle is a substring of the haystack |
| `Text.IncludesIgnoringCase` | health-safety-framework-viewer.js:69-71 | comparing lower-cased strings with `includes` is true exactly when the term occurs in the text ignoring case |
| `Text.IndexOfScan` | health-safety-framework-viewer.js:69-71 | an executable scanning loop for the literal search behind `includes`, proved to return the same first occurrence as the reference search |
| `Search.AnyIncludes` | health-safety-framework-viewer.js:70-71 | `some` over a list is true exactly when some item contains the term ignoring case |
| `Search.MatchesSearch` | health-safety-framework-viewer.js:65-74 | the empty term matches every category; otherwise a category matches exactly when the name, an element or a control measure contains the term ignoring case |
| `Search.FilterItems` | health-safety-framework-viewer.js:76-84 | the empty term leaves the list unchanged; otherwise every kept item contains the term, every item containing it is kept, and the list never grows |
| `Search.FilterIsSubsequence` | health-safety-framework-viewer.js:78 | the filtered list is an order-preserving subsequence of the input |
| `Search.FilterMultiplicity` | health-safety-framework-viewer.js:76-84 | each matching item keeps all its copies and every other item loses all of them, so with the order law the result is fixed |
| `Search.FilterAgreesWithVisibility` | health-safety-framework-viewer.js:65-86 | a surviving element or measure makes the category visible, and a hidden category has both filtered lists empty |
| `Search.ShowElements` | health-safety-framework-viewer.js:88 | elements are shown under every filter except the control-measures one |
| `Search.ShowMeasures` | health-safety-framework-viewer.js:89 | control measures are shown under every filter except the elements one |
| `Search.ProjectionTable` | health-safety-framework-viewer.js:88-89 | `all` shows both lists, `elements` only elements, `controlMeasures` only measures, and every filter shows at least one list |
| `Search.FilterScan` | health-safety-framework-viewer.js:76-84 | an executable one-pass loop for `filter`, proved to yield exactly the filtered list |
| `Search.ProjectionById` | health-safety-framework-viewer.js:88-89 | deciding on the stored button id agrees with deciding on the filter type it names, and an id naming no filter type shows neither list |
| `Framework.Lookup` | health-safety-framework-viewer.js:154 | a found section is stored under the key in the document, and None means no entry has that key |
| `Framework.LookupFindsEntry` | health-safety-framework-viewer.js:154 | with unique keys, looking up an entry's key returns that entry's section |
| `Framework.ParseFilter` | health-safety-framework-viewer.js:19-23 | a button id that is read back names a filter type with that id, and an id that is not read back belongs to no filter type |
| `Framework.ParseFilterId` | health-safety-framework-viewer.js:19-23 | every filter type's button id reads back to that filter type |
| `Highlighting.Split` | health-safety-framework-viewer.js:48 | the split always has an odd number of pieces, so unmatched and matched pieces alternate, starting and ending unmatched |
| `Highlighting.SplitIsLeftmost` | health-safety-framework-viewer.js:48 | the split meets the reference definition: each cut is at the leftmost occurrence in the rest of the text, and the last piece holds no occurrence |
| `Highlighting.LeftmostFirstCut` | health-safety-framework-viewer.js:48 | in a leftmost cut the first piece ends at the first occurrence, and a single piece means the term never occurs |
| `Highlighting.LeftmostUnique` | health-safety-framework-viewer.js:48 | at most one cut meets the reference definition, so the definition fixes the pieces |
| `Highlighting.LeftmostRoundTrip` | health-safety-framework-viewer.js:48 | the pieces of a leftmost cut concatenate back to the text |
| `Highlighting.LeftmostAlternates` | health-safety-framework-viewer.js:48 | odd-numbered pieces equal the term ignoring case, and even-numbered pieces contain no occurrence of it |
| `Highlighting.HighlightEmptyTerm` | health-safety-framework-viewer.js:46 | with the empty term the text comes back unchanged as one unmarked piece |
| `Highlighting.HighlightRoundTrip` | health-safety-framework-viewer.js:45-58 | for every term, concatenating the highlighted pieces in order reproduces the text exactly |
| `Highlighting.HighlightMarksOccurrences` | health-safety-framework-viewer.js:48-57 | a piece is marked exactly at the odd positions, marked pieces equal the term ignoring case, and unmarked pieces contain no occurrence |
| `Highlighting.Highlight` | health-safety-framework-viewer.js:45-58 | the pieces are odd in number, and whatever the term, a marked piece equals it ignoring case; the round trip and the exact marking are `Highlighting.HighlightRoundTrip` and `Highlighting.HighlightMarksOccurrences` |
| `Highlighting.SplitScan` | health-safety-framework-viewer.js:48 | an executable repeated-search loop for `split`, proved to produce exactly the split |
| `Highlighting.HighlightScan` | health-safety-framework-viewer.js:45-58 | an executable splitting-and-marking loop, proved to produce exactly the highlighted pieces |
| `Viewer.Prune` | health-safety-framework-viewer.js:170-183 | no flag is ever set by a change of expansion, only flags of visible sections survive; expanding every section keeps all flags, collapsing every section drops all, and expanding one section keeps exactly that section's flags |
| `Viewer.PruneKeepsMounted` | health-safety-framework-viewer.js:170-183 | when every flag already belongs to a visible section, keeping the expansion loses no flag |
| `Viewer.Initial` | health-safety-framework-viewer.js:134-136 | the page starts with an empty search, the all filter and no section visible, and no category flag outside a visible section |
| `Viewer.HeaderRendered` | health-safety-framework-viewer.js:93-99 | a category header is on screen only when its section is visible and a section under that key holds a matching category at that position, and never for a key the document lacks |
| `Viewer.HandleSearch` | health-safety-framework-viewer.js:138-145 | the term is stored; a non-empty term shows every section and keeps all flags; the empty term hides every section and drops all flags, whatever the previous state |
| `Viewer.ToggleSection` | health-safety-framework-viewer.js:159 | section k is visible afterwards exactly when it was not the one expanded section, no other section is visible, only k's categories keep their flags, and term and filter are unchanged |
| `Viewer.ToggleSectionTwice` | health-safety-framework-viewer.js:159 | two clicks on the header of the one expanded section leave it expanded again, with its categories closed |
| `Viewer.SetFilter` | health-safety-framework-viewer.js:152 | a filter click stores the chosen filter and changes nothing else |
| `Viewer.ToggleCategory` | health-safety-framework-viewer.js:94 | a click on a shown category header negates exactly that category's flag; a header not on screen changes nothing; term, filter and expansion stay |
| `Viewer.ToggleCategoryTwice` | health-safety-framework-viewer.js:94 | two clicks on a category header restore the state |
| `Viewer.TransitionsKeepMounted` | health-safety-framework-viewer.js:170-183 | the initial state and every transition keep open flags only on categories of visible sections |
| `Viewer.NoSentinelCollision` | health-safety-framework-viewer.js:162 | opening a section keyed "all" makes only that section visible |
| `Viewer.SentinelCollisionAsWritten` | health-safety-framework-viewer.js:159-170 | with the stored string form, clicking a section keyed "all" makes every section visible |
| `Viewer.StoredAgrees` | health-safety-framework-viewer.js:159-170 | away from the key "all", the stored string form and the three-way expansion give the same visibility and the same header-click result |
| `Viewer.HighlightAllMarks` | health-safety-framework-viewer.js:107-123 | in every highlighted line the marked pieces equal the term ignoring case, and for a non-empty term no unmarked piece contains it |
| `Viewer.HighlightAllRoundTrip` | health-safety-framework-viewer.js:107-123 | the highlighted lines of a list are one per item, each reading back as its item |
| `Viewer.RenderCategory` | health-safety-framework-viewer.js:86-126 | a category is drawn exactly when the term is empty or its name, an element or a measure contains the term ignoring case; a drawn category shows as open exactly when its flag is set, and its element and measure lines are one per filtered item, reading back as those items, when it is open and the filter selects that list, and none otherwise; each line is its item highlighted against the term, so marked pieces equal the term and, for a non-empty term, unmarked pieces contain no occurrence |
| `Viewer.ElementLinesContainTerm` | health-safety-framework-viewer.js:101-114 | every element line a category shows reads as one of its own elements, and that element contains the term ignoring case |
| `Viewer.MeasureLinesContainTerm` | health-safety-framework-viewer.js:115-126 | every measure line a category shows reads as one of its own control measures, and that measure contains the term ignoring case |
| `Viewer.MatchingIndices` | health-safety-framework-viewer.js:172-181 | the drawn positions all match, are increasing, include every matching category, and cover all categories for the empty term |
| `Viewer.RenderCategoriesExact` | health-safety-framework-viewer.js:172-181 | a visible section draws exactly its matching categories, in document order, each as the category view draws it |
| `Viewer.RenderSection` | health-safety-framework-viewer.js:154-185 | a card shows category i exactly when its section is visible and the category matches; every category it draws is that category's own view, in increasing position order |
| `Viewer.Render` | health-safety-framework-viewer.js:154-185 | one card per document section, in document order, and category i of section k is on screen exactly when section k is visible and the category matches the term |
| `Viewer.HeaderRenderedIffOnScreen` | health-safety-framework-viewer.js:93-99 | with unique section keys, a category header can be clicked exactly when the page shows that category |
| `Scenarios.SearchGlov` | health-safety-framework-viewer.js:65-74 | typing "glov" expands every section and PPE matches |
| `Scenarios.FilterGlov` | health-safety-framework-viewer.js:76-79 | only Gloves survives "glov" among PPE's elements |
| `Scenarios.HighlightGlov` | health-safety-framework-viewer.js:45-58 | "Gloves" highlighted for "glov" is an empty piece, then "Glov" marked, then "es" |
| `Scenarios.SearchDot` | health-safety-framework-viewer.js:65-84 | a dot matches nothing in PPE and filters every element out |
| `Scenarios.HighlightDot` | health-safety-framework-viewer.js:48 | a dot is cut out as a literal character |
| `Scenarios.ClearSearch` | health-safety-framework-viewer.js:138-145 | clearing the search collapses a section that was open |

## Left out

- JSX markup, CSS classes, icons and the `Card` components are presentation over a UI toolkit whose code is not part of this model. `SearchBar` and `FilterButtons` are modelled only by the values they pass: the typed string and the filter id.
- The JSON import of the data file is left out. It is external data, so the document is a parameter.
- `useMemo` caching is left out. It does not change any output, so the plain functions are modelled.
- `Text.Lower`: this is ASCII lower-casing, not full Unicode `toLowerCase`. Unicode lower-casing can change a string's length, and that would break the round-trip law.
- `Highlighting.Split`: this cuts at literal occurrences of the term. The source passes the raw term to `new RegExp`. So a term holding pattern characters (`.`, `*`, `(`, …) either matches as a pattern or throws. The model uses the evidently intended literal match. The JavaScript regular-expression engine is not modelled, so that half has no as-written member.
- `Framework.FilterType`: has only the three button values. The source stores a plain string; `Search.ProjectionById` shows that any other string would show neither list. No caller can produce another string.
- Keyboard focus, rendering order of React effects and re-render timing are not modelled: every transition is one atomic state change.

## Findings

| source | as written | input that shows it | evidently intended | confidence | as-written member | corrected member |
|---|---|---|---|---|---|---|
| health-safety-framework-viewer.js:159-170 | `expandedSection` holds either a section key or the string `'all'`, which also means "every section" | a document with a section keyed "all": clicking its header stores "all", and every section opens | clicking a header opens only that section | medium (only bites if the data has a key "all"); not executed | `Viewer.SentinelCollisionAsWritten` | `Viewer.ToggleSection` |
