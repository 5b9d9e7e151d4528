/**
  The viewer's data: a document of sections, each holding categories with two
  ordered lists of text (elements and control measures), and the three
  filter types offered by the filter buttons.
 */
module Framework {
  import opened Text

  datatype Category = Category(name: string, elements: seq<string>, controlMeasures: seq<string>)

  datatype Section = Section(title: string, categories: seq<Category>)

  /** Sections in the order `Object.entries` yields them, each with its key. */
  datatype Document = Document(sections: seq<(string, Section)>)

  /** Object keys are unique, so a well-formed document never repeats a section key. */
  ghost predicate DistinctKeys(doc: Document) {
    forall i, j :: 0 <= i < j < |doc.sections| ==> doc.sections[i].0 != doc.sections[j].0
  }

  /** The first section stored under `key`, or None when the document has no such key. */
  function Lookup(doc: Document, key: string): (r: Option<Section>)
    ensures r.Some? ==> exists k :: 0 <= k < |doc.sections| && doc.sections[k] == (key, r.value)
    ensures r.None? ==> forall k :: 0 <= k < |doc.sections| ==> doc.sections[k].0 != key
    decreases |doc.sections|
  {
    if doc.sections == [] then None
    else if doc.sections[0].0 == key then Some(doc.sections[0].1)
    else
      var r := Lookup(Document(doc.sections[1..]), key);
      assert r.Some? ==> exists k :: 0 <= k < |doc.sections| && doc.sections[k] == (key, r.value) by {
        if r.Some? {
          var k :| 0 <= k < |doc.sections[1..]| && doc.sections[1..][k] == (key, r.value);
          assert doc.sections[k + 1] == (key, r.value);
        }
      }
      r
  }

  /** With unique keys, looking up the key stored at position k finds that very section. */
  lemma LookupFindsEntry(doc: Document, k: nat)
    requires DistinctKeys(doc)
    requires k < |doc.sections|
    ensures Lookup(doc, doc.sections[k].0) == Some(doc.sections[k].1)
  {
    var r := Lookup(doc, doc.sections[k].0);
    var j :| 0 <= j < |doc.sections| && doc.sections[j] == (doc.sections[k].0, r.value);
    assert j == k;
  }

  /** The three filter buttons: all, elements and controlMeasures. */
  datatype FilterType = AllItems | ElementsOnly | MeasuresOnly

  /** The button id the source stores in `filterType`. */
  function FilterId(f: FilterType): string {
    match f
    case AllItems => "all"
    case ElementsOnly => "elements"
    case MeasuresOnly => "controlMeasures"
  }

  /** Reads a button id back; any other string is not a filter type. */
  function ParseFilter(id: string): (r: Option<FilterType>)
    ensures r.Some? ==> FilterId(r.value) == id
    ensures r.None? ==> forall f :: FilterId(f) != id
  {
    if id == "all" then Some(AllItems)
    else if id == "elements" then Some(ElementsOnly)
    else if id == "controlMeasures" then Some(MeasuresOnly)
    else None
  }

  /** Every filter type is read back from its own id. */
  lemma ParseFilterId(f: FilterType)
    ensures ParseFilter(FilterId(f)) == Some(f)
  {
  }
}
