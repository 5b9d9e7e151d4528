/**
  Worked examples on a one-section document: section "induction" holding the
  category PPE with elements Gloves and Boots and the control measure
  Daily check.
 */
module Scenarios {
  import opened Text
  import opened Framework
  import opened Search
  import opened Highlighting
  import opened Viewer

  const Ppe := Category("PPE", ["Gloves", "Boots"], ["Daily check"])

  const Induction := Document([("induction", Section("Induction", [Ppe]))])

  /** A text none of whose characters lower-cases to a dot holds no dot. */
  lemma NoDot(text: string)
    requires forall i :: 0 <= i < |text| ==> LowerChar(text[i]) != '.'
    ensures !ContainsIgnoringCase(text, ".")
  {
    forall j | 0 <= j < |text| ensures !OccursAt(text, ".", j) {
      assert text[j..j + 1][0] == text[j];
    }
  }

  /** Typing "glov" expands every section and keeps PPE on screen. */
  lemma SearchGlov()
    ensures HandleSearch(Initial(), "glov").expanded == ExpandAll
    ensures MatchesSearch(Ppe, "glov")
  {
    assert OccursAt("Gloves", "glov", 0);
  }

  /** Of PPE's elements only Gloves survives "glov". */
  lemma FilterGlov()
    ensures FilteredElements(Ppe, "glov") == ["Gloves"]
  {
    assert OccursAt("Gloves", "glov", 0);
    assert !ContainsIgnoringCase("Boots", "glov") by {
      forall j ensures !OccursAt("Boots", "glov", j) {
        if 0 <= j && j + 4 <= 5 {
          assert LowerChar("Boots"[j]) != 'g';
        }
      }
    }
  }

  /** Highlighting "glov" in Gloves: an empty leading piece, the marked "Glov", then "es". */
  lemma HighlightGlov()
    ensures Highlight("Gloves", "glov") == [Segment("", false), Segment("Glov", true), Segment("es", false)]
  {
    assert IndexOf(Lower("Gloves"), Lower("glov"), 0) == Some(0);
    assert IndexOf(Lower("es"), Lower("glov"), 0) == None;
    assert Split("es", "glov") == ["es"];
    assert "Gloves"[..0] == "" && "Gloves"[0..4] == "Glov" && "Gloves"[4..] == "es";
  }

  /** A dot is an ordinary character: it matches nothing in PPE. */
  lemma SearchDot()
    ensures !MatchesSearch(Ppe, ".")
    ensures FilteredElements(Ppe, ".") == []
  {
    NoDot("PPE");
    NoDot("Gloves");
    NoDot("Boots");
    NoDot("Daily check");
  }

  /** Highlighting a dot cuts out the literal dot only. */
  lemma HighlightDot()
    ensures Highlight("a.b", ".") == [Segment("a", false), Segment(".", true), Segment("b", false)]
  {
    assert Lower("a.b") == "a.b" && Lower(".") == "." && Lower("b") == "b";
    assert "a.b"[0..1] == "a" && "a.b"[1..2] == ".";
    assert IndexOf("a.b", ".", 1) == Some(1);
    assert IndexOf("a.b", ".", 0) == Some(1);
    assert "b"[0..1] != ".";
    assert IndexOf("b", ".", 0) == None;
    assert Split("b", ".") == ["b"];
    assert "a.b"[..1] == "a" && "a.b"[1..2] == "." && "a.b"[2..] == "b";
  }

  /** Clearing the search box collapses the section that was open. */
  lemma ClearSearch()
    ensures var s := ToggleSection(Initial(), "induction");
      && SectionVisible(s.expanded, "induction")
      && !SectionVisible(HandleSearch(s, "").expanded, "induction")
  {
  }
}
