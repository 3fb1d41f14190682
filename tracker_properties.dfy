/** Properties of the scroll pass and of the navigation bar. */
module TrackerProperties {
  import opened Tracker

  /** The five section ids are pairwise different. */
  lemma SectionsDistinct()
    ensures Distinct(Sections)
  {
  }

  /** A section whose rectangle spans the midpoint with the midpoint lying
      exactly on its top or its bottom edge is selected when no earlier
      section matches: the containment test is inclusive at both ends. */
  lemma InclusiveEdgeSelects(active: string, dom: Dom, h: real, i: nat)
    requires i < |Sections| && Sections[i] in dom
    requires dom[Sections[i]].top <= dom[Sections[i]].bottom
    requires dom[Sections[i]].top == Midpoint(h) || dom[Sections[i]].bottom == Midpoint(h)
    requires forall j :: 0 <= j < i ==> !Matches(dom, h, j)
    ensures AfterScroll(active, dom, h) == Sections[i]
  {
    assert Matches(dom, h, i);
    var r := FirstMatch(dom, h);
    assert r == Some(i);
  }

  /** A section without an element is never chosen by a scroll pass: the
      pass can end on that id only if it already was the active one. */
  lemma MissingSectionNeverSelected(active: string, dom: Dom, h: real, i: nat)
    requires i < |Sections| && Sections[i] !in dom
    ensures FirstMatch(dom, h) != Some(i)
    ensures AfterScroll(active, dom, h) == Sections[i] ==> active == Sections[i]
  {
    SectionsDistinct();
  }

  /** When two sections both contain the midpoint, the later one in
      document order is not chosen. */
  lemma EarlierSectionWins(active: string, dom: Dom, h: real, i: nat, j: nat)
    requires i < j < |Sections|
    requires Matches(dom, h, i) && Matches(dom, h, j)
    ensures AfterScroll(active, dom, h) != Sections[j]
  {
    SectionsDistinct();
    var r := FirstMatch(dom, h);
    assert r.Some? && r.value <= i;
  }

  /** A scroll pass over the same measurements a second time changes nothing. */
  lemma ScrollIdempotent(active: string, dom: Dom, h: real)
    ensures AfterScroll(AfterScroll(active, dom, h), dom, h) == AfterScroll(active, dom, h)
  {
  }

  /** The outcome of a pass depends only on the sections up to and including
      the one chosen: the rectangles of later sections, or their absence, do
      not matter. */
  lemma ScrollIgnoresLaterSections(active: string, dom: Dom, dom': Dom, h: real, i: nat)
    requires FirstMatch(dom, h) == Some(i)
    requires forall j :: 0 <= j <= i ==> (Sections[j] in dom <==> Sections[j] in dom')
    requires forall j :: 0 <= j <= i && Sections[j] in dom ==> dom[Sections[j]] == dom'[Sections[j]]
    ensures AfterScroll(active, dom', h) == AfterScroll(active, dom, h)
  {
    assert forall j :: 0 <= j <= i ==> (Matches(dom, h, j) <==> Matches(dom', h, j));
    assert FirstMatch(dom', h) == Some(i);
  }

  /** A pass never leaves the set of section ids. */
  lemma ScrollKeepsSection(active: string, dom: Dom, h: real)
    requires active in Sections
    ensures AfterScroll(active, dom, h) in Sections
  {
  }

  /** In a row of buttons with distinct ids, the number of highlighted
      buttons is one when the active id is among them and zero otherwise. */
  lemma {:induction false} HighlightCountOfDistinct(active: string, buttons: seq<string>)
    requires Distinct(buttons)
    ensures HighlightCount(NavBar(active, buttons)) == if active in buttons then 1 else 0
  {
    if buttons != [] {
      var rest := buttons[1..];
      assert Distinct(rest);
      HighlightCountOfDistinct(active, rest);
      assert NavBar(active, buttons) == [NavButtonClass(active, buttons[0])] + NavBar(active, rest);
      assert NavBar(active, buttons)[1..] == NavBar(active, rest);
      assert active in buttons <==> active == buttons[0] || active in rest;
      assert active == buttons[0] ==> active !in rest;
    }
  }

  /** Exactly one navigation button is highlighted whenever the active
      section is one of the five ids. */
  lemma ExactlyOneHighlighted(active: string)
    requires active in Sections
    ensures HighlightCount(NavBar(active, Sections)) == 1
  {
    SectionsDistinct();
    HighlightCountOfDistinct(active, Sections);
  }
}
