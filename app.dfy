/** The `App` component's state: the active section, the scroll handler that
    recomputes it and the navigation command that sets it. */
module App {
  import opened Tracker
  import TrackerProperties

  /** What a navigation click does besides writing the state: either it asks
      the browser to scroll smoothly to the element, or the element lookup
      yields nothing and the call throws before the state is written. */
  datatype NavOutcome = ScrollIssued(id: string) | ElementMissing

  /** The component state of the page. */
  class Page {
    var activeSection: string

    /** The state is one of the five section ids. */
    ghost predicate Valid()
      reads this
    {
      activeSection in Sections
    }

    constructor ()
      ensures activeSection == InitialSection
      ensures Valid()
    {
      activeSection := InitialSection;
    }

    /** The classes of the five navigation buttons in the current state. */
    function NavClasses(): (bar: seq<string>)
      reads this
      ensures |bar| == |Sections|
      ensures forall i :: 0 <= i < |Sections| ==> (bar[i] == HighlightClass <==> Sections[i] == activeSection)
      ensures Valid() ==> HighlightCount(bar) == 1
    {
      var bar := NavBar(activeSection, Sections);
      assert Valid() ==> HighlightCount(bar) == 1 by {
        if activeSection in Sections {
          TrackerProperties.ExactlyOneHighlighted(activeSection);
        }
      }
      bar
    }

    /** Click handler of a navigation button: scroll to the element with the
        given id, then make that id the active section. */
    method ScrollToSection(id: string, dom: Dom) returns (outcome: NavOutcome)
      modifies this
      ensures outcome == if id in dom then ScrollIssued(id) else ElementMissing
      ensures activeSection == AfterNavigate(old(activeSection), id, dom)
      ensures old(Valid()) && id in Sections ==> Valid()
    {
      if id !in dom {
        return ElementMissing;
      }
      outcome := ScrollIssued(id);
      activeSection := id;
    }

    /** The scroll listener: test the sections in document order, skipping
        those without an element, and make the first one whose rectangle
        contains the viewport midpoint the active section. */
    method HandleScroll(dom: Dom, h: real)
      modifies this
      ensures activeSection == AfterScroll(old(activeSection), dom, h)
      ensures old(Valid()) ==> Valid()
    {
      var i := 0;
      while i < |Sections|
        invariant 0 <= i <= |Sections|
        invariant FirstMatchFrom(dom, h, i) == FirstMatch(dom, h)
        invariant activeSection == old(activeSection)
      {
        var section := Sections[i];
        if section in dom {
          var rect := dom[section];
          if rect.top <= h / 2.0 && rect.bottom >= h / 2.0 {
            activeSection := section;
            break;
          }
        }
        i := i + 1;
      }
    }

    /** Deliver one browser event to the component. */
    method Dispatch(ev: Event)
      modifies this
      ensures activeSection == Step(old(activeSection), ev)
      ensures old(Valid()) && FromPage(ev) ==> Valid()
    {
      match ev
      case Scroll(dom, h) =>
        HandleScroll(dom, h);
      case NavClick(section, dom) =>
        var _ := ScrollToSection(section, dom);
      case HeroClick(dom) =>
        var _ := ScrollToSection(HeroTarget, dom);
    }
  }

  /** The events the component reacts to: a scroll with the measurements of
      that moment, a click on a navigation button, a click on the hero button. */
  datatype Event =
    | Scroll(dom: Dom, h: real)
    | NavClick(section: string, dom: Dom)
    | HeroClick(dom: Dom)

  /** The page only renders navigation buttons for the five sections. */
  predicate FromPage(ev: Event) {
    ev.NavClick? ==> ev.section in Sections
  }

  /** The active section after one event. */
  function Step(active: string, ev: Event): string {
    match ev
    case Scroll(dom, h) => AfterScroll(active, dom, h)
    case NavClick(section, dom) => AfterNavigate(active, section, dom)
    case HeroClick(dom) => AfterNavigate(active, HeroTarget, dom)
  }

  /** The active section after a sequence of events, in dispatch order. */
  function Run(active: string, evs: seq<Event>): string
    decreases |evs|
  {
    if evs == [] then active else Run(Step(active, evs[0]), evs[1..])
  }

  /** Every event the page can produce keeps the state among the section ids. */
  lemma StepKeepsSection(active: string, ev: Event)
    requires active in Sections && FromPage(ev)
    ensures Step(active, ev) in Sections
  {
    if ev.Scroll? {
      TrackerProperties.ScrollKeepsSection(active, ev.dom, ev.h);
    }
  }

  /** Starting from any section id, any sequence of page events ends on a
      section id. */
  lemma {:induction false} RunKeepsSection(active: string, evs: seq<Event>)
    requires active in Sections
    requires forall k :: 0 <= k < |evs| ==> FromPage(evs[k])
    ensures Run(active, evs) in Sections
    decreases |evs|
  {
    if evs != [] {
      StepKeepsSection(active, evs[0]);
      RunKeepsSection(Step(active, evs[0]), evs[1..]);
    }
  }

  /** From any state that is a section id, in particular the initial one,
      every sequence of page events reaches a state in which exactly one
      navigation button is highlighted. */
  lemma ReachableHasOneHighlight(active: string, evs: seq<Event>)
    requires active in Sections
    requires forall k :: 0 <= k < |evs| ==> FromPage(evs[k])
    ensures HighlightCount(NavBar(Run(active, evs), Sections)) == 1
  {
    RunKeepsSection(active, evs);
    TrackerProperties.ExactlyOneHighlighted(Run(active, evs));
  }

  /** The optimistic write of a navigation and the recomputation of a later
      scroll pass agree: navigating to a section whose element exists makes
      it active whatever came before, and a pass in which that section is the
      first to contain the midpoint yields it from any prior state, the
      navigated one included, so the highlight does not flicker. */
  lemma NavigateThenScrollAgree(active: string, prior: string, id: string, dom: Dom, h: real, i: nat)
    requires i < |Sections| && Sections[i] == id && id in dom
    requires FirstMatch(dom, h) == Some(i)
    ensures AfterNavigate(active, id, dom) == id
    ensures AfterScroll(prior, dom, h) == id
  {
  }

  /** A navigation to an id without an element changes nothing, however many
      times it is repeated. */
  lemma {:induction false} MissingNavigationsChangeNothing(active: string, evs: seq<Event>)
    requires forall k :: 0 <= k < |evs| ==> evs[k].NavClick? && evs[k].section !in evs[k].dom
    ensures Run(active, evs) == active
    decreases |evs|
  {
    if evs != [] {
      MissingNavigationsChangeNothing(active, evs[1..]);
    }
  }
}
