/** The active-section tracker of the portfolio page, as pure functions.

    The page has five sections in a fixed document order. On every scroll
    the tracker measures each section's bounding rectangle and marks as
    active the first section, in that order, whose rectangle contains the
    vertical midpoint of the viewport. Clicking a navigation button scrolls
    to a section and marks it active at once. The navigation bar highlights
    the button of the active section.

    The browser's document is abstracted as a map from element id to the
    element's bounding rectangle: an id that is not a key is an element that
    `getElementById` does not find. Coordinates are exact reals. */
module Tracker {

  /** The section ids, in the order the scroll handler tests them. */
  const Sections: seq<string> := ["home", "about", "skills", "projects", "contact"]

  /** The section that is active before any scroll or click. */
  const InitialSection: string := "home"

  /** The section the hero button ("View My Work") scrolls to. */
  const HeroTarget: string := "projects"

  /** A bounding rectangle in viewport coordinates; only its vertical extent matters. */
  datatype Rect = Rect(top: real, bottom: real)

  /** The elements of the page that `getElementById` can find, by id. */
  type Dom = map<string, Rect>

  /** The vertical midpoint of a viewport of height `h`. */
  function Midpoint(h: real): real {
    h / 2.0
  }

  /** The containment test of the scroll handler: inclusive at both ends. */
  predicate ContainsMidpoint(r: Rect, h: real) {
    r.top <= Midpoint(h) && r.bottom >= Midpoint(h)
  }

  /** Section number `i` has an element and that element spans the midpoint. */
  predicate Matches(dom: Dom, h: real, i: nat)
    requires i < |Sections|
  {
    Sections[i] in dom && ContainsMidpoint(dom[Sections[i]], h)
  }

  /** The index of the first section at or after `from` that matches. */
  function FirstMatchFrom(dom: Dom, h: real, from: nat): (r: Option<nat>)
    requires from <= |Sections|
    ensures r.Some? ==> from <= r.value < |Sections| && Matches(dom, h, r.value)
    ensures r.Some? ==> forall j :: from <= j < r.value ==> !Matches(dom, h, j)
    ensures r.None? <==> forall j :: from <= j < |Sections| ==> !Matches(dom, h, j)
    decreases |Sections| - from
  {
    if from == |Sections| then None
    else if Matches(dom, h, from) then Some(from)
    else FirstMatchFrom(dom, h, from + 1)
  }

  /** The index of the first section, in document order, that matches. */
  function FirstMatch(dom: Dom, h: real): Option<nat> {
    FirstMatchFrom(dom, h, 0)
  }

  /** The active section after one pass of the scroll handler: the first
      matching section, or the previous value when none matches. */
  function AfterScroll(active: string, dom: Dom, h: real): (r: string)
    ensures (exists i :: 0 <= i < |Sections| && Matches(dom, h, i))
              ==> exists k :: 0 <= k < |Sections| && Matches(dom, h, k) && r == Sections[k]
                               && forall j :: 0 <= j < k ==> !Matches(dom, h, j)
    ensures (forall i :: 0 <= i < |Sections| ==> !Matches(dom, h, i)) ==> r == active
  {
    match FirstMatch(dom, h)
    case Some(i) => Sections[i]
    case None => active
  }

  /** The active section after a click that navigates to `id`: the id when its
      element exists, and otherwise unchanged, because the call to scroll the
      missing element throws before the state is written. */
  function AfterNavigate(active: string, id: string, dom: Dom): (r: string)
    ensures id in dom ==> r == id
    ensures id !in dom ==> r == active
  {
    if id in dom then id else active
  }

  /** The classes that mark the navigation button of the active section. */
  const HighlightClass: string := "text-teal-400 border-b-2 border-teal-400"

  /** The classes of every other navigation button. */
  const PlainClass: string := "text-gray-300"

  /** The state-dependent class of the navigation button for `section`. */
  function NavButtonClass(active: string, section: string): (c: string)
    ensures c == HighlightClass <==> section == active
    ensures c == PlainClass <==> section != active
  {
    if active == section then HighlightClass else PlainClass
  }

  /** The state-dependent classes of a row of navigation buttons, one per id. */
  function NavBar(active: string, buttons: seq<string>): (bar: seq<string>)
    ensures |bar| == |buttons|
    ensures forall i :: 0 <= i < |buttons| ==> bar[i] == NavButtonClass(active, buttons[i])
  {
    if buttons == [] then []
    else [NavButtonClass(active, buttons[0])] + NavBar(active, buttons[1..])
  }

  /** The number of entries of `bar` that carry the highlight. */
  function HighlightCount(bar: seq<string>): nat {
    if bar == [] then 0
    else (if bar[0] == HighlightClass then 1 else 0) + HighlightCount(bar[1..])
  }

  /** No two entries of `s` are equal. */
  predicate Distinct(s: seq<string>) {
    forall i, j :: 0 <= i < j < |s| ==> s[i] != s[j]
  }

  datatype Option<T> = None | Some(value: T)
}
