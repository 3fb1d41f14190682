# Active-section tracker of the portfolio page

The portfolio is a single React component, `App`. Its one piece of state is
`activeSection`. This is the id of the page section the navigation bar
highlights, and it starts as `home`. Two things write it:

- **The scroll listener.** It tests the sections `home`, `about`, `skills`,
  `projects` and `contact` in that order. A section whose element is not in
  the document is skipped. The first section whose bounding rectangle
  contains the vertical midpoint of the viewport becomes active. The test is
  `top <= innerHeight/2 <= bottom`, so both edges count. If no section
  matches, the state stays as it was.
- **`scrollToSection(id)`.** It smooth-scrolls to the element and then sets
  the state to `id`. When the element is missing, the scroll call throws
  before the state is written.

The nav bar gives the highlight classes to the one button whose section
equals `activeSection`.

The model has three files:

- `tracker.dfy` (module `Tracker`): the pure part. The document is a map
  from element id to rectangle, where a missing key means no element. It
  holds the first-match search, the state after a scroll pass or a
  navigation, and the nav-button classes.
- `tracker_properties.dfy` (module `TrackerProperties`): lemmas about the
  scroll pass and the nav bar.
- `app.dfy` (module `App`): the class `Page`, whose field `activeSection`
  is updated by `HandleScroll` and `ScrollToSection`. Each method is proved
  against the functions of `Tracker`. The module also has an event trace
  (scroll, nav click, hero click) and lemmas about every state the page can
  reach.

Coordinates are exact `real`s and the midpoint is `h / 2.0`. IEEE doubles
are not modelled.

## Model

| member | source | states |
|---|---|---|
| Tracker.FirstMatchFrom | src/App.jsx:16-26 | the index returned is the first section at or after the start whose element exists and whose rectangle contains the midpoint; no index means no later section matches, and the converse holds too |
| Tracker.AfterScroll | src/App.jsx:15-27 | if some section matches, the new state is the id of a matching section with no matching section before it; if none matches, the state is unchanged |
| Tracker.AfterNavigate | src/App.jsx:8-11 | with the element present the state becomes the requested id whatever it was; without it the state is unchanged |
| Tracker.NavButtonClass | src/App.jsx:44-46 | a button gets the highlight classes exactly when its section equals the active section, and the plain class exactly when it does not |
| Tracker.NavBar | src/App.jsx:40-46 | the rendered bar has one class string per button, each the class that button's section gets in the current state |
| TrackerProperties.SectionsDistinct | src/App.jsx:16 | the five section ids are pairwise different |
| TrackerProperties.InclusiveEdgeSelects | src/App.jsx:21 | a section whose top or bottom lies exactly on the midpoint is selected when no earlier section matches |
| TrackerProperties.MissingSectionNeverSelected | src/App.jsx:18-19 | a section without an element is never the first match; a pass ends on its id only if that id was already active |
| TrackerProperties.EarlierSectionWins | src/App.jsx:17-24 | when two sections both contain the midpoint, the later one in document order is not selected |
| TrackerProperties.ScrollIdempotent | src/App.jsx:22-23 | a second pass over the same measurements leaves the state the first pass produced |
| TrackerProperties.ScrollIgnoresLaterSections | src/App.jsx:17-24 | the outcome of a pass does not depend on the rectangles or presence of the sections after the one selected |
| TrackerProperties.ScrollKeepsSection | src/App.jsx:16-22 | a pass that starts on a section id ends on a section id |
| TrackerProperties.HighlightCountOfDistinct | src/App.jsx:40-46 | in a row of buttons with distinct ids, one button is highlighted if the active id is among them and none otherwise |
| TrackerProperties.ExactlyOneHighlighted | src/App.jsx:40-46 | when the state is one of the five ids, exactly one nav button is highlighted |
| App.Page.constructor | src/App.jsx:5 | the initial state is `home`, one of the section ids |
| App.Page.NavClasses | src/App.jsx:40-46 | the bar has five entries, and entry i has the highlight classes exactly when section i is the active one; in a valid state exactly one entry is highlighted |
| App.Page.ScrollToSection | src/App.jsx:8-11 | with the element present a smooth scroll to it is issued and the state becomes the id; without it the lookup fails and the state is unchanged; a section id keeps the state valid |
| App.Page.HandleScroll | src/App.jsx:15-27 | the loop with its early exit leaves the state equal to `AfterScroll` of the old state, so it is the first matching section or unchanged |
| App.Page.Dispatch | src/App.jsx:29-43 | delivering a scroll (listener at line 29), a nav-button click (line 43) or a hero-button click (line 86) leaves the state equal to `Step` of the old state; events the page produces keep it a section id |
| App.StepKeepsSection | src/App.jsx:8-22 | every event the page can produce (a scroll, a nav click on a listed section, the hero click on `projects`) maps a section id to a section id |
| App.RunKeepsSection | src/App.jsx:5-26 | any sequence of such events from a section id ends on a section id |
| App.ReachableHasOneHighlight | src/App.jsx:40-46 | after any sequence of page events from a section id, including the initial `home`, exactly one nav button is highlighted |
| App.NavigateThenScrollAgree | src/App.jsx:8-23 | navigating to an existing section makes it active whatever came before; a pass in which it is the first match yields it from any prior state, so the optimistic write and the recomputation agree |
| App.MissingNavigationsChangeNothing | src/App.jsx:9-10 | any number of navigations to ids without an element leave the state unchanged |

## Left out

- The smooth-scroll animation (`scrollIntoView`) is left out. A navigation returns the effect `ScrollIssued(id)` instead.
- `getBoundingClientRect` and `innerHeight` are not called. Their values are inputs to a scroll pass.
- The source does not catch the error when `getElementById` returns null in `scrollToSection`. It reaches the browser as an uncaught `TypeError`. The model only reports it as the `ElementMissing` outcome with the state unchanged. How the error travels further is not modelled.
- Subscribing and unsubscribing the scroll listener (`src/App.jsx:29-30`) are not modelled. `Dispatch` shows how events reach the handler.
- Markup, styling and keyframes are left out. The only part kept is the class choice for nav buttons.
- The random particle sizes and positions, the contact form (which has no handler) and the footer year are left out.
- Floating-point arithmetic: coordinates and the viewport height are exact reals.
- The state starts as `home` and is not recomputed when the page mounts. The first scroll event is the first recomputation; until then only clicks change it.
