/** The header component of `initHeader`: the mobile-menu state machine and
    its three mirrors (the `active` classes, `aria-expanded` and the body
    scroll lock), the handlers that close the menu, internal-link clicks,
    the smooth-scroll destination and the header's `scrolled` class. */
module Header {
  import opened Wrappers
  import opened Events

  /** `isMenuOpen` together with what the page shows of it. */
  datatype Menu = Menu(
    isOpen: bool,
    toggleActive: bool,   // `active` class on the toggle control
    linksActive: bool,    // `active` class on the link list
    ariaExpanded: string, // `aria-expanded` on the toggle control
    bodyOverflow: string  // `document.body.style.overflow`
  )

  /** The string a boolean becomes when passed to `setAttribute`. */
  function BoolText(b: bool): string {
    if b then "true" else "false"
  }

  function OverflowFor(open: bool): string {
    if open then "hidden" else ""
  }

  /** Classes, ARIA attribute and body lock all agree with `isOpen`. */
  predicate Mirrored(m: Menu) {
    && m.toggleActive == m.isOpen
    && m.linksActive == m.isOpen
    && m.ariaExpanded == BoolText(m.isOpen)
    && m.bodyOverflow == OverflowFor(m.isOpen)
  }

  /** The page as the markup leaves it: menu closed, nothing active. */
  const Initial := Menu(false, false, false, "false", "")

  function MenuEvent(open: bool): Event {
    Plain("menu_toggle", "navigation", if open then "open" else "close")
  }

  /** `toggleMobileMenu`: flips the state, rewrites every mirror and reports
      the new state. */
  function Toggle(m: Menu): (r: (Menu, seq<Event>))
    ensures r.0.isOpen == !m.isOpen
    ensures Mirrored(r.0)
    ensures r.0.ariaExpanded == (if r.0.isOpen then "true" else "false")
    ensures r.0.bodyOverflow == (if r.0.isOpen then "hidden" else "")
    // exactly one `menu_toggle` event in category `navigation`, no extra
    // data, labelled with the new state
    ensures r.1 == [MenuEvent(r.0.isOpen)]
    ensures r.1[0].eventLabel == (if r.0.isOpen then "open" else "close")
  {
    var open := !m.isOpen;
    (Menu(open, open, open, BoolText(open), OverflowFor(open)), [MenuEvent(open)])
  }

  /** `closeMobileMenu`: guarded by the state, silent in both cases. */
  function Close(m: Menu): (r: (Menu, seq<Event>))
    ensures r.1 == []
    ensures !m.isOpen ==> r.0 == m
    ensures m.isOpen ==> !r.0.isOpen && Mirrored(r.0)
    ensures m.isOpen ==> r.0.ariaExpanded == "false" && r.0.bodyOverflow == ""
  {
    if !m.isOpen then (m, [])
    else (Menu(false, false, false, "false", ""), [])
  }

  /** Closing twice is closing once. */
  lemma CloseIdempotent(m: Menu)
    ensures Close(Close(m).0) == Close(m)
    ensures !Close(m).0.isOpen
  {
  }

  /** Toggling twice from a mirrored state restores it, reporting `open` and
      `close` in the order they happened. */
  lemma ToggleTwice(m: Menu)
    requires Mirrored(m)
    ensures Toggle(Toggle(m).0).0 == m
    ensures Toggle(m).1 + Toggle(Toggle(m).0).1 == [MenuEvent(!m.isOpen), MenuEvent(m.isOpen)]
  {
  }

  /** Opening the menu from the initial page and pressing Escape: the
      attribute and body lock go to "true"/"hidden" and back. */
  lemma OpenThenEscape()
    ensures Toggle(Initial).0.ariaExpanded == "true" && Toggle(Initial).0.bodyOverflow == "hidden"
    ensures KeyDown(Toggle(Initial).0, "Escape").0 == Initial
    ensures KeyDown(Toggle(Initial).0, "Escape").1 == []
  {
  }

  /** A document click closes an open menu when it lands outside the
      navigation region. */
  function OutsideClick(m: Menu, insideNav: bool): (r: (Menu, seq<Event>))
    ensures r.1 == []
    ensures !r.0.isOpen <==> !m.isOpen || !insideNav
    ensures !m.isOpen || insideNav ==> r == (m, [])
    ensures m.isOpen && !insideNav ==> r.0 == Close(m).0
  {
    if m.isOpen && !insideNav then Close(m) else (m, [])
  }

  /** A key press closes an open menu only when it is Escape. */
  function KeyDown(m: Menu, key: string): (r: (Menu, seq<Event>))
    ensures r.1 == []
    ensures !r.0.isOpen <==> !m.isOpen || key == "Escape"
    ensures !m.isOpen || key != "Escape" ==> r == (m, [])
    ensures m.isOpen && key == "Escape" ==> r.0 == Close(m).0
  {
    if key == "Escape" && m.isOpen then Close(m) else (m, [])
  }

  const Breakpoint := 768

  /** The (debounced) resize handler closes an open menu once the viewport
      is wider than the breakpoint. */
  function Resize(m: Menu, innerWidth: int): (r: (Menu, seq<Event>))
    ensures r.1 == []
    ensures !r.0.isOpen <==> !m.isOpen || innerWidth > Breakpoint
    ensures !m.isOpen || innerWidth <= Breakpoint ==> r == (m, [])
    ensures m.isOpen && innerWidth > Breakpoint ==> r.0 == Close(m).0
  {
    if innerWidth > Breakpoint && m.isOpen then Close(m) else (m, [])
  }

  /** Clearance left for the fixed header when scrolling to a target. */
  const HeaderClearance := 100

  /** `smoothScrollTo`'s destination: the target's top relative to the
      viewport plus the current scroll offset, less the header clearance. */
  function ScrollDestination(viewportTop: int, pageYOffset: int): int {
    viewportTop + pageYOffset - HeaderClearance
  }

  /** The destination depends only on the target's position in the
      document: scrolling by `d` moves the target's viewport top by `-d`
      and leaves the destination where it was. */
  lemma DestinationInDocument(viewportTop: int, pageYOffset: int, d: int)
    ensures ScrollDestination(viewportTop - d, pageYOffset + d) == ScrollDestination(viewportTop, pageYOffset)
  {
  }

  /** What a click on an internal `#id` link does. */
  datatype LinkOutcome = LinkOutcome(menu: Menu, scrollTo: Option<int>, events: seq<Event>)

  /** An internal-link click: `targetTop` is the viewport top of the element
      the anchor names, or None when no such element exists. */
  function InternalLinkClick(m: Menu, targetId: string, targetTop: Option<int>, pageYOffset: int): (r: LinkOutcome)
    ensures targetTop.None? ==> r == LinkOutcome(m, None, [])
    ensures targetTop.Some? ==> r.scrollTo.Some? && r.scrollTo.value + HeaderClearance == targetTop.value + pageYOffset
    ensures targetTop.Some? ==> !r.menu.isOpen && (m.isOpen ==> Mirrored(r.menu)) && (!m.isOpen ==> r.menu == m)
    ensures targetTop.Some? ==> r.events == [Plain("navigation", "internal_link", targetId)]
  {
    match targetTop
    case None => LinkOutcome(m, None, [])
    case Some(top) =>
      var closed := Close(m);
      LinkOutcome(closed.0, Some(ScrollDestination(top, pageYOffset)), closed.1 + [Plain("navigation", "internal_link", targetId)])
  }

  /** Every mutator of the menu state (toggle, close, and the three
      handlers and the link click that call close) keeps the classes, the
      ARIA attribute and the body lock in agreement with the state. */
  lemma MirroredPreserved(m: Menu, insideNav: bool, key: string, innerWidth: int,
                          targetId: string, targetTop: Option<int>, pageYOffset: int)
    requires Mirrored(m)
    ensures Mirrored(Toggle(m).0) && Mirrored(Close(m).0)
    ensures Mirrored(OutsideClick(m, insideNav).0)
    ensures Mirrored(KeyDown(m, key).0)
    ensures Mirrored(Resize(m, innerWidth).0)
    ensures Mirrored(InternalLinkClick(m, targetId, targetTop, pageYOffset).menu)
  {
  }

  /** The header scroll rule. */
  predicate IsScrolled(scrollY: int) {
    scrollY > 100
  }

  /** The header's `scrolled` class after each throttled scroll sample. */
  function ScrolledAfter(scrolled: bool, samples: seq<int>): bool
    decreases |samples|
  {
    if |samples| == 0 then scrolled
    else ScrolledAfter(IsScrolled(samples[0]), samples[1..])
  }

  /** The class depends on the latest sample alone: past samples leave no
      trace. */
  lemma {:induction false} ScrolledFollowsLatest(scrolled: bool, samples: seq<int>)
    requires |samples| > 0
    ensures ScrolledAfter(scrolled, samples) <==> samples[|samples| - 1] > 100
    decreases |samples|
  {
    if |samples| > 1 {
      ScrolledFollowsLatest(IsScrolled(samples[0]), samples[1..]);
    }
  }
}
