# LaTiaLanding interaction logic, modelled in Dafny

`LaTiaLanding/js/main.js` is the enhancement script of a single landing page.
Most of it wires DOM listeners, but four pieces of it are small state machines
over integers and strings, and this project models them as immutable state
records with pure step functions that return the new state together with the
events they emit:

- **Scroll-depth accumulator** (`ScrollDepth`, in `scroll_depth.dfy`): the set of
  milestones (25, 50, 75, 90, 100 %) already reported, and the step that handles
  one integer scroll percentage.
- **Mobile menu** (`Header`, in `header.dfy`): `isMenuOpen` and its three
  mirrors (the `active` classes, `aria-expanded`, the body `overflow` lock),
  `toggleMobileMenu`, the guarded `closeMobileMenu`, and the three handlers that
  call it (outside click, Escape, resize past 768 px). The same module holds the
  internal-link click, the smooth-scroll destination `top + pageYOffset - 100`
  and the header's `scrolled` rule (`scrollY > 100`).
- **Rate limiters** (`Debounce`, `Throttle`, on the clock of `timers.dfy`): time
  is a natural number, `setTimeout` is a single pending `Timer(fireAt, args)`,
  and each limiter has a "call at time t" step and a "timer fires" step. A run
  feeds a list of calls and lets each timer fire, on time, before any call made
  at or after its due time.
- **Deferred-source loaders** (`Loaders`, in `loaders.dfy`): `loadVideo` and
  `loadIframe` over a frame record `{dataSrc, src, loaded}`.
- **Events** (`Events`, in `events.dfy`): the `trackEvent` record, the property
  object it hands to the analytics sink, and the decimal rendering of the
  milestone in the `"25%"` label. The external-link test of CTA click tracking is
  in `Cta` (`cta.dfy`), built on a `String.prototype.includes` model.

Details of the code that the model keeps as written:

- Throttle runs on the leading edge only when strictly more than `delay` has
  elapsed (`>` in the code: a call exactly `delay` after the last run is not
  leading). Its leading branch does not cancel a pending trailing timer;
  `Throttle.OverdueTimerSurvivesLeadingCall` states what that does when the
  timer is late. On the abstract clock
  `lastExecTime` starts at 0, so a call at a time `t <= delay` is not a leading
  call.
- The lazy loader observes every `.lazy-iframe`, the hero video's frame
  included, not only frames the video controller leaves alone.
  `Loaders.LazyLoadAfterVideo` and `Loaders.VideoAfterLazyLoad` state what
  this does to that frame.
- The initial page state of the menu (`aria-expanded="false"`, no `active`
  class, no overflow lock) comes from markup that is not part of this model.
  It is taken as `Header.Initial`.

## Model

| member | source | states |
|---|---|---|
| `Events.Payload` | LaTiaLanding/js/main.js:58-69 | the sink receives `event_category`, `event_label` and every data key; data keys win over the two fixed ones |
| `Events.DecimalDigits` | LaTiaLanding/js/main.js:327 | a milestone renders as a non-empty string of digits with no leading zero |
| `Events.DecimalRoundTrip` | LaTiaLanding/js/main.js:327 | parsing the rendered number gives it back, so distinct milestones get distinct labels |
| `ScrollDepth.Visit` | LaTiaLanding/js/main.js:324-331 | the `forEach` reports a milestone iff the percentage reached it and it was not tracked; tracked grows by exactly the reached ones; reports keep ascending order |
| `ScrollDepth.Sample` | LaTiaLanding/js/main.js:316-331 | after a sample every milestone `<= p` is tracked and nothing is dropped; a `scroll_depth` event for `m` is emitted iff `p >= m` and `m` was untracked; events carry milestones in ascending order |
| `ScrollDepth.SampleCount` | LaTiaLanding/js/main.js:324-330 | within one sample each milestone's event occurs once if newly reached, else not at all |
| `ScrollDepth.RunCount` | LaTiaLanding/js/main.js:316-331 | over any sequence of samples, each milestone is emitted exactly once if some sample reached it and it was untracked at the start, and never otherwise |
| `ScrollDepth.RunTracked` | LaTiaLanding/js/main.js:316-331 | after any sequence of samples the tracked set is the initial set plus every milestone some sample reached |
| `ScrollDepth.VisitQuiet` | LaTiaLanding/js/main.js:324-331 | a visit that reaches no untracked milestone changes nothing and reports nothing |
| `ScrollDepth.SampleAgain` | LaTiaLanding/js/main.js:324-331 | sampling the same percentage twice: the second sample changes nothing and emits nothing |
| `ScrollDepth.ToFifty` | LaTiaLanding/js/main.js:324-330 | from a fresh page, a first sample between 50% and 74% reports 25% and 50% but not 75%, and tracks exactly {25, 50} |
| `ScrollDepth.FiftyToEighty` | LaTiaLanding/js/main.js:324-330 | with 25% and 50% tracked, a sample between 75% and 89% reports 75% and neither 25%, 50% nor 90% |
| `Header.Toggle` | LaTiaLanding/js/main.js:128-139 | toggle flips `isMenuOpen`; classes, `aria-expanded` and overflow (`hidden`/`""`) all agree with the new state; exactly one `menu_toggle` event in category `navigation`, with no extra data, labelled `open` or `close` to match |
| `Header.Close` | LaTiaLanding/js/main.js:141-149 | on a closed menu nothing changes; on an open one the result is closed with `aria-expanded="false"` and overflow restored; never an event |
| `Header.CloseIdempotent` | LaTiaLanding/js/main.js:141-149 | closing twice equals closing once, and the result is closed |
| `Header.ToggleTwice` | LaTiaLanding/js/main.js:128-139 | two toggles from a consistent state restore it and report the two transitions in order |
| `Header.MirroredPreserved` | LaTiaLanding/js/main.js:96-156 | toggle, close, the outside-click, Escape and resize handlers and the internal-link click all keep classes, ARIA attribute and body lock in agreement with the state |
| `Header.OpenThenEscape` | LaTiaLanding/js/main.js:121-149 | opening sets `aria-expanded="true"` and locks scrolling; Escape returns to the initial page silently |
| `Header.OutsideClick` | LaTiaLanding/js/main.js:114-118 | the menu ends closed iff it was closed or the click was outside the navigation; an outside click on an open menu does what `closeMobileMenu` does; otherwise nothing changes; no event |
| `Header.KeyDown` | LaTiaLanding/js/main.js:121-125 | the menu ends closed iff it was closed or the key is Escape; Escape on an open menu does what `closeMobileMenu` does; any other key changes nothing; no event |
| `Header.Resize` | LaTiaLanding/js/main.js:152-156 | the menu ends closed iff it was closed or the viewport is wider than 768; such a resize of an open menu does what `closeMobileMenu` does; otherwise nothing changes; no event |
| `Header.DestinationInDocument` | LaTiaLanding/js/main.js:44 | the destination depends only on the target's document position (viewport top plus scroll offset): scrolling first does not move it |
| `Header.InternalLinkClick` | LaTiaLanding/js/main.js:96-105 | with no target (`querySelector` returns null) nothing happens; with one, the page scrolls to the target less 100 px, the menu ends closed, and one `navigation/internal_link` event names the anchor |
| `Header.ScrolledFollowsLatest` | LaTiaLanding/js/main.js:83-89 | after any non-empty sequence of samples the header is `scrolled` iff the latest `scrollY > 100` |
| `Debounce.Call` | LaTiaLanding/js/main.js:11-17 | a call drops whatever timer was pending and leaves exactly one, due `wait` after the call, with its arguments |
| `Debounce.Advance` | LaTiaLanding/js/main.js:12-15 | as the clock reaches `now`, the pending timer runs iff it is due by then, at its due time with its arguments, and is cleared; otherwise nothing changes |
| `Debounce.Run` | LaTiaLanding/js/main.js:11-17 | over any run, executions plus the timer left pending never exceed the calls plus the timer pending at the start; after a call the pending timer is the last call's |
| `Debounce.Fire` | LaTiaLanding/js/main.js:12-15 | a firing timer runs the wrapped function with its arguments and leaves nothing pending |
| `Debounce.SettleFrom` | LaTiaLanding/js/main.js:9-19 | from any pending timer, a run executes that timer iff it falls due by the first call, then exactly the quiet calls |
| `Debounce.DebounceIsQuietCalls` | LaTiaLanding/js/main.js:9-19 | the wrapped function runs exactly `wait` after each call not followed by another within `wait`, with that call's arguments |
| `Debounce.Burst` | LaTiaLanding/js/main.js:9-19 | calls each within `wait` of the previous produce one execution, `wait` after the last call, with its arguments |
| `Debounce.LastCallWins` | LaTiaLanding/js/main.js:9-19 | the last execution always carries the last call's arguments, `wait` after it |
| `Throttle.Call` | LaTiaLanding/js/main.js:25-37 | a call runs at once and sets `lastExecTime := t` iff `t - lastExecTime > delay`; otherwise the one pending timer is replaced by one due at `lastExecTime + delay`, never in the past, with the latest arguments |
| `Throttle.Fire` | LaTiaLanding/js/main.js:32-35 | a firing trailing timer runs with its arguments, sets `lastExecTime` to the fire time and leaves nothing pending |
| `Throttle.Advance` | LaTiaLanding/js/main.js:32-35 | as the clock reaches `now`, the trailing timer runs iff it is due by then, at its due time with its arguments, and `lastExecTime` becomes that time; otherwise nothing changes |
| `Throttle.Run` | LaTiaLanding/js/main.js:25-37 | over any run, executions plus the timer left pending never exceed the calls plus the timer pending at the start |
| `Throttle.OverdueTimerSurvivesLeadingCall` | LaTiaLanding/js/main.js:27-35 | a leading call leaves a pending timer in place; if that timer is overdue it then runs at the same instant with the older arguments |
| `Throttle.OverdueTimerExample` | LaTiaLanding/js/main.js:27-35 | delay 10, last run at 100, timer for 110 carrying 1 still pending at 115 when a call with 2 arrives: executions 2 then 1, both at 115 |
| `Throttle.StepSpaced` | LaTiaLanding/js/main.js:22-38 | one call, with due timers fired first, keeps the trailing timer due `delay` after the last execution and executes no sooner than `delay` after it |
| `Throttle.RunSpaced` | LaTiaLanding/js/main.js:22-38 | over any run executions are at least `delay` apart and `lastExecTime` is the last execution's time |
| `Throttle.SettleSpaced` | LaTiaLanding/js/main.js:22-38 | from a fresh wrapper, at most one execution per `delay` window, trailing executions included |
| `Throttle.RunKeepsLast` | LaTiaLanding/js/main.js:22-38 | after a run the last call's arguments were executed last or sit in the pending timer |
| `Throttle.LastCallWins` | LaTiaLanding/js/main.js:22-38 | the wrapped function's last execution carries the last call's arguments |
| `Throttle.TwoCalls` | LaTiaLanding/js/main.js:22-38 | a leading call and a second within `delay` give one immediate execution and one trailing execution exactly `delay` after the first, with the second's arguments |
| `Loaders.LoadVideo` | LaTiaLanding/js/main.js:203-209 | a frame with a truthy deferred source and empty `src` gets `dataSrc + "&autoplay=1"` and is loaded; any other frame is unchanged; the deferred source stays |
| `Loaders.LoadVideoIdempotent` | LaTiaLanding/js/main.js:203-209 | a second `loadVideo` is a no-op |
| `Loaders.LoadIframe` | LaTiaLanding/js/main.js:342-349 | a frame with a truthy deferred source gets it as `src`, is loaded and loses `data-src`; any other frame is unchanged |
| `Loaders.LoadIframeIdempotent` | LaTiaLanding/js/main.js:342-349 | a second `loadIframe` is a no-op |
| `Loaders.VideoAfterLazyLoad` | LaTiaLanding/js/main.js:203-209 | after the lazy loader, `loadVideo` does nothing |
| `Loaders.LazyLoadAfterVideo` | LaTiaLanding/js/main.js:340-360 | on the video frame the lazy loader replaces the autoplay source with the bare deferred source |
| `Cta.Includes` | LaTiaLanding/js/main.js:261 | `includes` is true iff the substring occurs at some index |
| `Cta.ShiftOccurrences` | LaTiaLanding/js/main.js:261 | when the substring is not a prefix, its occurrences are those of the string's tail |
| `Cta.ExternalMeans` | LaTiaLanding/js/main.js:261 | a link is external iff it is non-empty, contains "http" and the host name occurs nowhere in it |
| `Cta.EmptyHostnameNeverExternal` | LaTiaLanding/js/main.js:261 | with an empty host name no link is external |
| `Cta.Click` | LaTiaLanding/js/main.js:254-266 | one `cta_click/conversion` event with the text and href; default navigation is suppressed iff the link is external, and exactly then a deferred open of the href in `target` or `_self` is issued |

## Left out

- DOM queries and class, attribute and style mutation: their effects are record fields (`Header.Menu`, `Loaders.Frame`).
- `IntersectionObserver` registration and unobserving (video auto-load, reveal animation, CTA visibility, lazy loader): browser callbacks; only the loaders they call are modelled.
- Real time: `Date.now`, `setTimeout`, `setInterval`, `performance.now` and the fixed 300/600/1000/100 ms UI delays. The rate limiters use the abstract clock instead, and timers fire exactly when due.
- The scroll percentage itself (`Math.round` of a floating-point division): the accumulator takes an integer percentage. The division by `scrollHeight - innerHeight`, which is zero when the page fits on one screen, is not modelled.
- The time-on-page interval and the `session_end` report: timer and page-exit I/O.
- `smoothScrollTo`'s feature detection and the call to `window.scrollTo`: only the destination formula is kept.
- The `gtag` sink, its `config` call, `console` logging, `window.open`, the global error handlers: fire-and-forget I/O and foreign calls. `Cta.Click` returns the navigation to issue instead of issuing it.
- `initApp`, its exception boundary and the `DOMContentLoaded` dispatch: they only sequence side-effecting initialisers.
- `textContent.trim()`: the click model takes the trimmed text as input.
- Header.ScrolledFollowsLatest: `scrollY` is taken as an integer, although browsers may report fractions.
- Throttle.Fire: a browser timer may fire late; the runs fire it at its due time, so spacing is proved for on-time timers only.
- Throttle.LastCallWins: holds for on-time timers only. When a trailing timer is overdue and a leading call arrives first, the source runs the new arguments and then the stale timer's, 0 ms apart, so the last execution carries older arguments (`Throttle.OverdueTimerExample`). The same restriction applies to `Throttle.RunKeepsLast`, `Throttle.RunSpaced` and `Throttle.SettleSpaced`.
- Header.ScrollDestination: `getBoundingClientRect().top` and `pageYOffset` are doubles; the model uses integers.
- Header.InternalLinkClick: an `href` that `querySelector` rejects as a selector (`"#"`, an id starting with a digit) throws after `preventDefault`, and the global error handler then reports it; the model treats every missing target as no target.
