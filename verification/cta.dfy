/** Click tracking of `initCTATracking`: the `cta_click` event and the
    external-link rule that defers navigation until the event is sent. */
module Cta {
  import opened Wrappers
  import opened Events

  /** `sub` occurs in `s` starting at index `i`. */
  ghost predicate OccursAt(s: string, sub: string, i: int) {
    0 <= i && i + |sub| <= |s| && s[i..i + |sub|] == sub
  }

  /** `String.prototype.includes`. */
  function Includes(s: string, sub: string): (b: bool)
    ensures b <==> exists i :: OccursAt(s, sub, i)
    decreases |s|
  {
    if |sub| > |s| then false
    else if sub <= s then
      assert OccursAt(s, sub, 0);
      true
    else
      ShiftOccurrences(s, sub);
      Includes(s[1..], sub)
  }

  /** When `sub` is not a prefix of `s`, its occurrences in `s` are those in
      `s[1..]`, shifted by one. */
  lemma ShiftOccurrences(s: string, sub: string)
    requires |sub| <= |s| && !(sub <= s)
    ensures (exists i :: OccursAt(s, sub, i)) <==> (exists i :: OccursAt(s[1..], sub, i))
  {
    if i :| OccursAt(s, sub, i) {
      assert i != 0;
      assert OccursAt(s[1..], sub, i - 1);
    }
    if i :| OccursAt(s[1..], sub, i) {
      assert OccursAt(s, sub, i + 1);
    }
  }

  /** The external-link test: a truthy href that mentions "http" and does not
      mention the current host name. */
  predicate IsExternal(href: Option<string>, hostname: string) {
    href.Some? && href.value != "" && Includes(href.value, "http") && !Includes(href.value, hostname)
  }

  /** When the page has no host name (a `file:` page), every href contains
      the empty string, so no link counts as external. */
  lemma EmptyHostnameNeverExternal(href: Option<string>)
    ensures !IsExternal(href, "")
  {
    if href.Some? {
      assert OccursAt(href.value, "", 0);
    }
  }

  /** A link is external exactly when "http" occurs in it and the host name
      occurs nowhere in it. */
  lemma ExternalMeans(href: string, hostname: string)
    ensures IsExternal(Some(href), hostname)
        <==> href != "" && (exists i :: OccursAt(href, "http", i)) && (forall i :: !OccursAt(href, hostname, i))
  {
  }

  /** What a CTA click does: the events, whether the default navigation is
      suppressed, and the navigation issued after the delay instead. */
  datatype ClickOutcome = ClickOutcome(events: seq<Event>, preventDefault: bool, deferredOpen: Option<(string, string)>)

  function HrefValue(href: Option<string>): Value {
    match href
    case Some(h) => Text(h)
    case None => Undefined
  }

  /** A click on a tracked element: `text` is its trimmed text, `target` its
      `target` attribute ("" when absent). */
  function Click(trackingId: string, text: string, href: Option<string>, hostname: string, target: string): (r: ClickOutcome)
    ensures |r.events| == 1
    ensures r.events[0].action == "cta_click" && r.events[0].category == "conversion" && r.events[0].eventLabel == trackingId
    ensures r.events[0].data == map["button_text" := Text(text), "button_href" := HrefValue(href)]
    ensures r.preventDefault <==> IsExternal(href, hostname)
    ensures r.deferredOpen.Some? <==> r.preventDefault
    ensures r.deferredOpen.Some? ==> r.deferredOpen.value.0 == href.value
    ensures r.deferredOpen.Some? ==> r.deferredOpen.value.1 == (if target == "" then "_self" else target)
  {
    var e := Event("cta_click", "conversion", trackingId,
                   map["button_text" := Text(text), "button_href" := HrefValue(href)]);
    if IsExternal(href, hostname) then
      ClickOutcome([e], true, Some((href.value, if target != "" then target else "_self")))
    else
      ClickOutcome([e], false, None)
  }
}
