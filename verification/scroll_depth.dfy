/** The scroll-depth milestone accumulator of `setupAnalytics`: every scroll
    sample (an integer percentage of the scrollable distance) reports the
    milestones it has reached that were not reported before. */
module ScrollDepth {
  import opened Events

  /** The milestones, in the order `forEach` visits them. */
  const Milestones: seq<int> := [25, 50, 75, 90, 100]

  /** The tracked-milestone set of one page view. */
  datatype Tracker = Tracker(tracked: set<int>)

  const Fresh := Tracker({})

  /** A step's result: the new state and the events it emitted, in order. */
  datatype Sampled = Sampled(tracker: Tracker, events: seq<Event>)

  predicate Increasing(s: seq<int>) {
    forall i, j :: 0 <= i < j < |s| ==> s[i] < s[j]
  }

  /** The milestones a percentage has reached. */
  function Reached(percent: int): set<int> {
    set m | m in Milestones && m <= percent
  }

  /** The `scroll_depth` event for milestone `m`, labelled `m%`. */
  function DepthEvent(m: int): Event
    requires m >= 0
  {
    Event("scroll_depth", "engagement", Decimal(m) + "%", map["scroll_depth" := Number(m)])
  }

  /** The milestone an event reports (0 for any other event). */
  function DepthOf(e: Event): int {
    if "scroll_depth" in e.data && e.data["scroll_depth"].Number? then e.data["scroll_depth"].n else 0
  }

  lemma DepthEventInjective(m: int, n: int)
    requires m >= 0 && n >= 0
    ensures DepthEvent(m) == DepthEvent(n) <==> m == n
  {
    assert DepthOf(DepthEvent(m)) == m;
    assert DepthOf(DepthEvent(n)) == n;
  }

  /** The `forEach` over `ms`: returns the new tracked set and the milestones
      reported, in visiting order. */
  function Visit(tracked: set<int>, percent: int, ms: seq<int>): (r: (set<int>, seq<int>))
    requires Increasing(ms)
    ensures forall m :: m in r.0 <==> m in tracked || (m in ms && m <= percent)
    ensures forall m :: m in r.1 <==> m in ms && m <= percent && m !in tracked
    ensures Increasing(r.1)
    decreases |ms|
  {
    if |ms| == 0 then (tracked, [])
    else if percent >= ms[0] && ms[0] !in tracked then
      var rest := Visit(tracked + {ms[0]}, percent, ms[1..]);
      assert forall k :: 0 <= k < |rest.1| ==> rest.1[k] in ms[1..];
      (rest.0, [ms[0]] + rest.1)
    else
      Visit(tracked, percent, ms[1..])
  }

  function DepthEvents(ms: seq<int>): (es: seq<Event>)
    requires forall i :: 0 <= i < |ms| ==> ms[i] >= 0
    ensures |es| == |ms|
    ensures forall i :: 0 <= i < |ms| ==> es[i] == DepthEvent(ms[i])
  {
    seq(|ms|, i requires 0 <= i < |ms| => DepthEvent(ms[i]))
  }

  /** One throttled scroll sample at integer percentage `percent`. */
  function Sample(s: Tracker, percent: int): (r: Sampled)
    // completeness, and the set only grows
    ensures r.tracker.tracked == s.tracked + Reached(percent)
    // a milestone is reported iff it is reached now and was not tracked before
    ensures forall m :: m >= 0 ==> (DepthEvent(m) in r.events <==> m in Milestones && m <= percent && m !in s.tracked)
    // every event is a milestone event, in ascending milestone order
    ensures forall i :: 0 <= i < |r.events| ==> DepthOf(r.events[i]) in Milestones
    ensures forall i :: 0 <= i < |r.events| ==> r.events[i] == DepthEvent(DepthOf(r.events[i]))
    ensures forall i, j :: 0 <= i < j < |r.events| ==> DepthOf(r.events[i]) < DepthOf(r.events[j])
  {
    var v := Visit(s.tracked, percent, Milestones);
    assert forall i :: 0 <= i < |v.1| ==> v.1[i] in Milestones;
    assert forall m :: m in Milestones ==> m >= 0;
    DepthEventsFacts(v.1);
    assert v.0 == s.tracked + Reached(percent);
    Sampled(Tracker(v.0), DepthEvents(v.1))
  }

  /** The events of a list of milestones name exactly those milestones, in
      the same order. */
  lemma DepthEventsFacts(ms: seq<int>)
    requires forall i :: 0 <= i < |ms| ==> ms[i] >= 0
    ensures forall m :: m >= 0 ==> (DepthEvent(m) in DepthEvents(ms) <==> m in ms)
    ensures forall i :: 0 <= i < |ms| ==> DepthOf(DepthEvents(ms)[i]) == ms[i]
  {
    var es := DepthEvents(ms);
    forall i | 0 <= i < |ms|
      ensures DepthOf(es[i]) == ms[i]
    {
      assert es[i] == DepthEvent(ms[i]);
    }
    forall m | m >= 0 && DepthEvent(m) in es
      ensures m in ms
    {
      var i :| 0 <= i < |es| && es[i] == DepthEvent(m);
      DepthEventInjective(m, ms[i]);
    }
  }

  /** Feeds the samples in order, concatenating the events. */
  function Run(s: Tracker, samples: seq<int>): (r: Sampled)
    ensures s.tracked <= r.tracker.tracked
    decreases |samples|
  {
    if |samples| == 0 then Sampled(s, [])
    else
      var first := Sample(s, samples[0]);
      var rest := Run(first.tracker, samples[1..]);
      Sampled(rest.tracker, first.events + rest.events)
  }

  ghost predicate EverReached(m: int, samples: seq<int>) {
    exists i :: 0 <= i < |samples| && m <= samples[i]
  }

  /** How many times `e` occurs in `es`. */
  function Count(es: seq<Event>, e: Event): nat
    decreases |es|
  {
    if |es| == 0 then 0 else (if es[0] == e then 1 else 0) + Count(es[1..], e)
  }

  lemma {:induction false} CountAppend(a: seq<Event>, b: seq<Event>, e: Event)
    ensures Count(a + b, e) == Count(a, e) + Count(b, e)
    decreases |a|
  {
    if |a| == 0 {
      assert a + b == b;
    } else {
      assert (a + b)[1..] == a[1..] + b;
      CountAppend(a[1..], b, e);
    }
  }

  lemma {:induction false} CountDistinct(es: seq<Event>, e: Event)
    requires forall i, j :: 0 <= i < j < |es| ==> es[i] != es[j]
    ensures Count(es, e) == if e in es then 1 else 0
    decreases |es|
  {
    if |es| > 0 {
      CountDistinct(es[1..], e);
      if e == es[0] {
        assert e !in es[1..];
      }
    }
  }

  /** Within one sample, milestone `m` is emitted once if newly reached and
      not at all otherwise. */
  lemma SampleCount(s: Tracker, percent: int, m: int)
    requires m >= 0
    ensures Count(Sample(s, percent).events, DepthEvent(m))
         == if m in Milestones && m <= percent && m !in s.tracked then 1 else 0
  {
    var es := Sample(s, percent).events;
    forall i, j | 0 <= i < j < |es|
      ensures es[i] != es[j]
    {
      assert DepthOf(es[i]) < DepthOf(es[j]);
    }
    CountDistinct(es, DepthEvent(m));
  }

  lemma EverReachedCons(m: int, samples: seq<int>)
    requires |samples| > 0
    ensures EverReached(m, samples) <==> m <= samples[0] || EverReached(m, samples[1..])
  {
    if EverReached(m, samples[1..]) {
      var i :| 0 <= i < |samples[1..]| && m <= samples[1..][i];
      assert m <= samples[i + 1];
    }
    if EverReached(m, samples) && !(m <= samples[0]) {
      var i :| 0 <= i < |samples| && m <= samples[i];
      assert m <= samples[1..][i - 1];
    }
  }

  /** At most once over a whole page view: across any sequence of samples
      each milestone is emitted exactly once if some sample reached it and it
      was not tracked at the start, and never otherwise. */
  lemma {:induction false} RunCount(s: Tracker, samples: seq<int>, m: int)
    requires m >= 0
    ensures Count(Run(s, samples).events, DepthEvent(m))
         == if m in Milestones && m !in s.tracked && EverReached(m, samples) then 1 else 0
    decreases |samples|
  {
    if |samples| > 0 {
      var e := DepthEvent(m);
      var first := Sample(s, samples[0]);
      var rest := Run(first.tracker, samples[1..]);
      assert Run(s, samples).events == first.events + rest.events;
      CountAppend(first.events, rest.events, e);
      SampleCount(s, samples[0], m);
      RunCount(first.tracker, samples[1..], m);
      EverReachedCons(m, samples);
      assert m in first.tracker.tracked <==> m in s.tracked || m in Reached(samples[0]);
    }
  }

  /** The tracked set after a run is the initial set plus every milestone
      some sample reached. */
  lemma {:induction false} RunTracked(s: Tracker, samples: seq<int>)
    ensures forall m :: m in Run(s, samples).tracker.tracked
                    <==> m in s.tracked || (m in Milestones && EverReached(m, samples))
    decreases |samples|
  {
    if |samples| > 0 {
      var first := Sample(s, samples[0]);
      RunTracked(first.tracker, samples[1..]);
      forall m | m in Milestones
        ensures EverReached(m, samples) <==> m <= samples[0] || EverReached(m, samples[1..])
      {
        EverReachedCons(m, samples);
      }
    }
  }

  /** A visit that reaches no untracked milestone changes nothing and
      reports nothing. */
  lemma {:induction false} VisitQuiet(tracked: set<int>, percent: int, ms: seq<int>)
    requires Increasing(ms)
    requires forall m :: m in ms && m <= percent ==> m in tracked
    ensures Visit(tracked, percent, ms) == (tracked, [])
    decreases |ms|
  {
    if |ms| > 0 {
      VisitQuiet(tracked, percent, ms[1..]);
    }
  }

  /** Sampling the same percentage again emits nothing and changes nothing. */
  lemma SampleAgain(s: Tracker, percent: int)
    ensures Sample(Sample(s, percent).tracker, percent) == Sampled(Sample(s, percent).tracker, [])
  {
    var t := Sample(s, percent).tracker;
    assert forall m :: m in Milestones && m <= percent ==> m in t.tracked;
    VisitQuiet(t.tracked, percent, Milestones);
    var v := Visit(t.tracked, percent, Milestones);
    assert Sample(t, percent) == Sampled(Tracker(v.0), DepthEvents(v.1));
    assert DepthEvents([]) == [];
  }

  /** From a fresh page, a first sample anywhere from 50% up to (not
      including) 75% reports 25% and 50% but not 75%. */
  lemma ToFifty(percent: int)
    requires 50 <= percent < 75
    ensures var first := Sample(Fresh, percent);
            && DepthEvent(25) in first.events && DepthEvent(50) in first.events
            && DepthEvent(75) !in first.events
            && first.tracker == Tracker({25, 50})
  {
    assert Reached(percent) == {25, 50};
  }

  /** After 25% and 50% are tracked, a sample from 75% up to (not including)
      90% reports 75% and neither 25% nor 50% again. */
  lemma FiftyToEighty(percent: int)
    requires 75 <= percent < 90
    ensures var second := Sample(Tracker({25, 50}), percent);
            && DepthEvent(75) in second.events
            && DepthEvent(25) !in second.events && DepthEvent(50) !in second.events
            && DepthEvent(90) !in second.events
  {
  }
}
