/** `throttle(func, delay)`: a call runs the wrapped function at once when
    strictly more than `delay` has passed since the last execution, and
    otherwise replaces the single trailing timer with one carrying its
    arguments, due `delay` after the last execution. */
module Throttle {
  import opened Wrappers
  import opened Timers

  /** The wrapper's closure state: `lastExecTime` and the pending timer. */
  datatype Throttler<A> = Throttler(delay: nat, lastExec: nat, pending: Option<Timer<A>>)

  /** A fresh wrapper: `lastExecTime` starts at 0. */
  function Create<A>(delay: nat): Throttler<A> {
    Throttler(delay, 0, None)
  }

  /** A call of the wrapper at time `t`; the second component is the
      execution it performs on the leading edge, if any. */
  function Call<A>(th: Throttler<A>, t: nat, args: A): (r: (Throttler<A>, Option<Invocation<A>>))
    ensures r.0.delay == th.delay
    // leading edge exactly when strictly more than `delay` has elapsed
    ensures r.1.Some? <==> t - th.lastExec > th.delay
    ensures r.1.Some? ==> r.1.value == Invocation(t, args) && r.0.lastExec == t && r.0.pending == th.pending
    // otherwise one trailing timer, with these arguments, due `delay` after
    // the last execution and never in the past
    ensures r.1.None? ==> r.0.lastExec == th.lastExec
    ensures r.1.None? ==> r.0.pending == Some(Timer(th.lastExec + th.delay, args)) && t <= r.0.pending.value.fireAt
  {
    var elapsed := t - th.lastExec;
    if elapsed > th.delay then
      (th.(lastExec := t), Some(Invocation(t, args)))
    else
      (th.(pending := Some(Timer(t + (th.delay - elapsed), args))), None)
  }

  /** The pending timer fires at time `now`: the wrapped function runs with
      its arguments and `lastExecTime` becomes `now`. */
  function Fire<A>(th: Throttler<A>, now: nat): (r: (Throttler<A>, Option<Invocation<A>>))
    ensures r.0.delay == th.delay && r.0.pending.None?
    ensures r.1.Some? <==> th.pending.Some?
    ensures r.1.Some? ==> r.1.value == Invocation(now, th.pending.value.args) && r.0.lastExec == now
    ensures r.1.None? ==> r.0 == th
  {
    match th.pending
    case None => (th, None)
    case Some(tm) => (Throttler(th.delay, now, None), Some(Invocation(now, tm.args)))
  }

  /** Lets the clock reach `now`: a timer due by then fires, on time. */
  function Advance<A>(th: Throttler<A>, now: nat): (r: (Throttler<A>, Option<Invocation<A>>))
    ensures r.1.Some? <==> th.pending.Some? && th.pending.value.fireAt <= now
    ensures r.1.Some? ==> r.1.value == Invocation(th.pending.value.fireAt, th.pending.value.args)
    ensures r.1.Some? ==> r.0 == Throttler(th.delay, th.pending.value.fireAt, None)
    ensures r.1.None? ==> r.0 == th
  {
    if th.pending.Some? && th.pending.value.fireAt <= now then Fire(th, th.pending.value.fireAt)
    else (th, None)
  }

  /** Feeds the calls in order, letting every timer due by a call's time
      fire before that call; returns the final state and every execution of
      the wrapped function. Each call runs at most once on the leading edge
      or leaves its arguments in the one trailing timer, and each trailing
      execution uses up that timer, so a run never executes more often than
      it was called (counting a timer pending at the start). */
  function Run<A>(th: Throttler<A>, calls: seq<Invocation<A>>): (r: (Throttler<A>, seq<Invocation<A>>))
    ensures r.0.delay == th.delay
    ensures |r.1| + |ToSeq(r.0.pending)| <= |calls| + |ToSeq(th.pending)|
    decreases |calls|
  {
    if |calls| == 0 then (th, [])
    else
      var advanced := Advance(th, calls[0].at);
      var called := Call(advanced.0, calls[0].at, calls[0].args);
      var rest := Run(called.0, calls[1..]);
      (rest.0, ToSeq(advanced.1) + ToSeq(called.1) + rest.1)
  }

  /** A run followed by enough quiet time for the trailing timer to fire. */
  function Settle<A>(th: Throttler<A>, calls: seq<Invocation<A>>): seq<Invocation<A>> {
    var run := Run(th, calls);
    run.1 + ToSeq(Advance(run.0, if run.0.pending.Some? then run.0.pending.value.fireAt else 0).1)
  }

  /** The trailing timer, when there is one, is due `delay` after the last
      execution. */
  predicate Scheduled<A>(th: Throttler<A>) {
    th.pending.Some? ==> th.pending.value.fireAt == th.lastExec + th.delay
  }

  /** Executions are at least `delay` apart, the first at least `delay`
      after `since`. */
  predicate Spaced<A>(delay: nat, since: int, es: seq<Invocation<A>>)
    decreases |es|
  {
    |es| == 0 || (since + delay <= es[0].at && Spaced(delay, es[0].at, es[1..]))
  }

  /** The time of the last execution, or `since` when there is none. */
  function LastAt<A>(since: int, es: seq<Invocation<A>>): int {
    if |es| == 0 then since else es[|es| - 1].at
  }

  lemma {:induction false} SpacedAppend<A>(delay: nat, since: int, a: seq<Invocation<A>>, b: seq<Invocation<A>>)
    requires Spaced(delay, since, a) && Spaced(delay, LastAt(since, a), b)
    ensures Spaced(delay, since, a + b)
    decreases |a|
  {
    if |a| > 0 {
      assert (a + b)[0] == a[0];
      assert (a + b)[1..] == a[1..] + b;
      assert LastAt(a[0].at, a[1..]) == LastAt(since, a);
      SpacedAppend(delay, a[0].at, a[1..], b);
    } else {
      assert a + b == b;
    }
  }

  /** One step of a run (advance, then call) keeps the timer schedule and
      executes at least `delay` after the previous execution. */
  lemma StepSpaced<A>(th: Throttler<A>, c: Invocation<A>)
    requires Scheduled(th)
    ensures var advanced := Advance(th, c.at);
            var called := Call(advanced.0, c.at, c.args);
            var out := ToSeq(advanced.1) + ToSeq(called.1);
            && Scheduled(called.0)
            && Spaced(th.delay, th.lastExec, out)
            && called.0.lastExec == LastAt(th.lastExec, out)
  {
    var advanced := Advance(th, c.at);
    var called := Call(advanced.0, c.at, c.args);
    assert advanced.0.pending.Some? ==> c.at < advanced.0.pending.value.fireAt;
    SpacedAppend(th.delay, th.lastExec, ToSeq(advanced.1), ToSeq(called.1));
  }

  /** In a run the trailing timer stays due `delay` after the last
      execution, and the executions are at least `delay` apart. */
  lemma {:induction false} RunSpaced<A>(th: Throttler<A>, calls: seq<Invocation<A>>)
    requires Scheduled(th)
    ensures Scheduled(Run(th, calls).0)
    ensures Spaced(th.delay, th.lastExec, Run(th, calls).1)
    ensures Run(th, calls).0.lastExec == LastAt(th.lastExec, Run(th, calls).1)
    decreases |calls|
  {
    if |calls| > 0 {
      var advanced := Advance(th, calls[0].at);
      var called := Call(advanced.0, calls[0].at, calls[0].args);
      var out := ToSeq(advanced.1) + ToSeq(called.1);
      StepSpaced(th, calls[0]);
      RunSpaced(called.0, calls[1..]);
      var rest := Run(called.0, calls[1..]);
      SpacedAppend(th.delay, th.lastExec, out, rest.1);
      assert Run(th, calls).1 == out + rest.1;
    }
  }

  /** At most one execution per `delay` window, trailing one included. */
  lemma SettleSpaced<A>(delay: nat, calls: seq<Invocation<A>>)
    ensures Spaced(delay, 0, Settle(Create(delay), calls))
  {
    var th: Throttler<A> := Create(delay);
    RunSpaced(th, calls);
    var run := Run(th, calls);
    var last := Advance(run.0, if run.0.pending.Some? then run.0.pending.value.fireAt else 0);
    SpacedAppend(delay, 0, run.1, ToSeq(last.1));
  }

  /** After a non-empty run, the last call's arguments are either already
      executed last or held by the pending timer. */
  lemma {:induction false} RunKeepsLast<A>(th: Throttler<A>, calls: seq<Invocation<A>>)
    requires |calls| > 0
    requires Scheduled(th)
    ensures var r := Run(th, calls);
            var a := calls[|calls| - 1].args;
            || (r.0.pending.Some? && r.0.pending.value.args == a)
            || (r.0.pending.None? && |r.1| > 0 && r.1[|r.1| - 1].args == a)
    decreases |calls|
  {
    var advanced := Advance(th, calls[0].at);
    var called := Call(advanced.0, calls[0].at, calls[0].args);
    StepSpaced(th, calls[0]);
    if |calls| > 1 {
      RunKeepsLast(called.0, calls[1..]);
      assert calls[1..][|calls[1..]| - 1] == calls[|calls| - 1];
    } else {
      assert advanced.0.pending.Some? ==> calls[0].at < advanced.0.pending.value.fireAt;
    }
  }

  /** No call is lost at the end: the wrapped function's last execution uses
      the arguments of the last call. */
  lemma LastCallWins<A>(delay: nat, calls: seq<Invocation<A>>)
    requires |calls| > 0
    ensures var out := Settle(Create(delay), calls);
            |out| > 0 && out[|out| - 1].args == calls[|calls| - 1].args
  {
    RunKeepsLast(Create(delay), calls);
  }

  lemma RunSingle<A>(th: Throttler<A>, c: Invocation<A>)
    ensures var advanced := Advance(th, c.at);
            var called := Call(advanced.0, c.at, c.args);
            Run(th, [c]) == (called.0, ToSeq(advanced.1) + ToSeq(called.1))
  {
    var advanced := Advance(th, c.at);
    var called := Call(advanced.0, c.at, c.args);
    var out := ToSeq(advanced.1) + ToSeq(called.1);
    assert [c][1..] == [];
    assert out + [] == out;
  }

  /** Two calls within `delay` of each other, the first on the leading edge:
      one immediate execution and one trailing execution exactly `delay`
      later with the second call's arguments. */
  lemma TwoCalls<A>(th: Throttler<A>, t1: nat, a1: A, t2: nat, a2: A)
    requires th.pending.None?
    requires t1 - th.lastExec > th.delay
    requires t1 <= t2 <= t1 + th.delay
    ensures Settle(th, [Invocation(t1, a1), Invocation(t2, a2)])
         == [Invocation(t1, a1), Invocation(t1 + th.delay, a2)]
  {
    var first := Call(th, t1, a1);
    var second := Call(first.0, t2, a2);
    assert Advance(th, t1) == (th, None);
    assert Advance(first.0, t2) == (first.0, None);
    // the second call only schedules a trailing timer
    RunSingle(first.0, Invocation(t2, a2));
    assert ToSeq(Advance(first.0, t2).1) + ToSeq(second.1) == [];
    assert Run(first.0, [Invocation(t2, a2)]) == (second.0, []);
    // the first call runs on the leading edge
    assert [Invocation(t1, a1), Invocation(t2, a2)][1..] == [Invocation(t2, a2)];
    assert ToSeq(first.1) == [Invocation(t1, a1)] && ToSeq(Advance(th, t1).1) == [];
    assert [] + [Invocation(t1, a1)] + [] == [Invocation(t1, a1)];
    assert Run(th, [Invocation(t1, a1), Invocation(t2, a2)]) == (second.0, [Invocation(t1, a1)]);
  }

  /** The leading branch leaves a pending timer in place. When that timer is
      overdue (a browser timer that fires late) and a leading call arrives
      first, the call runs at once and the stale timer then runs too, at
      the same instant and with the older arguments. */
  lemma OverdueTimerSurvivesLeadingCall<A>(th: Throttler<A>, t: nat, args: A)
    requires th.pending.Some? && t - th.lastExec > th.delay
    ensures Call(th, t, args).1 == Some(Invocation(t, args))
    ensures Call(th, t, args).0.pending == th.pending
    ensures Fire(Call(th, t, args).0, t).1 == Some(Invocation(t, th.pending.value.args))
  {
  }

  /** An instance: delay 10, last run at 100, a trailing timer for 110
      carrying 1 still pending at 115 when a call with 2 arrives. The
      executions are 2 then 1, both at 115. */
  lemma OverdueTimerExample()
    ensures var th := Throttler(10, 100, Some(Timer(110, 1)));
            var called := Call(th, 115, 2);
            && called.1 == Some(Invocation(115, 2))
            && Fire(called.0, 115).1 == Some(Invocation(115, 1))
  {
  }
}
