/** `debounce(func, wait)`: every call cancels the pending timer and
    schedules the wrapped function `wait` after itself, with its own
    arguments. */
module Debounce {
  import opened Wrappers
  import opened Timers

  /** The wrapper's closure state: the wait and the one pending timer. */
  datatype Debouncer<A> = Debouncer(wait: nat, pending: Option<Timer<A>>)

  function Create<A>(wait: nat): Debouncer<A> {
    Debouncer(wait, None)
  }

  /** A call of the wrapper at time `t`: whatever was pending is dropped and
      the one pending timer is now due `wait` after `t`, with these
      arguments. */
  function Call<A>(d: Debouncer<A>, t: nat, args: A): (r: Debouncer<A>)
    ensures r.wait == d.wait && r.pending == Some(Timer(t + d.wait, args))
  {
    d.(pending := Some(Timer(t + d.wait, args)))
  }

  /** The pending timer fires at time `now`: the wrapped function runs with
      the timer's arguments and nothing is pending afterwards. */
  function Fire<A>(d: Debouncer<A>, now: nat): (r: (Debouncer<A>, Option<Invocation<A>>))
    ensures r.0.pending.None? && r.0.wait == d.wait
    ensures r.1.Some? <==> d.pending.Some?
    ensures r.1.Some? ==> r.1.value == Invocation(now, d.pending.value.args)
  {
    match d.pending
    case None => (d, None)
    case Some(tm) => (d.(pending := None), Some(Invocation(now, tm.args)))
  }

  /** Lets the clock reach `now`: a timer due by then fires, on time. */
  function Advance<A>(d: Debouncer<A>, now: nat): (r: (Debouncer<A>, Option<Invocation<A>>))
    ensures r.1.Some? <==> d.pending.Some? && d.pending.value.fireAt <= now
    ensures r.1.Some? ==> r.1.value == Invocation(d.pending.value.fireAt, d.pending.value.args) && r.0 == d.(pending := None)
    ensures r.1.None? ==> r.0 == d
  {
    if d.pending.Some? && d.pending.value.fireAt <= now then Fire(d, d.pending.value.fireAt)
    else (d, None)
  }

  /** Feeds the calls in order, letting every timer due by a call's time
      fire before that call; returns the final state and the executions of
      the wrapped function. Every execution uses up a timer that a call
      set, so a run never executes more often than it was called (counting
      a timer pending at the start), and after at least one call the timer
      left pending is the last call's. */
  function Run<A>(d: Debouncer<A>, calls: seq<Invocation<A>>): (r: (Debouncer<A>, seq<Invocation<A>>))
    ensures r.0.wait == d.wait
    ensures |r.1| + |ToSeq(r.0.pending)| <= |calls| + |ToSeq(d.pending)|
    ensures |calls| > 0 ==> r.0.pending == Some(Timer(calls[|calls| - 1].at + d.wait, calls[|calls| - 1].args))
    decreases |calls|
  {
    if |calls| == 0 then (d, [])
    else
      var advanced := Advance(d, calls[0].at);
      var rest := Run(Call(advanced.0, calls[0].at, calls[0].args), calls[1..]);
      (rest.0, ToSeq(advanced.1) + rest.1)
  }

  /** A run followed by enough quiet time for the last timer to fire. */
  function Settle<A>(d: Debouncer<A>, calls: seq<Invocation<A>>): seq<Invocation<A>> {
    var run := Run(d, calls);
    run.1 + ToSeq(Advance(run.0, if run.0.pending.Some? then run.0.pending.value.fireAt else 0).1)
  }

  /** Reference behaviour: the wrapped function runs `wait` after each call
      that no further call follows within `wait`, with that call's
      arguments. */
  function QuietCalls<A>(wait: nat, calls: seq<Invocation<A>>): (r: seq<Invocation<A>>)
    decreases |calls|
  {
    if |calls| == 0 then []
    else
      var here := if |calls| == 1 || calls[0].at + wait <= calls[1].at
                  then [Invocation(calls[0].at + wait, calls[0].args)] else [];
      here + QuietCalls(wait, calls[1..])
  }

  /** What a timer due by `now` contributes when the clock reaches `now`. */
  function DueBy<A>(pending: Option<Timer<A>>, now: nat): seq<Invocation<A>> {
    if pending.Some? && pending.value.fireAt <= now
    then [Invocation(pending.value.fireAt, pending.value.args)] else []
  }

  /** What a timer contributes once the clock has run past it. */
  function Flushed<A>(pending: Option<Timer<A>>): seq<Invocation<A>> {
    if pending.Some? then [Invocation(pending.value.fireAt, pending.value.args)] else []
  }

  lemma SettleStep<A>(d: Debouncer<A>, calls: seq<Invocation<A>>)
    requires |calls| > 0
    ensures Settle(d, calls)
         == DueBy(d.pending, calls[0].at)
            + Settle(Debouncer(d.wait, Some(Timer(calls[0].at + d.wait, calls[0].args))), calls[1..])
  {
    var advanced := Advance(d, calls[0].at);
    assert ToSeq(advanced.1) == DueBy(d.pending, calls[0].at);
    var next := Call(advanced.0, calls[0].at, calls[0].args);
    assert next == Debouncer(d.wait, Some(Timer(calls[0].at + d.wait, calls[0].args)));
    var rest := Run(next, calls[1..]);
    assert Run(d, calls) == (rest.0, ToSeq(advanced.1) + rest.1);
  }

  /** A run starting with timer `pending` outstanding executes that timer if
      it falls due by the first call, then exactly the quiet calls. */
  lemma {:induction false} SettleFrom<A>(wait: nat, pending: Option<Timer<A>>, calls: seq<Invocation<A>>)
    ensures Settle(Debouncer(wait, pending), calls)
         == (if |calls| == 0 then Flushed(pending) else DueBy(pending, calls[0].at))
            + QuietCalls(wait, calls)
    decreases |calls|
  {
    if |calls| > 0 {
      var c := calls[0];
      SettleStep(Debouncer(wait, pending), calls);
      SettleFrom(wait, Some(Timer(c.at + wait, c.args)), calls[1..]);
    }
  }

  /** Debounce executes exactly the quiet calls, each `wait` after it. */
  lemma DebounceIsQuietCalls<A>(wait: nat, calls: seq<Invocation<A>>)
    ensures Settle(Create(wait), calls) == QuietCalls(wait, calls)
  {
    SettleFrom(wait, None, calls);
  }

  /** A burst of calls each within `wait` of the previous one yields exactly
      one execution, `wait` after the last call, with its arguments. */
  lemma {:induction false} Burst<A>(wait: nat, calls: seq<Invocation<A>>)
    requires |calls| > 0
    requires forall i :: 0 <= i < |calls| - 1 ==> calls[i + 1].at < calls[i].at + wait
    ensures QuietCalls(wait, calls) == [Invocation(calls[|calls| - 1].at + wait, calls[|calls| - 1].args)]
    decreases |calls|
  {
    if |calls| > 1 {
      Burst(wait, calls[1..]);
      assert calls[1..][|calls[1..]| - 1] == calls[|calls| - 1];
    }
  }

  /** The last call is never lost: its arguments are the last ones the
      wrapped function sees. */
  lemma {:induction false} LastCallWins<A>(wait: nat, calls: seq<Invocation<A>>)
    requires |calls| > 0
    ensures var out := QuietCalls(wait, calls);
            |out| > 0 && out[|out| - 1] == Invocation(calls[|calls| - 1].at + wait, calls[|calls| - 1].args)
    decreases |calls|
  {
    if |calls| > 1 {
      LastCallWins(wait, calls[1..]);
      assert calls[1..][|calls[1..]| - 1] == calls[|calls| - 1];
    }
  }
}
