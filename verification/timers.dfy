/** The abstract clock shared by the rate limiters: time is a natural number
    of milliseconds and `setTimeout` becomes a pending timer record. */
module Timers {

  /** A scheduled call of the wrapped function: when it fires and with which
      arguments. */
  datatype Timer<A> = Timer(fireAt: nat, args: A)

  /** A call, either of a wrapper by its caller or of the wrapped function
      by the wrapper: the time it happened and its arguments. */
  datatype Invocation<A> = Invocation(at: nat, args: A)
}
