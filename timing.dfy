/** The timing combinators of function/utils.js: `retry`, `throttle` and
    `debounce`. Timers and sleeps are not real here: a sleep is counted, and
    the expiry of a timer is an explicit `TimerFires` call. */
module Timing {
  import opened Wrappers
  import opened Arith

  /** One call of the wrapped operation: it resolves or it throws. */
  datatype Outcome<R, E> = Ok(value: R) | Err(error: E)

  /** How the promise of `retry` settles. `Threw(None)` is `throw undefined`,
      what happens when no attempt was made. */
  datatype Settled<R, E> = Returned(value: R) | Threw(error: Option<E>)

  // ---------------------------------------------------------------------
  // retry
  // ---------------------------------------------------------------------

  /** `retry(fn, times, delayMs)`. `fn(i)` is the outcome of the i-th call
      (counting from 0); `calls` is how many calls were made and `sleeps`
      how many times `sleep(delayMs)` was awaited. */
  method Retry<R, E>(fn: nat -> Outcome<R, E>, times: int := 3, delayMs: int := 0)
    returns (result: Settled<R, E>, calls: nat, sleeps: nat)
    ensures calls <= Max(times, 0)
    ensures forall i :: 0 <= i < calls - 1 ==> fn(i).Err?
    ensures result.Returned? ==> 0 < calls && fn(calls - 1) == Ok(result.value)
    ensures result.Returned? <==> exists k :: 0 <= k < times && fn(k).Ok?
    ensures result.Threw? ==> calls == Max(times, 0) && (forall i :: 0 <= i < calls ==> fn(i).Err?)
    ensures result.Threw? ==> result.error == if calls == 0 then None else Some(fn(calls - 1).error)
    ensures sleeps == if delayMs == 0 then 0 else if result.Returned? then calls - 1 else calls
  {
    var err: Option<E> := None;
    calls, sleeps := 0, 0;
    var i := 0;
    while i < times
      invariant 0 <= i <= Max(times, 0)
      invariant calls == i
      invariant forall j :: 0 <= j < i ==> fn(j).Err?
      invariant err == if i == 0 then None else Some(fn(i - 1).error)
      invariant sleeps == if delayMs == 0 then 0 else i
    {
      calls := calls + 1;
      match fn(i)
      case Ok(v) =>
        result := Returned(v);
        return;
      case Err(e) =>
        err := Some(e);
        if delayMs != 0 {
          sleeps := sleeps + 1;
        }
      i := i + 1;
    }
    result := Threw(err);
  }

  /** `retry(fn)` with the default arguments: at most three calls, no sleep,
      and the first success among them is returned. */
  method RetryDefaults<R, E>(fn: nat -> Outcome<R, E>) returns (result: Settled<R, E>, calls: nat, sleeps: nat)
    ensures calls <= 3 && sleeps == 0
    ensures result.Returned? <==> fn(0).Ok? || fn(1).Ok? || fn(2).Ok?
  {
    result, calls, sleeps := Retry(fn);
  }

  // ---------------------------------------------------------------------
  // throttle
  // ---------------------------------------------------------------------

  /** The closure returned by `throttle(fn, limit)`. `invoked` records the
      argument lists `fn` has been called with. The window timer is pending
      exactly while `inThrottle` holds. */
  class Throttle<A> {
    var inThrottle: bool
    var invoked: seq<A>

    constructor ()
      ensures !inThrottle && invoked == []
    {
      inThrottle := false;
      invoked := [];
    }

    /** A call of the throttled function: forwarded when no window is open,
        which opens one; dropped without any effect otherwise. */
    method Call(args: A) returns (ran: bool)
      modifies this
      ensures ran == !old(inThrottle)
      ensures inThrottle
      ensures invoked == if ran then old(invoked) + [args] else old(invoked)
    {
      ran := !inThrottle;
      if ran {
        invoked := invoked + [args];
        inThrottle := true;
      }
    }

    /** The `limit` timer expires; only this closes the window. */
    method TimerFires()
      requires inThrottle
      modifies this
      ensures !inThrottle && invoked == old(invoked)
    {
      inThrottle := false;
    }
  }

  /** Calls at 0, limit/2 and limit+1: the first and the last run. */
  method ThrottleScenario() returns (ran: seq<bool>, invoked: seq<int>)
    ensures ran == [true, false, true]
    ensures invoked == [1, 3]
  {
    var t := new Throttle<int>();
    var r1 := t.Call(1);
    var r2 := t.Call(2);
    t.TimerFires();
    var r3 := t.Call(3);
    ran, invoked := [r1, r2, r3], t.invoked;
  }

  // ---------------------------------------------------------------------
  // debounce
  // ---------------------------------------------------------------------

  /** The closure returned by `debounce(fn, delay)`. `pending` holds the
      arguments of the scheduled call, if a timer is pending; `invoked`
      records the argument lists `fn` has been called with; `history`
      records every call of the debounced function. */
  class Debounce<A> {
    var pending: Option<A>
    var invoked: seq<A>
    ghost var history: seq<A>

    /** A pending call always carries the arguments of the latest call. */
    ghost predicate Valid()
      reads this
    {
      pending.Some? ==> |history| > 0 && pending.value == history[|history| - 1]
    }

    constructor ()
      ensures Valid() && pending == None && invoked == [] && history == []
    {
      pending := None;
      invoked := [];
      history := [];
    }

    /** Clears the pending timer and schedules a new one for these arguments: the
        earlier pending call, if any, is discarded. */
    method Call(args: A)
      requires Valid()
      modifies this
      ensures Valid()
      ensures pending == Some(args) && invoked == old(invoked)
      ensures history == old(history) + [args]
    {
      pending := Some(args);
      history := history + [args];
    }

    /** The pending timer expires: `fn` runs with the latest arguments. */
    method TimerFires()
      requires Valid() && pending.Some?
      modifies this
      ensures Valid() && pending == None && history == old(history)
      ensures invoked == old(invoked) + [history[|history| - 1]]
    {
      invoked := invoked + [pending.value];
      pending := None;
    }
  }

  /** Calls at 0 and delay/2: a single run, with the second call's arguments. */
  method DebounceScenario() returns (invoked: seq<int>)
    ensures invoked == [2]
  {
    var d := new Debounce<int>();
    d.Call(1);
    d.Call(2);
    d.TimerFires();
    invoked := d.invoked;
  }
}
