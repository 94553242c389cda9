/** `throttle` and `debounce` (script.js) as machines over discrete events: a call of the
    wrapper, or the expiry of the timer the wrapper set. Wall-clock delays are not modelled;
    a timer's expiry is an explicit event. */
module Timing {
  import opened Wrappers

  /** An event seen by a wrapper: a call with its arguments (the calling context included),
      or the expiry of the pending timer. An expiry with no pending timer changes nothing. */
  datatype Event<A> = Call(args: A) | Expire

  /** The events of a burst of calls with no expiry in between. */
  function Calls<A>(xs: seq<A>): (es: seq<Event<A>>)
    ensures |es| == |xs| && forall k | 0 <= k < |xs| :: es[k] == Call(xs[k])
  {
    seq(|xs|, k requires 0 <= k < |xs| => Call(xs[k]))
  }

  function Expiries<A>(events: seq<Event<A>>): nat {
    if events == [] then 0 else (if events[0].Expire? then 1 else 0) + Expiries(events[1..])
  }

  // ---------------------------------------------------------------- throttle

  /** One event seen by a throttled wrapper whose lockout flag is `inThrottle`: the new flag and
      the arguments the wrapped function ran with (none or one). A call during lockout is
      dropped; a call outside it runs at once and starts the lockout; expiry ends it. */
  function ThrottleOn<A>(inThrottle: bool, e: Event<A>): (bool, seq<A>) {
    match e
    case Call(a) => if inThrottle then (true, []) else (true, [a])
    case Expire => (false, [])
  }

  /** The flag after `events`, and every run of the wrapped function in order. */
  function Throttled<A>(inThrottle: bool, events: seq<Event<A>>): (bool, seq<A>)
    decreases |events|
  {
    if events == [] then (inThrottle, [])
    else
      var (flag, ran) := ThrottleOn(inThrottle, events[0]);
      var (flag', rest) := Throttled(flag, events[1..]);
      (flag', ran + rest)
  }

  /** A burst of calls runs the wrapped function once, with the first call's arguments, when it
      starts outside a lockout, and not at all inside one. */
  lemma {:induction false} ThrottleBurst<A>(inThrottle: bool, xs: seq<A>)
    ensures Throttled(inThrottle, Calls(xs)).1 == if inThrottle || xs == [] then [] else [xs[0]]
    ensures Throttled(inThrottle, Calls(xs)).0 == (inThrottle || xs != [])
    decreases |xs|
  {
    if xs != [] {
      assert Calls(xs)[1..] == Calls(xs[1..]);
      ThrottleBurst(true, xs[1..]);
    }
  }

  /** At most one run per lockout window: a run needs the lockout to be clear, and only an
      expiry clears it. */
  lemma {:induction false} ThrottleOncePerWindow<A>(inThrottle: bool, events: seq<Event<A>>)
    ensures |Throttled(inThrottle, events).1| <= Expiries(events) + (if inThrottle then 0 else 1)
    decreases |events|
  {
    if events != [] {
      var flag := ThrottleOn(inThrottle, events[0]).0;
      ThrottleOncePerWindow(flag, events[1..]);
    }
  }

  /** Dropped calls are never deferred: an expiry at the end runs nothing. */
  lemma {:induction false} ThrottleNeverDefers<A>(inThrottle: bool, events: seq<Event<A>>)
    ensures Throttled(inThrottle, events + [Expire]).1 == Throttled(inThrottle, events).1
    ensures !Throttled(inThrottle, events + [Expire]).0
    decreases |events|
  {
    if events == [] {
      assert events + [Expire] == [Expire];
    } else {
      assert (events + [Expire])[1..] == events[1..] + [Expire];
      ThrottleNeverDefers(ThrottleOn(inThrottle, events[0]).0, events[1..]);
    }
  }

  /** The state of one wrapper returned by `throttle(func, limit)`: its closure variable
      `inThrottle` and the record of the arguments `func` has been run with. */
  class Throttle<A> {
    var inThrottle: bool
    var invoked: seq<A>

    constructor ()
      ensures !inThrottle && invoked == []
    {
      inThrottle := false;
      invoked := [];
    }

    /** A call of the wrapper. */
    method Invoke(a: A)
      modifies this
      ensures inThrottle
      ensures invoked == old(invoked) + (if old(inThrottle) then [] else [a])
      ensures (inThrottle, invoked[|old(invoked)|..]) == ThrottleOn(old(inThrottle), Call(a))
    {
      if !inThrottle {
        invoked := invoked + [a];
        inThrottle := true;
      }
    }

    /** The lockout timer fires. */
    method TimerFires()
      modifies this
      ensures !inThrottle && invoked == old(invoked)
      ensures (inThrottle, invoked[|old(invoked)|..]) == ThrottleOn(old(inThrottle), Expire)
    {
      inThrottle := false;
      assert invoked[|old(invoked)|..] == [];
    }
  }

  // ---------------------------------------------------------------- debounce

  /** One event seen by a debounced wrapper whose pending timeout carries `pending` (the
      arguments it will run with): the new pending slot and the runs. A call replaces the pending
      timeout; its expiry runs the wrapped function with the arguments it carries. */
  function DebounceOn<A>(pending: Option<A>, e: Event<A>): (Option<A>, seq<A>) {
    match e
    case Call(a) => (Some(a), [])
    case Expire => (None, if pending.Some? then [pending.value] else [])
  }

  function Debounced<A>(pending: Option<A>, events: seq<Event<A>>): (Option<A>, seq<A>)
    decreases |events|
  {
    if events == [] then (pending, [])
    else
      var (slot, ran) := DebounceOn(pending, events[0]);
      var (slot', rest) := Debounced(slot, events[1..]);
      (slot', ran + rest)
  }

  /** Handling two stretches of events one after the other is handling them together. */
  lemma {:induction false} DebouncedAppend<A>(pending: Option<A>, e1: seq<Event<A>>, e2: seq<Event<A>>)
    ensures Debounced(pending, e1 + e2).0 == Debounced(Debounced(pending, e1).0, e2).0
    ensures Debounced(pending, e1 + e2).1
         == Debounced(pending, e1).1 + Debounced(Debounced(pending, e1).0, e2).1
    decreases |e1|
  {
    if e1 == [] {
      assert e1 + e2 == e2;
    } else {
      assert (e1 + e2)[1..] == e1[1..] + e2;
      DebouncedAppend(DebounceOn(pending, e1[0]).0, e1[1..], e2);
    }
  }

  /** Calls alone never run the wrapped function; after a burst the pending timeout carries the
      last call's arguments. */
  lemma {:induction false} DebounceCallsOnlyReschedule<A>(pending: Option<A>, xs: seq<A>)
    ensures Debounced(pending, Calls(xs)).1 == []
    ensures Debounced(pending, Calls(xs)).0 == if xs == [] then pending else Some(xs[|xs| - 1])
    decreases |xs|
  {
    if xs != [] {
      assert Calls(xs)[1..] == Calls(xs[1..]);
      DebounceCallsOnlyReschedule(Some(xs[0]), xs[1..]);
    }
  }

  /** N calls in a burst, then the quiet period: exactly one run, with the last call's arguments. */
  lemma DebounceBurst<A>(pending: Option<A>, xs: seq<A>)
    requires xs != []
    ensures Debounced(pending, Calls(xs) + [Expire]).1 == [xs[|xs| - 1]]
  {
    DebouncedAppend(pending, Calls(xs), [Expire]);
    DebounceCallsOnlyReschedule(pending, xs);
  }

  /** At most one run per expiry of the timeout. */
  lemma {:induction false} DebounceOncePerQuietPeriod<A>(pending: Option<A>, events: seq<Event<A>>)
    ensures |Debounced(pending, events).1| <= Expiries(events)
    decreases |events|
  {
    if events != [] {
      DebounceOncePerQuietPeriod(DebounceOn(pending, events[0]).0, events[1..]);
    }
  }

  /** The state of one wrapper returned by `debounce(func, wait)`: the pending `timeout`, as
      the arguments it will run `func` with, and the record of the runs. */
  class Debounce<A> {
    var pending: Option<A>
    var invoked: seq<A>

    constructor ()
      ensures pending == None && invoked == []
    {
      pending := None;
      invoked := [];
    }

    /** A call of the wrapper: clear the pending timeout and set a new one for these arguments. */
    method Invoke(a: A)
      modifies this
      ensures pending == Some(a) && invoked == old(invoked)
      ensures (pending, invoked[|old(invoked)|..]) == DebounceOn(old(pending), Call(a))
    {
      pending := Some(a);
      assert invoked[|old(invoked)|..] == [];
    }

    /** The pending timeout fires. */
    method TimerFires()
      modifies this
      ensures pending == None
      ensures invoked == old(invoked) + (if old(pending).Some? then [old(pending).value] else [])
      ensures (pending, invoked[|old(invoked)|..]) == DebounceOn(old(pending), Expire)
    {
      if pending.Some? {
        invoked := invoked + [pending.value];
      }
      pending := None;
    }
  }
}
